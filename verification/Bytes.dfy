/** Options and little-endian integers: the `struct.pack("<...")` fields of the Python builders
    and the `to_le_bytes`/`from_le_bytes` of the on-chain counter. */
module Bytes {
  datatype Option<+T> = None | Some(value: T)

  type byte = x: int | 0 <= x < 256

  /** The number of values that `width` bytes can hold. */
  function Capacity(width: nat): (c: nat)
    ensures c >= 1
  {
    if width == 0 then 1 else 256 * Capacity(width - 1)
  }

  const U16: nat := 0x1_0000
  const U32: nat := 0x1_0000_0000

  lemma CapacityValues()
    ensures Capacity(1) == 256 && Capacity(2) == U16
    ensures Capacity(4) == U32 && Capacity(8) == U32 * U32
  {
    assert Capacity(2) == 256 * Capacity(1);
    assert Capacity(4) == 256 * (256 * Capacity(2));
    assert Capacity(6) == 256 * (256 * Capacity(4));
    assert Capacity(8) == 256 * (256 * Capacity(6));
  }

  /** `n` in `width` little-endian bytes; the high part is dropped when `n` does not fit. */
  function LittleEndian(n: nat, width: nat): (s: seq<byte>)
    ensures |s| == width
  {
    if width == 0 then [] else [n % 256] + LittleEndian(n / 256, width - 1)
  }

  function FromLittleEndian(s: seq<byte>): (n: nat)
  {
    if s == [] then 0 else s[0] + 256 * FromLittleEndian(s[1..])
  }

  /** `struct.pack` of one unsigned field: out of range is an error, never a truncation. */
  function Pack(n: nat, width: nat): Option<seq<byte>> {
    if n < Capacity(width) then Some(LittleEndian(n, width)) else None
  }

  lemma {:induction false} DecodeEncode(n: nat, width: nat)
    ensures FromLittleEndian(LittleEndian(n, width)) == n % Capacity(width)
    ensures n < Capacity(width) ==> FromLittleEndian(LittleEndian(n, width)) == n
  {
    if width == 0 {
    } else {
      DecodeEncode(n / 256, width - 1);
      assert LittleEndian(n, width)[1..] == LittleEndian(n / 256, width - 1);
      SplitLowByte(n, Capacity(width - 1));
    }
  }

  lemma SplitLowByte(n: nat, c: nat)
    requires c >= 1
    ensures n % (256 * c) == n % 256 + 256 * ((n / 256) % c)
    ensures n < 256 * c ==> n / 256 < c
  {
    var q, r := n / 256 / c, n / 256 % c;
    assert n / 256 == q * c + r;
    var low := n % 256 + 256 * r;
    assert n == q * (256 * c) + low by {
      assert 256 * (q * c) == q * (256 * c);
    }
    assert 0 <= low < 256 * c by { assert r <= c - 1; }
    QuotientIsUnique(n, 256 * c, q, low);
  }

  lemma QuotientIsUnique(n: nat, d: nat, q: int, r: nat)
    requires d >= 1 && r < d && n == q * d + r
    ensures n % d == r
  {
    var e := q - n / d;
    assert e * d == n % d - r by {
      assert n == (n / d) * d + n % d;
      assert (q - n / d) * d == q * d - (n / d) * d;
    }
    NonzeroMultiple(e, d);
  }

  lemma NonzeroMultiple(e: int, d: nat)
    ensures e >= 1 ==> e * d >= d
    ensures e <= -1 ==> e * d + d <= 0
  {
    assert e * d == d + (e - 1) * d;
  }

  lemma LowByte(low: byte, high: nat)
    ensures (low + 256 * high) % 256 == low && (low + 256 * high) / 256 == high
  {
  }

  lemma {:induction false} EncodeDecode(s: seq<byte>)
    ensures FromLittleEndian(s) < Capacity(|s|)
    ensures LittleEndian(FromLittleEndian(s), |s|) == s
  {
    if s != [] {
      var high := FromLittleEndian(s[1..]);
      EncodeDecode(s[1..]);
      LowByte(s[0], high);
      assert s == [s[0]] + s[1..];
    }
  }

  // ----- The byte order, written out: the least significant byte comes first -----

  lemma TwoBytes(s: seq<byte>)
    requires |s| == 2
    ensures FromLittleEndian(s) == s[0] as int + 0x100 * (s[1] as int)
  {
    assert FromLittleEndian(s) == s[0] + 0x100 * FromLittleEndian(s[1..]);
    assert FromLittleEndian(s[1..]) == s[1] + 0x100 * FromLittleEndian(s[1..][1..]);
  }

  lemma FourBytes(s: seq<byte>)
    requires |s| == 4
    ensures FromLittleEndian(s) ==
            s[0] as int + 0x100 * (s[1] as int) + 0x1_0000 * (s[2] as int) + 0x100_0000 * (s[3] as int)
  {
    TwoBytes(s[2..]);
    assert s[1..][1..] == s[2..];
    assert FromLittleEndian(s) == s[0] + 0x100 * FromLittleEndian(s[1..]);
    assert FromLittleEndian(s[1..]) == s[1] + 0x100 * FromLittleEndian(s[2..]);
  }

  lemma EightBytes(s: seq<byte>)
    requires |s| == 8
    ensures FromLittleEndian(s) ==
            s[0] as int + 0x100 * (s[1] as int) + 0x1_0000 * (s[2] as int) + 0x100_0000 * (s[3] as int)
            + 0x1_0000_0000 * (s[4] as int) + 0x100_0000_0000 * (s[5] as int)
            + 0x1_0000_0000_0000 * (s[6] as int) + 0x100_0000_0000_0000 * (s[7] as int)
  {
    var high := FromLittleEndian(s[4..]);
    FourBytes(s[4..]);
    assert s[1..][1..] == s[2..] && s[2..][1..] == s[3..] && s[3..][1..] == s[4..];
    assert FromLittleEndian(s[3..]) == s[3] + 0x100 * high;
    assert FromLittleEndian(s[2..]) == s[2] + 0x100 * (s[3] as int) + 0x1_0000 * high;
    assert FromLittleEndian(s[1..]) == s[1] + 0x100 * (s[2] as int) + 0x1_0000 * (s[3] as int) + 0x100_0000 * high;
  }

  // ----- Slices -----

  /** A part of a slice is a slice. */
  lemma PartOfSlice<T>(s: seq<T>, at: nat, part: seq<T>, i: nat, j: nat)
    requires at + |part| <= |s| && s[at..at + |part|] == part && i <= j <= |part|
    ensures s[at + i..at + j] == part[i..j]
  {
    var u := s[at + i..at + j];
    forall k | 0 <= k < |u| ensures u[k] == part[i..j][k] {
      assert part[i + k] == s[at..at + |part|][i + k] == s[at + i + k];
    }
  }

  lemma PrefixExtends<T>(a: seq<T>, b: seq<T>, x: T)
    requires a <= b && |a| < |b| && b[|a|] == x
    ensures a + [x] <= b
  {
  }

  lemma SliceOfPrefix<T>(a: seq<T>, b: seq<T>, i: nat, j: nat)
    requires i <= j <= |a|
    ensures (a + b)[i..j] == a[i..j]
  {
    var s := a + b;
    forall k | 0 <= k < j - i ensures s[i..j][k] == a[i..j][k] {
      assert s[i + k] == a[i + k];
    }
  }

  lemma MiddleSlice<T>(a: seq<T>, b: seq<T>, c: seq<T>)
    ensures (a + b + c)[|a|..|a| + |b|] == b
  {
    var s := a + b + c;
    forall k | 0 <= k < |b| ensures s[|a|..|a| + |b|][k] == b[k] {
      assert s[|a| + k] == (a + b)[|a| + k];
    }
  }
}
