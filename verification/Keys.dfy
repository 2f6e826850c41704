/** Strings as Python orders and prints them: sorted key sets and decimal indices. */
module Keys {

  /** Lexicographic order by code point. */
  predicate StringLeq(a: string, b: string) {
    if a == "" then true
    else if b == "" then false
    else if a[0] == b[0] then StringLeq(a[1..], b[1..])
    else a[0] < b[0]
  }

  lemma {:induction false} LeqIsTotal(a: string, b: string)
    ensures StringLeq(a, b) || StringLeq(b, a)
    ensures StringLeq(a, b) && StringLeq(b, a) ==> a == b
  {
    if a == "" || b == "" {
    } else if a[0] == b[0] {
      LeqIsTotal(a[1..], b[1..]);
      assert a == [a[0]] + a[1..] && b == [b[0]] + b[1..];
    }
  }

  lemma {:induction false} LeqIsTransitive(a: string, b: string, c: string)
    requires StringLeq(a, b) && StringLeq(b, c)
    ensures StringLeq(a, c)
  {
    if a != "" && b != "" && c != "" && a[0] == b[0] == c[0] {
      LeqIsTransitive(a[1..], b[1..], c[1..]);
    }
  }

  /** The order, written out: a prefix comes first, else the first different character decides. */
  lemma {:induction false} LeqExactly(a: string, b: string)
    ensures StringLeq(a, b) <==> a <= b || FirstDifferenceUp(a, b)
  {
    if a != "" && b != "" {
      assert a == [a[0]] + a[1..] && b == [b[0]] + b[1..];
      if a[0] == b[0] {
        LeqExactly(a[1..], b[1..]);
        if FirstDifferenceUp(a, b) {
          UpInTail(a, b);
        }
        if FirstDifferenceUp(a[1..], b[1..]) {
          UpInWhole(a, b);
        }
        assert a <= b <==> a[1..] <= b[1..];
      } else if a[0] < b[0] {
        assert a[..0] == b[..0];
      } else {
        NotUp(a, b);
      }
    }
  }

  ghost predicate FirstDifferenceUp(a: string, b: string) {
    exists i :: 0 <= i < |a| && i < |b| && a[..i] == b[..i] && a[i] < b[i]
  }

  lemma NotUp(a: string, b: string)
    requires a != "" && b != "" && a[0] > b[0]
    ensures !FirstDifferenceUp(a, b) && !(a <= b)
  {
    forall i | 0 < i < |a| && i < |b| ensures a[..i] != b[..i] {
      assert a[..i][0] == a[0] && b[..i][0] == b[0];
    }
  }

  lemma UpAt(a: string, b: string, i: nat)
    requires i < |a| && i < |b| && a[..i] == b[..i] && a[i] < b[i]
    ensures FirstDifferenceUp(a, b)
  {
  }

  lemma UpInTail(a: string, b: string)
    requires a != "" && b != "" && a[0] == b[0] && FirstDifferenceUp(a, b)
    ensures FirstDifferenceUp(a[1..], b[1..])
  {
    var i :| 0 <= i < |a| && i < |b| && a[..i] == b[..i] && a[i] < b[i];
    assert a[1..][..i - 1] == a[..i][1..] && b[1..][..i - 1] == b[..i][1..];
    UpAt(a[1..], b[1..], i - 1);
  }

  lemma UpInWhole(a: string, b: string)
    requires a != "" && b != "" && a[0] == b[0] && FirstDifferenceUp(a[1..], b[1..])
    ensures FirstDifferenceUp(a, b)
  {
    var u, v := a[1..], b[1..];
    var i :| 0 <= i < |u| && i < |v| && u[..i] == v[..i] && u[i] < v[i];
    assert a[..i + 1] == [a[0]] + u[..i] && b[..i + 1] == [b[0]] + v[..i];
    UpAt(a, b, i + 1);
  }

  predicate IsLeast(k: string, keys: set<string>) {
    k in keys && forall other :: other in keys ==> StringLeq(k, other)
  }

  lemma {:induction false} LeastExists(keys: set<string>) returns (least: string)
    requires keys != {}
    ensures IsLeast(least, keys)
  {
    var k :| k in keys;
    LeqIsTotal(k, k);
    if keys == {k} {
      least := k;
    } else {
      var rest := LeastExists(keys - {k});
      LeqIsTotal(k, rest);
      if StringLeq(k, rest) {
        forall other | other in keys ensures StringLeq(k, other) {
          if other != k {
            LeqIsTransitive(k, rest, other);
          }
        }
        least := k;
      } else {
        least := rest;
      }
    }
  }

  /** The one least key. */
  function Least(keys: set<string>): (least: string)
    requires keys != {}
    ensures IsLeast(least, keys)
  {
    assert exists k :: IsLeast(k, keys) by {
      var k := LeastExists(keys);
    }
    assert forall k, k' :: IsLeast(k, keys) && IsLeast(k', keys) ==> k == k' by {
      forall k, k' | IsLeast(k, keys) && IsLeast(k', keys) ensures k == k' {
        LeqIsTotal(k, k');
      }
    }
    var k :| k in keys && IsLeast(k, keys);
    k
  }

  /** `sorted(keys)` */
  function SortedKeys(keys: set<string>): (sorted: seq<string>)
    ensures forall k :: k in sorted <==> k in keys
    decreases |keys|
  {
    if keys == {} then []
    else
      var least := Least(keys);
      [least] + SortedKeys(keys - {least})
  }

  predicate NoDuplicates(keys: seq<string>) {
    forall i, j :: 0 <= i < j < |keys| ==> keys[i] != keys[j]
  }

  predicate Ascending(keys: seq<string>) {
    forall i, j :: 0 <= i < j < |keys| ==> StringLeq(keys[i], keys[j])
  }

  /** Every key appears once, in ascending order. */
  lemma {:induction false} SortedKeysAscend(keys: set<string>)
    ensures NoDuplicates(SortedKeys(keys)) && Ascending(SortedKeys(keys))
    decreases |keys|
  {
    if keys == {} {
    } else {
      var least, sorted := Least(keys), SortedKeys(keys);
      SortedKeysAscend(keys - {least});
      forall i, j | 0 <= i < j < |sorted|
        ensures sorted[i] != sorted[j] && StringLeq(sorted[i], sorted[j])
      {
        assert sorted[j] in SortedKeys(keys - {least});
      }
    }
  }

  // ----- Decimal numbers -----

  function Digit(d: nat): char
    requires d < 10
  {
    "0123456789"[d]
  }

  function Decimal(n: nat): (s: string)
    ensures s != "" && forall c :: c in s ==> '0' <= c <= '9'
  {
    if n < 10 then [Digit(n)] else Decimal(n / 10) + [Digit(n % 10)]
  }

  function FromDecimal(s: string): nat {
    if s == "" then 0
    else 10 * FromDecimal(s[..|s| - 1]) + (var c := s[|s| - 1]; if '0' <= c <= '9' then c as int - '0' as int else 0)
  }

  lemma DigitsWrittenOut(d: nat, n: nat)
    requires d < 10
    ensures Decimal(d) == ["0123456789"[d]]
    ensures n > 0 ==> Decimal(10 * n + d) == Decimal(n) + ["0123456789"[d]]
  {
    assert (10 * n + d) / 10 == n && (10 * n + d) % 10 == d;
  }

  lemma {:induction false} DecimalRoundTrip(n: nat)
    ensures FromDecimal(Decimal(n)) == n
  {
    if n < 10 {
      assert Decimal(n)[..0] == "";
    } else {
      DecimalRoundTrip(n / 10);
      assert Decimal(n)[..|Decimal(n)| - 1] == Decimal(n / 10);
    }
  }
}
