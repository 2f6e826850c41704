/** The two BPF loaders as an upload sees them: the bytes of the instructions a client transmits,
    and what executing a transmitted transaction does to the account being filled. */
module Loader {
  import opened Bytes

  const CHUNK: nat := 900

  datatype Kind = LoaderV2 | Upgradeable

  /** Discriminant of the Write instruction. */
  function WriteTag(kind: Kind): nat {
    match kind
    case LoaderV2 => 0
    case Upgradeable => 1
  }

  /** Bytes in front of the program in the account: none, or the buffer state and authority. */
  function HeaderSize(kind: Kind): nat {
    match kind
    case LoaderV2 => 0
    case Upgradeable => 37
  }

  /** Discriminant, offset, length and chunk; no instruction if a field does not fit. */
  function BuildWrite(kind: Kind, offset: nat, chunk: seq<byte>): Option<seq<byte>> {
    match (Pack(WriteTag(kind), 4), Pack(offset, 4), Pack(|chunk|, 8))
    case (Some(tag), Some(at), Some(size)) => Some(tag + at + size + chunk)
    case _ => None
  }

  function BuildFinalize(): seq<byte> {
    LittleEndian(1, 4)
  }

  datatype Instruction = Write(offset: nat, data: seq<byte>) | Finalize

  /** The reader of both layouts. It accepts exactly the declared number of data bytes. */
  function Decode(kind: Kind, data: seq<byte>): Option<Instruction> {
    if |data| >= 16 && FromLittleEndian(data[..4]) == WriteTag(kind)
       && FromLittleEndian(data[8..16]) == |data| - 16 then
      Some(Write(FromLittleEndian(data[4..8]), data[16..]))
    else if kind.LoaderV2? && |data| == 4 && FromLittleEndian(data) == 1 then
      Some(Finalize)
    else
      None
  }

  lemma EncodedDecodes(kind: Kind, offset: nat, chunk: seq<byte>, data: seq<byte>)
    requires BuildWrite(kind, offset, chunk) == Some(data)
    ensures Decode(kind, data) == Some(Write(offset, chunk))
  {
    CapacityValues();
    DecodeEncode(WriteTag(kind), 4);
    DecodeEncode(offset, 4);
    DecodeEncode(|chunk|, 8);
    assert data[..4] == LittleEndian(WriteTag(kind), 4);
    assert data[4..8] == LittleEndian(offset, 4);
    assert data[8..16] == LittleEndian(|chunk|, 8);
    assert data[16..] == chunk;
  }

  lemma DecodedEncodes(kind: Kind, offset: nat, chunk: seq<byte>, data: seq<byte>)
    requires Decode(kind, data) == Some(Write(offset, chunk))
    ensures BuildWrite(kind, offset, chunk) == Some(data)
  {
    CapacityValues();
    EncodeDecode(data[..4]);
    EncodeDecode(data[4..8]);
    EncodeDecode(data[8..16]);
    assert data == data[..4] + data[4..8] + data[8..16] + data[16..];
  }

  /** Decoding returns what was encoded, and nothing else decodes to it: the layout is a bijection
      between in-range writes and the byte strings the reader accepts as writes. */
  lemma WriteRoundTrip(kind: Kind, offset: nat, chunk: seq<byte>, data: seq<byte>)
    ensures BuildWrite(kind, offset, chunk) == Some(data) <==> Decode(kind, data) == Some(Write(offset, chunk))
  {
    if BuildWrite(kind, offset, chunk) == Some(data) {
      EncodedDecodes(kind, offset, chunk, data);
    }
    if Decode(kind, data) == Some(Write(offset, chunk)) {
      DecodedEncodes(kind, offset, chunk, data);
    }
  }

  /** The transmitted bytes, written out: discriminant, offset and length as little-endian numbers of 4, 4
      and 8 bytes, and the chunk. */
  predicate WriteLayout(kind: Kind, offset: nat, chunk: seq<byte>, data: seq<byte>) {
    && |data| == 16 + |chunk|
    && data[..4] == (match kind case LoaderV2 => [0, 0, 0, 0] case Upgradeable => [1, 0, 0, 0])
    && offset == data[4] as int + 0x100 * (data[5] as int) + 0x1_0000 * (data[6] as int)
                 + 0x100_0000 * (data[7] as int)
    && |chunk| == data[8] as int + 0x100 * (data[9] as int) + 0x1_0000 * (data[10] as int)
                  + 0x100_0000 * (data[11] as int) + 0x1_0000_0000 * (data[12] as int)
                  + 0x100_0000_0000 * (data[13] as int) + 0x1_0000_0000_0000 * (data[14] as int)
                  + 0x100_0000_0000_0000 * (data[15] as int)
    && data[16..] == chunk
  }

  /** The tags as bytes: Write is 0 or 1, Finalize is 1. */
  lemma TagBytes(tag: seq<byte>)
    requires |tag| == 4
    ensures FromLittleEndian(tag) == 0 <==> tag == [0, 0, 0, 0]
    ensures FromLittleEndian(tag) == 1 <==> tag == [1, 0, 0, 0]
  {
    FourBytes(tag);
  }

  /** An instruction is built exactly when its bytes have the layout. */
  lemma WriteBytes(kind: Kind, offset: nat, chunk: seq<byte>, data: seq<byte>)
    ensures BuildWrite(kind, offset, chunk) == Some(data) <==> WriteLayout(kind, offset, chunk, data)
  {
    WriteRoundTrip(kind, offset, chunk, data);
    if |data| >= 16 {
      TagBytes(data[..4]);
      FourBytes(data[4..8]);
      EightBytes(data[8..16]);
    }
  }

  lemma FinalizeBytes()
    ensures BuildFinalize() == [1, 0, 0, 0]
  {
    CapacityValues();
    DecodeEncode(1, 4);
    TagBytes(BuildFinalize());
  }

  /** Two writes with the same bytes are the same write. */
  lemma WriteIsInjective(kind: Kind, offset: nat, chunk: seq<byte>, offset': nat, chunk': seq<byte>)
    requires BuildWrite(kind, offset, chunk).Some?
    requires BuildWrite(kind, offset, chunk) == BuildWrite(kind, offset', chunk')
    ensures offset == offset' && chunk == chunk'
  {
    var data := BuildWrite(kind, offset, chunk).value;
    WriteRoundTrip(kind, offset, chunk, data);
    WriteRoundTrip(kind, offset', chunk', data);
  }

  /** An instruction can be built exactly when its offset and its length fit their fields. */
  lemma WriteFits(kind: Kind, offset: nat, chunk: seq<byte>)
    ensures BuildWrite(kind, offset, chunk).Some? <==> offset < U32 && |chunk| < U32 * U32
  {
    CapacityValues();
  }

  lemma FinalizeRoundTrip()
    ensures Decode(LoaderV2, BuildFinalize()) == Some(Finalize)
  {
    CapacityValues();
    DecodeEncode(1, 4);
  }

  // ----- Execution -----

  datatype Account = Absent | Open(bytes: seq<byte>) | Executable(bytes: seq<byte>)

  datatype Tx = Create(space: nat) | Run(data: seq<byte>)

  function Zeros(n: nat): (s: seq<byte>)
    ensures |s| == n && forall i :: 0 <= i < n ==> s[i] == 0
  {
    seq(n, _ => 0)
  }

  function Splice(s: seq<byte>, at: nat, data: seq<byte>): (r: seq<byte>)
    requires at + |data| <= |s|
    ensures |r| == |s|
    ensures forall j :: 0 <= j < |s| ==> r[j] == if at <= j < at + |data| then data[j - at] else s[j]
  {
    s[..at] + data + s[at + |data|..]
  }

  /** The account after a transaction, or nothing if the transaction fails. */
  function Execute(kind: Kind, header: seq<byte>, account: Account, tx: Tx): Option<Account> {
    match tx
    case Create(space) =>
      if account.Absent? && |header| <= space then Some(Open(header + Zeros(space - |header|))) else None
    case Run(data) =>
      match Decode(kind, data)
      case Some(Write(offset, chunk)) =>
        if account.Open? && |header| + offset + |chunk| <= |account.bytes|
        then Some(Open(Splice(account.bytes, |header| + offset, chunk)))
        else None
      case Some(Finalize) =>
        if account.Open? then Some(Executable(account.bytes)) else None
      case None => None
  }

  lemma ExecuteWrite(kind: Kind, header: seq<byte>, bytes: seq<byte>, data: seq<byte>, offset: nat, chunk: seq<byte>)
    requires Decode(kind, data) == Some(Write(offset, chunk)) && |header| + offset + |chunk| <= |bytes|
    ensures Execute(kind, header, Open(bytes), Run(data)) == Some(Open(Splice(bytes, |header| + offset, chunk)))
  {
  }
}
