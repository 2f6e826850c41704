/** The instruction data of the Ed25519 precompile: a header, a table of offset descriptors, and the
    signatures, keys and messages the descriptors point at. */
module Ed25519 {
  import opened Bytes

  /** Instruction index meaning "this instruction". */
  const THIS_INSTR: nat := 0xFFFF
  const DESCRIPTOR: nat := 14

  type Signature = s: seq<byte> | |s| == 64 witness seq(64, _ => 0)
  type PublicKey = s: seq<byte> | |s| == 32 witness seq(32, _ => 0)

  /** Signing is deterministic, as in section 5.1.6 of RFC 8032. */
  datatype Keypair = Keypair(pubkey: PublicKey, sign: seq<byte> -> Signature)

  datatype Signed = Signed(signature: Signature, key: PublicKey, message: seq<byte>)

  function Sign(kp: Keypair, message: seq<byte>): Signed {
    Signed(kp.sign(message), kp.pubkey, message)
  }

  function SignAll(entries: seq<(Keypair, seq<byte>)>): (signed: seq<Signed>)
    ensures |signed| == |entries|
  {
    seq(|entries|, i requires 0 <= i < |entries| => Sign(entries[i].0, entries[i].1))
  }

  // ----- The layout -----

  function Word(n: nat): (s: seq<byte>)
    ensures |s| == 2
  {
    LittleEndian(n, 2)
  }

  function Words(fields: seq<nat>): (s: seq<byte>)
    ensures |s| == 2 * |fields|
  {
    if fields == [] then [] else Words(fields[..|fields| - 1]) + Word(fields[|fields| - 1])
  }

  /** Seven 16-bit fields: the three offsets, the message size and three instruction indices. */
  function Fields(at: nat, size: nat): seq<nat> {
    [at, THIS_INSTR, at + 64, THIS_INSTR, at + 96, size, THIS_INSTR]
  }

  function Descriptor(at: nat, size: nat): (s: seq<byte>)
    ensures |s| == DESCRIPTOR
  {
    Words(Fields(at, size))
  }

  /** `struct.pack` of a descriptor: every field must fit 16 bits. */
  function PackDescriptor(at: nat, size: nat): Option<seq<byte>> {
    if at < U16 && at + 64 < U16 && at + 96 < U16 && size < U16 then Some(Descriptor(at, size)) else None
  }

  function Block(s: Signed): (b: seq<byte>)
    ensures |b| == 96 + |s.message|
  {
    s.signature + s.key + s.message
  }

  function Raw(items: seq<Signed>): seq<byte> {
    if items == [] then [] else Raw(items[..|items| - 1]) + Block(items[|items| - 1])
  }

  /** Where block `i` starts in an instruction for `items`. */
  function At(items: seq<Signed>, i: nat): nat
    requires i <= |items|
  {
    2 + DESCRIPTOR * |items| + |Raw(items[..i])|
  }

  function Table(items: seq<Signed>, n: nat): (t: seq<byte>)
    requires n <= |items|
    ensures |t| == DESCRIPTOR * n
  {
    if n == 0 then [] else Table(items, n - 1) + Descriptor(At(items, n - 1), |items[n - 1].message|)
  }

  function Layout(items: seq<Signed>): seq<byte>
    requires |items| <= 255
  {
    [|items|, 0] + Table(items, |items|) + Raw(items)
  }

  predicate EntryFits(items: seq<Signed>, i: nat)
    requires i < |items|
  {
    At(items, i) + 96 < U16 && |items[i].message| < U16
  }

  /** Every field of the instruction fits: the count in a byte, offsets and sizes in 16 bits. */
  predicate Fits(items: seq<Signed>) {
    |items| <= 255 && forall i :: 0 <= i < |items| ==> EntryFits(items, i)
  }

  /** The first `n` entries fit, checked one by one as the loop does. */
  predicate FitSoFar(items: seq<Signed>, n: nat)
    requires n <= |items|
  {
    n == 0 || (FitSoFar(items, n - 1) && EntryFits(items, n - 1))
  }

  lemma {:induction false} FitOneByOne(items: seq<Signed>, n: nat)
    requires n <= |items|
    ensures FitSoFar(items, n) <==> forall i :: 0 <= i < n ==> EntryFits(items, i)
  {
    if n > 0 {
      FitOneByOne(items, n - 1);
    }
  }

  // ----- The builders -----

  lemma RawStep(items: seq<Signed>, i: nat)
    requires i < |items|
    ensures Raw(items[..i + 1]) == Raw(items[..i]) + Block(items[i])
  {
    assert items[..i + 1][..i] == items[..i];
  }

  /** What one round of the builder's loop appends. */
  lemma BuildStep(items: seq<Signed>, i: nat, raw: seq<byte>, table: seq<byte>)
    requires i < |items| && raw == Raw(items[..i]) && table == Table(items, i)
    ensures PackDescriptor(2 + |items| * DESCRIPTOR + |raw|, |items[i].message|) ==
            if EntryFits(items, i) then Some(Descriptor(At(items, i), |items[i].message|)) else None
    ensures table + Descriptor(At(items, i), |items[i].message|) == Table(items, i + 1)
    ensures raw + (items[i].signature + items[i].key + items[i].message) == Raw(items[..i + 1])
  {
    RawStep(items, i);
  }

  lemma TooFar(items: seq<Signed>, i: nat)
    requires i < |items| && !EntryFits(items, i)
    ensures !Fits(items)
  {
  }

  /** What the loop leaves is the layout, and everything but the count is known to fit. */
  lemma BuildEnds(items: seq<Signed>, raw: seq<byte>, table: seq<byte>)
    requires raw == Raw(items[..|items|]) && table == Table(items, |items|) && FitSoFar(items, |items|)
    ensures Fits(items) <==> |items| <= 255
    ensures |items| <= 255 ==> Layout(items) == [|items|, 0] + table + raw
  {
    assert items[..|items|] == items;
    FitOneByOne(items, |items|);
  }

  /** Where the block of entry `i` belongs: behind the header, the table and the blocks before it. */
  function Start(entries: seq<(Keypair, seq<byte>)>, i: nat): nat
    requires i <= |entries|
  {
    if i == 0 then 2 + 14 * |entries| else Start(entries, i - 1) + 64 + 32 + |entries[i - 1].1|
  }

  /** The 16-bit little-endian number at `at` is `n`. */
  predicate HasWord(data: seq<byte>, at: nat, n: nat) {
    at + 2 <= |data| && data[at] as int + 0x100 * (data[at + 1] as int) == n
  }

  /** The documented bytes of one triple: seven words at `d`, and signature, key and message at `at`. */
  predicate EntryAt(data: seq<byte>, d: nat, at: nat, signature: seq<byte>, key: seq<byte>, message: seq<byte>) {
    && HasWord(data, d, at) && HasWord(data, d + 2, 0xFFFF)
    && HasWord(data, d + 4, at + 64) && HasWord(data, d + 6, 0xFFFF)
    && HasWord(data, d + 8, at + 96) && HasWord(data, d + 10, |message|) && HasWord(data, d + 12, 0xFFFF)
    && at + 96 + |message| <= |data|
    && data[at..at + 64] == signature && data[at + 64..at + 96] == key
    && data[at + 96..at + 96 + |message|] == message
  }

  /** The count fits a byte; every offset and size fits 16 bits. */
  predicate AllFit(entries: seq<(Keypair, seq<byte>)>) {
    |entries| <= 255 && forall i :: 0 <= i < |entries| ==> FieldsFit(entries, i)
  }

  predicate FieldsFit(entries: seq<(Keypair, seq<byte>)>, i: nat)
    requires i < |entries|
  {
    Start(entries, i) + 96 < 0x1_0000 && |entries[i].1| < 0x1_0000
  }

  /** The documented bytes of the whole instruction. */
  predicate Documented(entries: seq<(Keypair, seq<byte>)>, data: seq<byte>) {
    && |data| == Start(entries, |entries|) && |data| >= 2 && data[0] == |entries| && data[1] == 0
    && forall i :: 0 <= i < |entries| ==> EntryDocumented(entries, data, i)
  }

  predicate EntryDocumented(entries: seq<(Keypair, seq<byte>)>, data: seq<byte>, i: nat)
    requires i < |entries|
  {
    EntryAt(data, 2 + 14 * i, Start(entries, i), entries[i].0.sign(entries[i].1), entries[i].0.pubkey, entries[i].1)
  }

  /** What was read is, entry by entry, the keypair's signature of the message, its key and the message. */
  predicate Genuine(entries: seq<(Keypair, seq<byte>)>, read: Option<seq<Signed>>) {
    && read.Some? && |read.value| == |entries|
    && forall i :: 0 <= i < |entries| ==>
         && read.value[i].signature == entries[i].0.sign(entries[i].1)
         && read.value[i].key == entries[i].0.pubkey && read.value[i].message == entries[i].1
  }

  /** One pass over the entries grows the payload and the table together. The instruction is built exactly
      when every field fits; then it has the documented bytes, and a reader finds for each entry the
      signature of its message. */
  method BuildMulti(entries: seq<(Keypair, seq<byte>)>) returns (data: Option<seq<byte>>)
    ensures data == if Fits(SignAll(entries)) then Some(Layout(SignAll(entries))) else None
    ensures data.Some? <==> AllFit(entries)
    ensures data.Some? ==> Documented(entries, data.value) && Genuine(entries, Read(data.value))
  {
    var currentOffset := 2 + |entries| * DESCRIPTOR;
    var rawData: seq<byte>, offsetsData: seq<byte> := [], [];
    ghost var items := SignAll(entries);
    for i := 0 to |entries|
      invariant rawData == Raw(items[..i])
      invariant offsetsData == Table(items, i)
      invariant FitSoFar(items, i)
    {
      var (kp, message) := entries[i];
      var signature := kp.sign(message);
      assert items[i] == Signed(signature, kp.pubkey, message);
      BuildStep(items, i, rawData, offsetsData);
      var descriptor := PackDescriptor(currentOffset + |rawData|, |message|);
      if descriptor.None? {
        TooFar(items, i);
        LayoutMeans(entries);
        return None;
      }
      offsetsData := offsetsData + descriptor.value;
      rawData := rawData + (signature + kp.pubkey + message);
    }
    BuildEnds(items, rawData, offsetsData);
    LayoutMeans(entries);
    if |entries| >= 256 {
      return None;
    }
    data := Some([|entries|, 0] + offsetsData + rawData);
  }

  lemma LayoutMeans(entries: seq<(Keypair, seq<byte>)>)
    ensures Fits(SignAll(entries)) <==> AllFit(entries)
    ensures Fits(SignAll(entries)) ==>
              var data := Layout(SignAll(entries)); Documented(entries, data) && Genuine(entries, Read(data))
  {
    FitsExactly(entries);
    if Fits(SignAll(entries)) {
      LayoutBytes(entries);
      LayoutRoundTrip(SignAll(entries));
    }
  }

  lemma {:induction false} StartIsAt(entries: seq<(Keypair, seq<byte>)>, i: nat)
    requires i <= |entries|
    ensures Start(entries, i) == At(SignAll(entries), i)
  {
    if i > 0 {
      StartIsAt(entries, i - 1);
      RawStep(SignAll(entries), i - 1);
    }
  }

  lemma EntryFitsExactly(entries: seq<(Keypair, seq<byte>)>, i: nat)
    requires i < |entries|
    ensures EntryFits(SignAll(entries), i) <==> FieldsFit(entries, i)
  {
    StartIsAt(entries, i);
  }

  lemma FitsExactly(entries: seq<(Keypair, seq<byte>)>)
    ensures Fits(SignAll(entries)) <==> AllFit(entries)
  {
    forall i | 0 <= i < |entries| ensures EntryFits(SignAll(entries), i) <==> FieldsFit(entries, i) {
      EntryFitsExactly(entries, i);
    }
  }

  lemma LayoutBytes(entries: seq<(Keypair, seq<byte>)>)
    requires Fits(SignAll(entries))
    ensures Documented(entries, Layout(SignAll(entries)))
  {
    var items := SignAll(entries);
    StartIsAt(entries, |entries|);
    BlocksTile(items, |entries|);
    forall i | 0 <= i < |entries| ensures EntryDocumented(entries, Layout(items), i) {
      StartIsAt(entries, i);
      EntryBytes(items, i);
    }
  }

  lemma WordIs(data: seq<byte>, at: nat)
    requires at + 2 <= |data|
    ensures HasWord(data, at, Word16(data, at))
  {
    TwoBytes(data[at..at + 2]);
  }

  lemma DescriptorBytes(data: seq<byte>, d: nat, at: nat, size: nat)
    requires at + 96 < U16 && size < U16
    requires d + DESCRIPTOR <= |data| && data[d..d + DESCRIPTOR] == Descriptor(at, size)
    ensures HasWord(data, d, at) && HasWord(data, d + 2, 0xFFFF)
    ensures HasWord(data, d + 4, at + 64) && HasWord(data, d + 6, 0xFFFF)
    ensures HasWord(data, d + 8, at + 96) && HasWord(data, d + 10, size) && HasWord(data, d + 12, 0xFFFF)
  {
    DescriptorReads(data, d, at, size);
    WordIs(data, d);
    WordIs(data, d + 2);
    WordIs(data, d + 4);
    WordIs(data, d + 6);
    WordIs(data, d + 8);
    WordIs(data, d + 10);
    WordIs(data, d + 12);
  }

  lemma EntryBytes(items: seq<Signed>, i: nat)
    requires Fits(items) && i < |items|
    ensures EntryAt(Layout(items), 2 + 14 * i, At(items, i), items[i].signature, items[i].key, items[i].message)
  {
    assert EntryFits(items, i);
    DescriptorInLayout(items, i);
    DescriptorBytes(Layout(items), 2 + DESCRIPTOR * i, At(items, i), |items[i].message|);
    BlockInLayout(items, i);
    PartsOfBlock(Layout(items), At(items, i), items[i]);
  }

  /** The one-signature builder writes its descriptor with fixed offsets. */
  function BuildOne(s: Signed): Option<seq<byte>> {
    match PackDescriptor(16, |s.message|)
    case Some(descriptor) => Some([1, 0] + descriptor + s.signature + s.key + s.message)
    case None => None
  }

  /** `sig_bytes[0] ^= 0xFF` */
  function Tamper(signature: Signature): Signature {
    signature[0 := 255 - signature[0]]
  }

  function BuildVerify(kp: Keypair, message: seq<byte>): Option<seq<byte>> {
    BuildOne(Sign(kp, message))
  }

  function BuildInvalidSignature(kp: Keypair, message: seq<byte>): Option<seq<byte>> {
    BuildOne(Signed(Tamper(kp.sign(message)), kp.pubkey, message))
  }

  function BuildWrongMessage(kp: Keypair, message: seq<byte>, wrong: seq<byte>): Option<seq<byte>> {
    BuildOne(Signed(kp.sign(message), kp.pubkey, wrong))
  }

  // ----- The reader -----

  function Word16(data: seq<byte>, at: nat): nat
    requires at + 2 <= |data|
  {
    FromLittleEndian(data[at..at + 2])
  }

  /** Follow descriptor `i`; nothing if it points outside the data or into another instruction. */
  function ReadEntry(data: seq<byte>, i: nat): Option<Signed> {
    var d := 2 + DESCRIPTOR * i;
    if d + DESCRIPTOR > |data| then None
    else
      var signatureAt, keyAt, messageAt := Word16(data, d), Word16(data, d + 4), Word16(data, d + 8);
      var size := Word16(data, d + 10);
      if Word16(data, d + 2) == Word16(data, d + 6) == Word16(data, d + 12) == THIS_INSTR
         && signatureAt + 64 <= |data| && keyAt + 32 <= |data| && messageAt + size <= |data|
      then Some(Signed(data[signatureAt..signatureAt + 64], data[keyAt..keyAt + 32], data[messageAt..messageAt + size]))
      else None
  }

  function ReadFirst(data: seq<byte>, n: nat): Option<seq<Signed>> {
    if n == 0 then Some([])
    else
      match (ReadFirst(data, n - 1), ReadEntry(data, n - 1))
      case (Some(before), Some(entry)) => Some(before + [entry])
      case _ => None
  }

  function Read(data: seq<byte>): Option<seq<Signed>> {
    if |data| < 2 then None else ReadFirst(data, data[0])
  }

  // ----- Tiling -----

  /** The blocks tile the payload: the first starts where the table ends, each starts where the one
      before it ends, the last ends with the data, and a block is signature, key and message. */
  lemma {:induction false} BlocksTile(items: seq<Signed>, i: nat)
    requires |items| <= 255 && i <= |items|
    ensures At(items, 0) == 2 + |Table(items, |items|)|
    ensures i < |items| ==> At(items, i + 1) == At(items, i) + 96 + |items[i].message|
    ensures At(items, |items|) == |Layout(items)|
    ensures At(items, i) <= |Layout(items)|
    ensures i < |items| ==>
              && At(items, i) + 96 + |items[i].message| <= |Layout(items)|
              && Layout(items)[At(items, i)..At(items, i) + 96 + |items[i].message|] == Block(items[i])
  {
    assert items[..|items|] == items;
    if i < |items| {
      RawStep(items, i);
      RawPrefix(items, i + 1);
      BlockInLayout(items, i);
    } else {
      RawPrefix(items, i);
    }
  }

  lemma {:induction false} RawPrefix(items: seq<Signed>, i: nat)
    requires i <= |items|
    ensures Raw(items[..i]) <= Raw(items)
    decreases |items| - i
  {
    if i < |items| {
      RawStep(items, i);
      RawPrefix(items, i + 1);
    } else {
      assert items[..i] == items;
    }
  }

  lemma BlockInLayout(items: seq<Signed>, i: nat)
    requires |items| <= 255 && i < |items|
    ensures At(items, i) + |Block(items[i])| <= |Layout(items)|
    ensures Layout(items)[At(items, i)..At(items, i) + |Block(items[i])|] == Block(items[i])
  {
    RawStep(items, i);
    RawPrefix(items, i + 1);
    var front, before, block := [|items|, 0] + Table(items, |items|), Raw(items[..i]), Block(items[i]);
    var rest := Raw(items)[|before + block|..];
    assert Raw(items) == before + block + rest;
    assert Layout(items) == (front + before) + block + rest;
    MiddleSlice(front + before, block, rest);
  }

  lemma {:induction false} TableEntry(items: seq<Signed>, n: nat, i: nat)
    requires i < n <= |items|
    ensures Table(items, n)[DESCRIPTOR * i..DESCRIPTOR * i + DESCRIPTOR] == Descriptor(At(items, i), |items[i].message|)
  {
    var before, last := Table(items, n - 1), Descriptor(At(items, n - 1), |items[n - 1].message|);
    assert Table(items, n) == before + last;
    if i < n - 1 {
      TableEntry(items, n - 1, i);
      SliceOfPrefix(before, last, DESCRIPTOR * i, DESCRIPTOR * i + DESCRIPTOR);
    }
  }

  // ----- The round trip -----

  lemma WordRoundTrip(n: nat)
    requires n < U16
    ensures FromLittleEndian(Word(n)) == n
  {
    CapacityValues();
    DecodeEncode(n, 2);
  }

  lemma WordReads(data: seq<byte>, at: nat, n: nat)
    requires at + 2 <= |data| && data[at..at + 2] == Word(n) && n < U16
    ensures Word16(data, at) == n
  {
    WordRoundTrip(n);
  }

  lemma {:induction false} WordInWords(fields: seq<nat>, j: nat)
    requires j < |fields|
    ensures Words(fields)[2 * j..2 * j + 2] == Word(fields[j])
  {
    var before, last := fields[..|fields| - 1], Word(fields[|fields| - 1]);
    assert Words(fields) == Words(before) + last;
    if j < |before| {
      WordInWords(before, j);
      SliceOfPrefix(Words(before), last, 2 * j, 2 * j + 2);
    }
  }

  lemma WordInside(data: seq<byte>, d: nat, part: seq<byte>, at: nat, n: nat)
    requires d + |part| <= |data| && data[d..d + |part|] == part && n < U16
    requires at + 2 <= |part| && part[at..at + 2] == Word(n)
    ensures Word16(data, d + at) == n
  {
    PartOfSlice(data, d, part, at, at + 2);
    WordReads(data, d + at, n);
  }

  /** A 16-bit field of a descriptor anywhere in the data reads back. */
  lemma FieldReads(data: seq<byte>, d: nat, fields: seq<nat>, j: nat)
    requires d + 2 * |fields| <= |data| && data[d..d + 2 * |fields|] == Words(fields)
    requires j < |fields| && fields[j] < U16
    ensures Word16(data, d + 2 * j) == fields[j]
  {
    var part, at := Words(fields), 2 * j;
    WordInWords(fields, j);
    assert |part| == 2 * |fields| && at + 2 <= |part|;
    WordInside(data, d, part, at, fields[j]);
  }

  lemma DescriptorReads(data: seq<byte>, d: nat, at: nat, size: nat)
    requires at + 96 < U16 && size < U16
    requires d + DESCRIPTOR <= |data| && data[d..d + DESCRIPTOR] == Descriptor(at, size)
    ensures Word16(data, d) == at && Word16(data, d + 4) == at + 64 && Word16(data, d + 8) == at + 96
    ensures Word16(data, d + 10) == size
    ensures Word16(data, d + 2) == Word16(data, d + 6) == Word16(data, d + 12) == THIS_INSTR
  {
    var fields := Fields(at, size);
    FieldReads(data, d, fields, 0);
    FieldReads(data, d, fields, 1);
    FieldReads(data, d, fields, 2);
    FieldReads(data, d, fields, 3);
    FieldReads(data, d, fields, 4);
    FieldReads(data, d, fields, 5);
    FieldReads(data, d, fields, 6);
  }

  lemma DescriptorInLayout(items: seq<Signed>, i: nat)
    requires |items| <= 255 && i < |items|
    ensures 2 + DESCRIPTOR * i + DESCRIPTOR <= |Layout(items)|
    ensures Layout(items)[2 + DESCRIPTOR * i..2 + DESCRIPTOR * i + DESCRIPTOR] == Descriptor(At(items, i),
            |items[i].message|)
  {
    TableEntry(items, |items|, i);
    var data, table := Layout(items), Table(items, |items|);
    assert data[2..2 + |table|] == table;
    PartOfSlice(data, 2, table, DESCRIPTOR * i, DESCRIPTOR * i + DESCRIPTOR);
  }

  /** The three parts of a block found inside larger data. */
  lemma PartsOfBlock(data: seq<byte>, at: nat, s: Signed)
    requires at + |Block(s)| <= |data| && data[at..at + |Block(s)|] == Block(s)
    ensures data[at..at + 64] == s.signature && data[at + 64..at + 96] == s.key
    ensures data[at + 96..at + 96 + |s.message|] == s.message
  {
    var block := Block(s);
    PartOfSlice(data, at, block, 0, 64);
    PartOfSlice(data, at, block, 64, 96);
    PartOfSlice(data, at, block, 96, |block|);
  }

  /** Following descriptor `i` returns exactly triple `i`. */
  lemma EntryRoundTrip(items: seq<Signed>, i: nat)
    requires Fits(items) && i < |items|
    ensures ReadEntry(Layout(items), i) == Some(items[i])
  {
    assert EntryFits(items, i);
    DescriptorInLayout(items, i);
    DescriptorReads(Layout(items), 2 + DESCRIPTOR * i, At(items, i), |items[i].message|);
    BlockInLayout(items, i);
    PartsOfBlock(Layout(items), At(items, i), items[i]);
  }

  lemma {:induction false} ReadFirstCollects(data: seq<byte>, items: seq<Signed>, n: nat)
    requires n <= |items| && forall i :: 0 <= i < n ==> ReadEntry(data, i) == Some(items[i])
    ensures ReadFirst(data, n) == Some(items[..n])
  {
    if n > 0 {
      ReadFirstCollects(data, items, n - 1);
      assert items[..n] == items[..n - 1] + [items[n - 1]];
    }
  }

  /** The reader recovers every triple in order, for every list of triples whose fields fit. */
  lemma LayoutRoundTrip(items: seq<Signed>)
    requires Fits(items)
    ensures Read(Layout(items)) == Some(items)
  {
    forall i | 0 <= i < |items| ensures ReadEntry(Layout(items), i) == Some(items[i]) {
      EntryRoundTrip(items, i);
    }
    ReadFirstCollects(Layout(items), items, |items|);
    assert items[..|items|] == items;
  }

  /** The one-signature builder is the one-element case of the general one, failures included. */
  lemma OneIsMultiOfOne(s: Signed)
    ensures BuildOne(s) == if Fits([s]) then Some(Layout([s])) else None
    ensures Fits([s]) <==> |s.message| < U16
  {
    assert [s][..0] == [] && At([s], 0) == 16;
    assert Table([s], 1) == Table([s], 0) + Descriptor(At([s], 0), |s.message|);
    assert Fits([s]) <==> EntryFits([s], 0);
    assert EntryFits([s], 0) <==> |s.message| < U16;
    RawStep([s], 0);
    assert [s][..1] == [s];
    var d := Descriptor(16, |s.message|);
    assert Raw([s]) == Block(s) && Table([s], 1) == d;
    assert [1, 0] + d + s.signature + s.key + s.message == [1, 0] + d + Block(s);
  }

  /** The precompile reads back exactly the one triple the builder was given. */
  lemma OneRoundTrip(s: Signed)
    ensures BuildOne(s).Some? <==> |s.message| < U16
    ensures BuildOne(s).Some? ==> Read(BuildOne(s).value) == Some([s])
    ensures BuildOne(s).Some? ==> OneEntry(BuildOne(s).value, s.signature, s.key, s.message)
  {
    OneIsMultiOfOne(s);
    if Fits([s]) {
      LayoutRoundTrip([s]);
      EntryBytes([s], 0);
      assert [s][..0] == [] && At([s], 0) == 16;
      BlocksTile([s], 0);
    }
  }

  /** The documented bytes of an instruction for one signature. */
  predicate OneEntry(data: seq<byte>, signature: seq<byte>, key: seq<byte>, message: seq<byte>) {
    && |data| == 112 + |message| && data[..2] == [1, 0]
    && EntryAt(data, 2, 16, signature, key, message)
  }

  /** What the precompile is shown by the valid builder and by the two that must fail: the genuine
      triple, a signature that differs from the genuine one in exactly its first byte, or a genuine
      signature of another message. */
  lemma TestInstructions(kp: Keypair, message: seq<byte>, wrong: seq<byte>)
    requires |message| < U16 && |wrong| < U16
    ensures BuildVerify(kp, message).Some?
    ensures Read(BuildVerify(kp, message).value) == Some([Signed(kp.sign(message), kp.pubkey, message)])
    ensures OneEntry(BuildVerify(kp, message).value, kp.sign(message), kp.pubkey, message)
    ensures BuildInvalidSignature(kp, message).Some?
    ensures var read := Read(BuildInvalidSignature(kp, message).value);
            && read.Some? && |read.value| == 1
            && read.value[0].key == kp.pubkey && read.value[0].message == message
            && read.value[0].signature[0] == 0xFF - kp.sign(message)[0] != kp.sign(message)[0]
            && read.value[0].signature[1..] == kp.sign(message)[1..]
            && OneEntry(BuildInvalidSignature(kp, message).value, read.value[0].signature, kp.pubkey, message)
    ensures BuildWrongMessage(kp, message, wrong).Some?
    ensures Read(BuildWrongMessage(kp, message, wrong).value) == Some([Signed(kp.sign(message), kp.pubkey, wrong)])
    ensures OneEntry(BuildWrongMessage(kp, message, wrong).value, kp.sign(message), kp.pubkey, wrong)
  {
    OneRoundTrip(Sign(kp, message));
    OneRoundTrip(Signed(Tamper(kp.sign(message)), kp.pubkey, message));
    OneRoundTrip(Signed(kp.sign(message), kp.pubkey, wrong));
  }

  /** Two lists of triples with the same instruction data are the same list. */
  lemma LayoutIsInjective(items: seq<Signed>, items': seq<Signed>)
    requires Fits(items) && Fits(items') && Layout(items) == Layout(items')
    ensures items == items'
  {
    LayoutRoundTrip(items);
    LayoutRoundTrip(items');
  }
}
