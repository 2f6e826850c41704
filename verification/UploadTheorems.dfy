/** What the upload promises, over every run of the machine: every interleaving of the client with a
    network that may reorder, repeat, delay, fail or lose what was broadcast. */
module UploadTheorems {
  import opened Bytes
  import opened Loader
  import opened Upload

  /** `s` is a state of some run. */
  ghost predicate Reachable(cfg: Config, program: seq<byte>, s: State) {
    exists run :: After(cfg, program, run) == Some(s)
  }

  lemma ReachableInv(cfg: Config, program: seq<byte>, s: State)
    requires cfg.Valid() && Reachable(cfg, program, s)
    ensures Inv(cfg, program, s)
  {
    var run :| After(cfg, program, run) == Some(s);
    RunKeepsInv(cfg, program, run);
  }

  // ----- The phase gate -----

  /** Finalize is broadcast, and an upload ends, only after every chunk of the program was broadcast
      and its signature reported confirmed. */
  lemma FinalizeGate(cfg: Config, program: seq<byte>, s: State)
    requires cfg.Valid() && Reachable(cfg, program, s)
    requires FinalizeSent(program, s) || s.phase.Done?
    ensures s.sent == ChunkCount(program) && |s.txs| >= 1 + s.sent
    ensures forall i :: 0 <= i <= s.sent ==> i in s.confirmed && i in s.landed
    ensures WritesOf(cfg, s) == Chunks(program)
  {
    ReachableInv(cfg, program, s);
    TransmittedWrites(cfg, program, s);
  }

  // ----- The account -----

  ghost predicate Delivered(cfg: Config, program: seq<byte>, s: State) {
    !s.account.Absent? && s.account.bytes == cfg.header + program
  }

  /** The account is the header and the program when it was created and every byte that no executed
      write covers is zero. */
  lemma DeliveredByBytes(cfg: Config, program: seq<byte>, s: State)
    requires LedgerInv(cfg, program, s)
    ensures Delivered(cfg, program, s) <==>
            0 in s.executed && forall j :: 0 <= j < |program| ==> Written(s, j) || program[j] == 0
  {
    if !s.account.Absent? {
      var h, bytes := |cfg.header|, s.account.bytes;
      assert bytes == bytes[..h] + bytes[h..];
      if Delivered(cfg, program, s) {
        assert forall j :: 0 <= j < |program| ==> bytes[h + j] == program[j];
      } else {
        assert bytes[h..] != program;
        var j :| 0 <= j < |program| && bytes[h..][j] != program[j];
        assert bytes[h + j] != program[j];
      }
    }
  }

  /** The exact condition, in every state of every run: the account holds the header and the program
      if and only if it was created and every write that never took effect carries only zeros. */
  lemma DeliveredExactly(cfg: Config, program: seq<byte>, s: State)
    requires cfg.Valid() && Reachable(cfg, program, s)
    ensures Delivered(cfg, program, s) <==>
            && 0 in s.executed
            && forall k :: 0 <= k < ChunkCount(program) && 1 + k !in s.executed ==> AllZero(Slice(program, CHUNK * k))
  {
    ReachableInv(cfg, program, s);
    DeliveredByBytes(cfg, program, s);
    ChunksOfBytes(program, s);
  }

  lemma ChunksOfBytes(program: seq<byte>, s: State)
    ensures (forall j :: 0 <= j < |program| ==> Written(s, j) || program[j] == 0) <==>
            (forall k :: 0 <= k < ChunkCount(program) && 1 + k !in s.executed ==> AllZero(Slice(program, CHUNK * k)))
  {
    if forall j :: 0 <= j < |program| ==> Written(s, j) || program[j] == 0 {
      forall k | 0 <= k < ChunkCount(program) && 1 + k !in s.executed ensures AllZero(Slice(program, CHUNK * k)) {
        SliceCovers(program, k);
        assert forall j :: 0 <= j < |program| && j / CHUNK == k ==> !Written(s, j);
      }
    } else {
      var j :| 0 <= j < |program| && !Written(s, j) && program[j] != 0;
      SliceCovers(program, j / CHUNK);
    }
  }

  predicate AllZero(data: seq<byte>) {
    forall i :: 0 <= i < |data| ==> data[i] == 0
  }

  /** Chunk `k` is exactly the program bytes whose index has quotient `k`, and it is not empty. */
  lemma SliceCovers(program: seq<byte>, k: nat)
    requires k < ChunkCount(program)
    ensures 1 <= |Slice(program, CHUNK * k)| <= CHUNK
    ensures AllZero(Slice(program, CHUNK * k)) <==> forall j :: 0 <= j < |program| && j / CHUNK == k ==> program[j] == 0
  {
    var c := Slice(program, CHUNK * k);
    assert forall i :: 0 <= i < |c| ==> c[i] == program[CHUNK * k + i] && (CHUNK * k + i) / CHUNK == k;
    assert forall j :: 0 <= j < |program| && j / CHUNK == k ==> program[j] == c[j - CHUNK * k];
  }

  /** If a signature is reported confirmed only for a transaction that took effect, the account holds
      the program from the moment Finalize is broadcast, in every later state of the run. */
  lemma UploadIsCorrect(cfg: Config, program: seq<byte>, run: seq<Event>, later: seq<Event>)
    requires cfg.Valid() && After(cfg, program, run).Some? && After(cfg, program, run + later).Some?
    requires var s := After(cfg, program, run).value;
             && (FinalizeSent(program, s) || s.phase.Done?)
             && s.confirmed <= s.executed
    ensures Delivered(cfg, program, After(cfg, program, run + later).value)
    ensures ChunkCount(program) + 1 in After(cfg, program, run + later).value.executed ==>
              After(cfg, program, run + later).value.account == Executable(cfg.header + program)
  {
    var s, s' := After(cfg, program, run).value, After(cfg, program, run + later).value;
    ExecutedGrows(cfg, program, run, later);
    FinalizeGate(cfg, program, s);
    DeliveredExactly(cfg, program, s');
    ReachableInv(cfg, program, s');
  }

  lemma StepExecutes(cfg: Config, program: seq<byte>, s: State, e: Event)
    requires Step(cfg, program, s, e).Some?
    ensures s.executed <= Step(cfg, program, s, e).value.executed
  {
  }

  lemma {:induction false} ExecutedGrows(cfg: Config, program: seq<byte>, run: seq<Event>, later: seq<Event>)
    requires After(cfg, program, run + later).Some?
    ensures After(cfg, program, run).Some?
    ensures After(cfg, program, run).value.executed <= After(cfg, program, run + later).value.executed
  {
    if later == [] {
      assert run + later == run;
    } else {
      var before, e := run + later[..|later| - 1], later[|later| - 1];
      assert run + later == before + [e];
      Append(cfg, program, before, e);
      ExecutedGrows(cfg, program, run, later[..|later| - 1]);
      StepExecutes(cfg, program, After(cfg, program, before).value, e);
    }
  }

  /** Order and repetition do not matter: the account depends only on which transactions took effect. */
  lemma OrderIsIrrelevant(cfg: Config, program: seq<byte>, s: State, s': State)
    requires cfg.Valid() && Reachable(cfg, program, s) && Reachable(cfg, program, s')
    requires s.executed == s'.executed && s.executed != {}
    ensures s.account == s'.account
  {
    ReachableInv(cfg, program, s);
    ReachableInv(cfg, program, s');
    SameBytes(cfg, program, s, s');
  }

  lemma SameBytes(cfg: Config, program: seq<byte>, s: State, s': State)
    requires LedgerInv(cfg, program, s) && LedgerInv(cfg, program, s')
    requires s.executed == s'.executed && !s.account.Absent? && !s'.account.Absent?
    ensures s.account.bytes == s'.account.bytes
  {
    var h := |cfg.header|;
    SameWritten(s, s');
    forall i | 0 <= i < h + |program|
      ensures s.account.bytes[i] == s'.account.bytes[i]
    {
      if i < h {
        assert s.account.bytes[..h][i] == s'.account.bytes[..h][i];
      } else {
        var j := i - h;
        assert Written(s, j) == Written(s', j);
        assert s.account.bytes[h + j] == s'.account.bytes[h + j];
      }
    }
  }

  // ----- Batches and the block budget -----

  /** Writes the client has broadcast and not seen confirmed. */
  ghost function Unconfirmed(s: State): set<nat> {
    set i | 1 <= i <= s.sent && i !in s.confirmed
  }

  /** Writes no block contains yet. */
  ghost function InFlight(s: State): set<nat> {
    set i | 1 <= i <= s.sent && i !in s.landed
  }

  lemma {:induction false} RangeSize(s: set<nat>, lo: nat, n: nat)
    requires forall i :: i in s ==> lo <= i < lo + n
    ensures |s| <= n
  {
    if n == 0 {
      assert s == {};
    } else {
      RangeSize(s - {lo + n - 1}, lo, n - 1);
    }
  }

  /** In every state of every run at most `limit` writes are unconfirmed, and the writes that no block
      contains yet are among them. */
  lemma InFlightIsBounded(cfg: Config, program: seq<byte>, s: State)
    requires cfg.Valid() && Reachable(cfg, program, s)
    ensures InFlight(s) <= Unconfirmed(s)
    ensures |Unconfirmed(s)| <= cfg.limit && |InFlight(s)| <= cfg.limit
  {
    ReachableInv(cfg, program, s);
    if |s.txs| > 0 {
      var lo := if |s.txs| >= cfg.limit then |s.txs| - cfg.limit else 0;
      if FinalizeSent(program, s) {
        assert Unconfirmed(s) == {};
      } else {
        RangeSize(Unconfirmed(s), lo, cfg.limit);
      }
      RangeSize(InFlight(s), lo, cfg.limit);
    }
  }

  /** The unconfirmed writes of `deploy_program` never reserve more than 44.8M compute units, under half a
      block, whether or not some block contains them already. */
  lemma BlockBudget(program: seq<byte>, s: State)
    requires Reachable(DeployConfig(), program, s)
    ensures BATCH * COMPUTE_UNITS == 44_800_000
    ensures |Unconfirmed(s)| * COMPUTE_UNITS <= 44_800_000
    ensures 2 * |Unconfirmed(s)| * COMPUTE_UNITS < BLOCK_COST_LIMIT
  {
    InFlightIsBounded(DeployConfig(), program, s);
  }

  /** Closed batches hold the write signatures in broadcast order; none is empty or over the limit, and
      only one that ends the program may be short. */
  lemma BatchesAreFull(cfg: Config, program: seq<byte>, s: State)
    requires cfg.Valid() && Reachable(cfg, program, s)
    ensures Flatten(s.batches) + s.batch == seq(s.sent, i => 1 + i)
    ensures forall b :: 0 <= b < |s.batches| ==>
              && 1 <= |s.batches[b]| <= cfg.limit
              && (|s.batches[b]| < cfg.limit ==> b == |s.batches| - 1 && s.batch == [] && Offset(s) >= |program|)
  {
    ReachableInv(cfg, program, s);
  }

  /** The batches of a deployment hold 32 signatures each, but for one that ends the program. */
  lemma DeployBatches(program: seq<byte>, s: State, b: nat)
    requires Reachable(DeployConfig(), program, s) && b < |s.batches|
    ensures 1 <= |s.batches[b]| <= 32
    ensures |s.batches[b]| < 32 ==> b == |s.batches| - 1 && 900 * s.sent >= |program|
  {
    BatchesAreFull(DeployConfig(), program, s);
  }

  // ----- The transmitted writes -----

  function Chunks(program: seq<byte>): seq<Instruction> {
    seq(ChunkCount(program), k requires 0 <= k => Write(CHUNK * k, Slice(program, CHUNK * k)))
  }

  function DecodeTx(kind: Kind, tx: Tx): Option<Instruction> {
    if tx.Run? then Decode(kind, tx.data) else None
  }

  /** The writes a reader finds in the bytes broadcast so far. */
  function WritesOf(cfg: Config, s: State): seq<Instruction>
    requires |s.txs| >= 1 + s.sent
  {
    seq(s.sent, k requires 0 <= k < s.sent =>
      match DecodeTx(cfg.kind, s.txs[1 + k])
      case Some(ix) => ix
      case None => Finalize)
  }

  /** Whatever the batch limit, the loader and the network, the bytes broadcast decode to the
      program's chunks in order: the batched loop and the flat loop send the same writes. */
  lemma TransmittedWrites(cfg: Config, program: seq<byte>, s: State)
    requires cfg.Valid() && Reachable(cfg, program, s) && |s.txs| >= 1 + s.sent
    ensures s.sent <= ChunkCount(program)
    ensures WritesOf(cfg, s) == Chunks(program)[..s.sent]
    ensures s.phase.Done? ==> WritesOf(cfg, s) == Chunks(program)
  {
    ReachableInv(cfg, program, s);
    assert s.sent <= ChunkCount(program) && (s.phase.Done? ==> s.sent == ChunkCount(program));
    WritesAreChunks(cfg, program, s);
    assert Chunks(program)[..ChunkCount(program)] == Chunks(program);
  }

  lemma DecodedTx(cfg: Config, program: seq<byte>, s: State, k: nat)
    requires TransmissionInv(cfg, program, s) && k < s.sent && |s.txs| >= 1 + s.sent
    ensures DecodeTx(cfg.kind, s.txs[1 + k]) == Some(Write(CHUNK * k, Slice(program, CHUNK * k)))
  {
    ScriptWriteDecodes(cfg, program, s, 1 + k);
  }

  lemma WritesOfAt(cfg: Config, s: State, k: nat, ix: Instruction)
    requires |s.txs| >= 1 + s.sent && k < s.sent && DecodeTx(cfg.kind, s.txs[1 + k]) == Some(ix)
    ensures WritesOf(cfg, s)[k] == ix
  {
  }

  lemma WritesAreChunks(cfg: Config, program: seq<byte>, s: State)
    requires TransmissionInv(cfg, program, s) && |s.txs| >= 1 + s.sent && s.sent <= ChunkCount(program)
    ensures WritesOf(cfg, s) == Chunks(program)[..s.sent]
  {
    forall k | 0 <= k < s.sent ensures WritesOf(cfg, s)[k] == Chunks(program)[..s.sent][k] {
      DecodedTx(cfg, program, s, k);
      WritesOfAt(cfg, s, k, Chunks(program)[k]);
    }
  }

  ghost predicate Transmitted(cfg: Config, program: seq<byte>, s: State) {
    && (|s.txs| > 0 ==> s.txs[0] == Create(|cfg.header| + |program|))
    && (forall k :: 0 <= k < s.sent ==> TransmittedWrite(cfg, program, s, k))
    && (s.phase.Done? && cfg.kind.LoaderV2? ==> |s.txs| == 2 + s.sent && s.txs[1 + s.sent] == Run([1, 0, 0, 0]))
  }

  /** The bytes themselves, in every reachable state: the account is created with room for header and
      program, write `k` carries offset `900 * k` and the program bytes from there, and a finished
      deployment ends with Finalize. */
  lemma TransmittedBytes(cfg: Config, program: seq<byte>, s: State)
    requires cfg.Valid() && Reachable(cfg, program, s)
    ensures Transmitted(cfg, program, s)
  {
    ReachableInv(cfg, program, s);
    FinalizeBytes();
    if |s.txs| > 0 {
      ScriptAt(cfg, program, s, 0);
    }
    forall k | 0 <= k < s.sent ensures TransmittedWrite(cfg, program, s, k) {
      WriteIsTransmitted(cfg, program, s, k);
    }
    if s.phase.Done? && cfg.kind.LoaderV2? {
      ScriptAt(cfg, program, s, 1 + s.sent);
    }
  }

  lemma WriteIsTransmitted(cfg: Config, program: seq<byte>, s: State, k: nat)
    requires TransmissionInv(cfg, program, s) && k < s.sent && |s.txs| >= 1 + s.sent
    ensures TransmittedWrite(cfg, program, s, k)
  {
    ScriptWriteDecodes(cfg, program, s, 1 + k);
    DecodedLayout(cfg.kind, CHUNK * k, Slice(program, CHUNK * k), s.txs[1 + k].data);
    NextSlice(program, k);
    SliceIs(program, k);
  }

  lemma DecodedLayout(kind: Kind, offset: nat, chunk: seq<byte>, data: seq<byte>)
    requires Decode(kind, data) == Some(Write(offset, chunk))
    ensures WriteLayout(kind, offset, chunk, data)
  {
    WriteRoundTrip(kind, offset, chunk, data);
    WriteBytes(kind, offset, chunk, data);
  }

  lemma SliceIs(program: seq<byte>, k: nat)
    requires 900 * k < |program|
    ensures Slice(program, CHUNK * k) ==
            program[900 * k..if 900 * k + 900 <= |program| then 900 * k + 900 else |program|]
  {
  }

  predicate TransmittedWrite(cfg: Config, program: seq<byte>, s: State, k: nat) {
    var end := if 900 * k + 900 <= |program| then 900 * k + 900 else |program|;
    && 1 + k < |s.txs| && s.txs[1 + k].Run? && 900 * k < |program|
    && WriteLayout(cfg.kind, 900 * k, program[900 * k..end], s.txs[1 + k].data)
  }

  lemma ScriptAt(cfg: Config, program: seq<byte>, s: State, i: nat)
    requires TransmissionInv(cfg, program, s) && i < |s.txs|
    ensures s.txs[i] == ScriptTx(cfg, program, i)
  {
  }

  lemma BatchedRefinesFlat(program: seq<byte>, header: seq<byte>, deploy: State, buffer: State)
    requires BufferConfig(header).Valid()
    requires Reachable(DeployConfig(), program, deploy) && deploy.phase.Done?
    requires Reachable(BufferConfig(header), program, buffer) && buffer.phase.Done?
    ensures |deploy.txs| >= 1 + deploy.sent && |buffer.txs| >= 1 + buffer.sent
    ensures WritesOf(DeployConfig(), deploy) == WritesOf(BufferConfig(header), buffer) == Chunks(program)
    ensures forall b :: 0 <= b < |buffer.batches| ==> |buffer.batches[b]| == 1
  {
    FinalizeGate(DeployConfig(), program, deploy);
    FinalizeGate(BufferConfig(header), program, buffer);
    BatchesAreFull(BufferConfig(header), program, buffer);
  }

  function Data(chunks: seq<Instruction>): seq<byte>
  {
    if chunks == [] then []
    else Data(chunks[..|chunks| - 1]) + (match chunks[|chunks| - 1] case Write(_, data) => data case Finalize => [])
  }

  lemma NextData(program: seq<byte>, k: nat)
    requires k < ChunkCount(program)
    ensures Data(Chunks(program)[..k + 1]) == Data(Chunks(program)[..k]) + Slice(program, CHUNK * k)
  {
    assert Chunks(program)[..k + 1][..k] == Chunks(program)[..k];
  }

  lemma NextSlice(program: seq<byte>, k: nat)
    requires k < ChunkCount(program)
    ensures CHUNK * k < |program| && 1 <= |Slice(program, CHUNK * k)| <= CHUNK
    ensures k + 1 < ChunkCount(program) ==> |Slice(program, CHUNK * k)| == CHUNK
    ensures program[..CHUNK * k] + Slice(program, CHUNK * k) ==
            if CHUNK * (k + 1) <= |program| then program[..CHUNK * (k + 1)] else program
    ensures k + 1 == ChunkCount(program) <==> CHUNK * (k + 1) >= |program|
  {
  }

  lemma {:induction false} DataOfChunks(program: seq<byte>, k: nat)
    requires k <= ChunkCount(program)
    ensures Data(Chunks(program)[..k]) == if CHUNK * k <= |program| then program[..CHUNK * k] else program
  {
    if k > 0 {
      DataOfChunks(program, k - 1);
      NextData(program, k - 1);
      NextSlice(program, k - 1);
    }
  }

  /** The chunks tile the program: each starts where the data before it ends, none is empty, all
      but the last are full, and together they are the program. */
  lemma ChunksTile(program: seq<byte>, k: nat)
    requires k <= ChunkCount(program)
    ensures Data(Chunks(program)[..k]) == if CHUNK * k <= |program| then program[..CHUNK * k] else program
    ensures k == ChunkCount(program) ==> Data(Chunks(program)) == program
    ensures k < ChunkCount(program) ==>
              && Chunks(program)[k].offset == |Data(Chunks(program)[..k])|
              && 1 <= |Chunks(program)[k].data| <= CHUNK
              && (k + 1 < ChunkCount(program) ==> |Chunks(program)[k].data| == CHUNK)
  {
    DataOfChunks(program, k);
    if k < ChunkCount(program) {
      NextSlice(program, k);
    } else {
      assert Chunks(program)[..k] == Chunks(program);
    }
  }

  /** Building a write fails exactly when its offset outgrows 32 bits, so an upload that ends had a
      program of at most 4,294,967,400 bytes: 2^32 rounded up to a chunk. */
  lemma OversizeNeverEnds(cfg: Config, program: seq<byte>, s: State)
    requires cfg.Valid() && Reachable(cfg, program, s)
    requires FinalizeSent(program, s) || s.phase.Done?
    ensures |program| <= 4_294_967_400
  {
    FinalizeGate(cfg, program, s);
    LastOffset(cfg, program, s);
    LongestProgram(|program|, (|program| + CHUNK - 1) / CHUNK);
  }

  lemma LongestProgram(length: nat, chunks: nat)
    requires chunks == (length + CHUNK - 1) / CHUNK && (chunks > 0 ==> CHUNK * (chunks - 1) < U32)
    ensures length <= 4_294_967_400
  {
  }

  lemma LastOffset(cfg: Config, program: seq<byte>, s: State)
    requires cfg.Valid() && Reachable(cfg, program, s)
    ensures s.sent > 0 ==> CHUNK * (s.sent - 1) < U32
  {
    ReachableInv(cfg, program, s);
  }

  /** The client's own failure while sending is an offset that outgrows 32 bits, and nothing else. */
  lemma SendFailsExactly(cfg: Config, program: seq<byte>, s: State)
    requires s.phase.Sending? && |s.batch| < cfg.limit && Offset(s) < |program|
    ensures ClientStep(cfg, program, s).value.phase.Failed? <==> Offset(s) >= U32
  {
    WriteFits(cfg.kind, Offset(s), Slice(program, Offset(s)));
  }

  // ----- Progress -----

  /** Phases in the order one round of the outer loop visits them while `sent` stands still. */
  function Rank(s: State): nat {
    match s.phase
    case Start => 7
    case Creating => 6
    case Sending => if s.batch == [] then 2 else 5
    case Confirming(_) => 4
    case LoopHead => 3
    case Finalizing => 1
    case Done => 0
    case Failed => 0
  }

  /** The signature a waiting client polls. */
  function Awaited(s: State): Option<nat> {
    match s.phase
    case Creating => Some(0)
    case Confirming(k) => if k < |s.batch| then Some(s.batch[k]) else None
    case Finalizing => if |s.txs| > 0 then Some(|s.txs| - 1) else None
    case _ => None
  }

  /** A transaction the client waits for takes effect when the network executes it, if everything
      confirmed before it did. */
  lemma AwaitedLands(cfg: Config, program: seq<byte>, s: State, sig: nat)
    requires cfg.Valid() && Inv(cfg, program, s) && Awaited(s) == Some(sig)
    requires s.confirmed <= s.executed && !s.phase.Creating?
    ensures sig < |s.txs| && LandStep(cfg, s, sig, true).Some?
    ensures sig in LandStep(cfg, s, sig, true).value.executed
  {
    AccountIsOpen(cfg, program, s);
    if s.phase.Finalizing? {
      FinalizeLands(cfg, program, s);
    } else {
      LandWrite(cfg, program, s, sig);
    }
  }

  /** The account a created upload works on, until Finalize takes effect. */
  lemma AccountIsOpen(cfg: Config, program: seq<byte>, s: State)
    requires LedgerInv(cfg, program, s) && ConfirmedBelow(s, 1) && s.confirmed <= s.executed
    ensures ChunkCount(program) + 1 !in s.executed ==>
              s.account.Open? && |s.account.bytes| == |cfg.header| + |program|
    ensures !FinalizeSent(program, s) ==> s.account.Open? && |s.account.bytes| == |cfg.header| + |program|
  {
    assert 0 in s.confirmed;
  }

  lemma FinalizeLands(cfg: Config, program: seq<byte>, s: State)
    requires TransmissionInv(cfg, program, s) && FinalizeSent(program, s)
    requires ChunkCount(program) + 1 in s.executed || s.account.Open?
    ensures ChunkCount(program) + 1 == |s.txs| - 1
    ensures LandStep(cfg, s, |s.txs| - 1, true).Some?
    ensures |s.txs| - 1 in LandStep(cfg, s, |s.txs| - 1, true).value.executed
  {
    FinalizeRoundTrip();
    assert s.txs[|s.txs| - 1] == ScriptTx(cfg, program, |s.txs| - 1);
  }

  lemma Append(cfg: Config, program: seq<byte>, run: seq<Event>, e: Event)
    ensures After(cfg, program, run + [e]) ==
            match After(cfg, program, run) case None => None case Some(s) => Step(cfg, program, s, e)
  {
    assert (run + [e])[..|run + [e]| - 1] == run;
  }

  lemma Extend(cfg: Config, program: seq<byte>, run: seq<Event>, s: State, e: Event)
    returns (run': seq<Event>, s': State)
    requires After(cfg, program, run) == Some(s) && Step(cfg, program, s, e).Some?
    ensures run' == run + [e] && Some(s') == Step(cfg, program, s, e) == After(cfg, program, run')
  {
    Append(cfg, program, run, e);
    run', s' := run + [e], Step(cfg, program, s, e).value;
  }

  lemma CreateLands(cfg: Config, program: seq<byte>, s: State)
    requires TransmissionInv(cfg, program, s) && LedgerInv(cfg, program, s) && |s.txs| >= 1
    ensures LandStep(cfg, s, 0, true).Some? && 0 in LandStep(cfg, s, 0, true).value.executed
  {
    assert s.txs[0] == ScriptTx(cfg, program, 0);
  }

  /** The network executes what the client waits for and the client sees it confirmed. */
  lemma DeliverAwaited(cfg: Config, program: seq<byte>, s: State, sig: nat)
    returns (s1: State, s': State)
    requires cfg.Valid() && Inv(cfg, program, s)
    requires Awaited(s) == Some(sig) && s.confirmed <= s.executed
    ensures Step(cfg, program, s, Land(sig, true)) == Some(s1) && Step(cfg, program, s1, Client) == Some(s')
    ensures s'.confirmed <= s'.executed && s'.sent == s.sent && s'.batch == s.batch
    ensures s'.phase == PhaseAfterWait(s.phase)
  {
    if s.phase.Creating? {
      CreateLands(cfg, program, s);
    } else {
      AwaitedLands(cfg, program, s, sig);
    }
    s1 := LandStep(cfg, s, sig, true).value;
    LandFrame(cfg, s, sig);
    s' := SeeConfirmed(cfg, program, s1, sig);
  }

  lemma LandFrame(cfg: Config, s: State, sig: nat)
    requires LandStep(cfg, s, sig, true).Some?
    ensures var s1 := LandStep(cfg, s, sig, true).value;
            && s1 == s.(landed := s.landed + {sig}, executed := s1.executed, account := s1.account)
            && s.executed <= s1.executed
  {
  }

  lemma SeeConfirmed(cfg: Config, program: seq<byte>, s: State, sig: nat) returns (s': State)
    requires Awaited(s) == Some(sig) && sig in s.landed
    ensures ClientStep(cfg, program, s) == Some(s')
    ensures s' == s.(phase := PhaseAfterWait(s.phase), confirmed := s.confirmed + {sig})
  {
    s' := s.(phase := PhaseAfterWait(s.phase), confirmed := s.confirmed + {sig});
  }

  /** Waits left before the client moves on. */
  function Waits(s: State): int {
    if s.phase.Confirming? then |s.batch| - s.phase.k else 0
  }

  /** One or two events that bring the client closer to the end. */
  lemma ProgressRun(cfg: Config, program: seq<byte>, run: seq<Event>, s: State)
    returns (run': seq<Event>, s': State)
    requires cfg.Valid() && |program| <= 4_294_967_400
    requires After(cfg, program, run) == Some(s)
    requires !s.phase.Failed? && !s.phase.Done? && s.confirmed <= s.executed
    ensures run <= run' && After(cfg, program, run') == Some(s') && !s'.phase.Failed?
    ensures s'.confirmed <= s'.executed
    ensures s.sent <= s'.sent <= ChunkCount(program)
    ensures s'.sent == s.sent ==> Rank(s') < Rank(s) || (Rank(s') == Rank(s) && 0 <= Waits(s') < Waits(s))
  {
    RunKeepsInv(cfg, program, run);
    if Awaited(s).Some? {
      var sig := Awaited(s).value;
      var s1, s2 := DeliverAwaited(cfg, program, s, sig);
      var run1, _ := Extend(cfg, program, run, s, Land(sig, true));
      run', s' := Extend(cfg, program, run1, s1, Client);
    } else {
      s' := Advance(cfg, program, s);
      run', s' := Extend(cfg, program, run, s, Client);
    }
  }

  lemma DoneIsDelivered(cfg: Config, program: seq<byte>, run: seq<Event>, s: State)
    requires cfg.Valid() && After(cfg, program, run) == Some(s)
    requires s.phase.Done? && s.confirmed <= s.executed
    ensures Delivered(cfg, program, s)
  {
    assert run + [] == run;
    UploadIsCorrect(cfg, program, run, []);
  }

  /** The upload is never stuck: from every reachable state in which nothing has raised and everything
      confirmed took effect, some continuation ends with the program delivered. */
  lemma {:induction false} CanStillFinish(cfg: Config, program: seq<byte>, run: seq<Event>, s: State)
    returns (run': seq<Event>, end: State)
    requires cfg.Valid() && |program| <= 4_294_967_400
    requires After(cfg, program, run) == Some(s)
    requires !s.phase.Failed? && s.confirmed <= s.executed
    ensures run <= run' && After(cfg, program, run') == Some(end)
    ensures end.phase.Done? && Delivered(cfg, program, end)
    decreases ChunkCount(program) - s.sent, Rank(s), Waits(s)
  {
    if s.phase.Done? {
      run', end := run, s;
      DoneIsDelivered(cfg, program, run, s);
    } else {
      var next, s' := ProgressRun(cfg, program, run, s);
      run', end := CanStillFinish(cfg, program, next, s');
    }
  }

  /** A run after which the upload has ended and the program is delivered. */
  ghost predicate Finished(cfg: Config, program: seq<byte>, run: seq<Event>) {
    && After(cfg, program, run).Some?
    && After(cfg, program, run).value.phase.Done?
    && Delivered(cfg, program, After(cfg, program, run).value)
  }

  lemma NeverStuck(cfg: Config, program: seq<byte>, run: seq<Event>)
    requires cfg.Valid() && |program| <= 4_294_967_400
    requires After(cfg, program, run).Some?
    requires !After(cfg, program, run).value.phase.Failed?
    requires After(cfg, program, run).value.confirmed <= After(cfg, program, run).value.executed
    ensures exists run' :: run <= run' && Finished(cfg, program, run')
  {
    var run', end := CanStillFinish(cfg, program, run, After(cfg, program, run).value);
    assert run <= run' && Finished(cfg, program, run');
  }

  lemma Advance(cfg: Config, program: seq<byte>, s: State) returns (s': State)
    requires cfg.Valid() && |program| <= 4_294_967_400 && Inv(cfg, program, s)
    requires Awaited(s).None? && !s.phase.Done? && !s.phase.Failed? && s.confirmed <= s.executed
    ensures ClientStep(cfg, program, s) == Some(s') && !s'.phase.Failed?
    ensures s'.confirmed <= s'.executed
    ensures s.sent <= s'.sent <= ChunkCount(program)
    ensures s'.sent == s.sent ==> Rank(s') < Rank(s)
  {
    s' := ClientStep(cfg, program, s).value;
    if s.phase.Sending? && |s.batch| < cfg.limit && Offset(s) < |program| {
      SendFailsExactly(cfg, program, s);
      assert Offset(s) < U32;
    }
  }

  // ----- Why the premise is needed -----

  /** A run that creates the account of the one-byte program [7]. */
  lemma OneByteCreated() returns (run: seq<Event>, s: State)
    ensures After(DeployConfig(), [7], run) == Some(s)
    ensures s == State(LoopHead, 0, [], [], {0}, [Create(1)], {0}, {0}, Open([0]))
  {
    var cfg, program := DeployConfig(), [7];
    run, s := [], Initial();
    run, s := Extend(cfg, program, run, s, Client);
    run, s := Extend(cfg, program, run, s, Land(0, true));
    assert s.account.bytes == [0];
    run, s := Extend(cfg, program, run, s, Client);
  }

  /** ... and broadcasts its only write. */
  lemma OneByteSent() returns (run: seq<Event>, s: State)
    ensures After(DeployConfig(), [7], run) == Some(s)
    ensures s.phase.Sending? && s.sent == 1 && s.batch == [1] && s.batches == [] && s.confirmed == {0}
    ensures |s.txs| == 2 && s.landed == s.executed == {0} && s.account == Open([0])
  {
    WriteFits(LoaderV2, 0, [7]);
    run, s := OneByteCreated();
    run, s := Extend(DeployConfig(), [7], run, s, Client);
    run, s := Extend(DeployConfig(), [7], run, s, Client);
  }

  /** The write lands but fails on chain, and is reported confirmed. */
  lemma OneByteFails() returns (run: seq<Event>, s: State)
    ensures After(DeployConfig(), [7], run) == Some(s)
    ensures s.phase.LoopHead? && s.sent == 1 && s.confirmed == {0, 1}
    ensures |s.txs| == 2 && s.account == Open([0])
  {
    var cfg, program := DeployConfig(), [7];
    run, s := OneByteSent();
    run, s := Extend(cfg, program, run, s, Client);
    run, s := Extend(cfg, program, run, s, Land(1, false));
    run, s := Extend(cfg, program, run, s, Client);
    run, s := Extend(cfg, program, run, s, Client);
  }

  lemma OneByteFinalizes() returns (run: seq<Event>, s: State)
    ensures After(DeployConfig(), [7], run) == Some(s)
    ensures s.phase.Finalizing? && s.confirmed == {0, 1} && 2 in s.landed
    ensures |s.txs| == 3 && s.account == Executable([0])
  {
    var cfg, program := DeployConfig(), [7];
    FinalizeRoundTrip();
    run, s := OneByteFails();
    run, s := Extend(cfg, program, run, s, Client);
    run, s := Extend(cfg, program, run, s, Land(2, true));
  }

  /** Without the premise the upload is wrong: every signature was confirmed, the upload ended, and the
      one-byte program was finalized as a zero byte. */
  lemma ConfirmedFailureCorrupts() returns (run: seq<Event>, s: State)
    ensures After(DeployConfig(), [7], run) == Some(s)
    ensures s.phase.Done? && |s.txs| == 3 && s.confirmed == {0, 1, 2} && s.account == Executable([0])
    ensures !Delivered(DeployConfig(), [7], s)
  {
    run, s := OneByteFinalizes();
    run, s := Extend(DeployConfig(), [7], run, s, Client);
    assert DeployConfig().header + [7] == [7];
  }

  /** A run of the one-byte upload that ends with every signature confirmed and the wrong bytes finalized. */
  ghost predicate Corrupted(run: seq<Event>) {
    && After(DeployConfig(), [7], run).Some?
    && var s := After(DeployConfig(), [7], run).value;
    && s.phase.Done?
    && (forall sig :: 0 <= sig < |s.txs| ==> sig in s.confirmed)
    && !Delivered(DeployConfig(), [7], s)
  }

  /** The premise of `UploadIsCorrect` cannot be dropped. */
  lemma PremiseIsNeeded()
    ensures exists run :: Corrupted(run)
  {
    var run, s := ConfirmedFailureCorrupts();
    assert Corrupted(run);
  }
}
