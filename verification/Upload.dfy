/** The chunked upload as a state machine: a client that broadcasts, confirms and finalizes, and a
    network that executes or drops what was broadcast, in any order and any number of times.
    One machine covers both uploaders: `DeployProgram` and `WriteBuffer` differ in `Config`. */
module Upload {
  import opened Bytes
  import opened Loader

  const BATCH: nat := 32
  const COMPUTE_UNITS: nat := 1_400_000
  const BLOCK_COST_LIMIT: nat := 100_000_000

  /** `limit` is the number of writes broadcast before they are confirmed; `header` is what the
      loader puts in front of the program. */
  datatype Config = Config(kind: Kind, header: seq<byte>, limit: nat) {
    predicate Valid() {
      |header| == HeaderSize(kind) && limit >= 1
    }
  }

  function DeployConfig(): Config {
    Config(LoaderV2, [], BATCH)
  }

  function BufferConfig(header: seq<byte>): Config {
    Config(Upgradeable, header, 1)
  }

  /** Where the client is: `LoopHead` is the outer loop test, `Sending` the inner loop, and
      `Confirming(k)` the wait for the k-th signature of the batch. */
  datatype Phase = Start | Creating | LoopHead | Sending | Confirming(k: nat) | Finalizing | Done | Failed

  /** `sent` counts the writes broadcast, so the client's `offset` is `CHUNK * sent`.
      A signature is the position of its transaction in `txs`. `landed` holds the signatures some
      block contains, `executed` those that also took effect. */
  datatype State = State(
    phase: Phase, sent: nat, batch: seq<nat>, batches: seq<seq<nat>>, confirmed: set<nat>,
    txs: seq<Tx>, landed: set<nat>, executed: set<nat>, account: Account)

  datatype Event = Client | Raise | Land(sig: nat, ok: bool)

  function Initial(): State {
    State(Start, 0, [], [], {}, [], {}, {}, Absent)
  }

  function Offset(s: State): nat {
    CHUNK * s.sent
  }

  /** `program[offset : offset + 900]` */
  function Slice(program: seq<byte>, offset: nat): seq<byte> {
    if offset >= |program| then []
    else if offset + CHUNK <= |program| then program[offset..offset + CHUNK]
    else program[offset..]
  }

  /** The next thing the client does when nothing raises; nothing while a wait is not over. */
  function ClientStep(cfg: Config, program: seq<byte>, s: State): Option<State> {
    match s.phase
    case Start =>
      Some(s.(phase := Creating, txs := s.txs + [Create(|cfg.header| + |program|)]))
    case Creating =>
      if 0 in s.landed then Some(s.(phase := LoopHead, confirmed := s.confirmed + {0})) else None
    case LoopHead =>
      if Offset(s) < |program| then Some(s.(phase := Sending, batch := []))
      else if cfg.kind.LoaderV2? then Some(s.(phase := Finalizing, txs := s.txs + [Run(BuildFinalize())]))
      else Some(s.(phase := Done))
    case Sending =>
      if |s.batch| < cfg.limit && Offset(s) < |program| then
        match BuildWrite(cfg.kind, Offset(s), Slice(program, Offset(s)))
        case None => Some(s.(phase := Failed))
        case Some(data) =>
          Some(s.(txs := s.txs + [Run(data)], batch := s.batch + [|s.txs|], sent := s.sent + 1))
      else Some(s.(phase := Confirming(0)))
    case Confirming(k) =>
      if k >= |s.batch| then Some(s.(phase := LoopHead, batch := [], batches := s.batches + [s.batch]))
      else if s.batch[k] in s.landed then
        Some(s.(phase := Confirming(k + 1), confirmed := s.confirmed + {s.batch[k]}))
      else None
    case Finalizing =>
      if |s.txs| - 1 in s.landed then Some(s.(phase := Done, confirmed := s.confirmed + {|s.txs| - 1})) else None
    case Done => None
    case Failed => None
  }

  /** A broadcast transaction reaches a block: it takes effect if `ok` and the loader accepts it,
      otherwise it is recorded as failed. Landing again is possible at any time. */
  function LandStep(cfg: Config, s: State, sig: nat, ok: bool): Option<State> {
    if sig >= |s.txs| then None
    else
      var landed := s.landed + {sig};
      match if ok then Execute(cfg.kind, cfg.header, s.account, s.txs[sig]) else None
      case Some(account) => Some(s.(landed := landed, executed := s.executed + {sig}, account := account))
      case None => Some(s.(landed := landed))
  }

  /** What a client does next when the signature it waited for is confirmed. */
  function PhaseAfterWait(phase: Phase): Phase {
    match phase
    case Creating => LoopHead
    case Confirming(k) => Confirming(k + 1)
    case _ => Done
  }

  function Step(cfg: Config, program: seq<byte>, s: State, e: Event): Option<State> {
    match e
    case Client => ClientStep(cfg, program, s)
    case Raise => if s.phase.Done? || s.phase.Failed? then None else Some(s.(phase := Failed))
    case Land(sig, ok) => LandStep(cfg, s, sig, ok)
  }

  /** The state after a run, if every event of it was possible. */
  function After(cfg: Config, program: seq<byte>, run: seq<Event>): Option<State> {
    if run == [] then Some(Initial())
    else
      match After(cfg, program, run[..|run| - 1])
      case None => None
      case Some(s) => Step(cfg, program, s, run[|run| - 1])
  }

  // ----- What is transmitted -----

  function ChunkCount(program: seq<byte>): nat {
    (|program| + CHUNK - 1) / CHUNK
  }

  /** The i-th transaction of an upload; it depends on neither the batch limit nor the network. */
  function ScriptTx(cfg: Config, program: seq<byte>, i: nat): Tx {
    if i == 0 then Create(|cfg.header| + |program|)
    else if i <= ChunkCount(program) then
      match BuildWrite(cfg.kind, CHUNK * (i - 1), Slice(program, CHUNK * (i - 1)))
      case Some(data) => Run(data)
      case None => Run([])
    else Run(BuildFinalize())
  }

  /** Every transaction of an upload, in the order a client sends them. */
  function Script(cfg: Config, program: seq<byte>): seq<Tx> {
    seq(ChunkCount(program) + 2, i requires 0 <= i => ScriptTx(cfg, program, i))
  }

  predicate FinalizeSent(program: seq<byte>, s: State) {
    |s.txs| == ChunkCount(program) + 2
  }

  // ----- The invariant -----

  ghost predicate TransmissionInv(cfg: Config, program: seq<byte>, s: State) {
    && s.sent <= ChunkCount(program)
    && s.txs <= Script(cfg, program)
    && (s.sent > 0 ==> CHUNK * (s.sent - 1) < U32)
    && (|s.txs| == 0 || |s.txs| == 1 + s.sent || (FinalizeSent(program, s) && s.sent == ChunkCount(program)))
    && (|s.txs| == 0 ==> s.sent == 0)
    && (FinalizeSent(program, s) ==> cfg.kind.LoaderV2?)
  }

  /** The account holds exactly the chunks whose writes took effect. */
  ghost predicate LedgerInv(cfg: Config, program: seq<byte>, s: State) {
    && s.executed <= s.landed
    && s.confirmed <= s.landed
    && (forall i :: i in s.landed ==> i < |s.txs|)
    && (s.account.Absent? ==> s.executed == {})
    && (!s.account.Absent? ==>
          && 0 in s.executed
          && |s.account.bytes| == |cfg.header| + |program|
          && s.account.bytes[..|cfg.header|] == cfg.header
          && forall j :: 0 <= j < |program| ==>
               s.account.bytes[|cfg.header| + j] == if Written(s, j) then program[j] else 0)
    && (s.account.Executable? ==> FinalizeSent(program, s))
    && (s.account.Executable? <==> ChunkCount(program) + 1 in s.executed)
  }

  /** The write that covers program byte `j` took effect. */
  predicate Written(s: State, j: nat) {
    1 + j / CHUNK in s.executed
  }

  ghost predicate ConfirmedBelow(s: State, n: int) {
    forall i :: 0 <= i < n ==> i in s.confirmed
  }

  ghost predicate ClientInv(cfg: Config, program: seq<byte>, s: State) {
    && ConfirmedBelow(s, |s.txs| - cfg.limit)
    && (FinalizeSent(program, s) ==> ConfirmedBelow(s, |s.txs| - 1))
    && match s.phase
       case Start => |s.txs| == 0 && s.batch == []
       case Creating => |s.txs| == 1 && s.sent == 0 && s.batch == []
       case LoopHead => |s.txs| == 1 + s.sent && ConfirmedBelow(s, |s.txs|) && s.batch == []
       case Sending =>
         && |s.txs| == 1 + s.sent
         && BatchIsTail(cfg, s)
         && ConfirmedBelow(s, |s.txs| - |s.batch|)
         && (s.batch == [] ==> Offset(s) < |program|)
       case Confirming(k) =>
         && |s.txs| == 1 + s.sent
         && BatchIsTail(cfg, s)
         && k <= |s.batch|
         && 1 <= |s.batch|
         && ConfirmedBelow(s, |s.txs| - |s.batch| + k)
         && (|s.batch| == cfg.limit || Offset(s) >= |program|)
       case Finalizing => FinalizeSent(program, s)
       case Done =>
         && s.sent == ChunkCount(program)
         && ConfirmedBelow(s, |s.txs|)
         && (cfg.kind.LoaderV2? <==> FinalizeSent(program, s))
         && |s.txs| >= 1
       case Failed => true
  }

  ghost predicate BatchIsTail(cfg: Config, s: State) {
    && |s.batch| <= cfg.limit
    && |s.batch| <= s.sent
    && forall i :: 0 <= i < |s.batch| ==> s.batch[i] == |s.txs| - |s.batch| + i
  }

  function Flatten(batches: seq<seq<nat>>): seq<nat> {
    if batches == [] then [] else Flatten(batches[..|batches| - 1]) + batches[|batches| - 1]
  }

  /** Closed batches list the write signatures in order, are never empty, and are full except
      for one that ends the program. */
  ghost predicate BatchInv(cfg: Config, program: seq<byte>, s: State) {
    && Flatten(s.batches) + s.batch == seq(s.sent, i => 1 + i)
    && (forall b :: 0 <= b < |s.batches| ==> 1 <= |s.batches[b]| <= cfg.limit)
    && (forall b :: 0 <= b < |s.batches| - 1 ==> |s.batches[b]| == cfg.limit)
    && (s.batches != [] && (Offset(s) < |program| || s.batch != []) ==> |s.batches[|s.batches| - 1]| == cfg.limit)
  }

  ghost predicate Inv(cfg: Config, program: seq<byte>, s: State) {
    && TransmissionInv(cfg, program, s)
    && LedgerInv(cfg, program, s)
    && ClientInv(cfg, program, s)
    && BatchInv(cfg, program, s)
  }

  // ----- The invariant is kept -----

  /** A transmitted transaction of the script decodes to the write it was built from. */
  lemma ScriptWriteDecodes(cfg: Config, program: seq<byte>, s: State, sig: nat)
    requires TransmissionInv(cfg, program, s)
    requires 1 <= sig <= s.sent && sig < |s.txs|
    ensures s.txs[sig].Run?
    ensures Decode(cfg.kind, s.txs[sig].data) == Some(Write(CHUNK * (sig - 1), Slice(program, CHUNK * (sig - 1))))
  {
    var offset := CHUNK * (sig - 1);
    WriteFits(cfg.kind, offset, Slice(program, offset));
    WriteRoundTrip(cfg.kind, offset, Slice(program, offset), s.txs[sig].data);
  }

  /** A write that takes effect marks exactly its own chunk as written. */
  lemma ChunkOf(sig: nat, j: nat)
    requires sig >= 1
    ensures 1 + j / CHUNK == sig <==> CHUNK * (sig - 1) <= j < CHUNK * sig
  {
  }

  /** Executing a transmitted write splices its chunk in, and nothing else. */
  lemma LandWrite(cfg: Config, program: seq<byte>, s: State, sig: nat)
    requires cfg.Valid() && TransmissionInv(cfg, program, s) && 1 <= sig <= s.sent && sig < |s.txs|
    requires s.account.Open? && |s.account.bytes| == |cfg.header| + |program|
    ensures |cfg.header| + CHUNK * (sig - 1) + |Slice(program, CHUNK * (sig - 1))| <= |s.account.bytes|
    ensures LandStep(cfg, s, sig, true) ==
            Some(s.(landed := s.landed + {sig}, executed := s.executed + {sig},
                    account := Open(Splice(s.account.bytes, |cfg.header| + CHUNK * (sig - 1), Slice(program,
                      CHUNK * (sig - 1))))))
  {
    ScriptWriteDecodes(cfg, program, s, sig);
    var at := CHUNK * (sig - 1);
    assert at < |program|;
    ExecuteWrite(cfg.kind, cfg.header, s.account.bytes, s.txs[sig].data, at, Slice(program, at));
  }

  lemma LandWriteKeepsLedger(cfg: Config, program: seq<byte>, s: State, sig: nat, s': State)
    requires cfg.Valid() && TransmissionInv(cfg, program, s) && LedgerInv(cfg, program, s)
    requires 1 <= sig <= s.sent && sig < |s.txs| && s.account.Open?
    requires LandStep(cfg, s, sig, true) == Some(s')
    ensures LedgerInv(cfg, program, s')
  {
    LandWrite(cfg, program, s, sig);
    SplicedLedger(cfg, program, s, sig, s');
  }

  lemma SplicedLedger(cfg: Config, program: seq<byte>, s: State, sig: nat, s': State)
    requires LedgerInv(cfg, program, s) && s.account.Open? && 1 <= sig <= ChunkCount(program) && sig < |s.txs|
    requires |cfg.header| + CHUNK * (sig - 1) + |Slice(program, CHUNK * (sig - 1))| <= |s.account.bytes|
    requires s' == s.(landed := s.landed + {sig}, executed := s.executed + {sig},
                      account := Open(Splice(s.account.bytes, |cfg.header| + CHUNK * (sig - 1), Slice(program,
                        CHUNK * (sig - 1)))))
    ensures LedgerInv(cfg, program, s')
  {
    SpliceIsWritten(cfg, program, s, sig, s');
  }

  lemma SpliceIsWritten(cfg: Config, program: seq<byte>, s: State, sig: nat, s': State)
    requires LedgerInv(cfg, program, s) && s.account.Open?
    requires sig >= 1 && s'.executed == s.executed + {sig} && s'.account.Open?
    requires |cfg.header| + CHUNK * (sig - 1) + |Slice(program, CHUNK * (sig - 1))| <= |s.account.bytes|
    requires s'.account.bytes == Splice(s.account.bytes, |cfg.header| + CHUNK * (sig - 1), Slice(program,
             CHUNK * (sig - 1)))
    ensures |s'.account.bytes| == |cfg.header| + |program|
    ensures s'.account.bytes[..|cfg.header|] == cfg.header
    ensures forall j :: 0 <= j < |program| ==>
              s'.account.bytes[|cfg.header| + j] == if Written(s', j) then program[j] else 0
  {
    var h := |cfg.header|;
    assert s'.account.bytes[..h] == s.account.bytes[..h];
    forall j | 0 <= j < |program|
      ensures s'.account.bytes[h + j] == if Written(s', j) then program[j] else 0
    {
      ChunkOf(sig, j);
      assert Written(s', j) <==> Written(s, j) || CHUNK * (sig - 1) <= j < CHUNK * sig;
    }
  }

  lemma LandKeepsLedger(cfg: Config, program: seq<byte>, s: State, sig: nat, ok: bool, s': State)
    requires cfg.Valid() && TransmissionInv(cfg, program, s) && LedgerInv(cfg, program, s)
    requires LandStep(cfg, s, sig, ok) == Some(s')
    ensures LedgerInv(cfg, program, s')
  {
    if s'.executed == s.executed && s'.account == s.account {
      SameWritten(s, s');
    } else if sig == 0 {
      assert s'.executed == {0};
      assert forall j :: 0 <= j ==> !Written(s', j);
    } else if sig <= s.sent {
      ScriptWriteDecodes(cfg, program, s, sig);
      LandWriteKeepsLedger(cfg, program, s, sig, s');
    } else {
      FinalizeRoundTrip();
      assert s'.account == Executable(s.account.bytes);
      forall j | 0 <= j < |program| ensures Written(s', j) == Written(s, j) {
        ChunkOf(sig, j);
      }
    }
  }

  lemma SameWritten(s: State, s': State)
    requires s'.executed == s.executed
    ensures forall j :: 0 <= j ==> Written(s', j) == Written(s, j)
  {
  }

  lemma LandKeepsInv(cfg: Config, program: seq<byte>, s: State, sig: nat, ok: bool, s': State)
    requires cfg.Valid() && Inv(cfg, program, s) && LandStep(cfg, s, sig, ok) == Some(s')
    ensures Inv(cfg, program, s')
  {
    LandKeepsLedger(cfg, program, s, sig, ok, s');
    NetworkFrame(cfg, program, s, s', s'.landed, s'.executed, s'.account);
  }

  /** Nothing but the ledger clauses reads the ledger. */
  lemma NetworkFrame(cfg: Config, program: seq<byte>, s: State, s': State, landed: set<nat>, executed: set<nat>,
                     account: Account)
    requires s' == s.(landed := landed, executed := executed, account := account)
    requires TransmissionInv(cfg, program, s) && ClientInv(cfg, program, s) && BatchInv(cfg, program, s)
    ensures TransmissionInv(cfg, program, s') && ClientInv(cfg, program, s') && BatchInv(cfg, program, s')
  {
  }

  /** The write broadcast at the client's offset is the script's next transaction. */
  lemma NextScriptTx(cfg: Config, program: seq<byte>, sent: nat, data: seq<byte>)
    requires CHUNK * sent < |program|
    requires BuildWrite(cfg.kind, CHUNK * sent, Slice(program, CHUNK * sent)) == Some(data)
    ensures CHUNK * sent < U32
    ensures sent < ChunkCount(program)
    ensures ScriptTx(cfg, program, 1 + sent) == Run(data)
  {
    WriteFits(cfg.kind, CHUNK * sent, Slice(program, CHUNK * sent));
  }

  /** The state after broadcasting the write `data`. */
  function SentState(s: State, data: seq<byte>): State {
    s.(txs := s.txs + [Run(data)], batch := s.batch + [|s.txs|], sent := s.sent + 1)
  }

  lemma SendKeepsTransmission(cfg: Config, program: seq<byte>, s: State, data: seq<byte>)
    requires TransmissionInv(cfg, program, s) && |s.txs| == 1 + s.sent && s.sent < ChunkCount(program)
    requires CHUNK * s.sent < U32 && ScriptTx(cfg, program, |s.txs|) == Run(data)
    ensures TransmissionInv(cfg, program, SentState(s, data))
  {
    PrefixExtends(s.txs, Script(cfg, program), Run(data));
  }

  lemma SendKeepsLedger(cfg: Config, program: seq<byte>, s: State, data: seq<byte>)
    requires LedgerInv(cfg, program, s) && !FinalizeSent(program, s)
    ensures LedgerInv(cfg, program, SentState(s, data))
  {
    SameWritten(s, SentState(s, data));
  }

  lemma SendKeepsClient(cfg: Config, program: seq<byte>, s: State, data: seq<byte>)
    requires ClientInv(cfg, program, s) && s.phase.Sending? && |s.batch| < cfg.limit
    requires s.sent < ChunkCount(program)
    ensures ClientInv(cfg, program, SentState(s, data))
  {
  }

  /** Sending the next write extends the script by one and the batch by its signature. */
  lemma SendStep(cfg: Config, program: seq<byte>, s: State, s': State) returns (data: seq<byte>)
    requires s.phase.Sending? && |s.batch| < cfg.limit && Offset(s) < |program|
    requires ClientStep(cfg, program, s) == Some(s') && s'.phase.Sending?
    ensures s' == SentState(s, data)
    ensures CHUNK * s.sent < U32 && s.sent < ChunkCount(program) && ScriptTx(cfg, program, 1 + s.sent) == Run(data)
  {
    data := BuildWrite(cfg.kind, Offset(s), Slice(program, Offset(s))).value;
    NextScriptTx(cfg, program, s.sent, data);
  }

  lemma SentKeepsClient(cfg: Config, program: seq<byte>, s: State, data: seq<byte>)
    requires ClientInv(cfg, program, s) && BatchInv(cfg, program, s)
    requires s.phase.Sending? && |s.batch| < cfg.limit && s.sent < ChunkCount(program)
    ensures ClientInv(cfg, program, SentState(s, data)) && BatchInv(cfg, program, SentState(s, data))
  {
    ExhaustedIsSent(program, s);
    SendKeepsClient(cfg, program, s, data);
    ExtendBatch(cfg, program, s, SentState(s, data));
  }

  lemma SentKeepsRecord(cfg: Config, program: seq<byte>, s: State, data: seq<byte>)
    requires TransmissionInv(cfg, program, s) && LedgerInv(cfg, program, s)
    requires |s.txs| == 1 + s.sent && CHUNK * s.sent < U32 && s.sent < ChunkCount(program)
    requires ScriptTx(cfg, program, 1 + s.sent) == Run(data)
    ensures TransmissionInv(cfg, program, SentState(s, data)) && LedgerInv(cfg, program, SentState(s, data))
  {
    SendKeepsTransmission(cfg, program, s, data);
    SendKeepsLedger(cfg, program, s, data);
  }

  lemma SentKeepsInv(cfg: Config, program: seq<byte>, s: State, data: seq<byte>)
    requires Inv(cfg, program, s) && s.phase.Sending? && |s.batch| < cfg.limit
    requires CHUNK * s.sent < U32 && s.sent < ChunkCount(program) && ScriptTx(cfg, program, 1 + s.sent) == Run(data)
    ensures Inv(cfg, program, SentState(s, data))
  {
    SentKeepsRecord(cfg, program, s, data);
    SentKeepsClient(cfg, program, s, data);
  }

  lemma ExtendBatch(cfg: Config, program: seq<byte>, s: State, s': State)
    requires BatchInv(cfg, program, s) && Offset(s) < |program|
    requires s'.batches == s.batches && s'.batch == s.batch + [1 + s.sent] && s'.sent == s.sent + 1
    ensures BatchInv(cfg, program, s')
  {
    assert Flatten(s'.batches) + s'.batch == (Flatten(s.batches) + s.batch) + [1 + s.sent];
  }

  lemma CloseBatch(cfg: Config, program: seq<byte>, s: State, s': State)
    requires BatchInv(cfg, program, s)
    requires 1 <= |s.batch| <= cfg.limit && (|s.batch| == cfg.limit || Offset(s) >= |program|)
    requires s'.batches == s.batches + [s.batch] && s'.batch == [] && s'.sent == s.sent
    ensures BatchInv(cfg, program, s')
  {
    assert s'.batches[..|s.batches|] == s.batches;
    assert Flatten(s'.batches) + s'.batch == Flatten(s.batches) + s.batch;
  }

  /** Only the client clauses read the phase. */
  lemma PhaseFrame(cfg: Config, program: seq<byte>, s: State, phase: Phase)
    requires TransmissionInv(cfg, program, s) && LedgerInv(cfg, program, s) && BatchInv(cfg, program, s)
    ensures TransmissionInv(cfg, program, s.(phase := phase))
    ensures LedgerInv(cfg, program, s.(phase := phase)) && BatchInv(cfg, program, s.(phase := phase))
  {
    SameWritten(s, s.(phase := phase));
  }

  /** A signature a block contains may be recorded as confirmed. */
  lemma ConfirmFrame(cfg: Config, program: seq<byte>, s: State, sig: nat)
    requires TransmissionInv(cfg, program, s) && LedgerInv(cfg, program, s) && BatchInv(cfg, program, s)
    requires sig in s.landed
    ensures TransmissionInv(cfg, program, s.(confirmed := s.confirmed + {sig}))
    ensures LedgerInv(cfg, program, s.(confirmed := s.confirmed + {sig})) && BatchInv(cfg, program,
            s.(confirmed := s.confirmed + {sig}))
  {
    SameWritten(s, s.(confirmed := s.confirmed + {sig}));
  }

  lemma ConfirmKeepsInv(cfg: Config, program: seq<byte>, s: State, s': State)
    requires cfg.Valid() && Inv(cfg, program, s) && s.phase.Confirming? && s.phase.k < |s.batch|
    requires ClientStep(cfg, program, s) == Some(s')
    ensures Inv(cfg, program, s')
  {
    var sig := s.batch[s.phase.k];
    ConfirmFrame(cfg, program, s, sig);
    PhaseFrame(cfg, program, s.(confirmed := s.confirmed + {sig}), Confirming(s.phase.k + 1));
    ConfirmKeepsClient(cfg, program, s);
  }

  lemma ConfirmKeepsClient(cfg: Config, program: seq<byte>, s: State)
    requires ClientInv(cfg, program, s) && s.phase.Confirming? && s.phase.k < |s.batch|
    ensures ClientInv(cfg, program, s.(confirmed := s.confirmed + {s.batch[s.phase.k]},
            phase := Confirming(s.phase.k + 1)))
  {
    assert s.batch[s.phase.k] == |s.txs| - |s.batch| + s.phase.k;
  }

  lemma CloseKeepsInv(cfg: Config, program: seq<byte>, s: State, s': State)
    requires cfg.Valid() && Inv(cfg, program, s) && s.phase.Confirming? && s.phase.k >= |s.batch|
    requires ClientStep(cfg, program, s) == Some(s')
    ensures Inv(cfg, program, s')
  {
    PhaseFrame(cfg, program, s, LoopHead);
    CloseBatch(cfg, program, s, s');
    CloseFrame(cfg, program, s.(phase := LoopHead), s'.batch, s'.batches);
  }

  lemma CloseFrame(cfg: Config, program: seq<byte>, s: State, batch: seq<nat>, batches: seq<seq<nat>>)
    requires TransmissionInv(cfg, program, s) && LedgerInv(cfg, program, s)
    ensures TransmissionInv(cfg, program, s.(batch := batch, batches := batches))
    ensures LedgerInv(cfg, program, s.(batch := batch, batches := batches))
  {
    SameWritten(s, s.(batch := batch, batches := batches));
  }

  lemma ExhaustedIsSent(program: seq<byte>, s: State)
    requires s.sent <= ChunkCount(program)
    ensures Offset(s) >= |program| <==> s.sent == ChunkCount(program)
  {
  }

  /** The state after broadcasting Finalize. */
  function FinalizeState(s: State): State {
    s.(phase := Finalizing, txs := s.txs + [Run(BuildFinalize())])
  }

  lemma FinalizeKeepsTransmission(cfg: Config, program: seq<byte>, s: State)
    requires TransmissionInv(cfg, program, s) && LedgerInv(cfg, program, s) && BatchInv(cfg, program, s)
    requires cfg.kind.LoaderV2? && |s.txs| == 1 + s.sent && s.sent == ChunkCount(program)
    ensures TransmissionInv(cfg, program, FinalizeState(s))
    ensures LedgerInv(cfg, program, FinalizeState(s)) && BatchInv(cfg, program, FinalizeState(s))
  {
    PrefixExtends(s.txs, Script(cfg, program), Run(BuildFinalize()));
    SameWritten(s, FinalizeState(s));
  }

  lemma HeadKeepsInv(cfg: Config, program: seq<byte>, s: State, s': State)
    requires cfg.Valid() && Inv(cfg, program, s) && s.phase.LoopHead?
    requires ClientStep(cfg, program, s) == Some(s')
    ensures Inv(cfg, program, s')
  {
    ExhaustedIsSent(program, s);
    if s'.phase.Finalizing? {
      FinalizeKeepsTransmission(cfg, program, s);
    } else {
      assert s' == s.(phase := s'.phase);
      PhaseFrame(cfg, program, s, s'.phase);
    }
  }

  lemma StopSendingKeepsInv(cfg: Config, program: seq<byte>, s: State, s': State)
    requires cfg.Valid() && Inv(cfg, program, s)
    requires s.phase.Sending? && !s'.phase.Sending? && ClientStep(cfg, program, s) == Some(s')
    ensures Inv(cfg, program, s')
  {
    assert s' == s.(phase := s'.phase);
    PhaseFrame(cfg, program, s, s'.phase);
  }

  /** The creation is broadcast. */
  lemma StartKeepsInv(cfg: Config, program: seq<byte>, s: State, s': State)
    requires cfg.Valid() && Inv(cfg, program, s) && s.phase.Start? && ClientStep(cfg, program, s) == Some(s')
    ensures Inv(cfg, program, s')
  {
    PrefixExtends(s.txs, Script(cfg, program), Create(|cfg.header| + |program|));
    SameWritten(s, s');
  }

  /** The wait for the creation, or for Finalize, is over. */
  lemma WaitKeepsInv(cfg: Config, program: seq<byte>, s: State, s': State)
    requires cfg.Valid() && Inv(cfg, program, s) && (s.phase.Creating? || s.phase.Finalizing?)
    requires ClientStep(cfg, program, s) == Some(s')
    ensures Inv(cfg, program, s')
  {
    var sig := if s.phase.Creating? then 0 else |s.txs| - 1;
    ConfirmFrame(cfg, program, s, sig);
    PhaseFrame(cfg, program, s.(confirmed := s.confirmed + {sig}), s'.phase);
  }

  lemma RaiseKeepsInv(cfg: Config, program: seq<byte>, s: State)
    requires cfg.Valid() && Inv(cfg, program, s)
    ensures Inv(cfg, program, s.(phase := Failed))
  {
    PhaseFrame(cfg, program, s, Failed);
  }

  lemma StepKeepsInv(cfg: Config, program: seq<byte>, s: State, e: Event, s': State)
    requires cfg.Valid() && Inv(cfg, program, s) && Step(cfg, program, s, e) == Some(s')
    ensures Inv(cfg, program, s')
  {
    match e
    case Land(sig, ok) => LandKeepsInv(cfg, program, s, sig, ok, s');
    case Raise => RaiseKeepsInv(cfg, program, s);
    case Client =>
      match s.phase
      case Sending => if s'.phase.Sending? { var data := SendStep(cfg, program, s, s'); SentKeepsInv(cfg, program, s,
        data); } else { StopSendingKeepsInv(cfg, program, s, s'); }
      case Confirming(k) => if k < |s.batch| { ConfirmKeepsInv(cfg, program, s, s'); } else { CloseKeepsInv(cfg,
        program, s, s'); }
      case LoopHead => HeadKeepsInv(cfg, program, s, s');
      case Start => StartKeepsInv(cfg, program, s, s');
      case _ => WaitKeepsInv(cfg, program, s, s');
  }

  lemma {:induction false} RunKeepsInv(cfg: Config, program: seq<byte>, run: seq<Event>)
    requires cfg.Valid()
    requires After(cfg, program, run).Some?
    ensures Inv(cfg, program, After(cfg, program, run).value)
  {
    if run == [] {
      assert forall j: nat :: !Written(Initial(), j);
    } else {
      var s := After(cfg, program, run[..|run| - 1]).value;
      RunKeepsInv(cfg, program, run[..|run| - 1]);
      StepKeepsInv(cfg, program, s, run[|run| - 1], After(cfg, program, run).value);
    }
  }
}
