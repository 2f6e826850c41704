/** The two uploaders as the loops they are, driving a network that is free to do anything between
    any two of their awaits. Every execution of either is a run of the machine in `Upload`. */
module UploadClient {
  import opened Bytes
  import opened Loader
  import opened Upload
  import opened UploadTheorems

  datatype Level = ProcessedLevel | ConfirmedLevel | FinalizedLevel

  datatype Status = Status(level: Level, failed: bool)

  datatype WaitOutcome = Confirmed | TransactionError | TimeoutError | RequestError

  /** A reply after which the client polls again: no status, or one that is neither confirmed nor failed. */
  predicate Undecided(reply: Option<Status>) {
    reply.None? || (reply.value.level.ProcessedLevel? && !reply.value.failed)
  }

  /** The outcome is the one of the first reply that decides: confirmed or finalized, failed or not, ends the
      wait; a merely processed failure raises. */
  ghost predicate Decided(outcome: WaitOutcome, replies: seq<Option<Status>>) {
    && (forall i :: 0 <= i < |replies| - 1 ==> Undecided(replies[i]))
    && match outcome
       case Confirmed => LastStatus(replies).Some? && !LastStatus(replies).value.level.ProcessedLevel?
       case TransactionError =>
         && LastStatus(replies).Some? && LastStatus(replies).value.level.ProcessedLevel?
         && LastStatus(replies).value.failed
       case _ => replies == [] || Undecided(replies[|replies| - 1])
  }

  function LastStatus(replies: seq<Option<Status>>): Option<Status> {
    if replies == [] then None else replies[|replies| - 1]
  }

  /** A validator and the RPC connection to it. `model` and `run` are the machine's view of the
      execution so far. */
  class Network {
    const cfg: Config
    const program: seq<byte>
    var txs: seq<Tx>
    var landed: set<nat>
    var executed: set<nat>
    var account: Account
    ghost var model: State
    ghost var run: seq<Event>

    ghost predicate Valid()
      reads this
    {
      && cfg.Valid()
      && After(cfg, program, run) == Some(model)
      && model == model.(txs := txs, landed := landed, executed := executed, account := account)
    }

    constructor (cfg: Config, program: seq<byte>)
      requires cfg.Valid()
      ensures Valid() && model == Initial() && run == []
      ensures this.cfg == cfg && this.program == program
    {
      this.cfg, this.program := cfg, program;
      txs, landed, executed, account := [], {}, {}, Absent;
      model, run := Initial(), [];
    }

    ghost method Record(e: Event)
      requires Valid() && Step(cfg, program, model, e).Some?
      requires e.Land? || Step(cfg, program, model, e).value.txs == txs
      requires e.Client? || e.Raise?
      modifies `model, `run
      ensures Valid() && Some(model) == Step(cfg, program, old(model), e) && old(run) <= run
    {
      Append(cfg, program, run, e);
      run, model := run + [e], Step(cfg, program, model, e).value;
    }

    /** Whatever else happens on the network while the client awaits: any broadcast transactions land,
        in any order, again or failing. */
    method Settle()
      requires Valid()
      modifies this
      ensures Valid() && old(run) <= run && old(landed) <= landed
      ensures model == old(model).(landed := landed, executed := executed, account := account)
    {
      var n :| 0 <= n;
      for i := 0 to n
        invariant Valid() && old(run) <= run && old(landed) <= landed
        invariant model == old(model).(landed := landed, executed := executed, account := account)
      {
        var sig :| 0 <= sig;
        var ok: bool := *;
        if sig < |txs| {
          Append(cfg, program, run, Land(sig, ok));
          run, model := run + [Land(sig, ok)], LandStep(cfg, model, sig, ok).value;
          landed := landed + {sig};
          var result := if ok then Execute(cfg.kind, cfg.header, account, txs[sig]) else None;
          if result.Some? {
            executed, account := executed + {sig}, result.value;
          }
        }
      }
    }

    /** Broadcast the transaction the machine expects next. The request may fail. */
    method Send(tx: Tx) returns (sig: Option<nat>)
      requires Valid() && (model.phase.Start? || model.phase.LoopHead? || model.phase.Sending?)
      requires ClientStep(cfg, program, model).Some?
      requires ClientStep(cfg, program, model).value.txs == txs + [tx]
      modifies this
      ensures Valid() && old(run) <= run
      ensures sig.None? ==> model.phase.Failed?
      ensures sig.Some? ==>
                && sig == Some(|old(txs)|)
                && txs == old(txs) + [tx]
                && model == ClientStep(cfg, program, old(model)).value.(landed := landed, executed := executed,
                  account := account)
    {
      Settle();
      if * {
        Record(Raise);
        return None;
      }
      sig := Some(|txs|);
      ghost var next := ClientStep(cfg, program, model).value;
      Append(cfg, program, run, Client);
      txs := txs + [tx];
      run, model := run + [Client], next;
    }

    /** One getSignatureStatuses reply: a status only for a transaction some block contains. */
    method Poll(sig: nat) returns (reply: Option<Status>)
      requires Valid()
      modifies this
      ensures Valid() && old(run) <= run
      ensures model == old(model).(landed := landed, executed := executed, account := account)
      ensures reply.Some? ==> sig in landed && reply.value.failed == (sig !in executed)
    {
      Settle();
      reply := None;
      var visible: bool := *;
      if visible && sig in landed {
        var level: Level := *;
        reply := Some(Status(level, sig !in executed));
      }
    }

    /** Poll until the signature is confirmed. The confirmation level is looked at before the error, so a
        confirmed transaction is accepted even if it failed. */
    method WaitForConfirmation(sig: nat) returns (outcome: WaitOutcome, ghost replies: seq<Option<Status>>)
      requires Valid() && Awaited(model) == Some(sig)
      modifies this
      ensures Valid() && old(run) <= run
      ensures !outcome.Confirmed? ==> model.phase.Failed?
      ensures outcome.TransactionError? ==> sig in landed && sig !in executed
      ensures Decided(outcome, replies)
      ensures outcome.Confirmed? ==>
                && sig in landed
                && txs == old(txs)
                && model == old(model).(confirmed := old(model).confirmed + {sig}, landed := landed,
                                        executed := executed, account := account, phase := model.phase)
                && model.phase == PhaseAfterWait(old(model).phase)
    {
      replies := [];
      var polls :| 0 <= polls;  // requests that fit before the deadline
      for i := 0 to polls
        invariant Valid() && old(run) <= run
        invariant forall k :: 0 <= k < |replies| ==> Undecided(replies[k])
        invariant model == old(model).(landed := landed, executed := executed, account := account)
      {
        if * {
          Record(Raise);
          outcome := RequestError;
          return;
        }
        var reply := Poll(sig);
        replies := replies + [reply];
        if reply.Some? {
          if reply.value.level != ProcessedLevel {
            Record(Client);
            outcome := Confirmed;
            return;
          }
          if reply.value.failed {
            Record(Raise);
            outcome := TransactionError;
            return;
          }
        }
      }
      Record(Raise);
      outcome := TimeoutError;
    }
  }

  /** Facts both uploaders establish, whatever the network did: the execution was a run of the machine,
      and when the upload ends every chunk was broadcast in order and confirmed. */
  ghost predicate Uploaded(net: Network, ok: bool)
    reads net
  {
    && net.Valid()
    && Reachable(net.cfg, net.program, net.model)
    && (if ok then net.model.phase.Done? else net.model.phase.Failed?)
    && Transmitted(net.cfg, net.program, net.model)
    && (ok ==> |net.txs| >= 1 + net.model.sent && WritesOf(net.cfg, net.model) == Chunks(net.program))
    && (ok ==> forall i :: 0 <= i <= ChunkCount(net.program) ==> i in net.model.confirmed && i in net.landed)
    && (ok && net.model.confirmed <= net.executed ==> Delivered(net.cfg, net.program, net.model))
  }

  lemma UploadEnds(net: Network, ok: bool)
    requires net.Valid()
    requires if ok then net.model.phase.Done? else net.model.phase.Failed?
    ensures Uploaded(net, ok)
  {
    assert Reachable(net.cfg, net.program, net.model);
    TransmittedBytes(net.cfg, net.program, net.model);
    if ok {
      FinalizeGate(net.cfg, net.program, net.model);
      if net.model.confirmed <= net.executed {
        DoneIsDelivered(net.cfg, net.program, net.run, net.model);
      }
    }
  }

  /** One round of the outer loop: broadcast up to 32 writes, then wait for each of them. */
  method UploadBatch(net: Network, start: nat) returns (offset: nat, ok: bool)
    requires net.Valid() && net.model.phase.LoopHead? && net.cfg == DeployConfig()
    requires start == Offset(net.model) < |net.program|
    modifies net
    ensures net.Valid()
    ensures ok ==> net.model.phase.LoopHead? && start < offset == Offset(net.model)
    ensures !ok ==> net.model.phase.Failed?
  {
    offset := start;
    net.Record(Client);
    var batchSigs: seq<nat> := [];
    for i := 0 to BATCH
      invariant net.Valid() && net.model.phase.Sending? && net.model.batch == batchSigs
      invariant |batchSigs| == i
      invariant offset == Offset(net.model) == start + CHUNK * i
    {
      if offset >= |net.program| {
        break;
      }
      var ix := BuildWrite(LoaderV2, offset, Slice(net.program, offset));
      if ix.None? {
        net.Record(Client);
        return offset, false;
      }
      var sig := net.Send(Run(ix.value));
      if sig.None? {
        return offset, false;
      }
      batchSigs := batchSigs + [sig.value];
      offset := offset + CHUNK;
    }
    net.Record(Client);
    for k := 0 to |batchSigs|
      invariant net.Valid() && net.model.phase == Confirming(k)
      invariant net.model.batch == batchSigs
      invariant offset == Offset(net.model)
    {
      var outcome, replies := net.WaitForConfirmation(batchSigs[k]);
      if !outcome.Confirmed? {
        return offset, false;
      }
    }
    net.Record(Client);
    ok := true;
  }

  /** Batched upload: create, then up to 32 writes at a time, each batch confirmed before the next, then
      Finalize. */
  method DeployProgram(net: Network) returns (ok: bool)
    requires net.Valid() && net.model == Initial() && net.cfg == DeployConfig()
    modifies net
    ensures Uploaded(net, ok)
    ensures ok && net.model.confirmed <= net.executed ==> net.account == Executable(net.program)
  {
    var space := |net.program|;
    var created := net.Send(Create(space));
    if created.None? {
      UploadEnds(net, false);
      return false;
    }
    var outcome, replies := net.WaitForConfirmation(created.value);
    if !outcome.Confirmed? {
      UploadEnds(net, false);
      return false;
    }

    var offset := 0;
    while offset < space
      invariant net.Valid() && net.model.phase.LoopHead?
      invariant offset == Offset(net.model)
      decreases space - offset
    {
      offset, ok := UploadBatch(net, offset);
      if !ok {
        UploadEnds(net, false);
        return;
      }
    }

    var final := net.Send(Run(BuildFinalize()));
    if final.None? {
      UploadEnds(net, false);
      return false;
    }
    outcome, replies := net.WaitForConfirmation(final.value);
    ok := outcome.Confirmed?;
    UploadEnds(net, ok);
    if ok {
      ReachableInv(net.cfg, net.program, net.model);
      assert [] + net.program == net.program;
    }
  }

  /** One round of the sequential loop: broadcast one write and wait for it. */
  method WriteChunk(net: Network, offset: nat) returns (ok: bool)
    requires net.Valid() && net.model.phase.LoopHead? && net.cfg == BufferConfig(net.cfg.header)
    requires offset == Offset(net.model) < |net.program|
    modifies net
    ensures net.Valid()
    ensures ok ==> net.model.phase.LoopHead? && Offset(net.model) == offset + CHUNK
    ensures !ok ==> net.model.phase.Failed?
  {
    net.Record(Client);
    var ix := BuildWrite(Upgradeable, offset, Slice(net.program, offset));
    if ix.None? {
      net.Record(Client);
      return false;
    }
    var sig := net.Send(Run(ix.value));
    if sig.None? {
      return false;
    }
    net.Record(Client);
    var outcome, replies := net.WaitForConfirmation(sig.value);
    ok := outcome.Confirmed?;
    if ok {
      net.Record(Client);
    }
  }

  /** Sequential upload to a buffer of the upgradeable loader: each write is confirmed before the next. */
  method WriteBuffer(net: Network) returns (ok: bool)
    requires net.Valid() && net.model == Initial() && net.cfg == BufferConfig(net.cfg.header)
    modifies net
    ensures Uploaded(net, ok)
    ensures ok && net.model.confirmed <= net.executed ==>
              !net.account.Absent? && |net.account.bytes| >= 37 && net.account.bytes[37..] == net.program
  {
    var created := net.Send(Create(|net.cfg.header| + |net.program|));
    if created.None? {
      UploadEnds(net, false);
      return false;
    }
    var outcome, replies := net.WaitForConfirmation(created.value);
    if !outcome.Confirmed? {
      UploadEnds(net, false);
      return false;
    }

    var offset := 0;
    while offset < |net.program|
      invariant net.Valid() && net.model.phase.LoopHead?
      invariant offset == Offset(net.model)
      decreases |net.program| - offset
    {
      ok := WriteChunk(net, offset);
      if !ok {
        UploadEnds(net, false);
        return;
      }
      offset := offset + CHUNK;
    }
    net.Record(Client);
    UploadEnds(net, true);
    ok := true;
    if net.model.confirmed <= net.executed {
      PayloadOfBuffer(net.cfg.header, net.program, net.account);
    }
  }

  /** A buffer that holds its header and the program. */
  lemma PayloadOfBuffer(header: seq<byte>, program: seq<byte>, account: Account)
    requires |header| == 37 && !account.Absent? && account.bytes == header + program
    ensures |account.bytes| >= 37 && account.bytes[37..] == program
  {
  }
}
