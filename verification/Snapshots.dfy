/** Validator snapshots and their differences: differences add up along any sequence of snapshots. */
module Snapshots {
  import opened Bytes
  import opened Keys

  datatype AccountData = AccountData(lamports: nat, owner: string, executable: bool)

  /** A Python dict from names to accounts or None, with its insertion order. */
  datatype Accounts = Accounts(order: seq<string>, entries: map<string, Option<AccountData>>) {
    ghost predicate Valid() {
      NoDuplicates(order) && forall name :: name in order <==> name in entries
    }

    /** `accounts.get(name) is not None` */
    predicate Has(name: string) {
      name in entries && entries[name].Some?
    }
  }

  datatype Snapshot = Snapshot(slot: int, blockHeight: int, epoch: int, transactionCount: int,
                               balances: map<string, int>, accounts: Accounts)
  {
    ghost predicate Valid() {
      accounts.Valid()
    }

    /** `balances.get(name, 0)` */
    function Balance(name: string): int {
      if name in balances then balances[name] else 0
    }

    function Existence(name: string): int {
      if accounts.Has(name) then 1 else 0
    }
  }

  datatype StateDiff = StateDiff(slotDelta: int, blockHeightDelta: int, epochChanged: bool, txCountDelta: int,
                                 balanceChanges: map<string, int>, created: seq<string>, removed: seq<string>)
  {
    predicate HasChanges() {
      slotDelta != 0 || txCountDelta != 0 || balanceChanges != map[] || created != [] || removed != []
    }

    function Change(name: string): int {
      if name in balanceChanges then balanceChanges[name] else 0
    }
  }

  /** `[name for name in order if has(name) and not lacks(name)]` */
  function Appeared(order: seq<string>, now: Accounts, before: Accounts): seq<string> {
    if order == [] then []
    else
      var name := order[|order| - 1];
      Appeared(order[..|order| - 1], now, before) + (if now.Has(name) && !before.Has(name) then [name] else [])
  }

  function Changes(before: Snapshot, after: Snapshot): map<string, int> {
    map name | name in before.balances.Keys + after.balances.Keys && before.Balance(name) != after.Balance(name)
      :: after.Balance(name) - before.Balance(name)
  }

  function DiffOf(before: Snapshot, after: Snapshot): StateDiff {
    StateDiff(after.slot - before.slot, after.blockHeight - before.blockHeight, after.epoch != before.epoch,
              after.transactionCount - before.transactionCount, Changes(before, after),
              Appeared(after.accounts.order, after.accounts, before.accounts),
              Appeared(before.accounts.order, before.accounts, after.accounts))
  }

  /** `StateCapture.diff`: the loop visits the names in no particular order. */
  method Diff(before: Snapshot, after: Snapshot) returns (diff: StateDiff)
    ensures diff == DiffOf(before, after)
  {
    var names := before.balances.Keys + after.balances.Keys;
    var changes: map<string, int> := map[];
    var rest := names;
    while rest != {}
      invariant rest <= names
      invariant changes == map name | name in names - rest && before.Balance(name) != after.Balance(name)
                             :: after.Balance(name) - before.Balance(name)
      decreases rest
    {
      var name :| name in rest;
      var oldBalance, newBalance := before.Balance(name), after.Balance(name);
      if oldBalance != newBalance {
        changes := changes[name := newBalance - oldBalance];
      }
      rest := rest - {name};
    }
    assert names - {} == names;
    diff := StateDiff(after.slot - before.slot, after.blockHeight - before.blockHeight, after.epoch != before.epoch,
                      after.transactionCount - before.transactionCount, changes,
                      Appeared(after.accounts.order, after.accounts, before.accounts),
                      Appeared(before.accounts.order, before.accounts, after.accounts));
  }

  // ----- One difference -----

  lemma {:induction false} AppearedExactly(order: seq<string>, now: Accounts, before: Accounts)
    requires NoDuplicates(order)
    ensures forall name :: name in Appeared(order, now, before) <==> name in order && now.Has(name) && !before.Has(name)
    ensures NoDuplicates(Appeared(order, now, before))
  {
    if order != [] {
      var init, name := order[..|order| - 1], order[|order| - 1];
      AppearedExactly(init, now, before);
      assert name !in init;
      assert forall other :: other in order <==> other in init || other == name;
      assert forall k :: 0 <= k < |Appeared(init, now, before)| ==> Appeared(init, now, before)[k] in init;
    }
  }

  ghost predicate Precedes(order: seq<string>, a: string, b: string) {
    exists p, q :: 0 <= p < q < |order| && order[p] == a && order[q] == b
  }

  lemma PrecedesLonger(order: seq<string>, name: string, a: string, b: string)
    requires Precedes(order, a, b) || (a in order && b == name)
    ensures Precedes(order + [name], a, b)
  {
    var longer := order + [name];
    if Precedes(order, a, b) {
      var p, q :| 0 <= p < q < |order| && order[p] == a && order[q] == b;
      assert longer[p] == a && longer[q] == b;
    } else {
      var p :| 0 <= p < |order| && order[p] == a;
      assert longer[p] == a && longer[|order|] == b;
    }
  }

  /** `list` names members of `order` in their order. */
  ghost predicate InOrderOf(order: seq<string>, list: seq<string>) {
    && (forall name :: name in list ==> name in order)
    && (forall i, j :: 0 <= i < j < |list| ==> Precedes(order, list[i], list[j]))
  }

  lemma InOrderLonger(order: seq<string>, list: seq<string>, name: string)
    requires InOrderOf(order, list)
    ensures InOrderOf(order + [name], list) && InOrderOf(order + [name], list + [name])
  {
    var longer := list + [name];
    forall i, j | 0 <= i < j < |longer| ensures Precedes(order + [name], longer[i], longer[j]) {
      assert longer[i] == list[i] && list[i] in list;
      PrecedesLonger(order, name, longer[i], longer[j]);
    }
    forall i, j | 0 <= i < j < |list| ensures Precedes(order + [name], list[i], list[j]) {
      PrecedesLonger(order, name, list[i], list[j]);
    }
  }

  /** The lists keep the order of the snapshot they are taken from. */
  lemma {:induction false} AppearedInOrder(order: seq<string>, now: Accounts, before: Accounts)
    ensures InOrderOf(order, Appeared(order, now, before))
  {
    if order != [] {
      var init, name := order[..|order| - 1], order[|order| - 1];
      AppearedInOrder(init, now, before);
      assert order == init + [name];
      InOrderLonger(init, Appeared(init, now, before), name);
    }
  }

  /** The balance a snapshot tells for a name, 0 if it has none. */
  ghost predicate Tells(s: Snapshot, name: string, balance: int) {
    if name in s.balances then s.balances[name] == balance else balance == 0
  }

  /** A snapshot has data for the account. */
  ghost predicate Holds(s: Snapshot, name: string) {
    exists data :: name in s.accounts.entries && s.accounts.entries[name] == Some(data)
  }

  lemma HoldsHas(s: Snapshot, name: string)
    ensures s.accounts.Has(name) <==> Holds(s, name)
    ensures Tells(s, name, s.Balance(name))
  {
    if s.accounts.Has(name) {
      assert s.accounts.entries[name] == Some(s.accounts.entries[name].value);
    }
  }

  /** The difference, field by field, in terms of what the snapshots hold. */
  lemma DiffMeaning(before: Snapshot, after: Snapshot, name: string, was: int, now: int)
    requires before.Valid() && after.Valid() && Tells(before, name, was) && Tells(after, name, now)
    ensures var d := DiffOf(before, after);
            && before.slot + d.slotDelta == after.slot
            && before.blockHeight + d.blockHeightDelta == after.blockHeight
            && before.transactionCount + d.txCountDelta == after.transactionCount
            && (d.epochChanged <==> before.epoch != after.epoch)
            && (name in d.balanceChanges <==> was != now)
            && (name in d.balanceChanges ==> was + d.balanceChanges[name] == now)
            && (name in d.created <==> Holds(after, name) && !Holds(before, name))
            && (name in d.removed <==> Holds(before, name) && !Holds(after, name))
            && InOrderOf(after.accounts.order, d.created) && InOrderOf(before.accounts.order, d.removed)
  {
    HoldsHas(before, name);
    HoldsHas(after, name);
    DiffExactly(before, after, name);
    AppearedInOrder(after.accounts.order, after.accounts, before.accounts);
    AppearedInOrder(before.accounts.order, before.accounts, after.accounts);
  }

  /** A difference says exactly what changed: every balance change, each account that appeared or
      disappeared once, and applied to `before` it gives `after`, name by name. */
  lemma DiffExactly(before: Snapshot, after: Snapshot, name: string)
    requires before.Valid() && after.Valid()
    ensures var d := DiffOf(before, after);
            && before.Balance(name) + d.Change(name) == after.Balance(name)
            && (name in d.balanceChanges <==> before.Balance(name) != after.Balance(name))
            && (name in d.created <==> after.accounts.Has(name) && !before.accounts.Has(name))
            && (name in d.removed <==> before.accounts.Has(name) && !after.accounts.Has(name))
            && NoDuplicates(d.created) && NoDuplicates(d.removed)
  {
    AppearedExactly(after.accounts.order, after.accounts, before.accounts);
    AppearedExactly(before.accounts.order, before.accounts, after.accounts);
  }

  /** Looking backwards exchanges created and removed, lists and order included, and negates the rest. */
  lemma DiffReversed(before: Snapshot, after: Snapshot, name: string)
    requires before.Valid() && after.Valid()
    ensures var d, r := DiffOf(before, after), DiffOf(after, before);
            && r.created == d.removed && r.removed == d.created
            && r.Change(name) == -d.Change(name)
            && r.balanceChanges.Keys == d.balanceChanges.Keys
            && r.slotDelta == -d.slotDelta && r.blockHeightDelta == -d.blockHeightDelta
            && r.txCountDelta == -d.txCountDelta && r.epochChanged == d.epochChanged
            && r.HasChanges() == d.HasChanges()
  {
    var d, r := DiffOf(before, after), DiffOf(after, before);
    assert r.balanceChanges.Keys == d.balanceChanges.Keys;
    assert r.balanceChanges == map[] <==> r.balanceChanges.Keys == {};
    assert d.balanceChanges == map[] <==> d.balanceChanges.Keys == {};
  }

  /** No balance, no account, no slot and no transaction count changed. */
  ghost predicate Unchanged(before: Snapshot, after: Snapshot) {
    && before.slot == after.slot
    && before.transactionCount == after.transactionCount
    && (forall name: string :: before.Balance(name) == after.Balance(name))
    && (forall name: string :: before.accounts.Has(name) == after.accounts.Has(name))
  }

  /** `has_changes` is documented to say whether any state changed. It says exactly whether the slot, the
      transaction count, a balance or an account's existence did: a new block height or epoch alone does
      not count. */
  lemma HasChangesExactly(before: Snapshot, after: Snapshot)
    requires before.Valid() && after.Valid()
    ensures DiffOf(before, after).HasChanges() <==> !Unchanged(before, after)
  {
    var d := DiffOf(before, after);
    AppearedExactly(after.accounts.order, after.accounts, before.accounts);
    AppearedExactly(before.accounts.order, before.accounts, after.accounts);
    if !d.HasChanges() {
      forall name: string
        ensures before.Balance(name) == after.Balance(name) && before.accounts.Has(name) == after.accounts.Has(name)
      {
        DiffExactly(before, after, name);
      }
    } else if d.balanceChanges != map[] {
      var name :| name in d.balanceChanges;
      assert before.Balance(name) != after.Balance(name);
    } else if d.created != [] {
      assert d.created[0] in d.created;
    } else if d.removed != [] {
      assert d.removed[0] in d.removed;
    }
  }

  lemma NewEpochIsNotAChange(s: Snapshot)
    requires s.Valid()
    ensures DiffOf(s, s.(epoch := s.epoch + 1, blockHeight := s.blockHeight + 1)).epochChanged
    ensures !DiffOf(s, s.(epoch := s.epoch + 1, blockHeight := s.blockHeight + 1)).HasChanges()
  {
    var s' := s.(epoch := s.epoch + 1, blockHeight := s.blockHeight + 1);
    HasChangesExactly(s, s');
    assert forall name: string :: s.Balance(name) == s'.Balance(name);
  }

  // ----- Sequences of snapshots -----

  /** Balance changes of `name` along consecutive differences. */
  function SumChanges(s: seq<Snapshot>, name: string): int {
    if |s| < 2 then 0
    else SumChanges(s[..|s| - 1], name) + DiffOf(s[|s| - 2], s[|s| - 1]).Change(name)
  }

  function SumSlots(s: seq<Snapshot>): int {
    if |s| < 2 then 0 else SumSlots(s[..|s| - 1]) + DiffOf(s[|s| - 2], s[|s| - 1]).slotDelta
  }

  function SumHeights(s: seq<Snapshot>): int {
    if |s| < 2 then 0 else SumHeights(s[..|s| - 1]) + DiffOf(s[|s| - 2], s[|s| - 1]).blockHeightDelta
  }

  function SumTransactions(s: seq<Snapshot>): int {
    if |s| < 2 then 0 else SumTransactions(s[..|s| - 1]) + DiffOf(s[|s| - 2], s[|s| - 1]).txCountDelta
  }

  function CountCreated(s: seq<Snapshot>, name: string): nat {
    if |s| < 2 then 0
    else CountCreated(s[..|s| - 1], name) + (if name in DiffOf(s[|s| - 2], s[|s| - 1]).created then 1 else 0)
  }

  function CountRemoved(s: seq<Snapshot>, name: string): nat {
    if |s| < 2 then 0
    else CountRemoved(s[..|s| - 1], name) + (if name in DiffOf(s[|s| - 2], s[|s| - 1]).removed then 1 else 0)
  }

  ghost predicate AllValid(s: seq<Snapshot>) {
    forall i :: 0 <= i < |s| ==> s[i].Valid()
  }

  /** Differences compose: along any sequence the changes add up to the change from first to last. */
  lemma {:induction false} DiffsCompose(s: seq<Snapshot>, name: string)
    requires s != [] && AllValid(s)
    ensures var whole := DiffOf(s[0], s[|s| - 1]);
            && SumChanges(s, name) == whole.Change(name)
            && SumSlots(s) == whole.slotDelta
            && SumHeights(s) == whole.blockHeightDelta
            && SumTransactions(s) == whole.txCountDelta
  {
    DiffExactly(s[0], s[|s| - 1], name);
    if |s| >= 2 {
      DiffsCompose(s[..|s| - 1], name);
      DiffExactly(s[|s| - 2], s[|s| - 1], name);
      DiffExactly(s[0], s[|s| - 2], name);
    }
  }

  /** Existence is conserved: creations minus removals is final minus initial existence. */
  lemma {:induction false} ExistenceIsConserved(s: seq<Snapshot>, name: string)
    requires s != [] && AllValid(s)
    ensures CountCreated(s, name) - CountRemoved(s, name) == s[|s| - 1].Existence(name) - s[0].Existence(name)
  {
    if |s| >= 2 {
      ExistenceIsConserved(s[..|s| - 1], name);
      DiffExactly(s[|s| - 2], s[|s| - 1], name);
    }
  }

  /** Existence flips somewhere between two snapshots that differ in it. */
  lemma {:induction false} FlipBetween(s: seq<Snapshot>, name: string, lo: nat, hi: nat) returns (k: nat)
    requires lo < hi < |s| && s[lo].accounts.Has(name) != s[hi].accounts.Has(name)
    ensures lo <= k < hi
    ensures s[k].accounts.Has(name) == s[lo].accounts.Has(name) != s[k + 1].accounts.Has(name)
    decreases hi - lo
  {
    if s[hi - 1].accounts.Has(name) == s[lo].accounts.Has(name) {
      k := hi - 1;
    } else {
      k := FlipBetween(s, name, lo, hi - 1);
    }
  }

  ghost predicate CreatedAt(s: seq<Snapshot>, name: string, i: nat)
    requires i + 1 < |s|
  {
    name in DiffOf(s[i], s[i + 1]).created
  }

  ghost predicate RemovedAt(s: seq<Snapshot>, name: string, i: nat)
    requires i + 1 < |s|
  {
    name in DiffOf(s[i], s[i + 1]).removed
  }

  lemma EventsAreFlips(s: seq<Snapshot>, name: string, i: nat)
    requires AllValid(s) && i + 1 < |s|
    ensures CreatedAt(s, name, i) <==> s[i + 1].accounts.Has(name) && !s[i].accounts.Has(name)
    ensures RemovedAt(s, name, i) <==> s[i].accounts.Has(name) && !s[i + 1].accounts.Has(name)
  {
    DiffExactly(s[i], s[i + 1], name);
  }

  /** Creations and removals alternate: between two creations of a name there is a removal of it, and
      between two removals a creation. */
  lemma CreationsAlternate(s: seq<Snapshot>, name: string, i: nat, j: nat) returns (k: nat)
    requires AllValid(s) && i < j && j + 1 < |s|
    requires (CreatedAt(s, name, i) && CreatedAt(s, name, j)) || (RemovedAt(s, name, i) && RemovedAt(s, name, j))
    ensures i < k < j
    ensures if CreatedAt(s, name, i) then RemovedAt(s, name, k) else CreatedAt(s, name, k)
  {
    EventsAreFlips(s, name, i);
    EventsAreFlips(s, name, j);
    k := FlipBetween(s, name, i + 1, j);
    EventsAreFlips(s, name, k);
  }
}
