/** What `deep_compare` promises: when it is silent, what a larger ignore set does, and what
    exchanging the sides does. */
module ComparisonTheorems {
  import opened Bytes
  import opened Keys
  import opened Comparison

  // ----- Exactness -----

  lemma EmptyConcat<T>(a: seq<T>, b: seq<T>)
    ensures a + b == [] <==> a == [] && b == []
  {
    assert |a + b| == |a| + |b|;
  }

  predicate KeySilent(reference: Json, target: Json, k: string, path: string, ignore: set<string>)
    requires reference.Obj? && target.Obj?
  {
    KeyDiff(reference, target, k, path, ignore) == []
  }

  predicate ItemSilent(reference: Json, target: Json, i: nat, path: string, ignore: set<string>)
    requires reference.Arr? && target.Arr? && i < Max(|reference.items|, |target.items|)
  {
    ItemDiff(reference, target, i, path, ignore) == []
  }

  lemma {:induction false} KeysDiffEmpty(reference: Json, target: Json, keys: seq<string>, path: string,
      ignore: set<string>)
    requires reference.Obj? && target.Obj?
    ensures KeysDiff(reference, target, keys, path, ignore) == [] <==>
            forall k :: k in keys ==> KeySilent(reference, target, k, path, ignore)
  {
    if keys != [] {
      var before, last := keys[..|keys| - 1], keys[|keys| - 1];
      KeysDiffEmpty(reference, target, before, path, ignore);
      EmptyConcat(KeysDiff(reference, target, before, path, ignore), KeyDiff(reference, target, last, path, ignore));
      assert forall k :: k in keys <==> k in before || k == last;
      assert KeySilent(reference, target, last, path, ignore) <==> KeyDiff(reference, target, last, path, ignore) == [];
    }
  }

  lemma {:induction false} ItemsDiffEmpty(reference: Json, target: Json, n: nat, path: string, ignore: set<string>)
    requires reference.Arr? && target.Arr? && n <= Max(|reference.items|, |target.items|)
    ensures ItemsDiff(reference, target, n, path, ignore) == [] <==>
            forall i :: 0 <= i < n ==> ItemSilent(reference, target, i, path, ignore)
  {
    if n > 0 {
      ItemsDiffEmpty(reference, target, n - 1, path, ignore);
      EmptyConcat(ItemsDiff(reference, target, n - 1, path, ignore), ItemDiff(reference, target, n - 1, path, ignore));
      assert ItemSilent(reference, target, n - 1, path, ignore) <==>
        ItemDiff(reference, target, n - 1, path, ignore) == [];
    }
  }

  /** No differences are reported exactly when the pruned values agree: for all values, paths and ignore
      sets, dotted keys and ignored list positions included. */
  lemma {:induction false} SilentExactly(reference: Json, target: Json, path: string, ignore: set<string>)
    ensures Diff(reference, target, path, ignore) == [] <==>
            Agree(Prune(reference, path, ignore), Prune(target, path, ignore))
    decreases reference
  {
    if IgnoredPath(path, ignore) {
    } else if reference.Obj? && target.Obj? {
      KeysDiffEmpty(reference, target, SortedKeys(reference.fields.Keys + target.fields.Keys), path, ignore);
      forall k | k in reference.fields && k in target.fields {
        SilentExactly(reference.fields[k], target.fields[k], ChildPath(path, k), ignore);
      }
      SilentFields(reference, target, path, ignore);
    } else if reference.Arr? && target.Arr? {
      ItemsDiffEmpty(reference, target, Max(|reference.items|, |target.items|), path, ignore);
      forall i | 0 <= i < |reference.items| && i < |target.items| {
        SilentExactly(reference.items[i], target.items[i], ItemPath(path, i), ignore);
      }
      SilentItems(reference, target, path, ignore);
    }
  }

  ghost predicate KeyAgrees(r: map<string, Pruned>, t: map<string, Pruned>, k: string) {
    (k in r <==> k in t) && (k in r && k in t ==> Agree(r[k], t[k]))
  }

  lemma AgreeByKeys(r: map<string, Pruned>, t: map<string, Pruned>, keys: set<string>)
    requires r.Keys <= keys && t.Keys <= keys
    ensures Agree(PObj(r), PObj(t)) <==> forall k :: k in keys ==> KeyAgrees(r, t, k)
  {
    if forall k :: k in keys ==> KeyAgrees(r, t, k) {
      assert forall k :: k in r.Keys ==> k in keys && KeyAgrees(r, t, k);
      assert forall k :: k in t.Keys ==> k in keys && KeyAgrees(r, t, k);
    }
  }

  ghost predicate SilentInside(reference: Json, target: Json, path: string, ignore: set<string>) {
    Diff(reference, target, path, ignore) == [] <==> Agree(Prune(reference, path, ignore), Prune(target, path, ignore))
  }

  lemma SilentFields(reference: Json, target: Json, path: string, ignore: set<string>)
    requires reference.Obj? && target.Obj? && !IgnoredPath(path, ignore)
    requires forall k :: k in reference.fields && k in target.fields ==>
               SilentInside(reference.fields[k], target.fields[k], ChildPath(path, k), ignore)
    ensures (forall k :: k in reference.fields.Keys + target.fields.Keys ==>
            KeySilent(reference, target, k, path, ignore))
            <==> Agree(Prune(reference, path, ignore), Prune(target, path, ignore))
  {
    var r, t := Prune(reference, path, ignore).fields, Prune(target, path, ignore).fields;
    var keys := reference.fields.Keys + target.fields.Keys;
    AgreeByKeys(r, t, keys);
    forall k | k in keys
      ensures KeySilent(reference, target, k, path, ignore) <==> KeyAgrees(r, t, k)
    {
      SilentField(reference, target, k, path, ignore);
    }
  }

  lemma SilentField(reference: Json, target: Json, k: string, path: string, ignore: set<string>)
    requires reference.Obj? && target.Obj? && !IgnoredPath(path, ignore)
    requires k in reference.fields || k in target.fields
    requires k in reference.fields && k in target.fields ==>
               SilentInside(reference.fields[k], target.fields[k], ChildPath(path, k), ignore)
    ensures KeySilent(reference, target, k, path, ignore) <==>
            KeyAgrees(Prune(reference, path, ignore).fields, Prune(target, path, ignore).fields, k)
  {
  }

  lemma SilentItems(reference: Json, target: Json, path: string, ignore: set<string>)
    requires reference.Arr? && target.Arr? && !IgnoredPath(path, ignore)
    requires forall i :: 0 <= i < |reference.items| && i < |target.items| ==>
               SilentInside(reference.items[i], target.items[i], ItemPath(path, i), ignore)
    ensures (forall i :: 0 <= i < Max(|reference.items|, |target.items|) ==>
            ItemSilent(reference, target, i, path, ignore))
            <==> Agree(Prune(reference, path, ignore), Prune(target, path, ignore))
  {
    var r, t := Prune(reference, path, ignore).items, Prune(target, path, ignore).items;
    var n := Max(|r|, |t|);
    if |r| == |t| {
      forall i | 0 <= i < n ensures ItemSilent(reference, target, i, path, ignore) <==> Agree(r[i], t[i]) {
      }
    } else {
      var i := if |r| < |t| then |r| else |t|;
      assert !ItemSilent(reference, target, i, path, ignore);
    }
  }

  lemma {:induction false} AgreeIsReflexive(v: Json, path: string, ignore: set<string>)
    ensures Agree(Prune(v, path, ignore), Prune(v, path, ignore))
    decreases v
  {
    if v.Obj? {
      forall k | k in v.fields {
        AgreeIsReflexive(v.fields[k], ChildPath(path, k), ignore);
      }
    } else if v.Arr? {
      forall i | 0 <= i < |v.items| {
        AgreeIsReflexive(v.items[i], ItemPath(path, i), ignore);
      }
    }
  }

  // ----- Ignore monotonicity -----

  /** `a` is `b` with some elements left out. */
  predicate Sublist<T(==)>(a: seq<T>, b: seq<T>) {
    if a == [] then true
    else if b == [] then false
    else Sublist(a, b[..|b| - 1]) || (a[|a| - 1] == b[|b| - 1] && Sublist(a[..|a| - 1], b[..|b| - 1]))
  }

  lemma {:induction false} SublistConcat<T>(a: seq<T>, b: seq<T>, c: seq<T>, d: seq<T>)
    requires Sublist(a, b) && Sublist(c, d)
    ensures Sublist(a + c, b + d)
  {
    if d == [] {
      assert a + c == a && b + d == b;
    } else {
      assert (b + d)[..|b + d| - 1] == b + d[..|d| - 1];
      if Sublist(c, d[..|d| - 1]) {
        SublistConcat(a, b, c, d[..|d| - 1]);
      } else {
        SublistConcat(a, b, c[..|c| - 1], d[..|d| - 1]);
        assert (a + c)[..|a + c| - 1] == a + c[..|c| - 1];
      }
    }
  }

  lemma {:induction false} SublistReflexive<T>(a: seq<T>)
    ensures Sublist(a, a)
  {
    if a != [] {
      SublistReflexive(a[..|a| - 1]);
    }
  }

  /** Ignoring more only removes differences; those that remain keep their order. */
  lemma {:induction false} IgnoringMoreReportsLess(reference: Json, target: Json, path: string, small: set<string>,
      large: set<string>)
    requires small <= large
    ensures Sublist(Diff(reference, target, path, large), Diff(reference, target, path, small))
    decreases reference, 1, 0
  {
    if IgnoredPath(path, large) {
    } else if reference.Obj? && target.Obj? {
      KeysSublist(reference, target, SortedKeys(reference.fields.Keys + target.fields.Keys), path, small, large);
    } else if reference.Arr? && target.Arr? {
      ItemsSublist(reference, target, Max(|reference.items|, |target.items|), path, small, large);
    } else {
      SublistReflexive(LeafDiff(reference, target, path));
    }
  }

  lemma {:induction false} KeysSublist(reference: Json, target: Json, keys: seq<string>, path: string,
      small: set<string>, large: set<string>)
    requires small <= large && reference.Obj? && target.Obj?
    ensures Sublist(KeysDiff(reference, target, keys, path, large), KeysDiff(reference, target, keys, path, small))
    decreases reference, 0, |keys|
  {
    if keys != [] {
      var before, k := keys[..|keys| - 1], keys[|keys| - 1];
      KeysSublist(reference, target, before, path, small, large);
      if k in reference.fields && k in target.fields {
        IgnoringMoreReportsLess(reference.fields[k], target.fields[k], ChildPath(path, k), small, large);
      } else {
        SublistReflexive(KeyDiff(reference, target, k, path, small));
      }
      SublistConcat(KeysDiff(reference, target, before, path, large), KeysDiff(reference, target, before, path, small),
                    KeyDiff(reference, target, k, path, large), KeyDiff(reference, target, k, path, small));
    }
  }

  lemma {:induction false} ItemsSublist(reference: Json, target: Json, n: nat, path: string, small: set<string>,
      large: set<string>)
    requires small <= large && reference.Arr? && target.Arr? && n <= Max(|reference.items|, |target.items|)
    ensures Sublist(ItemsDiff(reference, target, n, path, large), ItemsDiff(reference, target, n, path, small))
    decreases reference, 0, n
  {
    if n > 0 {
      ItemsSublist(reference, target, n - 1, path, small, large);
      if n <= |reference.items| && n <= |target.items| {
        IgnoringMoreReportsLess(reference.items[n - 1], target.items[n - 1], ItemPath(path, n - 1), small, large);
      } else {
        SublistReflexive(ItemDiff(reference, target, n - 1, path, small));
      }
      SublistConcat(ItemsDiff(reference, target, n - 1, path, large), ItemsDiff(reference, target, n - 1, path, small),
                    ItemDiff(reference, target, n - 1, path, large), ItemDiff(reference, target, n - 1, path, small));
    }
  }

  // ----- The mirror law -----

  function Mirror(d: FieldDiff): FieldDiff {
    var kind := match d.kind case MissingField => ExtraField case ExtraField => MissingField case _ => d.kind;
    FieldDiff(d.path, kind, d.target, d.reference)
  }

  function MirrorAll(diffs: seq<FieldDiff>): (mirrored: seq<FieldDiff>)
    ensures |mirrored| == |diffs|
  {
    seq(|diffs|, i requires 0 <= i < |diffs| => Mirror(diffs[i]))
  }

  predicate Mixed(a: Json, b: Json) {
    (a.Bool? && b.Int?) || (a.Int? && b.Bool?)
  }

  /** No position that is compared pairs a boolean with an integer. */
  ghost predicate NoMixedPair(reference: Json, target: Json, path: string, ignore: set<string>)
    decreases reference
  {
    if IgnoredPath(path, ignore) then true
    else if reference.Obj? && target.Obj? then
      forall k :: k in reference.fields && k in target.fields && !IgnoredKey(path, k, ignore) ==>
        NoMixedPair(reference.fields[k], target.fields[k], ChildPath(path, k), ignore)
    else if reference.Arr? && target.Arr? then
      forall i :: 0 <= i < |reference.items| && i < |target.items| ==>
        NoMixedPair(reference.items[i], target.items[i], ItemPath(path, i), ignore)
    else !Mixed(reference, target)
  }

  lemma MirrorConcat(a: seq<FieldDiff>, b: seq<FieldDiff>)
    ensures MirrorAll(a + b) == MirrorAll(a) + MirrorAll(b)
  {
  }

  lemma {:induction false} MirrorHolds(reference: Json, target: Json, path: string, ignore: set<string>)
    requires NoMixedPair(reference, target, path, ignore)
    ensures Diff(target, reference, path, ignore) == MirrorAll(Diff(reference, target, path, ignore))
    decreases reference, 1, 0
  {
    if IgnoredPath(path, ignore) {
    } else if reference.Obj? && target.Obj? {
      assert reference.fields.Keys + target.fields.Keys == target.fields.Keys + reference.fields.Keys;
      KeysMirror(reference, target, SortedKeys(reference.fields.Keys + target.fields.Keys), path, ignore);
    } else if reference.Arr? && target.Arr? {
      ItemsMirror(reference, target, Max(|reference.items|, |target.items|), path, ignore);
    } else {
      assert SameType(reference, target) <==> SameType(target, reference);
    }
  }

  lemma {:induction false} KeysMirror(reference: Json, target: Json, keys: seq<string>, path: string,
      ignore: set<string>)
    requires reference.Obj? && target.Obj? && !IgnoredPath(path, ignore) && NoMixedPair(reference, target, path, ignore)
    ensures KeysDiff(target, reference, keys, path, ignore) == MirrorAll(KeysDiff(reference, target, keys, path,
            ignore))
    decreases reference, 0, |keys|
  {
    if keys != [] {
      var before, k := keys[..|keys| - 1], keys[|keys| - 1];
      KeysMirror(reference, target, before, path, ignore);
      if k in reference.fields && k in target.fields && !IgnoredKey(path, k, ignore) {
        MirrorHolds(reference.fields[k], target.fields[k], ChildPath(path, k), ignore);
      }
      assert KeyDiff(target, reference, k, path, ignore) == MirrorAll(KeyDiff(reference, target, k, path, ignore));
      MirrorConcat(KeysDiff(reference, target, before, path, ignore), KeyDiff(reference, target, k, path, ignore));
    }
  }

  lemma {:induction false} ItemsMirror(reference: Json, target: Json, n: nat, path: string, ignore: set<string>)
    requires reference.Arr? && target.Arr? && !IgnoredPath(path, ignore) && NoMixedPair(reference, target, path, ignore)
    requires n <= Max(|reference.items|, |target.items|)
    ensures ItemsDiff(target, reference, n, path, ignore) == MirrorAll(ItemsDiff(reference, target, n, path, ignore))
    decreases reference, 0, n
  {
    if n > 0 {
      var i := n - 1;
      ItemsMirror(reference, target, i, path, ignore);
      if i < |reference.items| && i < |target.items| {
        MirrorHolds(reference.items[i], target.items[i], ItemPath(path, i), ignore);
      }
      assert ItemDiff(target, reference, i, path, ignore) == MirrorAll(ItemDiff(reference, target, i, path, ignore));
      MirrorConcat(ItemsDiff(reference, target, i, path, ignore), ItemDiff(reference, target, i, path, ignore));
    }
  }

  /** A report that only an integer reference against a boolean target produces. */
  predicate IntAgainstBool(d: FieldDiff) {
    d.kind.TypeMismatch? && d.reference.Some? && d.reference.value.Int? && d.target.Some? && d.target.value.Bool?
  }

  /** A report no comparison produces. */
  predicate BoolAgainstInt(d: FieldDiff) {
    d.kind.TypeMismatch? && d.reference.Some? && d.reference.value.Bool? && d.target.Some? && d.target.value.Int?
  }

  lemma {:induction false} NeverBoolAgainstInt(reference: Json, target: Json, path: string, ignore: set<string>)
    ensures forall d :: d in Diff(reference, target, path, ignore) ==> !BoolAgainstInt(d)
    decreases reference, 1, 0
  {
    if IgnoredPath(path, ignore) {
    } else if reference.Obj? && target.Obj? {
      KeysNeverBoolAgainstInt(reference, target, SortedKeys(reference.fields.Keys + target.fields.Keys), path, ignore);
    } else if reference.Arr? && target.Arr? {
      ItemsNeverBoolAgainstInt(reference, target, Max(|reference.items|, |target.items|), path, ignore);
    }
  }

  lemma {:induction false} KeysNeverBoolAgainstInt(reference: Json, target: Json, keys: seq<string>, path: string,
      ignore: set<string>)
    requires reference.Obj? && target.Obj?
    ensures forall d :: d in KeysDiff(reference, target, keys, path, ignore) ==> !BoolAgainstInt(d)
    decreases reference, 0, |keys|
  {
    if keys != [] {
      var k := keys[|keys| - 1];
      KeysNeverBoolAgainstInt(reference, target, keys[..|keys| - 1], path, ignore);
      if k in reference.fields && k in target.fields {
        NeverBoolAgainstInt(reference.fields[k], target.fields[k], ChildPath(path, k), ignore);
      }
      assert forall d :: d in KeyDiff(reference, target, k, path, ignore) ==> !BoolAgainstInt(d);
    }
  }

  lemma {:induction false} ItemsNeverBoolAgainstInt(reference: Json, target: Json, n: nat, path: string,
      ignore: set<string>)
    requires reference.Arr? && target.Arr? && n <= Max(|reference.items|, |target.items|)
    ensures forall d :: d in ItemsDiff(reference, target, n, path, ignore) ==> !BoolAgainstInt(d)
    decreases reference, 0, n
  {
    if n > 0 {
      ItemsNeverBoolAgainstInt(reference, target, n - 1, path, ignore);
      if n <= |reference.items| && n <= |target.items| {
        NeverBoolAgainstInt(reference.items[n - 1], target.items[n - 1], ItemPath(path, n - 1), ignore);
      }
      assert forall d :: d in ItemDiff(reference, target, n - 1, path, ignore) ==> !BoolAgainstInt(d);
    }
  }

  /** A compared boolean/integer pair leaves its mark in one of the two directions. */
  lemma {:induction false} MixedPairIsSeen(reference: Json, target: Json, path: string,
      ignore: set<string>) returns (d: FieldDiff)
    requires !NoMixedPair(reference, target, path, ignore)
    ensures IntAgainstBool(d)
    ensures d in Diff(reference, target, path, ignore) || d in Diff(target, reference, path, ignore)
    decreases reference
  {
    if reference.Obj? && target.Obj? {
      var k :| k in reference.fields && k in target.fields && !IgnoredKey(path, k, ignore)
            && !NoMixedPair(reference.fields[k], target.fields[k], ChildPath(path, k), ignore);
      d := MixedPairIsSeen(reference.fields[k], target.fields[k], ChildPath(path, k), ignore);
      var keys := SortedKeys(reference.fields.Keys + target.fields.Keys);
      assert reference.fields.Keys + target.fields.Keys == target.fields.Keys + reference.fields.Keys;
      assert k in keys;
      KeyDiffIncluded(reference, target, keys, k, path, ignore);
      KeyDiffIncluded(target, reference, keys, k, path, ignore);
    } else if reference.Arr? && target.Arr? {
      var i :| 0 <= i < |reference.items| && i < |target.items|
            && !NoMixedPair(reference.items[i], target.items[i], ItemPath(path, i), ignore);
      d := MixedPairIsSeen(reference.items[i], target.items[i], ItemPath(path, i), ignore);
      var n := Max(|reference.items|, |target.items|);
      ItemDiffIncluded(reference, target, n, i, path, ignore);
      ItemDiffIncluded(target, reference, n, i, path, ignore);
    } else if reference.Int? {
      d := FieldDiff(path, TypeMismatch, Some(reference), Some(target));
    } else {
      d := FieldDiff(path, TypeMismatch, Some(target), Some(reference));
    }
  }

  lemma {:induction false} KeyDiffIncluded(reference: Json, target: Json, keys: seq<string>, k: string, path: string,
      ignore: set<string>)
    requires reference.Obj? && target.Obj? && k in keys
    ensures forall d :: d in KeyDiff(reference, target, k, path, ignore) ==>
            d in KeysDiff(reference, target, keys, path, ignore)
  {
    if keys[|keys| - 1] != k {
      assert k in keys[..|keys| - 1];
      KeyDiffIncluded(reference, target, keys[..|keys| - 1], k, path, ignore);
    }
  }

  lemma {:induction false} ItemDiffIncluded(reference: Json, target: Json, n: nat, i: nat, path: string,
      ignore: set<string>)
    requires reference.Arr? && target.Arr? && i < n <= Max(|reference.items|, |target.items|)
    ensures forall d :: d in ItemDiff(reference, target, i, path, ignore) ==>
            d in ItemsDiff(reference, target, n, path, ignore)
  {
    if i < n - 1 {
      ItemDiffIncluded(reference, target, n - 1, i, path, ignore);
    }
  }

  lemma MarkBreaksMirror(d: FieldDiff, forth: seq<FieldDiff>, back: seq<FieldDiff>)
    requires IntAgainstBool(d) && (d in forth || d in back)
    requires forall e :: e in forth ==> !BoolAgainstInt(e)
    requires forall e :: e in back ==> !BoolAgainstInt(e)
    ensures back != MirrorAll(forth)
  {
    assert BoolAgainstInt(Mirror(d)) && Mirror(Mirror(d)) == d;
    if d in forth {
      var i :| 0 <= i < |forth| && forth[i] == d;
      assert MirrorAll(forth)[i] == Mirror(d) && Mirror(d) !in back;
    } else {
      assert d !in MirrorAll(forth) by {
        forall i | 0 <= i < |forth| ensures Mirror(forth[i]) != d {
          assert forth[i] in forth && Mirror(Mirror(forth[i])) == forth[i];
        }
      }
    }
  }

  /** Exchanging the two sides exchanges missing and extra and swaps the values, element by element,
      exactly when no compared position pairs a boolean with an integer. */
  lemma MirrorLaw(reference: Json, target: Json, path: string, ignore: set<string>)
    ensures Diff(target, reference, path, ignore) == MirrorAll(Diff(reference, target, path, ignore)) <==>
            NoMixedPair(reference, target, path, ignore)
  {
    if NoMixedPair(reference, target, path, ignore) {
      MirrorHolds(reference, target, path, ignore);
    } else {
      NeverBoolAgainstInt(reference, target, path, ignore);
      NeverBoolAgainstInt(target, reference, path, ignore);
      var d := MixedPairIsSeen(reference, target, path, ignore);
      MarkBreaksMirror(d, Diff(reference, target, path, ignore), Diff(target, reference, path, ignore));
    }
  }
}
