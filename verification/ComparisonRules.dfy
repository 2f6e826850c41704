/** The rules of `deep_compare` written out: which positions and keys it skips, what it reports for a leaf,
    a key and an item, and in which order. */
module ComparisonRules {
  import opened Bytes
  import opened Keys
  import opened Comparison
  import opened ComparisonTheorems

  // ----- Ignored positions -----

  /** `last` is what follows the last "." of `path`, all of it if there is none. */
  predicate LastPart(path: string, last: string) {
    && '.' !in last && |last| <= |path| && path[|path| - |last|..] == last
    && (|last| == |path| || path[|path| - |last| - 1] == '.')
  }

  lemma {:induction false} LastSegmentIsLastPart(path: string)
    ensures LastPart(path, LastSegment(path))
  {
    if path != "" && path[|path| - 1] != '.' {
      var init, c := path[..|path| - 1], path[|path| - 1];
      LastSegmentIsLastPart(init);
      assert path == init + [c];
      LongerLastPart(init, LastSegment(init), c);
    }
  }

  lemma LongerLastPart(path: string, last: string, c: char)
    requires LastPart(path, last) && c != '.'
    ensures LastPart(path + [c], last + [c])
  {
    var n := |path| - |last|;
    assert (path + [c])[n..] == path[n..] + [c];
    assert n > 0 ==> (path + [c])[n - 1] == path[n - 1];
  }

  lemma LastPartIsUnique(path: string, last: string, last': string)
    requires LastPart(path, last) && LastPart(path, last')
    ensures last == last'
  {
    if |last| < |last'| {
      NoDotBefore(path, last, last');
    } else if |last'| < |last| {
      NoDotBefore(path, last', last);
    }
  }

  lemma NoDotBefore(path: string, shorter: string, longer: string)
    requires LastPart(path, shorter) && |shorter| < |longer| <= |path| && path[|path| - |longer|..] == longer
    ensures '.' in longer
  {
    assert longer[|longer| - |shorter| - 1] == path[|path| - |shorter| - 1];
  }

  lemma IgnoredExactly(path: string, last: string, ignore: set<string>)
    requires LastPart(path, last)
    ensures IgnoredPath(path, ignore) <==> path in ignore || last in ignore
  {
    LastSegmentIsLastPart(path);
    LastPartIsUnique(path, last, LastSegment(path));
  }

  /** A position whose path or last part is ignored is never reported, nor anything below it. */
  lemma IgnoredPositionIsSilent(reference: Json, target: Json, path: string, last: string, ignore: set<string>)
    requires LastPart(path, last) && (path in ignore || last in ignore)
    ensures Diff(reference, target, path, ignore) == []
  {
    IgnoredExactly(path, last, ignore);
  }

  // ----- Leaves -----

  /** Equal as Python sees it: `True` is 1 and `False` is 0, on the reference side. */
  predicate SameLeaf(reference: Json, target: Json) {
    || reference == target
    || (reference == Bool(true) && target == Int(1))
    || (reference == Bool(false) && target == Int(0))
  }

  /** Leaves of one type; a boolean reference is also an integer. */
  predicate SameKind(reference: Json, target: Json) {
    || (reference.Null? && target.Null?) || (reference.Bool? && target.Bool?) || (reference.Int? && target.Int?)
    || (reference.Float? && target.Float?) || (reference.Str? && target.Str?) || (reference.Bool? && target.Int?)
  }

  /** At a position that is not ignored and where not both sides are objects or both lists: nothing if the
      sides are the same, otherwise one report, whose kind tells whether the types differ. */
  lemma LeafReport(reference: Json, target: Json, path: string, last: string, ignore: set<string>)
    requires LastPart(path, last) && path !in ignore && last !in ignore
    requires !(reference.Obj? && target.Obj?) && !(reference.Arr? && target.Arr?)
    ensures Diff(reference, target, path, ignore) ==
            if SameLeaf(reference, target) then []
            else [FieldDiff(path, if SameKind(reference, target) then ValueMismatch else TypeMismatch,
                            Some(reference), Some(target))]
  {
    IgnoredExactly(path, last, ignore);
  }

  // ----- Keys -----

  /** The path of field `k` of the object at `path`. */
  predicate FieldPath(path: string, k: string, child: string) {
    child == if path == "" then k else path + "." + k
  }

  /** Key `k` accounts for report `d`: it is not ignored, by name or by path, and it is on one side only, or
      its two values differ. */
  ghost predicate FromKey(r: map<string, Json>, t: map<string, Json>, k: string, child: string, ignore: set<string>,
      d: FieldDiff) {
    && k !in ignore && child !in ignore
    && (|| (k in r && k !in t && d == FieldDiff(child, MissingField, Some(r[k]), None))
        || (k !in r && k in t && d == FieldDiff(child, ExtraField, None, Some(t[k])))
        || (k in r && k in t && d in Diff(r[k], t[k], child, ignore)))
  }

  lemma KeyReports(r: map<string, Json>, t: map<string, Json>, k: string, path: string, child: string,
      ignore: set<string>, d: FieldDiff)
    requires FieldPath(path, k, child)
    ensures d in KeyDiff(Obj(r), Obj(t), k, path, ignore) <==> FromKey(r, t, k, child, ignore, d)
  {
  }

  lemma {:induction false} KeysDiffMember(r: map<string, Json>, t: map<string, Json>, keys: seq<string>, path: string,
      ignore: set<string>, d: FieldDiff)
    ensures d in KeysDiff(Obj(r), Obj(t), keys, path, ignore) <==>
            exists k :: k in keys && InKeyDiff(r, t, k, path, ignore, d)
  {
    if keys != [] {
      var before, last := keys[..|keys| - 1], keys[|keys| - 1];
      KeysDiffMember(r, t, before, path, ignore, d);
      assert forall k :: k in keys <==> k in before || k == last;
      assert InKeyDiff(r, t, last, path, ignore, d) <==> d in KeyDiff(Obj(r), Obj(t), last, path, ignore);
    }
  }

  ghost predicate InKeyDiff(r: map<string, Json>, t: map<string, Json>, k: string, path: string, ignore: set<string>,
      d: FieldDiff) {
    d in KeyDiff(Obj(r), Obj(t), k, path, ignore)
  }

  /** The reports of two objects are exactly those their keys account for. */
  lemma ObjectReports(r: map<string, Json>, t: map<string, Json>, path: string, last: string, ignore: set<string>,
      d: FieldDiff)
    requires LastPart(path, last) && path !in ignore && last !in ignore
    ensures d in Diff(Obj(r), Obj(t), path, ignore) <==>
            exists k, child :: FieldPath(path, k, child) && FromKey(r, t, k, child, ignore, d)
  {
    IgnoredExactly(path, last, ignore);
    var keys := SortedKeys(r.Keys + t.Keys);
    KeysDiffMember(r, t, keys, path, ignore, d);
    if d in Diff(Obj(r), Obj(t), path, ignore) {
      var k :| k in keys && InKeyDiff(r, t, k, path, ignore, d);
      var child := if path == "" then k else path + "." + k;
      KeyReports(r, t, k, path, child, ignore, d);
      assert FieldPath(path, k, child) && FromKey(r, t, k, child, ignore, d);
    }
    if k, child :| FieldPath(path, k, child) && FromKey(r, t, k, child, ignore, d) {
      KeyReports(r, t, k, path, child, ignore, d);
      assert k in keys && InKeyDiff(r, t, k, path, ignore, d);
    }
  }

  // ----- Items -----

  /** Index `i` accounts for report `d`. */
  ghost predicate FromItem(r: seq<Json>, t: seq<Json>, i: nat, path: string, ignore: set<string>, d: FieldDiff) {
    var child := path + "[" + Decimal(i) + "]";
    || (|t| <= i < |r| && d == FieldDiff(child, MissingField, Some(r[i]), None))
    || (|r| <= i < |t| && d == FieldDiff(child, ExtraField, None, Some(t[i])))
    || (i < |r| && i < |t| && d in Diff(r[i], t[i], child, ignore))
  }

  lemma {:induction false} ItemsDiffMember(r: seq<Json>, t: seq<Json>, n: nat, path: string, ignore: set<string>,
      d: FieldDiff)
    requires n <= Max(|r|, |t|)
    ensures d in ItemsDiff(Arr(r), Arr(t), n, path, ignore) <==>
            exists i: nat :: i < n && FromItem(r, t, i, path, ignore, d)
  {
    if n > 0 {
      ItemsDiffMember(r, t, n - 1, path, ignore, d);
      assert d in ItemDiff(Arr(r), Arr(t), n - 1, path, ignore) <==> FromItem(r, t, n - 1, path, ignore, d);
    }
  }

  /** The reports of two lists are exactly those their indices account for: an item on one side only is
      reported even if its position is ignored. */
  lemma ListReports(r: seq<Json>, t: seq<Json>, path: string, last: string, ignore: set<string>, d: FieldDiff)
    requires LastPart(path, last) && path !in ignore && last !in ignore
    ensures d in Diff(Arr(r), Arr(t), path, ignore) <==> exists i: nat :: FromItem(r, t, i, path, ignore, d)
  {
    IgnoredExactly(path, last, ignore);
    ItemsDiffMember(r, t, Max(|r|, |t|), path, ignore, d);
  }

  // ----- Order -----

  ghost predicate AllBelow(a: set<string>, b: set<string>) {
    forall x, y :: x in a && y in b ==> x != y && StringLeq(x, y)
  }

  lemma LeastIs(k: string, keys: set<string>)
    requires IsLeast(k, keys)
    ensures Least(keys) == k
  {
    LeqIsTotal(k, Least(keys));
  }

  lemma {:induction false} SortedAppend(a: set<string>, b: set<string>)
    requires AllBelow(a, b)
    ensures SortedKeys(a + b) == SortedKeys(a) + SortedKeys(b)
    decreases |a|
  {
    if a == {} {
      assert a + b == b;
    } else {
      SortedAppend(a - {Least(a)}, b);
      PutFirst(a, b);
    }
  }

  lemma PutFirst(a: set<string>, b: set<string>)
    requires a != {} && AllBelow(a, b)
    requires SortedKeys((a - {Least(a)}) + b) == SortedKeys(a - {Least(a)}) + SortedKeys(b)
    ensures SortedKeys(a + b) == SortedKeys(a) + SortedKeys(b)
  {
    var k, rest := Least(a), SortedKeys(a - {Least(a)});
    LeastOfUnion(a, b);
    TakeOut(a, b, k);
    SortedStep(a);
    SortedStep(a + b);
    Associate([k], rest, SortedKeys(b));
  }

  lemma TakeOut(a: set<string>, b: set<string>, k: string)
    requires k in a && AllBelow(a, b)
    ensures (a + b) - {k} == (a - {k}) + b
  {
  }

  lemma Associate(a: seq<string>, b: seq<string>, c: seq<string>)
    ensures a + (b + c) == a + b + c
  {
  }

  lemma LeastOfUnion(a: set<string>, b: set<string>)
    requires a != {} && AllBelow(a, b)
    ensures Least(a + b) == Least(a)
  {
    LeastIs(Least(a), a + b);
  }

  lemma SortedStep(keys: set<string>)
    requires keys != {}
    ensures SortedKeys(keys) == [Least(keys)] + SortedKeys(keys - {Least(keys)})
  {
  }

  lemma {:induction false} KeysDiffConcat(reference: Json, target: Json, a: seq<string>, b: seq<string>, path: string,
      ignore: set<string>)
    requires reference.Obj? && target.Obj?
    ensures KeysDiff(reference, target, a + b, path, ignore) ==
            KeysDiff(reference, target, a, path, ignore) + KeysDiff(reference, target, b, path, ignore)
  {
    if b == [] {
      assert a + b == a;
    } else {
      assert (a + b)[..|a + b| - 1] == a + b[..|b| - 1];
      KeysDiffConcat(reference, target, a, b[..|b| - 1], path, ignore);
    }
  }

  /** `r` and `u` have the same field `k`, or both lack it. */
  predicate SameField(r: map<string, Json>, u: map<string, Json>, k: string) {
    (k in r <==> k in u) && (k in r && k in u ==> r[k] == u[k])
  }

  lemma {:induction false} KeysDiffSame(r: map<string, Json>, t: map<string, Json>, r': map<string, Json>,
      t': map<string, Json>, keys: seq<string>, path: string, ignore: set<string>)
    requires forall k :: k in keys ==> SameField(r, r', k) && SameField(t, t', k)
    ensures KeysDiff(Obj(r), Obj(t), keys, path, ignore) == KeysDiff(Obj(r'), Obj(t'), keys, path, ignore)
  {
    if keys != [] {
      var k := keys[|keys| - 1];
      assert SameField(r, r', k) && SameField(t, t', k);
      KeysDiffSame(r, t, r', t', keys[..|keys| - 1], path, ignore);
    }
  }

  /** Reports follow the keys: those of smaller keys come first, each key's once. */
  lemma ReportsFollowKeys(r: map<string, Json>, t: map<string, Json>, r': map<string, Json>, t': map<string, Json>,
      path: string, ignore: set<string>)
    requires AllBelow(r.Keys + t.Keys, r'.Keys + t'.Keys)
    ensures Diff(Obj(r + r'), Obj(t + t'), path, ignore) ==
            Diff(Obj(r), Obj(t), path, ignore) + Diff(Obj(r'), Obj(t'), path, ignore)
  {
    SortedAppend(r.Keys + t.Keys, r'.Keys + t'.Keys);
    BelowIsApart(r.Keys + t.Keys, r'.Keys + t'.Keys);
    DiffOfObjects(r, t, path, ignore);
    DiffOfObjects(r', t', path, ignore);
    DiffOfObjects(r + r', t + t', path, ignore);
    MergedReports(r, t, r', t', path, ignore);
  }

  lemma BelowIsApart(a: set<string>, b: set<string>)
    requires AllBelow(a, b)
    ensures a !! b
  {
  }

  lemma DiffOfObjects(r: map<string, Json>, t: map<string, Json>, path: string, ignore: set<string>)
    ensures Diff(Obj(r), Obj(t), path, ignore) ==
            if IgnoredPath(path, ignore) then []
            else KeysDiff(Obj(r), Obj(t), SortedKeys(r.Keys + t.Keys), path, ignore)
  {
  }

  lemma MergedReports(r: map<string, Json>, t: map<string, Json>, r': map<string, Json>, t': map<string, Json>,
      path: string, ignore: set<string>)
    requires (r.Keys + t.Keys) !! (r'.Keys + t'.Keys)
    requires SortedKeys((r.Keys + t.Keys) + (r'.Keys + t'.Keys)) ==
             SortedKeys(r.Keys + t.Keys) + SortedKeys(r'.Keys + t'.Keys)
    ensures KeysDiff(Obj(r + r'), Obj(t + t'), SortedKeys((r + r').Keys + (t + t').Keys), path, ignore) ==
            KeysDiff(Obj(r), Obj(t), SortedKeys(r.Keys + t.Keys), path, ignore)
            + KeysDiff(Obj(r'), Obj(t'), SortedKeys(r'.Keys + t'.Keys), path, ignore)
  {
    var a, b := r.Keys + t.Keys, r'.Keys + t'.Keys;
    assert (r + r').Keys + (t + t').Keys == a + b;
    MergedKeys(r, t, r', t', SortedKeys(a), SortedKeys(b), path, ignore);
  }

  lemma MergedKeys(r: map<string, Json>, t: map<string, Json>, r': map<string, Json>, t': map<string, Json>,
      a: seq<string>, b: seq<string>, path: string, ignore: set<string>)
    requires forall k :: k in a ==> k !in r' && k !in t'
    requires forall k :: k in b ==> k !in r && k !in t
    ensures KeysDiff(Obj(r + r'), Obj(t + t'), a + b, path, ignore) ==
            KeysDiff(Obj(r), Obj(t), a, path, ignore) + KeysDiff(Obj(r'), Obj(t'), b, path, ignore)
  {
    KeysDiffConcat(Obj(r + r'), Obj(t + t'), a, b, path, ignore);
    KeysDiffSame(r + r', t + t', r, t, a, path, ignore);
    KeysDiffSame(r + r', t + t', r', t', b, path, ignore);
  }

  // ----- Ignored keys -----

  lemma SortedAround(keys: set<string>, k: string) returns (below: set<string>, above: set<string>)
    requires k in keys
    ensures SortedKeys(keys) == SortedKeys(below) + [k] + SortedKeys(above)
    ensures SortedKeys(keys - {k}) == SortedKeys(below) + SortedKeys(above)
  {
    below := set x | x in keys && x != k && StringLeq(x, k);
    above := keys - below - {k};
    Around(below, k, above);
    assert keys - {k} == below + above && keys == below + ({k} + above);
    SortedAppend(below, above);
    SortedAppend({k}, above);
    SortedAppend(below, {k} + above);
    SortedOne(k);
    Associate(SortedKeys(below), [k], SortedKeys(above));
  }

  lemma Around(below: set<string>, k: string, above: set<string>)
    requires forall x :: x in below ==> x != k && StringLeq(x, k)
    requires forall y :: y in above ==> y !in below && y != k && !StringLeq(y, k)
    ensures AllBelow(below, above) && AllBelow({k}, above) && AllBelow(below, {k} + above)
  {
    forall y | y in above ensures StringLeq(k, y) {
      LeqIsTotal(k, y);
    }
    forall x, y | x in below && y in above ensures x != y && StringLeq(x, y) {
      LeqIsTransitive(x, k, y);
    }
  }

  lemma SortedOne(k: string)
    ensures SortedKeys({k}) == [k]
  {
    assert {k} - {k} == {};
    assert Least({k}) == k;
  }

  /** A key that is ignored, by name or by path, makes no difference: the objects might as well lack it. */
  lemma IgnoredKeyIsInvisible(r: map<string, Json>, t: map<string, Json>, k: string, path: string, child: string,
      ignore: set<string>)
    requires FieldPath(path, k, child) && (k in ignore || child in ignore)
    ensures Diff(Obj(r - {k}), Obj(t - {k}), path, ignore) == Diff(Obj(r), Obj(t), path, ignore)
  {
    DiffOfObjects(r, t, path, ignore);
    DiffOfObjects(r - {k}, t - {k}, path, ignore);
    assert (r - {k}).Keys + (t - {k}).Keys == (r.Keys + t.Keys) - {k};
    OtherKeysSame(r, t, k, SortedKeys((r.Keys + t.Keys) - {k}), path, ignore);
    WithoutKey(Obj(r), Obj(t), r.Keys + t.Keys, k, path, ignore);
  }

  lemma OtherKeysSame(r: map<string, Json>, t: map<string, Json>, k: string, keys: seq<string>, path: string,
      ignore: set<string>)
    requires k !in keys
    ensures KeysDiff(Obj(r - {k}), Obj(t - {k}), keys, path, ignore) == KeysDiff(Obj(r), Obj(t), keys, path, ignore)
  {
    KeysDiffSame(r, t, r - {k}, t - {k}, keys, path, ignore);
  }

  lemma WithoutKey(reference: Json, target: Json, keys: set<string>, k: string, path: string, ignore: set<string>)
    requires reference.Obj? && target.Obj? && IgnoredKey(path, k, ignore)
    ensures KeysDiff(reference, target, SortedKeys(keys - {k}), path, ignore) ==
            KeysDiff(reference, target, SortedKeys(keys), path, ignore)
  {
    if k in keys {
      var below, above := SortedAround(keys, k);
      SkipKey(reference, target, SortedKeys(below), k, SortedKeys(above), path, ignore);
    } else {
      assert keys - {k} == keys;
    }
  }

  lemma SkipKey(reference: Json, target: Json, a: seq<string>, k: string, b: seq<string>, path: string,
      ignore: set<string>)
    requires reference.Obj? && target.Obj? && IgnoredKey(path, k, ignore)
    ensures KeysDiff(reference, target, a + [k] + b, path, ignore) == KeysDiff(reference, target, a + b, path, ignore)
  {
    KeysDiffConcat(reference, target, a + [k], b, path, ignore);
    KeysDiffConcat(reference, target, a, [k], path, ignore);
    KeysDiffConcat(reference, target, a, b, path, ignore);
    assert [k][..0] == [];
  }

  // ----- The normal form -----

  /** What `Prune` keeps: nothing at an ignored position, of an object the keys that are not ignored by name
      or path, of a list every item. */
  lemma PruneKeeps(v: Json, path: string, last: string, ignore: set<string>)
    requires LastPart(path, last)
    ensures Prune(v, path, ignore).Hole? <==> path in ignore || last in ignore
    ensures var p := Prune(v, path, ignore);
            p.Hole? ||
            match v
            case Obj(fields) =>
              && p.PObj?
              && forall k, child :: FieldPath(path, k, child) ==>
                   && (k in p.fields <==> k in fields && k !in ignore && child !in ignore)
                   && (k in p.fields ==> p.fields[k] == Prune(fields[k], child, ignore))
            case Arr(items) =>
              && p.PArr? && |p.items| == |items|
              && forall i :: 0 <= i < |items| ==>
                   p.items[i] == Prune(items[i], path + "[" + Decimal(i) + "]", ignore)
            case _ => p == Leaf(v)
  {
    IgnoredExactly(path, last, ignore);
  }

  lemma LeavesAgreeExactly(reference: Json, target: Json)
    requires !reference.Obj? && !reference.Arr?
    ensures Agree(Leaf(reference), Leaf(target)) <==> SameLeaf(reference, target)
  {
  }
}
