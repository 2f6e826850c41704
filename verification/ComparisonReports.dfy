/** How much a report says about the target: exactly for which references it determines it. */
module ComparisonReports {
  import opened Bytes
  import opened Keys
  import opened Comparison
  import opened ComparisonTheorems
  import opened ComparisonPatch

  /** The same pruned value, but for booleans that are written as integers. */
  ghost predicate Alike(p: Pruned, q: Pruned) {
    match (p, q)
    case (Hole, Hole) => true
    case (Leaf(v), Leaf(w)) => AsInt(v) == AsInt(w)
    case (PArr(v), PArr(w)) => |v| == |w| && forall i :: 0 <= i < |v| ==> Alike(v[i], w[i])
    case (PObj(v), PObj(w)) => v.Keys == w.Keys && forall k :: k in v ==> Alike(v[k], w[k])
    case _ => false
  }

  predicate SameReport(reference: Json, t: Json, t': Json, path: string, ignore: set<string>) {
    Diff(reference, t, path, ignore) == Diff(reference, t', path, ignore)
  }

  ghost predicate SameTarget(t: Json, t': Json, path: string, ignore: set<string>) {
    Alike(Prune(t, path, ignore), Prune(t', path, ignore))
  }

  /** No two targets that look different get the same report. */
  ghost predicate ReportsDetermineTargets(reference: Json, path: string, ignore: set<string>) {
    forall t, t' :: SameReport(reference, t, t', path, ignore) ==> SameTarget(t, t', path, ignore)
  }

  /** A field whose value is compared. */
  predicate VisibleField(fields: map<string, Json>, k: string, path: string, ignore: set<string>) {
    k in fields && !IgnoredKey(path, k, ignore) && !IgnoredPath(ChildPath(path, k), ignore)
  }

  predicate Nests(v: Json) {
    v.Obj? || v.Arr?
  }

  /** No compared field of a compared object holds an object or a list; lists may hold anything that
      satisfies the same. */
  ghost predicate NoNestedField(v: Json, path: string, ignore: set<string>)
    decreases v
  {
    if IgnoredPath(path, ignore) then true
    else
      match v
      case Obj(fields) => forall k :: VisibleField(fields, k, path, ignore) ==> !Nests(fields[k])
      case Arr(items) => forall i :: 0 <= i < |items| ==> NoNestedField(items[i], ItemPath(path, i), ignore)
      case _ => true
  }

  lemma {:induction false} AlikeIsReflexive(p: Pruned)
    ensures Alike(p, p)
    decreases p
  {
    match p
    case PArr(items) =>
      forall i | 0 <= i < |items| {
        AlikeIsReflexive(items[i]);
      }
    case PObj(fields) =>
      forall k | k in fields {
        AlikeIsReflexive(fields[k]);
      }
    case _ =>
  }

  // ----- Taking a report apart -----

  function Select(diffs: seq<FieldDiff>, f: FieldDiff -> bool): seq<FieldDiff> {
    if diffs == [] then []
    else
      var d := diffs[|diffs| - 1];
      Select(diffs[..|diffs| - 1], f) + if f(d) then [d] else []
  }

  lemma {:induction false} SelectConcat(a: seq<FieldDiff>, b: seq<FieldDiff>, f: FieldDiff -> bool)
    ensures Select(a + b, f) == Select(a, f) + Select(b, f)
  {
    if b == [] {
      assert a + b == a;
    } else {
      assert (a + b)[..|a + b| - 1] == a + b[..|b| - 1];
      SelectConcat(a, b[..|b| - 1], f);
    }
  }

  lemma {:induction false} SelectUniform(diffs: seq<FieldDiff>, f: FieldDiff -> bool)
    ensures (forall d :: d in diffs ==> f(d)) ==> Select(diffs, f) == diffs
    ensures (forall d :: d in diffs ==> !f(d)) ==> Select(diffs, f) == []
  {
    if diffs != [] {
      SelectUniform(diffs[..|diffs| - 1], f);
      assert diffs[|diffs| - 1] in diffs;
    }
  }

  function At(path: string): FieldDiff -> bool {
    (d: FieldDiff) => d.path == path
  }

  function Under(path: string): FieldDiff -> bool {
    (d: FieldDiff) => path <= d.path
  }

  lemma ChildPathsApart(path: string, k: string, k': string)
    ensures ChildPath(path, k) == ChildPath(path, k') <==> k == k'
  {
    assert path != "" ==> ChildPath(path, k)[|path| + 1..] == k && ChildPath(path, k')[|path| + 1..] == k';
  }

  lemma BracketInside(s: string, a: string, b: string)
    requires a + "]" <= s && b <= s && |a| < |b|
    ensures ']' in b
  {
    assert (a + "]")[|a|] == s[|a|] == b[|a|];
  }

  /** No path lies under two positions of one list. */
  lemma ItemPathsApart(path: string, i: nat, j: nat, p: string)
    requires ItemPath(path, i) <= p && ItemPath(path, j) <= p
    ensures i == j
  {
    var s := p[|path| + 1..];
    var a, b := Decimal(i) + "]", Decimal(j) + "]";
    assert ItemPath(path, i)[|path| + 1..] == a <= s && ItemPath(path, j)[|path| + 1..] == b <= s;
    if |a| < |b| {
      BracketInside(s, Decimal(i), Decimal(j));
    } else if |b| < |a| {
      BracketInside(s, Decimal(j), Decimal(i));
    } else {
      assert a == b && Decimal(i) == a[..|a| - 1] && Decimal(j) == b[..|b| - 1];
    }
    DecimalRoundTrip(i);
    DecimalRoundTrip(j);
  }

  // ----- Where reports of one position point -----

  ghost predicate Extends(d: FieldDiff, path: string) {
    path <= d.path && (d.kind.MissingField? && path != "" ==> |path| < |d.path|)
  }

  /** Every report points at its position or below, a missing field strictly below. */
  lemma {:induction false} PathsExtend(reference: Json, target: Json, path: string, ignore: set<string>)
    ensures forall d :: d in Diff(reference, target, path, ignore) ==> Extends(d, path)
    decreases reference, 1, 0
  {
    if IgnoredPath(path, ignore) {
    } else if reference.Obj? && target.Obj? {
      KeyPathsExtend(reference, target, SortedKeys(reference.fields.Keys + target.fields.Keys), path, ignore);
    } else if reference.Arr? && target.Arr? {
      ItemPathsExtend(reference, target, Max(|reference.items|, |target.items|), path, ignore);
    }
  }

  lemma {:induction false} KeyPathsExtend(reference: Json, target: Json, keys: seq<string>, path: string,
      ignore: set<string>)
    requires reference.Obj? && target.Obj?
    ensures forall d :: d in KeysDiff(reference, target, keys, path, ignore) ==> Extends(d, path)
    decreases reference, 0, |keys|
  {
    if keys != [] {
      var k := keys[|keys| - 1];
      KeyPathsExtend(reference, target, keys[..|keys| - 1], path, ignore);
      if k in reference.fields && k in target.fields {
        PathsExtend(reference.fields[k], target.fields[k], ChildPath(path, k), ignore);
      }
      assert forall d :: d in KeyDiff(reference, target, k, path, ignore) ==> Extends(d, path);
    }
  }

  lemma {:induction false} ItemPathsExtend(reference: Json, target: Json, n: nat, path: string, ignore: set<string>)
    requires reference.Arr? && target.Arr? && n <= Max(|reference.items|, |target.items|)
    ensures forall d :: d in ItemsDiff(reference, target, n, path, ignore) ==> Extends(d, path) && |path| < |d.path|
    decreases reference, 0, n
  {
    if n > 0 {
      ItemPathsExtend(reference, target, n - 1, path, ignore);
      ItemPathExtends(reference, target, n - 1, path, ignore);
    }
  }

  lemma ItemPathExtends(reference: Json, target: Json, i: nat, path: string, ignore: set<string>)
    requires reference.Arr? && target.Arr? && i < Max(|reference.items|, |target.items|)
    ensures forall d :: d in ItemDiff(reference, target, i, path, ignore) ==> ItemPath(path, i) <= d.path
    ensures forall d :: d in ItemDiff(reference, target, i, path, ignore) ==> Extends(d, path) && |path| < |d.path|
    decreases reference, 0, 0
  {
    if i < |reference.items| && i < |target.items| {
      PathsExtend(reference.items[i], target.items[i], ItemPath(path, i), ignore);
    }
  }

  // ----- Lists: the reports below one index -----

  lemma ItemSelected(reference: Json, target: Json, j: nat, i: nat, path: string, ignore: set<string>)
    requires reference.Arr? && target.Arr? && j < Max(|reference.items|, |target.items|)
    ensures Select(ItemDiff(reference, target, j, path, ignore), Under(ItemPath(path, i))) ==
            if i == j then ItemDiff(reference, target, j, path, ignore) else []
  {
    var f, diffs := Under(ItemPath(path, i)), ItemDiff(reference, target, j, path, ignore);
    ItemPathExtends(reference, target, j, path, ignore);
    forall d | d in diffs && f(d) ensures i == j {
      ItemPathsApart(path, i, j, d.path);
    }
    SelectUniform(diffs, f);
  }

  function ReportBelow(reference: Json, target: Json, n: nat, i: nat, path: string, ignore: set<string>): seq<FieldDiff>
    requires reference.Arr? && target.Arr? && n <= Max(|reference.items|, |target.items|)
  {
    if i < n then ItemDiff(reference, target, i, path, ignore) else []
  }

  lemma SelectSplit(a: seq<FieldDiff>, b: seq<FieldDiff>, f: FieldDiff -> bool)
    ensures Select(a, f) == [] ==> Select(a + b, f) == Select(b, f)
    ensures Select(b, f) == [] ==> Select(a + b, f) == Select(a, f)
  {
    SelectConcat(a, b, f);
  }

  lemma {:induction false} ItemsSelected(reference: Json, target: Json, n: nat, i: nat, path: string,
      ignore: set<string>)
    requires reference.Arr? && target.Arr? && n <= Max(|reference.items|, |target.items|)
    ensures Select(ItemsDiff(reference, target, n, path, ignore), Under(ItemPath(path, i))) ==
            ReportBelow(reference, target, n, i, path, ignore)
  {
    if n > 0 {
      ItemsSelected(reference, target, n - 1, i, path, ignore);
      ItemSelected(reference, target, n - 1, i, path, ignore);
      SelectSplit(ItemsDiff(reference, target, n - 1, path, ignore), ItemDiff(reference, target, n - 1, path, ignore),
                  Under(ItemPath(path, i)));
    }
  }

  function ItemReport(reference: Json, t: Json, i: nat, path: string, ignore: set<string>): seq<FieldDiff>
    requires reference.Arr? && t.Arr?
  {
    ReportBelow(reference, t, Max(|reference.items|, |t.items|), i, path, ignore)
  }

  /** Two targets with one report have one report at every index. */
  lemma SameItemReports(reference: Json, t: Json, t': Json, i: nat, path: string, ignore: set<string>)
    requires reference.Arr? && t.Arr? && t'.Arr? && !IgnoredPath(path, ignore)
    requires SameReport(reference, t, t', path, ignore)
    ensures ItemReport(reference, t, i, path, ignore) == ItemReport(reference, t', i, path, ignore)
  {
    ItemsSelected(reference, t, Max(|reference.items|, |t.items|), i, path, ignore);
    ItemsSelected(reference, t', Max(|reference.items|, |t'.items|), i, path, ignore);
  }

  /** The first index that only the longer target has is reported differently. */
  lemma EndsDiffer(reference: Json, t: Json, t': Json, path: string, ignore: set<string>)
    requires reference.Arr? && t.Arr? && t'.Arr? && |t.items| < |t'.items|
    ensures ItemReport(reference, t, |t.items|, path, ignore) != ItemReport(reference, t', |t.items|, path, ignore)
  {
    var i := |t.items|;
    if i < |reference.items| {
      var d := FieldDiff(ItemPath(path, i), MissingField, Some(reference.items[i]), None);
      PathsExtend(reference.items[i], t'.items[i], ItemPath(path, i), ignore);
      assert ItemPath(path, i)[|path|] == '[' && !Extends(d, ItemPath(path, i));
      assert d in ItemReport(reference, t, i, path, ignore);
    }
  }

  lemma LengthsAreSeen(reference: Json, t: Json, t': Json, path: string, ignore: set<string>)
    requires reference.Arr? && t.Arr? && t'.Arr? && !IgnoredPath(path, ignore) && |t.items| < |t'.items|
    ensures !SameReport(reference, t, t', path, ignore)
  {
    EndsDiffer(reference, t, t', path, ignore);
    if SameReport(reference, t, t', path, ignore) {
      SameItemReports(reference, t, t', |t.items|, path, ignore);
    }
  }

  // ----- Flat objects: the reports at one key -----

  ghost predicate Flat(fields: map<string, Json>, path: string, ignore: set<string>) {
    forall k :: VisibleField(fields, k, path, ignore) ==> !Nests(fields[k])
  }

  ghost predicate AtField(d: FieldDiff, path: string, k: string) {
    d.path == ChildPath(path, k) && (d.kind.TypeMismatch? ==> d.reference.Some? && !Nests(d.reference.value))
  }

  lemma KeyReportsAtField(reference: Json, target: Json, k: string, path: string, ignore: set<string>)
    requires reference.Obj? && target.Obj? && Flat(reference.fields, path, ignore)
    ensures forall d :: d in KeyDiff(reference, target, k, path, ignore) ==> AtField(d, path, k)
  {
  }

  lemma KeySelected(reference: Json, target: Json, last: string, k: string, path: string, ignore: set<string>)
    requires reference.Obj? && target.Obj? && Flat(reference.fields, path, ignore)
    ensures Select(KeyDiff(reference, target, last, path, ignore), At(ChildPath(path, k))) ==
            if k == last then KeyDiff(reference, target, last, path, ignore) else []
  {
    KeyReportsAtField(reference, target, last, path, ignore);
    ChildPathsApart(path, k, last);
    SelectUniform(KeyDiff(reference, target, last, path, ignore), At(ChildPath(path, k)));
  }

  lemma {:induction false} KeysSelected(reference: Json, target: Json, keys: seq<string>, k: string, path: string,
      ignore: set<string>)
    requires reference.Obj? && target.Obj? && Flat(reference.fields, path, ignore) && NoDuplicates(keys)
    ensures Select(KeysDiff(reference, target, keys, path, ignore), At(ChildPath(path, k))) ==
            if k in keys then KeyDiff(reference, target, k, path, ignore) else []
  {
    if keys != [] {
      var before, last := keys[..|keys| - 1], keys[|keys| - 1];
      KeysSelected(reference, target, before, k, path, ignore);
      KeySelected(reference, target, last, k, path, ignore);
      SelectConcat(KeysDiff(reference, target, before, path, ignore), KeyDiff(reference, target, last, path, ignore),
                   At(ChildPath(path, k)));
      assert k in keys <==> k in before || k == last;
      assert last !in before;
    }
  }

  lemma {:induction false} NoListedTypeMismatch(reference: Json, target: Json, keys: seq<string>, path: string,
      ignore: set<string>)
    requires reference.Obj? && target.Obj? && Flat(reference.fields, path, ignore)
    ensures forall d :: d in KeysDiff(reference, target, keys, path, ignore) && d.kind.TypeMismatch? ==>
              d.reference != Some(reference)
  {
    if keys != [] {
      NoListedTypeMismatch(reference, target, keys[..|keys| - 1], path, ignore);
      KeyReportsAtField(reference, target, keys[|keys| - 1], path, ignore);
    }
  }

  lemma SameKeyReports(reference: Json, t: Json, t': Json, k: string, path: string, ignore: set<string>)
    requires reference.Obj? && t.Obj? && t'.Obj? && !IgnoredPath(path, ignore) && Flat(reference.fields, path, ignore)
    requires SameReport(reference, t, t', path, ignore)
    ensures KeyDiff(reference, t, k, path, ignore) == KeyDiff(reference, t', k, path, ignore)
  {
    var all, all' := reference.fields.Keys + t.fields.Keys, reference.fields.Keys + t'.fields.Keys;
    SortedKeysAscend(all);
    SortedKeysAscend(all');
    KeysSelected(reference, t, SortedKeys(all), k, path, ignore);
    KeysSelected(reference, t', SortedKeys(all'), k, path, ignore);
  }

  // ----- A flat reference determines its targets -----

  lemma LeafReportsTarget(reference: Json, t: Json, path: string)
    ensures forall d :: d in LeafDiff(reference, t, path) ==> d.target == Some(t)
    ensures LeafDiff(reference, t, path) != [] ==> LeafDiff(reference, t, path)[0] in LeafDiff(reference, t, path)
  {
  }

  lemma LeafDetermines(reference: Json, t: Json, t': Json, path: string, ignore: set<string>)
    requires !Nests(reference) && SameReport(reference, t, t', path, ignore)
    ensures SameTarget(t, t', path, ignore)
  {
    if t == t' {
      AlikeIsReflexive(Prune(t, path, ignore));
    } else if !IgnoredPath(path, ignore) {
      LeafReportsTarget(reference, t, path);
      LeafReportsTarget(reference, t', path);
    }
  }

  lemma FieldDetermines(reference: Json, t: Json, t': Json, k: string, path: string, ignore: set<string>)
    requires reference.Obj? && t.Obj? && t'.Obj? && Flat(reference.fields, path, ignore)
    requires KeyDiff(reference, t, k, path, ignore) == KeyDiff(reference, t', k, path, ignore)
    requires !IgnoredKey(path, k, ignore)
    ensures k in t.fields <==> k in t'.fields
    ensures k in t.fields && k in t'.fields ==> SameTarget(t.fields[k], t'.fields[k], ChildPath(path, k), ignore)
  {
    if k in t.fields && k in t'.fields {
      if k !in reference.fields {
        AlikeIsReflexive(Prune(t.fields[k], ChildPath(path, k), ignore));
      } else if IgnoredPath(ChildPath(path, k), ignore) {
      } else {
        LeafDetermines(reference.fields[k], t.fields[k], t'.fields[k], ChildPath(path, k), ignore);
      }
    }
  }

  lemma ObjectDetermines(reference: Json, t: Json, t': Json, path: string, ignore: set<string>)
    requires reference.Obj? && t.Obj? && t'.Obj? && !IgnoredPath(path, ignore) && Flat(reference.fields, path, ignore)
    requires SameReport(reference, t, t', path, ignore)
    ensures SameTarget(t, t', path, ignore)
  {
    var p, p' := Prune(t, path, ignore).fields, Prune(t', path, ignore).fields;
    forall k
      ensures k in p <==> k in p'
      ensures k in p && k in p' ==> Alike(p[k], p'[k])
    {
      if !IgnoredKey(path, k, ignore) {
        SameKeyReports(reference, t, t', k, path, ignore);
        FieldDetermines(reference, t, t', k, path, ignore);
      }
    }
  }

  /** Only a target of another shape is reported as a whole. */
  lemma ShapeIsSeen(reference: Json, t: Json, t': Json, path: string, ignore: set<string>)
    requires Nests(reference) && !IgnoredPath(path, ignore) && NoNestedField(reference, path, ignore)
    requires (reference.Obj? && !t.Obj? && t'.Obj?) || (reference.Arr? && !t.Arr? && t'.Arr?)
    ensures !SameReport(reference, t, t', path, ignore) && !SameReport(reference, t', t, path, ignore)
  {
    var d := FieldDiff(path, TypeMismatch, Some(reference), Some(t));
    assert Diff(reference, t, path, ignore) == [d];
    if reference.Obj? {
      NoListedTypeMismatch(reference, t', SortedKeys(reference.fields.Keys + t'.fields.Keys), path, ignore);
    } else {
      ItemPathsExtend(reference, t', Max(|reference.items|, |t'.items|), path, ignore);
    }
    assert d !in Diff(reference, t', path, ignore) && d in [d];
  }

  lemma {:induction false} FlatDetermines(reference: Json, t: Json, t': Json, path: string, ignore: set<string>)
    requires NoNestedField(reference, path, ignore) && SameReport(reference, t, t', path, ignore)
    ensures SameTarget(t, t', path, ignore)
    decreases reference
  {
    if IgnoredPath(path, ignore) {
    } else if !Nests(reference) {
      LeafDetermines(reference, t, t', path, ignore);
    } else if reference.Obj? && t.Obj? && t'.Obj? {
      ObjectDetermines(reference, t, t', path, ignore);
    } else if reference.Arr? && t.Arr? && t'.Arr? {
      ListDetermines(reference, t, t', path, ignore);
    } else if (reference.Obj? && !t.Obj? && !t'.Obj?) || (reference.Arr? && !t.Arr? && !t'.Arr?) {
      LeafReportsTarget(reference, t, path);
      LeafReportsTarget(reference, t', path);
      AlikeIsReflexive(Prune(t, path, ignore));
    } else if (reference.Obj? && t'.Obj?) || (reference.Arr? && t'.Arr?) {
      ShapeIsSeen(reference, t, t', path, ignore);
    } else {
      ShapeIsSeen(reference, t', t, path, ignore);
    }
  }

  lemma ListDetermines(reference: Json, t: Json, t': Json, path: string, ignore: set<string>)
    requires reference.Arr? && t.Arr? && t'.Arr? && !IgnoredPath(path, ignore)
    requires NoNestedField(reference, path, ignore) && SameReport(reference, t, t', path, ignore)
    ensures SameTarget(t, t', path, ignore)
    decreases reference, 0
  {
    if |t.items| < |t'.items| {
      LengthsAreSeen(reference, t, t', path, ignore);
    } else if |t'.items| < |t.items| {
      LengthsAreSeen(reference, t', t, path, ignore);
    } else {
      forall i | 0 <= i < |t.items| ensures SameTarget(t.items[i], t'.items[i], ItemPath(path, i), ignore) {
        SameItemReports(reference, t, t', i, path, ignore);
        if i < |reference.items| {
          FlatDetermines(reference.items[i], t.items[i], t'.items[i], ItemPath(path, i), ignore);
        } else {
          AlikeIsReflexive(Prune(t.items[i], ItemPath(path, i), ignore));
        }
      }
    }
  }

  // ----- A nested field does not: two targets with one report -----

  /** Fields with equal values are not reported. */
  lemma OthersAreSilent(reference: Json, target: Json, changed: set<string>, path: string, ignore: set<string>)
    requires reference.Obj? && target.Obj?
    requires reference.fields.Keys - changed == target.fields.Keys - changed
    requires forall k :: k in reference.fields.Keys - changed ==> reference.fields[k] == target.fields[k]
    ensures forall k :: k in SortedKeys(reference.fields.Keys + target.fields.Keys) && k !in changed ==>
              KeySilent(reference, target, k, path, ignore)
  {
    forall k | k in SortedKeys(reference.fields.Keys + target.fields.Keys) && k !in changed
      ensures KeySilent(reference, target, k, path, ignore)
    {
      assert k in reference.fields.Keys - changed;
      AgreeIsReflexive(reference.fields[k], ChildPath(path, k), ignore);
      SilentExactly(reference.fields[k], target.fields[k], ChildPath(path, k), ignore);
    }
  }

  lemma {:induction false} OnlyKeyDiffers(reference: Json, target: Json, keys: seq<string>, k: string, path: string,
      ignore: set<string>)
    requires reference.Obj? && target.Obj? && NoDuplicates(keys) && k in keys
    requires forall other :: other in keys && other != k ==> KeySilent(reference, target, other, path, ignore)
    ensures KeysDiff(reference, target, keys, path, ignore) == KeyDiff(reference, target, k, path, ignore)
  {
    var before, last := keys[..|keys| - 1], keys[|keys| - 1];
    assert last in keys;
    if last == k {
      KeysDiffEmpty(reference, target, before, path, ignore);
    } else {
      assert k in before && KeySilent(reference, target, last, path, ignore);
      OnlyKeyDiffers(reference, target, before, k, path, ignore);
    }
  }

  lemma LastIsGreatest(keys: seq<string>, k: string)
    requires Ascending(keys) && k in keys
    ensures StringLeq(k, keys[|keys| - 1])
  {
    LeqIsTotal(k, k);
    var i :| 0 <= i < |keys| && keys[i] == k;
  }

  /** Two keys that differ are reported in their order. */
  lemma {:induction false} TwoKeysDiffer(reference: Json, target: Json, keys: seq<string>, f: string, k: string,
      path: string, ignore: set<string>)
    requires reference.Obj? && target.Obj? && NoDuplicates(keys) && Ascending(keys)
    requires f in keys && k in keys && f != k && StringLeq(f, k)
    requires forall other :: other in keys && other != f && other != k ==>
               KeySilent(reference, target, other, path, ignore)
    ensures KeysDiff(reference, target, keys, path, ignore) ==
            KeyDiff(reference, target, f, path, ignore) + KeyDiff(reference, target, k, path, ignore)
  {
    var before, last := keys[..|keys| - 1], keys[|keys| - 1];
    assert last in keys && last !in before;
    LastIsGreatest(keys, k);
    LeqIsTotal(f, k);
    assert f in before;
    if last == k {
      OnlyKeyDiffers(reference, target, before, f, path, ignore);
    } else {
      assert k in before && KeySilent(reference, target, last, path, ignore);
      TwoKeysDiffer(reference, target, before, f, k, path, ignore);
    }
  }

  lemma ChangedKey(reference: Json, target: Json, k: string, path: string, ignore: set<string>)
    requires reference.Obj? && target.Obj? && k in target.fields && VisibleField(reference.fields, k, path, ignore)
    ensures KeyDiff(reference, target, k, path, ignore) ==
            Diff(reference.fields[k], target.fields[k], ChildPath(path, k), ignore)
  {
  }

  lemma AddedKey(reference: Json, target: Json, k: string, path: string, ignore: set<string>)
    requires reference.Obj? && target.Obj? && k !in reference.fields && k in target.fields
    requires !IgnoredKey(path, k, ignore)
    ensures KeyDiff(reference, target, k, path, ignore) ==
            [FieldDiff(ChildPath(path, k), ExtraField, None, Some(target.fields[k]))]
  {
  }

  lemma OneKeyReported(reference: Json, target: Json, k: string, path: string, ignore: set<string>)
    requires reference.Obj? && target.Obj? && !IgnoredPath(path, ignore)
    requires k in reference.fields || k in target.fields
    requires reference.fields.Keys - {k} == target.fields.Keys - {k}
    requires forall other :: other in reference.fields.Keys - {k} ==> reference.fields[other] == target.fields[other]
    ensures Diff(reference, target, path, ignore) == KeyDiff(reference, target, k, path, ignore)
  {
    var all := reference.fields.Keys + target.fields.Keys;
    SortedKeysAscend(all);
    OthersAreSilent(reference, target, {k}, path, ignore);
    OnlyKeyDiffers(reference, target, SortedKeys(all), k, path, ignore);
  }

  lemma TwoKeysReported(reference: Json, target: Json, f: string, k: string, path: string, ignore: set<string>)
    requires reference.Obj? && target.Obj? && !IgnoredPath(path, ignore)
    requires f in reference.fields && k in target.fields && f != k && StringLeq(f, k)
    requires reference.fields.Keys - {f, k} == target.fields.Keys - {f, k}
    requires forall other :: other in reference.fields.Keys - {f, k} ==> reference.fields[other] == target.fields[other]
    ensures Diff(reference, target, path, ignore) ==
            KeyDiff(reference, target, f, path, ignore) + KeyDiff(reference, target, k, path, ignore)
  {
    var all := reference.fields.Keys + target.fields.Keys;
    SortedKeysAscend(all);
    OthersAreSilent(reference, target, {f, k}, path, ignore);
    TwoKeysDiffer(reference, target, SortedKeys(all), f, k, path, ignore);
  }

  /** The report when only field `k` was changed. */
  lemma OneFieldDiffers(fields: map<string, Json>, k: string, value: Json, path: string, ignore: set<string>)
    requires VisibleField(fields, k, path, ignore) && !IgnoredPath(path, ignore)
    ensures Diff(Obj(fields), Obj(fields[k := value]), path, ignore) ==
            Diff(fields[k], value, ChildPath(path, k), ignore)
  {
    OneKeyReported(Obj(fields), Obj(fields[k := value]), k, path, ignore);
    ChangedKey(Obj(fields), Obj(fields[k := value]), k, path, ignore);
  }

  /** The report when only a new field was added. */
  lemma OneFieldAdded(fields: map<string, Json>, k: string, value: Json, path: string, ignore: set<string>)
    requires k !in fields && !IgnoredKey(path, k, ignore) && !IgnoredPath(path, ignore)
    ensures Diff(Obj(fields), Obj(fields[k := value]), path, ignore) ==
            [FieldDiff(ChildPath(path, k), ExtraField, None, Some(value))]
  {
    OneKeyReported(Obj(fields), Obj(fields[k := value]), k, path, ignore);
    AddedKey(Obj(fields), Obj(fields[k := value]), k, path, ignore);
  }

  /** The report when an existing field was changed and a later one added. */
  lemma OneChangedOneAdded(fields: map<string, Json>, f: string, value: Json, k: string, added: Json, path: string,
      ignore: set<string>)
    requires VisibleField(fields, f, path, ignore) && !IgnoredPath(path, ignore)
    requires k !in fields && !IgnoredKey(path, k, ignore) && StringLeq(f, k)
    ensures Diff(Obj(fields), Obj(fields[f := value][k := added]), path, ignore) ==
            Diff(fields[f], value, ChildPath(path, f), ignore)
            + [FieldDiff(ChildPath(path, k), ExtraField, None, Some(added))]
  {
    var reference, target := Obj(fields), Obj(fields[f := value][k := added]);
    TwoKeysReported(reference, target, f, k, path, ignore);
    ChangedKey(reference, target, f, path, ignore);
    AddedKey(reference, target, k, path, ignore);
  }

  /** A visible key that only one of two objects has tells them apart. */
  lemma OtherKeys(t: Json, t': Json, k: string, path: string, ignore: set<string>)
    requires t.Obj? && t'.Obj? && k !in t.fields && k in t'.fields
    requires !IgnoredPath(path, ignore) && !IgnoredKey(path, k, ignore)
    ensures !SameTarget(t, t', path, ignore)
  {
    assert k in Prune(t', path, ignore).fields && k !in Prune(t, path, ignore).fields;
  }

  /** The key next to `f` whose path is that of field `g` inside `f`. */
  function SiblingOfField(path: string, f: string, g: string): (k: string)
    ensures ChildPath(path, k) == ChildPath(ChildPath(path, f), g)
    ensures |k| >= |g|
  {
    var k := if path == "" then ChildPath(f, g) else f + "." + g;
    assert path != "" ==> path + "." + (f + "." + g) == path + "." + f + "." + g;
    k
  }

  /** The key next to `f` whose path is that of item `n` inside `f`. */
  function SiblingOfItem(path: string, f: string, n: nat): (k: string)
    ensures ChildPath(path, k) == ItemPath(ChildPath(path, f), n)
    ensures |k| >= |Decimal(n)|
  {
    var k := ItemPath(f, n);
    assert path != "" ==> path + "." + (f + "[" + Decimal(n) + "]") == path + "." + f + "[" + Decimal(n) + "]";
    k
  }

  /** A field added inside an object, or next to the object under a key that spells the same path. */
  lemma FieldCollision(fields: map<string, Json>, f: string, g: string, t: Json, t': Json, path: string,
      ignore: set<string>)
    requires VisibleField(fields, f, path, ignore) && !IgnoredPath(path, ignore) && fields[f].Obj?
    requires g !in fields[f].fields && g !in ignore
    requires var k := SiblingOfField(path, f, g); k !in fields && !IgnoredKey(path, k, ignore)
    requires t == Obj(fields[f := Obj(fields[f].fields[g := Null])])
    requires t' == Obj(fields[SiblingOfField(path, f, g) := Null])
    ensures SameReport(Obj(fields), t, t', path, ignore) && !SameTarget(t, t', path, ignore)
  {
    var k := SiblingOfField(path, f, g);
    OneFieldDiffers(fields, f, Obj(fields[f].fields[g := Null]), path, ignore);
    OneFieldAdded(fields[f].fields, g, Null, ChildPath(path, f), ignore);
    OneFieldAdded(fields, k, Null, path, ignore);
    OtherKeys(t, t', k, path, ignore);
  }

  // ----- Lists inside objects -----

  function Nulls(n: nat): seq<Json> {
    seq(n, _ => Null)
  }

  /** What the loop over the indices reports below `n` depends on the items below `n` only. */
  lemma {:induction false} ItemsDiffBelow(reference: Json, t: Json, t': Json, n: nat, path: string,
      ignore: set<string>)
    requires reference.Arr? && t.Arr? && t'.Arr? && n <= |t.items| && n <= |t'.items|
    requires t.items[..n] == t'.items[..n]
    ensures ItemsDiff(reference, t, n, path, ignore) == ItemsDiff(reference, t', n, path, ignore)
  {
    if n > 0 {
      assert t.items[..n][..n - 1] == t.items[..n - 1] && t'.items[..n][..n - 1] == t'.items[..n - 1];
      assert t.items[n - 1] == t.items[..n][n - 1] == t'.items[..n][n - 1] == t'.items[n - 1];
      ItemsDiffBelow(reference, t, t', n - 1, path, ignore);
    }
  }

  /** One more item at the end is one more report at the end. */
  lemma OneItemAdded(items: seq<Json>, m: nat, path: string, ignore: set<string>)
    requires !IgnoredPath(path, ignore)
    ensures Diff(Arr(items), Arr(items + Nulls(m + 1)), path, ignore) ==
            Diff(Arr(items), Arr(items + Nulls(m)), path, ignore)
            + [FieldDiff(ItemPath(path, |items| + m), ExtraField, None, Some(Null))]
  {
    var t, t', n := Arr(items + Nulls(m + 1)), Arr(items + Nulls(m)), |items| + m;
    assert t.items[..n] == t'.items[..n];
    ItemsDiffBelow(Arr(items), t, t', n, path, ignore);
    assert ItemDiff(Arr(items), t, n, path, ignore) ==
      [FieldDiff(ItemPath(path, n), ExtraField, None, Some(Null))];
  }

  /** Items added to a list, or all but the last of them and a key next to the list that spells the last
      one's path. */
  lemma ItemCollision(fields: map<string, Json>, f: string, m: nat, k: string, t: Json, t': Json, path: string,
      ignore: set<string>)
    requires VisibleField(fields, f, path, ignore) && !IgnoredPath(path, ignore) && fields[f].Arr?
    requires k == SiblingOfItem(path, f, |fields[f].items| + m) && k !in fields && !IgnoredKey(path, k, ignore)
    requires t == Obj(fields[f := Arr(fields[f].items + Nulls(m + 1))])
    requires t' == Obj(fields[f := Arr(fields[f].items + Nulls(m))][k := Null])
    ensures SameReport(Obj(fields), t, t', path, ignore) && !SameTarget(t, t', path, ignore)
  {
    var items := fields[f].items;
    OneItemAdded(items, m, ChildPath(path, f), ignore);
    OneFieldDiffers(fields, f, Arr(items + Nulls(m + 1)), path, ignore);
    PrefixLeq(f, "[" + Decimal(|items| + m) + "]");
    assert k == f + ("[" + Decimal(|items| + m) + "]");
    OneChangedOneAdded(fields, f, Arr(items + Nulls(m)), k, Null, path, ignore);
    OtherKeys(t, t', k, path, ignore);
  }

  lemma {:induction false} PrefixLeq(a: string, b: string)
    ensures StringLeq(a, a + b)
  {
    if a != "" {
      assert (a + b)[1..] == a[1..] + b;
      PrefixLeq(a[1..], b);
    }
  }

  // ----- Fresh names -----

  lemma {:induction false} Longest(keys: set<string>) returns (n: nat)
    ensures forall k :: k in keys ==> |k| <= n
  {
    if keys == {} {
      n := 0;
    } else {
      var k :| k in keys;
      var rest := Longest(keys - {k});
      n := if |k| > rest then |k| else rest;
    }
  }

  lemma {:induction false} LongDecimal(length: nat, least: nat) returns (n: nat)
    ensures n >= least && |Decimal(n)| > length
  {
    if length == 0 {
      n := least;
    } else {
      var tenth := LongDecimal(length - 1, least);
      n := 10 * tenth + 10;
      LongerDecimal(tenth);
    }
  }

  lemma {:induction false} LongerDecimal(n: nat)
    ensures |Decimal(10 * n + 10)| > |Decimal(n)|
  {
    if n >= 9 {
      assert (10 * n + 10) / 10 == n + 1;
      DecimalGrows(n);
    }
  }

  lemma {:induction false} DecimalGrows(n: nat)
    ensures |Decimal(n + 1)| >= |Decimal(n)|
  {
    if n >= 10 {
      assert (n + 1) / 10 == n / 10 || (n + 1) / 10 == n / 10 + 1;
      DecimalGrows(n / 10);
    }
  }

  // ----- The exact condition -----

  lemma NestedFieldCollides(fields: map<string, Json>, f: string, path: string, ignore: set<string>)
    returns (t: Json, t': Json)
    requires VisibleField(fields, f, path, ignore) && !IgnoredPath(path, ignore) && Nests(fields[f])
    ensures SameReport(Obj(fields), t, t', path, ignore) && !SameTarget(t, t', path, ignore)
  {
    if fields[f].Obj? {
      var longest := Longest(ignore + fields.Keys + fields[f].fields.Keys);
      var g := seq(longest + 1, _ => 'x');
      var k := SiblingOfField(path, f, g);
      assert |ChildPath(path, k)| >= |k| > longest;
      t, t' := Obj(fields[f := Obj(fields[f].fields[g := Null])]), Obj(fields[k := Null]);
      FieldCollision(fields, f, g, t, t', path, ignore);
    } else {
      var items := fields[f].items;
      var longest := Longest(ignore + fields.Keys);
      var n := LongDecimal(longest, |items|);
      var k, m := SiblingOfItem(path, f, n), n - |items|;
      assert |ChildPath(path, k)| >= |k| > longest;
      t, t' := Obj(fields[f := Arr(items + Nulls(m + 1))]), Obj(fields[f := Arr(items + Nulls(m))][k := Null]);
      ItemCollision(fields, f, m, k, t, t', path, ignore);
    }
  }

  /** The report when only item `i` was changed. */
  lemma OneItemDiffers(items: seq<Json>, i: nat, value: Json, n: nat, path: string, ignore: set<string>)
    requires i < |items| && n <= |items|
    ensures ItemsDiff(Arr(items), Arr(items[i := value]), n, path, ignore) ==
            if i < n then Diff(items[i], value, ItemPath(path, i), ignore) else []
  {
    if n > 0 {
      OneItemDiffers(items, i, value, n - 1, path, ignore);
      if n - 1 != i {
        AgreeIsReflexive(items[n - 1], ItemPath(path, n - 1), ignore);
        SilentExactly(items[n - 1], items[n - 1], ItemPath(path, n - 1), ignore);
      }
    }
  }

  lemma {:induction false} NestedCollides(reference: Json, path: string, ignore: set<string>)
    returns (t: Json, t': Json)
    requires !NoNestedField(reference, path, ignore)
    ensures SameReport(reference, t, t', path, ignore) && !SameTarget(t, t', path, ignore)
    decreases reference
  {
    if reference.Obj? {
      var f :| VisibleField(reference.fields, f, path, ignore) && Nests(reference.fields[f]);
      t, t' := NestedFieldCollides(reference.fields, f, path, ignore);
    } else {
      var items := reference.items;
      var i :| 0 <= i < |items| && !NoNestedField(items[i], ItemPath(path, i), ignore);
      var u, u' := NestedCollides(items[i], ItemPath(path, i), ignore);
      OneItemDiffers(items, i, u, |items|, path, ignore);
      OneItemDiffers(items, i, u', |items|, path, ignore);
      t, t' := Arr(items[i := u]), Arr(items[i := u']);
      assert Prune(t, path, ignore).items[i] == Prune(u, ItemPath(path, i), ignore);
      assert Prune(t', path, ignore).items[i] == Prune(u', ItemPath(path, i), ignore);
    }
  }

  /** The report determines what the target looks like, for every target, exactly when no compared field
      of the reference holds an object or a list. */
  lemma DeterminedExactly(reference: Json, path: string, ignore: set<string>)
    ensures ReportsDetermineTargets(reference, path, ignore) <==> NoNestedField(reference, path, ignore)
  {
    if NoNestedField(reference, path, ignore) {
      forall t, t' | SameReport(reference, t, t', path, ignore) ensures SameTarget(t, t', path, ignore) {
        FlatDetermines(reference, t, t', path, ignore);
      }
    } else {
      var t, t' := NestedCollides(reference, path, ignore);
    }
  }

  // ----- Inputs that fail -----

  /** A "." in a key: `{"a": {}}` with `b` added inside or `a.b` outside. */
  lemma DottedKeysLoseInformation()
    ensures var fields := map["a" := Obj(map[])];
            var t, t' := Obj(fields["a" := Obj(map["b" := Null])]), Obj(fields["a.b" := Null]);
            SameReport(Obj(fields), t, t', "", {}) && !SameTarget(t, t', "", {})
  {
    var fields := map["a" := Obj(map[])];
    var t, t' := Obj(fields["a" := Obj(map["b" := Null])]), Obj(fields["a.b" := Null]);
    assert SiblingOfField("", "a", "b") == "a.b" && "a.b" !in fields;
    FieldCollision(fields, "a", "b", t, t', "", {});
  }

  /** A "[" in a key: `{"a": []}` with an item added inside or `a[0]` outside. */
  lemma BracketedKeysLoseInformation()
    ensures var fields := map["a" := Arr([])];
            var t, t' := Obj(fields["a" := Arr([Null])]), Obj(fields["a[0]" := Null]);
            SameReport(Obj(fields), t, t', "", {}) && !SameTarget(t, t', "", {})
  {
    var fields := map["a" := Arr([])];
    var items, t, t' := fields["a"].items, Obj(fields["a" := Arr([Null])]), Obj(fields["a[0]" := Null]);
    assert "a[0]" !in fields && Decimal(0) == "0";
    assert items + Nulls(1) == [Null] && items + Nulls(0) == items;
    assert fields["a" := Arr(items)] == fields;
    ItemCollision(fields, "a", 0, "a[0]", t, t', "", {});
  }

  /** An empty key: `{"": {}}` with `b` added inside or outside. */
  lemma EmptyKeysLoseInformation()
    ensures var fields := map["" := Obj(map[])];
            var t, t' := Obj(fields["" := Obj(map["b" := Null])]), Obj(fields["b" := Null]);
            SameReport(Obj(fields), t, t', "", {}) && !SameTarget(t, t', "", {})
  {
    var fields := map["" := Obj(map[])];
    var t, t' := Obj(fields["" := Obj(map["b" := Null])]), Obj(fields["b" := Null]);
    assert SiblingOfField("", "", "b") == "b" && "b" !in fields;
    FieldCollision(fields, "", "b", t, t', "", {});
  }

  // ----- Readable keys -----

  lemma {:induction false} AgreeIsAlike(p: Pruned, q: Pruned, q': Pruned)
    requires Agree(p, q) && Agree(p, q')
    ensures Alike(q, q')
    decreases p
  {
    match p
    case PArr(items) =>
      forall i | 0 <= i < |items| {
        AgreeIsAlike(items[i], q.items[i], q'.items[i]);
      }
    case PObj(fields) =>
      forall k | k in fields {
        AgreeIsAlike(fields[k], q.fields[k], q'.fields[k]);
      }
    case _ =>
  }

  /** Among targets whose compared keys can be read back out of a path, the report determines the target
      for every reference, nested ones included. */
  lemma ReadableKeysDetermine(reference: Json, t: Json, t': Json, path: string, ignore: set<string>)
    requires Readable(reference, t, path, ignore) && Readable(reference, t', path, ignore)
    requires SameReport(reference, t, t', path, ignore)
    ensures SameTarget(t, t', path, ignore)
  {
    DiffRestores(reference, t, path, ignore);
    DiffRestores(reference, t', path, ignore);
    var u := PatchAll(reference, Diff(reference, t, path, ignore), |ParsePath(path)|);
    AgreeIsAlike(Prune(u, path, ignore), Prune(t, path, ignore), Prune(t', path, ignore));
  }
}
