/** JSON values, `deep_compare` as the function it computes and as the loops it is, and the pruned
    normal form that says what it compares. */
module Comparison {
  import opened Bytes
  import opened Keys

  /** A float that is not a NaN; `-0.0` and `0.0` are the same value. */
  datatype Flt = Finite(value: real) | PositiveInfinity | NegativeInfinity

  datatype Json =
    | Null | Bool(b: bool) | Int(i: int) | Float(f: Flt) | Str(s: string)
    | Arr(items: seq<Json>) | Obj(fields: map<string, Json>)

  datatype DiffKind =
    | Match | ValueMismatch | TypeMismatch | MissingField | ExtraField
    | ErrorMismatch | BothError | ReferenceError | TargetError

  /** A side that is absent is `None` in the source; it is distinct from a JSON null here. */
  datatype FieldDiff = FieldDiff(path: string, kind: DiffKind, reference: Option<Json>, target: Option<Json>)

  // ----- Paths and ignore rules -----

  /** `path.rsplit(".", 1)[-1]` */
  function LastSegment(path: string): string
    decreases path
  {
    if path == "" then ""
    else if path[|path| - 1] == '.' then ""
    else LastSegment(path[..|path| - 1]) + [path[|path| - 1]]
  }

  predicate IgnoredPath(path: string, ignore: set<string>) {
    LastSegment(path) in ignore || path in ignore
  }

  function ChildPath(path: string, key: string): string {
    if path == "" then key else path + "." + key
  }

  predicate IgnoredKey(path: string, key: string, ignore: set<string>) {
    key in ignore || ChildPath(path, key) in ignore
  }

  function ItemPath(path: string, i: nat): string {
    path + "[" + Decimal(i) + "]"
  }

  // ----- Leaves -----

  /** `isinstance(reference, type(target))`: booleans are integers, not the other way round. */
  predicate SameType(reference: Json, target: Json) {
    match target
    case Null => reference.Null?
    case Bool(_) => reference.Bool?
    case Int(_) => reference.Int? || reference.Bool?
    case Float(_) => reference.Float?
    case Str(_) => reference.Str?
    case Arr(_) => reference.Arr?
    case Obj(_) => reference.Obj?
  }

  function AsInt(v: Json): Json {
    if v.Bool? then Int(if v.b then 1 else 0) else v
  }

  /** Python's `==` on two leaves of compatible types. */
  predicate PyEqual(reference: Json, target: Json) {
    if reference.Bool? && target.Int? then AsInt(reference) == target else reference == target
  }

  function LeafDiff(reference: Json, target: Json, path: string): seq<FieldDiff> {
    if !SameType(reference, target) then [FieldDiff(path, TypeMismatch, Some(reference), Some(target))]
    else if !PyEqual(reference, target) then [FieldDiff(path, ValueMismatch, Some(reference), Some(target))]
    else []
  }

  // ----- The difference as a function -----

  function Diff(reference: Json, target: Json, path: string, ignore: set<string>): seq<FieldDiff>
    decreases reference, 1, 0
  {
    if IgnoredPath(path, ignore) then []
    else if reference.Obj? && target.Obj? then
      KeysDiff(reference, target, SortedKeys(reference.fields.Keys + target.fields.Keys), path, ignore)
    else if reference.Arr? && target.Arr? then
      ItemsDiff(reference, target, Max(|reference.items|, |target.items|), path, ignore)
    else LeafDiff(reference, target, path)
  }

  function Max(a: nat, b: nat): nat {
    if a >= b then a else b
  }

  /** What the loop over the sorted keys has collected after `keys`. */
  function KeysDiff(reference: Json, target: Json, keys: seq<string>, path: string, ignore: set<string>): seq<FieldDiff>
    requires reference.Obj? && target.Obj?
    decreases reference, 0, |keys|
  {
    if keys == [] then []
    else
      KeysDiff(reference, target, keys[..|keys| - 1], path, ignore)
      + KeyDiff(reference, target, keys[|keys| - 1], path, ignore)
  }

  function KeyDiff(reference: Json, target: Json, key: string, path: string, ignore: set<string>): seq<FieldDiff>
    requires reference.Obj? && target.Obj?
    decreases reference, 0, 0
  {
    if IgnoredKey(path, key, ignore) then []
    else if key in reference.fields && key in target.fields then
      Diff(reference.fields[key], target.fields[key], ChildPath(path, key), ignore)
    else if key in reference.fields then
      [FieldDiff(ChildPath(path, key), MissingField, Some(reference.fields[key]), None)]
    else if key in target.fields then
      [FieldDiff(ChildPath(path, key), ExtraField, None, Some(target.fields[key]))]
    else []
  }

  /** What the loop over the indices has collected before index `n`. */
  function ItemsDiff(reference: Json, target: Json, n: nat, path: string, ignore: set<string>): seq<FieldDiff>
    requires reference.Arr? && target.Arr?
    requires n <= Max(|reference.items|, |target.items|)
    decreases reference, 0, n
  {
    if n == 0 then []
    else ItemsDiff(reference, target, n - 1, path, ignore) + ItemDiff(reference, target, n - 1, path, ignore)
  }

  function ItemDiff(reference: Json, target: Json, i: nat, path: string, ignore: set<string>): seq<FieldDiff>
    requires reference.Arr? && target.Arr?
    requires i < Max(|reference.items|, |target.items|)
    decreases reference, 0, 0
  {
    if i >= |target.items| then
      [FieldDiff(ItemPath(path, i), MissingField, Some(reference.items[i]), None)]
    else if i >= |reference.items| then
      [FieldDiff(ItemPath(path, i), ExtraField, None, Some(target.items[i]))]
    else Diff(reference.items[i], target.items[i], ItemPath(path, i), ignore)
  }

  // ----- The loops -----

  /** `deep_compare`: the branches and loops compute exactly `Diff`. */
  method DeepCompare(reference: Json, target: Json, path: string, ignore: set<string>) returns (diffs: seq<FieldDiff>)
    ensures diffs == Diff(reference, target, path, ignore)
    decreases reference, 1
  {
    if IgnoredPath(path, ignore) {
      return [];
    }
    if reference.Obj? && target.Obj? {
      diffs := CompareFields(reference, target, path, ignore);
      return;
    }
    if reference.Arr? && target.Arr? {
      diffs := CompareItems(reference, target, path, ignore);
      return;
    }
    if !SameType(reference, target) {
      return [FieldDiff(path, TypeMismatch, Some(reference), Some(target))];
    }
    if !PyEqual(reference, target) {
      return [FieldDiff(path, ValueMismatch, Some(reference), Some(target))];
    }
    return [];
  }

  lemma KeysDiffStep(reference: Json, target: Json, keys: seq<string>, n: nat, path: string, ignore: set<string>)
    requires reference.Obj? && target.Obj? && n < |keys|
    ensures KeysDiff(reference, target, keys[..n + 1], path, ignore) ==
            KeysDiff(reference, target, keys[..n], path, ignore) + KeyDiff(reference, target, keys[n], path, ignore)
  {
    assert keys[..n + 1][..n] == keys[..n];
  }

  method CompareFields(reference: Json, target: Json, path: string, ignore: set<string>) returns (diffs: seq<FieldDiff>)
    requires reference.Obj? && target.Obj?
    ensures diffs == KeysDiff(reference, target, SortedKeys(reference.fields.Keys + target.fields.Keys), path, ignore)
    decreases reference, 0
  {
    var keys := SortedKeys(reference.fields.Keys + target.fields.Keys);
    diffs := [];
    for n := 0 to |keys|
      invariant diffs == KeysDiff(reference, target, keys[..n], path, ignore)
    {
      var key := keys[n];
      assert key in keys;
      KeysDiffStep(reference, target, keys, n, path, ignore);
      var childPath := ChildPath(path, key);
      if key in ignore || childPath in ignore {
        continue;
      }
      if key !in target.fields {
        diffs := diffs + [FieldDiff(childPath, MissingField, Some(reference.fields[key]), None)];
      } else if key !in reference.fields {
        diffs := diffs + [FieldDiff(childPath, ExtraField, None, Some(target.fields[key]))];
      } else {
        var inner := DeepCompare(reference.fields[key], target.fields[key], childPath, ignore);
        diffs := diffs + inner;
      }
    }
    assert keys[..|keys|] == keys;
  }

  method CompareItems(reference: Json, target: Json, path: string, ignore: set<string>) returns (diffs: seq<FieldDiff>)
    requires reference.Arr? && target.Arr?
    ensures diffs == ItemsDiff(reference, target, Max(|reference.items|, |target.items|), path, ignore)
    decreases reference, 0
  {
    diffs := [];
    for i := 0 to Max(|reference.items|, |target.items|)
      invariant diffs == ItemsDiff(reference, target, i, path, ignore)
    {
      var childPath := ItemPath(path, i);
      if i >= |target.items| {
        diffs := diffs + [FieldDiff(childPath, MissingField, Some(reference.items[i]), None)];
      } else if i >= |reference.items| {
        diffs := diffs + [FieldDiff(childPath, ExtraField, None, Some(target.items[i]))];
      } else {
        var inner := DeepCompare(reference.items[i], target.items[i], childPath, ignore);
        diffs := diffs + inner;
      }
    }
  }

  // ----- The normal form -----

  datatype Pruned = Hole | Leaf(value: Json) | PArr(items: seq<Pruned>) | PObj(fields: map<string, Pruned>)

  /** What is left of a value at a path: an ignored position is a hole, an ignored key is gone, and the
      length of a list is kept. */
  function Prune(v: Json, path: string, ignore: set<string>): Pruned {
    if IgnoredPath(path, ignore) then Hole
    else
      match v
      case Obj(fields) =>
        PObj(map k | k in fields && !IgnoredKey(path, k, ignore) :: Prune(fields[k], ChildPath(path, k), ignore))
      case Arr(items) =>
        PArr(seq(|items|, i requires 0 <= i < |items| => Prune(items[i], ItemPath(path, i), ignore)))
      case _ => Leaf(v)
  }

  /** The source's relation on what is left; equality but for a boolean reference against an integer. */
  ghost predicate Agree(reference: Pruned, target: Pruned) {
    match (reference, target)
    case (Hole, Hole) => true
    case (Leaf(r), Leaf(t)) => SameType(r, t) && PyEqual(r, t)
    case (PArr(r), PArr(t)) => |r| == |t| && forall i :: 0 <= i < |r| ==> Agree(r[i], t[i])
    case (PObj(r), PObj(t)) => r.Keys == t.Keys && forall k :: k in r ==> Agree(r[k], t[k])
    case _ => false
  }
}
