/** The difference list loses nothing: applied to the reference, it rebuilds what the target looks
    like under the ignore rules. */
module ComparisonPatch {
  import opened Bytes
  import opened Keys
  import opened Comparison
  import opened ComparisonTheorems

  // ----- Reading a path back -----

  datatype Segment = Key(key: string) | Index(i: nat)

  predicate IsSeparator(c: char) {
    c == '.' || c == '['
  }

  predicate Clean(s: string) {
    forall c :: c in s ==> !IsSeparator(c)
  }

  /** Length of the path before its last separator; the whole length if there is none. */
  function Cut(path: string): (n: nat)
    ensures n <= |path|
    ensures n < |path| ==> IsSeparator(path[n])
  {
    if path == "" then 0
    else if IsSeparator(path[|path| - 1]) then |path| - 1
    else
      var n := Cut(path[..|path| - 1]);
      if n == |path| - 1 then |path| else n
  }

  /** A path is read from its end, separator by separator. */
  function ParsePath(path: string): seq<Segment>
    decreases |path|
  {
    var n := Cut(path);
    if path == "" then []
    else if n == |path| then [Key(path)]
    else if path[n] == '.' then ParsePath(path[..n]) + [Key(path[n + 1..])]
    else if n + 1 == |path| then ParsePath(path[..n])
    else ParsePath(path[..n]) + [Index(FromDecimal(path[n + 1..|path| - 1]))]
  }

  lemma {:induction false} CutAfterSeparator(prefix: string, c: char, name: string)
    requires IsSeparator(c) && Clean(name)
    ensures Cut(prefix + [c] + name) == |prefix|
  {
    var path := prefix + [c] + name;
    if name == "" {
      assert path[|path| - 1] == c;
    } else {
      assert path[..|path| - 1] == prefix + [c] + name[..|name| - 1];
      assert path[|path| - 1] == name[|name| - 1] && name[|name| - 1] in name;
      CutAfterSeparator(prefix, c, name[..|name| - 1]);
    }
  }

  lemma {:induction false} CutOfName(name: string)
    requires Clean(name)
    ensures Cut(name) == |name|
  {
    if name != "" {
      assert name[|name| - 1] in name;
      CutOfName(name[..|name| - 1]);
    }
  }

  lemma ParseChild(path: string, key: string)
    requires key != "" && Clean(key)
    ensures ParsePath(ChildPath(path, key)) == ParsePath(path) + [Key(key)]
  {
    if path == "" {
      CutOfName(key);
    } else {
      var child := path + "." + key;
      CutAfterSeparator(path, '.', key);
      assert child == path + ['.'] + key;
      assert child[..|path|] == path && child[|path| + 1..] == key;
    }
  }

  lemma ParseItem(path: string, i: nat)
    ensures ParsePath(ItemPath(path, i)) == ParsePath(path) + [Index(i)]
  {
    var digits := Decimal(i) + "]";
    var child := ItemPath(path, i);
    CutAfterSeparator(path, '[', digits);
    assert child == path + ['['] + digits;
    assert child[..|path|] == path && child[|path| + 1..|child| - 1] == Decimal(i);
    DecimalRoundTrip(i);
  }

  // ----- Applying a difference list -----

  /** Apply one difference at a position inside `v`. */
  function Patch(v: Json, at: seq<Segment>, d: FieldDiff): Json {
    if at == [] then
      if d.target.Some? then d.target.value else v
    else
      match (at[0], v)
      case (Key(k), Obj(fields)) =>
        if |at| == 1 && d.kind.MissingField? then Obj(fields - {k})
        else if |at| == 1 && d.kind.ExtraField? && d.target.Some? then Obj(fields[k := d.target.value])
        else if k in fields then Obj(fields[k := Patch(fields[k], at[1..], d)])
        else v
      case (Index(i), Arr(items)) =>
        if |at| == 1 && d.kind.MissingField? then (if i <= |items| then Arr(items[..i]) else v)
        else if |at| == 1 && d.kind.ExtraField? && d.target.Some? then Arr(items + [d.target.value])
        else if i < |items| then Arr(items[i := Patch(items[i], at[1..], d)])
        else v
      case _ => v
  }

  /** The part of the path below depth `n`. */
  function Below(path: string, n: nat): seq<Segment> {
    if n <= |ParsePath(path)| then ParsePath(path)[n..] else []
  }

  /** Apply differences in order to a value that sits `depth` segments below the root. */
  function PatchAll(v: Json, diffs: seq<FieldDiff>, depth: nat): Json {
    if diffs == [] then v
    else
      var d := diffs[|diffs| - 1];
      Patch(PatchAll(v, diffs[..|diffs| - 1], depth), Below(d.path, depth), d)
  }

  lemma {:induction false} PatchConcat(v: Json, a: seq<FieldDiff>, b: seq<FieldDiff>, depth: nat)
    ensures PatchAll(v, a + b, depth) == PatchAll(PatchAll(v, a, depth), b, depth)
  {
    if b == [] {
      assert a + b == a;
    } else {
      assert (a + b)[..|a + b| - 1] == a + b[..|b| - 1];
      PatchConcat(v, a, b[..|b| - 1], depth);
    }
  }

  // ----- Where differences point -----

  /** `d` points at `path` itself as a mismatch, or somewhere below it. */
  predicate PointsInto(d: FieldDiff, at: seq<Segment>) {
    && at <= ParsePath(d.path)
    && (|ParsePath(d.path)| == |at| ==> (d.kind.ValueMismatch? || d.kind.TypeMismatch?) && d.target.Some?)
  }

  /** Every key that is compared or reported can be read back out of a path. Keys that are ignored, or
      that lie inside a value that is reported as a whole, do not matter. */
  ghost predicate Readable(reference: Json, target: Json, path: string, ignore: set<string>)
    decreases reference, 1
  {
    if IgnoredPath(path, ignore) then true
    else if reference.Obj? && target.Obj? then
      forall k :: k in reference.fields.Keys + target.fields.Keys && !IgnoredKey(path, k, ignore) ==>
        ReadableField(reference, target, k, path, ignore)
    else if reference.Arr? && target.Arr? then
      forall i :: 0 <= i < |reference.items| && i < |target.items| ==>
        Readable(reference.items[i], target.items[i], ItemPath(path, i), ignore)
    else true
  }

  ghost predicate ReadableField(reference: Json, target: Json, k: string, path: string, ignore: set<string>)
    requires reference.Obj? && target.Obj?
    decreases reference, 0
  {
    && k != "" && Clean(k)
    && (k in reference.fields && k in target.fields ==>
          Readable(reference.fields[k], target.fields[k], ChildPath(path, k), ignore))
  }

  lemma {:induction false} DiffPointsInto(reference: Json, target: Json, path: string, ignore: set<string>)
    requires Readable(reference, target, path, ignore)
    ensures forall d :: d in Diff(reference, target, path, ignore) ==> PointsInto(d, ParsePath(path))
    decreases reference, 1, 0
  {
    if IgnoredPath(path, ignore) {
    } else if reference.Obj? && target.Obj? {
      KeysPointInto(reference, target, SortedKeys(reference.fields.Keys + target.fields.Keys), path, ignore);
    } else if reference.Arr? && target.Arr? {
      ItemsPointInto(reference, target, Max(|reference.items|, |target.items|), path, ignore);
    } else {
      LeafPointsInto(reference, target, path);
    }
  }

  lemma LeafPointsInto(reference: Json, target: Json, path: string)
    ensures forall d :: d in LeafDiff(reference, target, path) ==> PointsInto(d, ParsePath(path))
  {
  }

  lemma KeyPointsInto(reference: Json, target: Json, k: string, path: string, ignore: set<string>)
    requires reference.Obj? && target.Obj? && !IgnoredPath(path, ignore)
    requires Readable(reference, target, path, ignore)
    ensures forall d :: d in KeyDiff(reference, target, k, path, ignore) ==> PointsInto(d, ParsePath(path))
    ensures k in reference.fields && k in target.fields ==>
              forall d :: d in KeyDiff(reference, target, k, path, ignore) ==> PointsInto(d, ParsePath(path) + [Key(k)])
    decreases reference, 0, 0
  {
    if (k in reference.fields || k in target.fields) && !IgnoredKey(path, k, ignore) {
      ParseChild(path, k);
      if k in reference.fields && k in target.fields {
        DiffPointsInto(reference.fields[k], target.fields[k], ChildPath(path, k), ignore);
      }
    }
  }

  lemma {:induction false} KeysPointInto(reference: Json, target: Json, keys: seq<string>, path: string,
      ignore: set<string>)
    requires reference.Obj? && target.Obj? && !IgnoredPath(path, ignore)
    requires Readable(reference, target, path, ignore)
    ensures forall d :: d in KeysDiff(reference, target, keys, path, ignore) ==> PointsInto(d, ParsePath(path))
    decreases reference, 0, |keys|
  {
    if keys != [] {
      KeysPointInto(reference, target, keys[..|keys| - 1], path, ignore);
      KeyPointsInto(reference, target, keys[|keys| - 1], path, ignore);
    }
  }

  lemma ItemPointsInto(reference: Json, target: Json, i: nat, path: string, ignore: set<string>)
    requires reference.Arr? && target.Arr? && !IgnoredPath(path, ignore)
    requires Readable(reference, target, path, ignore)
    requires i < Max(|reference.items|, |target.items|)
    ensures forall d :: d in ItemDiff(reference, target, i, path, ignore) ==> PointsInto(d, ParsePath(path))
    ensures i < |reference.items| && i < |target.items| ==>
              forall d :: d in ItemDiff(reference, target, i, path, ignore) ==>
                PointsInto(d, ParsePath(path) + [Index(i)])
    decreases reference, 0, 0
  {
    ParseItem(path, i);
    if i < |reference.items| && i < |target.items| {
      DiffPointsInto(reference.items[i], target.items[i], ItemPath(path, i), ignore);
    }
  }

  lemma {:induction false} ItemsPointInto(reference: Json, target: Json, n: nat, path: string, ignore: set<string>)
    requires reference.Arr? && target.Arr? && !IgnoredPath(path, ignore)
    requires Readable(reference, target, path, ignore)
    requires n <= Max(|reference.items|, |target.items|)
    ensures forall d :: d in ItemsDiff(reference, target, n, path, ignore) ==> PointsInto(d, ParsePath(path))
    decreases reference, 0, n
  {
    if n > 0 {
      ItemsPointInto(reference, target, n - 1, path, ignore);
      ItemPointsInto(reference, target, n - 1, path, ignore);
    }
  }

  // ----- Differences below one key or index -----

  lemma PatchBelowKey(fields: map<string, Json>, k: string, d: FieldDiff, at: seq<Segment>)
    requires k in fields && PointsInto(d, at + [Key(k)])
    ensures Patch(Obj(fields), Below(d.path, |at|), d) == Obj(fields[k := Patch(fields[k], Below(d.path, |at| + 1), d)])
  {
    var segments := ParsePath(d.path);
    assert segments[|at|..][0] == (at + [Key(k)])[|at|] == Key(k);
    assert segments[|at|..][1..] == segments[|at| + 1..];
  }

  lemma {:induction false} PatchInKey(fields: map<string, Json>, k: string, diffs: seq<FieldDiff>, at: seq<Segment>)
    requires k in fields
    requires forall d :: d in diffs ==> PointsInto(d, at + [Key(k)])
    ensures PatchAll(Obj(fields), diffs, |at|) == Obj(fields[k := PatchAll(fields[k], diffs, |at| + 1)])
  {
    if diffs == [] {
      assert fields[k := fields[k]] == fields;
    } else {
      var d, before := diffs[|diffs| - 1], diffs[..|diffs| - 1];
      assert d in diffs;
      PatchInKey(fields, k, before, at);
      LastPatchInKey(fields, k, PatchAll(fields[k], before, |at| + 1), d, at);
    }
  }

  lemma LastPatchInKey(fields: map<string, Json>, k: string, value: Json, d: FieldDiff, at: seq<Segment>)
    requires k in fields && PointsInto(d, at + [Key(k)])
    ensures Patch(Obj(fields[k := value]), Below(d.path, |at|), d) == Obj(fields[k := Patch(value, Below(d.path,
            |at| + 1), d)])
  {
    PatchBelowKey(fields[k := value], k, d, at);
    var value' := Patch(value, Below(d.path, |at| + 1), d);
    assert fields[k := value][k := value'] == fields[k := value'];
  }

  lemma PatchBelowItem(items: seq<Json>, i: nat, d: FieldDiff, at: seq<Segment>)
    requires i < |items| && PointsInto(d, at + [Index(i)])
    ensures Patch(Arr(items), Below(d.path, |at|), d) == Arr(items[i := Patch(items[i], Below(d.path, |at| + 1), d)])
  {
    var segments := ParsePath(d.path);
    assert segments[|at|..][0] == (at + [Index(i)])[|at|] == Index(i);
    assert segments[|at|..][1..] == segments[|at| + 1..];
  }

  lemma LastPatchInItem(items: seq<Json>, i: nat, value: Json, d: FieldDiff, at: seq<Segment>)
    requires i < |items| && PointsInto(d, at + [Index(i)])
    ensures Patch(Arr(items[i := value]), Below(d.path, |at|), d) == Arr(items[i := Patch(value, Below(d.path,
            |at| + 1), d)])
  {
    PatchBelowItem(items[i := value], i, d, at);
    var value' := Patch(value, Below(d.path, |at| + 1), d);
    assert items[i := value][i := value'] == items[i := value'];
  }

  lemma {:induction false} PatchInItem(items: seq<Json>, i: nat, diffs: seq<FieldDiff>, at: seq<Segment>)
    requires i < |items|
    requires forall d :: d in diffs ==> PointsInto(d, at + [Index(i)])
    ensures PatchAll(Arr(items), diffs, |at|) == Arr(items[i := PatchAll(items[i], diffs, |at| + 1)])
  {
    if diffs == [] {
      assert items[i := items[i]] == items;
    } else {
      var d, before := diffs[|diffs| - 1], diffs[..|diffs| - 1];
      assert d in diffs;
      PatchInItem(items, i, before, at);
      LastPatchInItem(items, i, PatchAll(items[i], before, |at| + 1), d, at);
    }
  }

  // ----- The theorem -----

  /** `u` is `target` as far as the ignore rules can see, up to the boolean/integer quirk; and without
      the quirk it is the same pruned value. */
  ghost predicate Restored(reference: Json, u: Json, target: Json, path: string, ignore: set<string>) {
    && Agree(Prune(u, path, ignore), Prune(target, path, ignore))
    && (NoMixedPair(reference, target, path, ignore) ==> Prune(u, path, ignore) == Prune(target, path, ignore))
  }

  ghost predicate FieldUntouched(r: map<string, Json>, u: map<string, Json>, k: string) {
    (k in u <==> k in r) && (k in u && k in r ==> u[k] == r[k])
  }

  ghost predicate FieldRestored(r: map<string, Json>, u: map<string, Json>, t: map<string, Json>, k: string,
      path: string, ignore: set<string>) {
    && (k in u <==> k in t)
    && (k in u && k in t && k in r ==> Restored(r[k], u[k], t[k], ChildPath(path, k), ignore))
    && (k in u && k in t && k !in r ==> u[k] == t[k])
  }

  lemma {:induction false} DiffRestores(reference: Json, target: Json, path: string, ignore: set<string>)
    requires Readable(reference, target, path, ignore)
    ensures Restored(reference, PatchAll(reference, Diff(reference, target, path, ignore), |ParsePath(path)|),
            target, path, ignore)
    decreases reference, 1, 0
  {
    if IgnoredPath(path, ignore) {
    } else if reference.Obj? && target.Obj? {
      var all := reference.fields.Keys + target.fields.Keys;
      var keys := SortedKeys(all);
      SortedKeysAscend(all);
      assert NoDuplicates(keys) && forall k :: k in keys ==> k in all;
      var u := KeysRestore(reference, target, keys, path, ignore);
      FieldsRestore(reference, u, target, all, path, ignore);
    } else if reference.Arr? && target.Arr? {
      var items := ItemsRestore(reference, target, Max(|reference.items|, |target.items|), path, ignore);
      ListRestores(reference, Arr(items), target, path, ignore);
    } else {
      LeafRestores(reference, target, path, ignore);
    }
  }

  lemma LeafRestores(reference: Json, target: Json, path: string, ignore: set<string>)
    requires !(reference.Obj? && target.Obj?) && !(reference.Arr? && target.Arr?)
    ensures Restored(reference, PatchAll(reference, LeafDiff(reference, target, path), |ParsePath(path)|), target,
            path, ignore)
  {
    AgreeIsReflexive(target, path, ignore);
    var diffs := LeafDiff(reference, target, path);
    if diffs != [] {
      assert diffs[..0] == [] && Below(path, |ParsePath(path)|) == [];
    }
  }

  /** One step of the loop over the keys restores one field and touches no other: a field that both
      sides have. */
  lemma SharedKeyRestores(reference: Json, target: Json, u: map<string, Json>, k: string, path: string,
      ignore: set<string>)
    returns (v: Json)
    requires reference.Obj? && target.Obj? && !IgnoredPath(path, ignore)
    requires Readable(reference, target, path, ignore)
    requires k in reference.fields && k in target.fields && k in u && u[k] == reference.fields[k]
    requires !IgnoredKey(path, k, ignore)
    ensures PatchAll(Obj(u), KeyDiff(reference, target, k, path, ignore), |ParsePath(path)|) == Obj(u[k := v])
    ensures Restored(reference.fields[k], v, target.fields[k], ChildPath(path, k), ignore)
    decreases reference, 0, 0
  {
    var at, diffs := ParsePath(path), KeyDiff(reference, target, k, path, ignore);
    ParseChild(path, k);
    KeyPointsInto(reference, target, k, path, ignore);
    PatchInKey(u, k, diffs, at);
    DiffRestores(reference.fields[k], target.fields[k], ChildPath(path, k), ignore);
    v := PatchAll(u[k], diffs, |at| + 1);
  }

  lemma PatchAtKey(u: map<string, Json>, k: string, d: FieldDiff)
    ensures d.kind.MissingField? ==> Patch(Obj(u), [Key(k)], d) == Obj(u - {k})
    ensures d.kind.ExtraField? && d.target.Some? ==> Patch(Obj(u), [Key(k)], d) == Obj(u[k := d.target.value])
  {
  }

  /** A field that only the reference has. */
  lemma MissingKeyIsRemoved(u: map<string, Json>, k: string, value: Json, path: string)
    requires k != "" && Clean(k)
    ensures PatchAll(Obj(u), [FieldDiff(ChildPath(path, k), MissingField, Some(value), None)],
            |ParsePath(path)|) == Obj(u - {k})
  {
    ParseChild(path, k);
    assert Below(ChildPath(path, k), |ParsePath(path)|) == [Key(k)];
    var d := FieldDiff(ChildPath(path, k), MissingField, Some(value), None);
    PatchOne(Obj(u), d, |ParsePath(path)|);
    PatchAtKey(u, k, d);
  }

  /** A field that only the target has. */
  lemma ExtraKeyIsAdded(u: map<string, Json>, k: string, value: Json, path: string)
    requires k != "" && Clean(k)
    ensures PatchAll(Obj(u), [FieldDiff(ChildPath(path, k), ExtraField, None, Some(value))],
            |ParsePath(path)|) == Obj(u[k := value])
  {
    ParseChild(path, k);
    assert Below(ChildPath(path, k), |ParsePath(path)|) == [Key(k)];
    var d := FieldDiff(ChildPath(path, k), ExtraField, None, Some(value));
    PatchOne(Obj(u), d, |ParsePath(path)|);
    PatchAtKey(u, k, d);
  }

  lemma PatchOne(v: Json, d: FieldDiff, depth: nat)
    ensures PatchAll(v, [d], depth) == Patch(v, Below(d.path, depth), d)
  {
    assert [d][..0] == [];
    assert PatchAll(v, [], depth) == v;
  }

  lemma OtherFieldsUntouched(u: map<string, Json>, k: string, v: Json, u': map<string, Json>)
    requires u' == u[k := v] || u' == u - {k}
    ensures forall k' :: k' != k ==> FieldUntouched(u, u', k')
  {
  }

  lemma KeyRestores(reference: Json, target: Json, u: map<string, Json>, k: string, path: string, ignore: set<string>)
    returns (u': map<string, Json>)
    requires reference.Obj? && target.Obj? && !IgnoredPath(path, ignore)
    requires Readable(reference, target, path, ignore)
    requires k in reference.fields || k in target.fields
    requires FieldUntouched(reference.fields, u, k) && !IgnoredKey(path, k, ignore)
    ensures PatchAll(Obj(u), KeyDiff(reference, target, k, path, ignore), |ParsePath(path)|) == Obj(u')
    ensures FieldRestored(reference.fields, u', target.fields, k, path, ignore)
    ensures forall k' :: k' != k ==> FieldUntouched(u, u', k')
    decreases reference, 0, 1
  {
    if k in reference.fields && k in target.fields {
      var v := SharedKeyRestores(reference, target, u, k, path, ignore);
      u' := u[k := v];
      OtherFieldsUntouched(u, k, v, u');
    } else {
      u' := LoneKeyRestores(reference, target, u, k, path, ignore);
    }
  }

  /** A field that only one side has. */
  lemma LoneKeyRestores(reference: Json, target: Json, u: map<string, Json>, k: string, path: string,
      ignore: set<string>)
    returns (u': map<string, Json>)
    requires reference.Obj? && target.Obj? && k != "" && Clean(k) && !IgnoredKey(path, k, ignore)
    requires k in reference.fields <==> k !in target.fields
    ensures PatchAll(Obj(u), KeyDiff(reference, target, k, path, ignore), |ParsePath(path)|) == Obj(u')
    ensures FieldRestored(reference.fields, u', target.fields, k, path, ignore)
    ensures forall k' :: k' != k ==> FieldUntouched(u, u', k')
  {
    if k in reference.fields {
      MissingKeyIsRemoved(u, k, reference.fields[k], path);
      u' := u - {k};
      OtherFieldsUntouched(u, k, reference.fields[k], u');
    } else {
      ExtraKeyIsAdded(u, k, target.fields[k], path);
      u' := u[k := target.fields[k]];
      OtherFieldsUntouched(u, k, target.fields[k], u');
    }
  }

  lemma {:induction false} KeysRestore(reference: Json, target: Json, keys: seq<string>, path: string,
      ignore: set<string>)
    returns (u: Json)
    requires reference.Obj? && target.Obj? && !IgnoredPath(path, ignore)
    requires Readable(reference, target, path, ignore)
    requires NoDuplicates(keys) && forall k :: k in keys ==> k in reference.fields || k in target.fields
    ensures u == PatchAll(reference, KeysDiff(reference, target, keys, path, ignore), |ParsePath(path)|) && u.Obj?
    ensures forall k :: k in keys && !IgnoredKey(path, k, ignore) ==>
              FieldRestored(reference.fields, u.fields, target.fields, k, path, ignore)
    ensures forall k :: k !in keys ==> FieldUntouched(reference.fields, u.fields, k)
    decreases reference, 0, 2 + |keys|
  {
    if keys == [] {
      u := reference;
    } else {
      var before, k := keys[..|keys| - 1], keys[|keys| - 1];
      assert forall other :: other in keys <==> other in before || other == k;
      assert k !in before;
      var prior := KeysRestore(reference, target, before, path, ignore);
      PatchConcat(reference, KeysDiff(reference, target, before, path, ignore), KeyDiff(reference, target, k, path,
        ignore), |ParsePath(path)|);
      if IgnoredKey(path, k, ignore) {
        u := prior;
      } else {
        var fields := KeyRestores(reference, target, prior.fields, k, path, ignore);
        u := Obj(fields);
        forall other | other in before && !IgnoredKey(path, other, ignore)
          ensures FieldRestored(reference.fields, fields, target.fields, other, path, ignore)
        {
          assert FieldUntouched(prior.fields, fields, other);
        }
        forall other | other !in keys ensures FieldUntouched(reference.fields, fields, other) {
          assert FieldUntouched(prior.fields, fields, other);
        }
      }
    }
  }

  lemma FieldsRestore(reference: Json, u: Json, target: Json, keys: set<string>, path: string, ignore: set<string>)
    requires reference.Obj? && u.Obj? && target.Obj? && !IgnoredPath(path, ignore)
    requires keys == reference.fields.Keys + target.fields.Keys
    requires forall k :: k in keys && !IgnoredKey(path, k, ignore) ==>
               FieldRestored(reference.fields, u.fields, target.fields, k, path, ignore)
    requires forall k :: k !in keys ==> FieldUntouched(reference.fields, u.fields, k)
    ensures Restored(reference, u, target, path, ignore)
  {
    var p, q := Prune(u, path, ignore).fields, Prune(target, path, ignore).fields;
    forall k
      ensures k in p <==> k in q
      ensures k in p && k in q ==> Agree(p[k], q[k])
      ensures k in p && k in q && NoMixedPair(reference, target, path, ignore) ==> p[k] == q[k]
    {
      if k !in keys {
        assert FieldUntouched(reference.fields, u.fields, k);
      } else if !IgnoredKey(path, k, ignore) {
        assert FieldRestored(reference.fields, u.fields, target.fields, k, path, ignore);
        if k in target.fields {
          AgreeIsReflexive(target.fields[k], ChildPath(path, k), ignore);
        }
      }
    }
    assert p.Keys == q.Keys;
    if NoMixedPair(reference, target, path, ignore) {
      assert p == q;
    }
  }

  // ----- Lists -----

  ghost predicate ItemRestored(reference: seq<Json>, u: seq<Json>, target: seq<Json>, i: nat, path: string,
      ignore: set<string>)
    requires i < |u| && i < |target|
  {
    && (i < |reference| ==> Restored(reference[i], u[i], target[i], ItemPath(path, i), ignore))
    && (i >= |reference| ==> u[i] == target[i])
  }

  /** The list after `n` rounds of the loop over the indices. */
  function LengthAfter(r: nat, t: nat, n: nat): nat {
    if n <= r && n <= t then r else if r > t then t else n
  }

  ghost predicate ItemsDone(reference: seq<Json>, u: seq<Json>, target: seq<Json>, n: nat, path: string,
      ignore: set<string>) {
    && |u| == LengthAfter(|reference|, |target|, n)
    && (forall i :: 0 <= i < n && i < |u| && i < |target| ==> ItemRestored(reference, u, target, i, path, ignore))
    && (forall i :: n <= i < |u| && i < |reference| ==> u[i] == reference[i])
  }

  /** An index that both lists have. */
  lemma SharedItemRestores(reference: Json, target: Json, u: seq<Json>, n: nat, path: string, ignore: set<string>)
    returns (v: Json)
    requires reference.Arr? && target.Arr? && !IgnoredPath(path, ignore)
    requires Readable(reference, target, path, ignore)
    requires n < |reference.items| && n < |target.items| && n < |u| && u[n] == reference.items[n]
    ensures PatchAll(Arr(u), ItemDiff(reference, target, n, path, ignore), |ParsePath(path)|) == Arr(u[n := v])
    ensures Restored(reference.items[n], v, target.items[n], ItemPath(path, n), ignore)
    decreases reference, 0, 0
  {
    v := PatchAll(u[n], ItemDiff(reference, target, n, path, ignore), |ParsePath(path)| + 1);
    PatchSharedItem(reference, target, u, n, path, ignore);
    ParseItem(path, n);
    SharedItemDiff(reference, target, n, path, ignore);
    DiffRestores(reference.items[n], target.items[n], ItemPath(path, n), ignore);
  }

  lemma PatchSharedItem(reference: Json, target: Json, u: seq<Json>, n: nat, path: string, ignore: set<string>)
    requires reference.Arr? && target.Arr? && !IgnoredPath(path, ignore)
    requires Readable(reference, target, path, ignore)
    requires n < |reference.items| && n < |target.items| && n < |u|
    ensures var diffs := ItemDiff(reference, target, n, path, ignore);
            PatchAll(Arr(u), diffs, |ParsePath(path)|) == Arr(u[n := PatchAll(u[n], diffs, |ParsePath(path)| + 1)])
  {
    ItemPointsInto(reference, target, n, path, ignore);
    PatchInItem(u, n, ItemDiff(reference, target, n, path, ignore), ParsePath(path));
  }

  lemma SharedItemDiff(reference: Json, target: Json, n: nat, path: string, ignore: set<string>)
    requires reference.Arr? && target.Arr? && !IgnoredPath(path, ignore)
    requires Readable(reference, target, path, ignore) && n < |reference.items| && n < |target.items|
    ensures ItemDiff(reference, target, n, path, ignore) ==
            Diff(reference.items[n], target.items[n], ItemPath(path, n), ignore)
    ensures Readable(reference.items[n], target.items[n], ItemPath(path, n), ignore)
  {
  }

  lemma PatchAtItem(u: seq<Json>, n: nat, d: FieldDiff)
    ensures d.kind.MissingField? ==> Patch(Arr(u), [Index(n)], d) == Arr(if n <= |u| then u[..n] else u)
    ensures d.kind.ExtraField? && d.target.Some? ==> Patch(Arr(u), [Index(n)], d) == Arr(u + [d.target.value])
  {
  }

  /** An index past the end of the target cuts the list there. */
  lemma MissingItemIsCut(u: seq<Json>, n: nat, value: Json, path: string)
    ensures PatchAll(Arr(u), [FieldDiff(ItemPath(path, n), MissingField, Some(value), None)], |ParsePath(path)|) ==
            Arr(if n <= |u| then u[..n] else u)
  {
    ParseItem(path, n);
    assert Below(ItemPath(path, n), |ParsePath(path)|) == [Index(n)];
    var d := FieldDiff(ItemPath(path, n), MissingField, Some(value), None);
    PatchOne(Arr(u), d, |ParsePath(path)|);
    PatchAtItem(u, n, d);
  }

  /** An index past the end of the reference extends the list. */
  lemma ExtraItemIsAppended(u: seq<Json>, n: nat, value: Json, path: string)
    ensures PatchAll(Arr(u), [FieldDiff(ItemPath(path, n), ExtraField, None, Some(value))],
            |ParsePath(path)|) == Arr(u + [value])
  {
    ParseItem(path, n);
    assert Below(ItemPath(path, n), |ParsePath(path)|) == [Index(n)];
    var d := FieldDiff(ItemPath(path, n), ExtraField, None, Some(value));
    PatchOne(Arr(u), d, |ParsePath(path)|);
    PatchAtItem(u, n, d);
  }

  lemma KeepItems(r: seq<Json>, u: seq<Json>, u': seq<Json>, t: seq<Json>, n: nat, path: string, ignore: set<string>)
    requires ItemsDone(r, u, t, n, path, ignore)
    requires forall i :: 0 <= i < n && i < |u'| && i < |t| ==> i < |u| && u'[i] == u[i]
    ensures forall i :: 0 <= i < n && i < |u'| && i < |t| ==> ItemRestored(r, u', t, i, path, ignore)
  {
    forall i | 0 <= i < n && i < |u'| && i < |t| ensures ItemRestored(r, u', t, i, path, ignore) {
      assert ItemRestored(r, u, t, i, path, ignore);
    }
  }

  lemma ItemRestores(reference: Json, target: Json, u: seq<Json>, n: nat, path: string, ignore: set<string>)
    returns (u': seq<Json>)
    requires reference.Arr? && target.Arr? && !IgnoredPath(path, ignore)
    requires Readable(reference, target, path, ignore)
    requires n < Max(|reference.items|, |target.items|)
    requires ItemsDone(reference.items, u, target.items, n, path, ignore)
    ensures PatchAll(Arr(u), ItemDiff(reference, target, n, path, ignore), |ParsePath(path)|) == Arr(u')
    ensures ItemsDone(reference.items, u', target.items, n + 1, path, ignore)
    decreases reference, 0, 1
  {
    if n < |reference.items| && n < |target.items| {
      var v := SharedItemRestores(reference, target, u, n, path, ignore);
      u' := u[n := v];
      SharedItemDone(reference.items, u, target.items, n, v, path, ignore);
    } else {
      u' := LoneItemRestores(reference, target, u, n, path, ignore);
    }
  }

  lemma SharedItemDone(r: seq<Json>, u: seq<Json>, t: seq<Json>, n: nat, v: Json, path: string, ignore: set<string>)
    requires n < |r| && n < |t| && n < |u| && ItemsDone(r, u, t, n, path, ignore)
    requires Restored(r[n], v, t[n], ItemPath(path, n), ignore)
    ensures ItemsDone(r, u[n := v], t, n + 1, path, ignore)
  {
    assert ItemRestored(r, u[n := v], t, n, path, ignore);
    KeepItems(r, u, u[n := v], t, n, path, ignore);
  }

  /** An index that only one list has. */
  lemma LoneItemRestores(reference: Json, target: Json, u: seq<Json>, n: nat, path: string, ignore: set<string>)
    returns (u': seq<Json>)
    requires reference.Arr? && target.Arr? && n < Max(|reference.items|, |target.items|)
    requires n >= |reference.items| || n >= |target.items|
    requires ItemsDone(reference.items, u, target.items, n, path, ignore)
    ensures PatchAll(Arr(u), ItemDiff(reference, target, n, path, ignore), |ParsePath(path)|) == Arr(u')
    ensures ItemsDone(reference.items, u', target.items, n + 1, path, ignore)
  {
    if n < |reference.items| {
      MissingItemIsCut(u, n, reference.items[n], path);
      u' := if n <= |u| then u[..n] else u;
    } else {
      ExtraItemIsAppended(u, n, target.items[n], path);
      u' := u + [target.items[n]];
    }
    KeepItems(reference.items, u, u', target.items, n, path, ignore);
  }

  lemma ItemsPatchStep(reference: Json, target: Json, n: nat, path: string, ignore: set<string>)
    requires reference.Arr? && target.Arr? && 0 < n <= Max(|reference.items|, |target.items|)
    ensures PatchAll(reference, ItemsDiff(reference, target, n, path, ignore), |ParsePath(path)|) ==
            PatchAll(PatchAll(reference, ItemsDiff(reference, target, n - 1, path, ignore), |ParsePath(path)|),
                     ItemDiff(reference, target, n - 1, path, ignore), |ParsePath(path)|)
  {
    PatchConcat(reference, ItemsDiff(reference, target, n - 1, path, ignore), ItemDiff(reference, target, n - 1,
      path, ignore), |ParsePath(path)|);
  }

  lemma NothingDone(r: seq<Json>, t: seq<Json>, path: string, ignore: set<string>)
    ensures ItemsDone(r, r, t, 0, path, ignore)
  {
  }

  lemma {:induction false} ItemsRestore(reference: Json, target: Json, n: nat, path: string, ignore: set<string>)
    returns (items: seq<Json>)
    requires reference.Arr? && target.Arr? && !IgnoredPath(path, ignore)
    requires Readable(reference, target, path, ignore)
    requires n <= Max(|reference.items|, |target.items|)
    ensures PatchAll(reference, ItemsDiff(reference, target, n, path, ignore), |ParsePath(path)|) == Arr(items)
    ensures ItemsDone(reference.items, items, target.items, n, path, ignore)
    decreases reference, 0, 2 + n
  {
    if n == 0 {
      items := reference.items;
      NothingDone(reference.items, target.items, path, ignore);
    } else {
      var prior := ItemsRestore(reference, target, n - 1, path, ignore);
      items := ItemRestores(reference, target, prior, n - 1, path, ignore);
      ItemsPatchStep(reference, target, n, path, ignore);
    }
  }

  lemma ListRestores(reference: Json, u: Json, target: Json, path: string, ignore: set<string>)
    requires reference.Arr? && u.Arr? && target.Arr? && !IgnoredPath(path, ignore)
    requires ItemsDone(reference.items, u.items, target.items, Max(|reference.items|, |target.items|), path, ignore)
    ensures Restored(reference, u, target, path, ignore)
  {
    var p, q := Prune(u, path, ignore).items, Prune(target, path, ignore).items;
    assert |p| == |q|;
    forall i | 0 <= i < |p|
      ensures Agree(p[i], q[i])
      ensures NoMixedPair(reference, target, path, ignore) ==> p[i] == q[i]
    {
      assert ItemRestored(reference.items, u.items, target.items, i, path, ignore);
      AgreeIsReflexive(target.items[i], ItemPath(path, i), ignore);
    }
    if NoMixedPair(reference, target, path, ignore) {
      assert p == q;
    }
  }

  /** Applying the reported differences in order to the reference gives a value that `deep_compare` does
      not tell from the target, and whose pruned form is the target's when no compared position pairs a
      boolean with an integer. Compared keys must be non-empty and free of "." and "[". */
  lemma DiffLosesNothing(reference: Json, target: Json, ignore: set<string>)
    requires Readable(reference, target, "", ignore)
    ensures var u := PatchAll(reference, Diff(reference, target, "", ignore), 0);
            && Diff(u, target, "", ignore) == []
            && (NoMixedPair(reference, target, "", ignore) ==> Prune(u, "", ignore) == Prune(target, "", ignore))
  {
    DiffRestores(reference, target, "", ignore);
    SilentExactly(PatchAll(reference, Diff(reference, target, "", ignore), 0), target, "", ignore);
  }
}
