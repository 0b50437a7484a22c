/** JSON merge patches (section 2 of RFC 7396), the deep merge that folds several
    patches into one, and exactly when applying the folded patch means the same
    as applying the patches one after another. */
module JsonMerge {

  datatype Json = Null | Bool(b: bool) | Num(n: int) | Str(s: string)
                | Arr(items: seq<Json>) | Obj(members: map<string, Json>)

  function Members(j: Json): map<string, Json> {
    if j.Obj? then j.members else map[]
  }

  /** MergePatch(target, patch) of RFC 7396. */
  function Apply(target: Json, patch: Json): Json
    decreases patch
  {
    if !patch.Obj? then patch else
      var t := Members(target);
      Obj(map k | k in t.Keys + patch.members.Keys && !(k in patch.members && patch.members[k].Null?) ::
            if k in patch.members then Apply(if k in t then t[k] else Null, patch.members[k]) else t[k])
  }

  /** The later patch wins, except that two objects are merged. */
  function DeepMerge(a: Json, b: Json): Json
    requires a.Obj? && b.Obj?
    decreases b
  {
    Obj(map k | k in a.members.Keys + b.members.Keys ::
          if k !in b.members then a.members[k]
          else if k in a.members && a.members[k].Obj? && b.members[k].Obj?
          then DeepMerge(a.members[k], b.members[k])
          else b.members[k])
  }

  predicate Objects(ps: seq<Json>) {
    forall i | 0 <= i < |ps| :: ps[i].Obj?
  }

  function MergeAll(ps: seq<Json>): (r: Json)
    requires Objects(ps)
    ensures r.Obj?
  {
    if ps == [] then Obj(map[]) else DeepMerge(MergeAll(ps[..|ps| - 1]), ps[|ps| - 1])
  }

  function ApplyAll(doc: Json, ps: seq<Json>): Json {
    if ps == [] then doc else Apply(ApplyAll(doc, ps[..|ps| - 1]), ps[|ps| - 1])
  }

  method MergeObjects(a: Json, b: Json) returns (r: Json)
    requires a.Obj? && b.Obj?
    ensures r == DeepMerge(a, b)
    decreases b
  {
    var result := a.members;
    var unseen := b.members.Keys;
    while unseen != {}
      invariant unseen <= b.members.Keys
      invariant result.Keys == a.members.Keys + (b.members.Keys - unseen)
      invariant forall k | k in result ::
        result[k] == if k in b.members.Keys - unseen then DeepMerge(a, b).members[k] else a.members[k]
    {
      var k :| k in unseen;
      var v := b.members[k];
      if k in result && result[k].Obj? && v.Obj? {
        var merged := MergeObjects(result[k], v);
        result := result[k := merged];
      } else {
        result := result[k := v];
      }
      unseen := unseen - {k};
    }
    assert result == DeepMerge(a, b).members;
    r := Obj(result);
  }

  // ------------------------------------------------------- one key at a time

  /** What a run of patches does to one key: nothing, a final non-object, or a
      run of object patches, which start from nothing if a non-object came first. */
  datatype AtKey = Untouched | Scalar(v: Json) | Nested(afterScalar: bool, patches: seq<Json>)

  function History(ps: seq<Json>, k: string): AtKey {
    if ps == [] then Untouched else
      var before, p := History(ps[..|ps| - 1], k), ps[|ps| - 1];
      if k !in Members(p) then before
      else if !Members(p)[k].Obj? then Scalar(Members(p)[k])
      else if before.Nested? then before.(patches := before.patches + [Members(p)[k]])
      else Nested(before.Scalar?, [Members(p)[k]])
  }

  lemma {:induction false} NestedObjects(ps: seq<Json>, k: string)
    ensures History(ps, k).Nested? ==> Objects(History(ps, k).patches) && History(ps, k).patches != []
    ensures History(ps, k).Scalar? ==> !History(ps, k).v.Obj?
  {
    if ps != [] { NestedObjects(ps[..|ps| - 1], k); }
  }

  lemma SnocMerge(ps: seq<Json>, p: Json)
    requires Objects(ps) && p.Obj?
    ensures Objects(ps + [p]) && MergeAll(ps + [p]) == DeepMerge(MergeAll(ps), p)
  {
    assert (ps + [p])[..|ps|] == ps;
  }

  lemma SnocApply(doc: Json, ps: seq<Json>, p: Json)
    ensures ApplyAll(doc, ps + [p]) == Apply(ApplyAll(doc, ps), p)
  {
    assert (ps + [p])[..|ps|] == ps;
  }

  lemma SingleMerge(p: Json)
    requires p.Obj?
    ensures MergeAll([p]) == p
  {
    SnocMerge([], p);
    assert [] + [p] == [p];
    assert DeepMerge(Obj(map[]), p).members == p.members;
  }

  /** The folded patch at one key. */
  lemma {:induction false} MergedAt(ps: seq<Json>, k: string)
    requires Objects(ps)
    ensures var m, h := MergeAll(ps).members, History(ps, k);
      && (k in m <==> !h.Untouched?)
      && (h.Scalar? ==> m[k] == h.v)
      && (h.Nested? ==> Objects(h.patches) && m[k] == MergeAll(h.patches))
  {
    NestedObjects(ps, k);
    if ps != [] {
      var init, p := ps[..|ps| - 1], ps[|ps| - 1];
      MergedAt(init, k);
      NestedObjects(init, k);
      if k in p.members && p.members[k].Obj? {
        var before := History(init, k);
        if before.Nested? {
          SnocMerge(before.patches, p.members[k]);
        } else {
          SingleMerge(p.members[k]);
        }
      }
    }
  }

  function MemberOr(j: Json, k: string): Json {
    if k in Members(j) then Members(j)[k] else Null
  }

  /** Patching one after another, at one key. */
  lemma {:induction false} AppliedAt(doc: Json, ps: seq<Json>, k: string)
    requires Objects(ps)
    ensures var d, h := Members(ApplyAll(doc, ps)), History(ps, k);
      && (h.Untouched? ==> (k in d <==> k in Members(doc)) && (k in d ==> d[k] == Members(doc)[k]))
      && (h.Scalar? ==> (k in d <==> !h.v.Null?) && (k in d ==> d[k] == h.v))
      && (h.Nested? ==> k in d && d[k] == ApplyAll(if h.afterScalar then Null else MemberOr(doc, k), h.patches))
    ensures ps != [] ==> ApplyAll(doc, ps).Obj?
  {
    NestedObjects(ps, k);
    if ps != [] {
      var init, p := ps[..|ps| - 1], ps[|ps| - 1];
      AppliedAt(doc, init, k);
      NestedObjects(init, k);
      if k in p.members && p.members[k].Obj? {
        var before := History(init, k);
        if before.Nested? {
          SnocApply(if before.afterScalar then Null else MemberOr(doc, k), before.patches, p.members[k]);
        } else {
          FirstNested(doc, init, p, k);
        }
      } else if k in p.members {
        NonObjectReplaces(MemberOr(ApplyAll(doc, init), k), p.members[k]);
      }
    }
  }

  lemma NonObjectReplaces(target: Json, v: Json)
    requires !v.Obj?
    ensures Apply(target, v) == v
  {
  }

  /** An object patch does not see which non-object it lands on. */
  lemma ApplyToNonObject(a: Json, b: Json, p: Json)
    requires p.Obj? && !a.Obj? && !b.Obj?
    ensures Apply(a, p) == Apply(b, p)
  {
  }

  lemma FirstNested(doc: Json, init: seq<Json>, p: Json, k: string)
    requires Objects(init) && p.Obj? && k in p.members && p.members[k].Obj?
    requires var d, h := Members(ApplyAll(doc, init)), History(init, k);
      && !h.Nested? && (h.Scalar? ==> !h.v.Obj?)
      && (h.Untouched? ==> (k in d <==> k in Members(doc)) && (k in d ==> d[k] == Members(doc)[k]))
      && (h.Scalar? ==> (k in d <==> !h.v.Null?) && (k in d ==> d[k] == h.v))
    ensures var after := Members(Apply(ApplyAll(doc, init), p));
      k in after
      && after[k] == ApplyAll(if History(init, k).Scalar? then Null else MemberOr(doc, k), [p.members[k]])
  {
    var v, h := p.members[k], History(init, k);
    var d := Members(ApplyAll(doc, init));
    SnocApply(if h.Scalar? then Null else MemberOr(doc, k), [], v);
    assert [] + [v] == [v];
    if h.Scalar? && k in d {
      ApplyToNonObject(d[k], Null, v);
    }
  }

  // ------------------------------------------------------------- exactness

  /** Along `path`, an object patch follows a non-object one: the folded patch
      has forgotten that the earlier content was thrown away. */
  ghost predicate ForgetsAt(ps: seq<Json>, path: seq<string>)
    decreases |path|
  {
    path != [] &&
    var h := History(ps, path[0]);
    h.Nested? && (h.afterScalar || ForgetsAt(h.patches, path[1..]))
  }

  /** Without such a path, one merged patch means the same as the sequence. */
  lemma {:induction false} FaithfulMerge(doc: Json, ps: seq<Json>)
    requires Objects(ps) && ps != []
    requires !Forgets(ps)
    ensures Apply(doc, MergeAll(ps)) == ApplyAll(doc, ps)
    decreases MergeAll(ps)
  {
    var merged, one, many := MergeAll(ps), Apply(doc, MergeAll(ps)), ApplyAll(doc, ps);
    AppliedAt(doc, ps, "");
    forall k ensures k in one.members <==> k in many.members
      ensures k in one.members ==> one.members[k] == many.members[k]
    {
      AppliedAt(doc, ps, k);
      MergedAt(ps, k);
      NestedObjects(ps, k);
      var h := History(ps, k);
      if h.Nested? {
        assert !ForgetsAt(ps, [k]) && [k][0] == k;
        forall path ensures !ForgetsAt(h.patches, path) {
          assert !ForgetsAt(ps, [k] + path);
          assert ([k] + path)[1..] == path;
        }
        FaithfulMerge(MemberOr(doc, k), h.patches);
      } else if h.Scalar? {
        NonObjectReplaces(MemberOr(doc, k), h.v);
      }
    }
    assert one.members == many.members;
  }

  lemma {:induction false} LongestName(keys: set<string>) returns (n: nat)
    ensures forall k | k in keys :: |k| <= n
    decreases keys
  {
    if keys == {} {
      n := 0;
    } else {
      var k :| k in keys;
      n := LongestName(keys - {k});
      if |k| > n {
        n := |k|;
      }
    }
  }

  lemma UnusedName(keys: set<string>) returns (s: string)
    ensures s !in keys
  {
    var n := LongestName(keys);
    s := seq(n + 1, i => 'x');
  }

  /** Along such a path some document tells the two apart. */
  lemma {:induction false} ForgetfulMerge(ps: seq<Json>, path: seq<string>) returns (doc: Json)
    requires Objects(ps) && ForgetsAt(ps, path)
    ensures doc.Obj? && Apply(doc, MergeAll(ps)) != ApplyAll(doc, ps)
    decreases |path|
  {
    var k := path[0];
    var h := History(ps, k);
    NestedObjects(ps, k);
    MergedAt(ps, k);
    var inner: Json;
    if h.afterScalar {
      var x := UnusedName(MergeAll(h.patches).members.Keys);
      inner := Obj(map[x := Bool(true)]);
      MergedAt(h.patches, x);
      AppliedAt(Null, h.patches, x);
      assert x in Members(Apply(inner, MergeAll(h.patches)));
      assert x !in Members(ApplyAll(Null, h.patches));
    } else {
      inner := ForgetfulMerge(h.patches, path[1..]);
    }
    doc := Obj(map[k := inner]);
    AppliedAt(doc, ps, k);
    assert MemberOr(doc, k) == inner;
    assert Members(Apply(doc, MergeAll(ps)))[k] == Apply(inner, MergeAll(h.patches));
  }

  ghost predicate SameMeaning(ps: seq<Json>, doc: Json)
    requires Objects(ps)
  {
    Apply(doc, MergeAll(ps)) == ApplyAll(doc, ps)
  }

  ghost predicate Forgets(ps: seq<Json>) {
    exists path :: ForgetsAt(ps, path)
  }

  /** One folded patch means the same as the patches in sequence, for every
      document, exactly when no object patch follows a non-object one at the
      same path. */
  lemma MergeMeansSequenceExactly(ps: seq<Json>)
    requires Objects(ps) && ps != []
    ensures (forall doc: Json :: SameMeaning(ps, doc)) <==> !Forgets(ps)
  {
    if Forgets(ps) {
      var doc := ForgettingDocument(ps);
      assert !SameMeaning(ps, doc);
    } else {
      forall doc ensures SameMeaning(ps, doc) {
        FaithfulMerge(doc, ps);
      }
    }
  }

  lemma ForgettingDocument(ps: seq<Json>) returns (doc: Json)
    requires Objects(ps) && Forgets(ps)
    ensures doc.Obj? && !SameMeaning(ps, doc)
  {
    var path :| ForgetsAt(ps, path);
    doc := ForgetfulMerge(ps, path);
  }

  /** Clearing a field and then setting part of it is such a case. */
  lemma ClearThenSetIsForgotten()
    ensures var clear, set1 := Obj(map["behavior" := Null]), Obj(map["behavior" := Obj(map["scaleUp" := Num(1)])]);
      exists doc: Json :: !SameMeaning([clear, set1], doc)
  {
    var clear, set1 := Obj(map["behavior" := Null]), Obj(map["behavior" := Obj(map["scaleUp" := Num(1)])]);
    var ps := [clear, set1];
    assert ps[..1] == [clear] && [clear][..0] == [];
    assert History([clear], "behavior") == Scalar(Null);
    assert ForgetsAt(ps, ["behavior"]);
    var doc := ForgettingDocument(ps);
  }

  // ------------------------------------------------------- patches as text

  /** A patch as received: not JSON, or JSON. Decoding into a Go map accepts
      objects, and null as a nil map. */
  datatype Text = Malformed | Parsed(json: Json)

  predicate Decodes(t: Text) {
    t.Parsed? && (t.json.Obj? || t.json.Null?)
  }

  function Decoded(t: Text): Json
    requires Decodes(t)
  {
    if t.json.Obj? then t.json else Obj(map[])
  }

  function DecodedAll(ts: seq<Text>): seq<Json>
    requires forall i | 0 <= i < |ts| :: Decodes(ts[i])
  {
    seq(|ts|, i requires 0 <= i < |ts| => Decoded(ts[i]))
  }

  predicate Mergeable(ts: seq<Text>) {
    |ts| <= 1 || forall i | 0 <= i < |ts| :: Decodes(ts[i])
  }

  function MergedText(ts: seq<Text>): Text
    requires Mergeable(ts)
  {
    if ts == [] then Parsed(Obj(map[]))
    else if |ts| == 1 then ts[0]
    else Parsed(MergeAll(DecodedAll(ts)))
  }

  datatype MergeResult = Merged(text: Text) | MergeFailed

  /** MergePatches: a single patch is handed back unread. */
  method MergePatches(ts: seq<Text>) returns (r: MergeResult)
    ensures r.Merged? <==> Mergeable(ts)
    ensures r.Merged? ==> r.text == MergedText(ts)
  {
    if ts == [] {
      return Merged(Parsed(Obj(map[])));
    }
    if |ts| == 1 {
      return Merged(ts[0]);
    }
    var merged := Obj(map[]);
    for i := 0 to |ts|
      invariant merged.Obj?
      invariant forall j | 0 <= j < i :: Decodes(ts[j])
      invariant merged == MergeAll(DecodedAll(ts[..i]))
    {
      if !Decodes(ts[i]) {
        return MergeFailed;
      }
      SnocMerge(DecodedAll(ts[..i]), Decoded(ts[i]));
      assert DecodedAll(ts[..i + 1]) == DecodedAll(ts[..i]) + [Decoded(ts[i])];
      merged := MergeObjects(merged, Decoded(ts[i]));
    }
    assert ts[..|ts|] == ts;
    return Merged(Parsed(merged));
  }
}
