/** Applying suggestions to a live HPA under optimistic concurrency: an API server
    that other writers may change between any two calls, and the client that
    reviews, validates and patches. */
module ApplyProtocol {
  import opened JsonMerge

  // ------------------------------------------------------- object versions

  /** Opaque, nonempty and different for every write. */
  function VersionText(n: nat): (s: string)
    ensures |s| == n + 1
  {
    seq(n + 1, i => '1')
  }

  function Metadata(doc: Json): map<string, Json> {
    Members(MemberOr(doc, "metadata"))
  }

  function VersionOf(doc: Json): Json {
    if "resourceVersion" in Metadata(doc) then Metadata(doc)["resourceVersion"] else Null
  }

  function UidOf(doc: Json): Json {
    if "uid" in Metadata(doc) then Metadata(doc)["uid"] else Null
  }

  /** metadata becomes an object if it was not one, and names the version. */
  function SetVersion(doc: Json, version: string): (r: Json)
    ensures r.Obj? && VersionOf(r) == Str(version)
  {
    Obj(Members(doc)["metadata" := Obj(Metadata(doc)["resourceVersion" := Str(version)])])
  }

  // ------------------------------------------------------------ the server

  datatype Author = Client | Foreign

  /** One persisted write: the document it found, the patch if it was one, and
      the document it left. */
  datatype Write = Write(author: Author, before: Json, patch: Json, after: Json)

  /** One accepted dry run: the document it was evaluated on, and the patch. */
  datatype Rehearsal = Rehearsal(before: Json, patch: Json)

  /** One patch the server would not take: the document it was evaluated on. */
  datatype Refusal = Refusal(before: Json, patch: Json)

  ghost predicate AllForeign(ws: seq<Write>) {
    forall i | 0 <= i < |ws| :: ws[i].author.Foreign?
  }

  /** The server refuses a patch whose result names another version than the
      current one; a result naming none is unconditional. */
  predicate Guarded(doc: Json, patch: Json) {
    var result := Apply(doc, patch);
    && result.Obj?
    && (VersionOf(result) == VersionOf(doc) || VersionOf(result) == Null || VersionOf(result) == Str(""))
  }

  class ApiServer {
    var doc: Json
    var version: nat
    ghost var history: seq<Write>
    ghost var rehearsals: seq<Rehearsal>
    /** How many calls failed that could have been served. */
    ghost var failures: nat
    ghost var refusals: seq<Refusal>

    ghost predicate Valid()
      reads this
    {
      doc.Obj? && VersionOf(doc) == Str(VersionText(version))
    }

    /** Everything that happened since an earlier state was somebody else's. */
    twostate predicate OnlyForeign(ws: seq<Write>)
      reads this
    {
      && history == old(history) + ws && AllForeign(ws)
      && version == old(version) + |ws|
      && (ws == [] ==> doc == old(doc))
    }

    /** No call failed and no patch was refused since. */
    twostate predicate Untroubled()
      reads this
    {
      failures == old(failures) && refusals == old(refusals)
    }

    constructor (initial: Json)
      ensures Valid() && history == [] && rehearsals == [] && version == 0 && failures == 0 && refusals == []
      ensures doc == SetVersion(initial, VersionText(0))
    {
      doc, version := SetVersion(initial, VersionText(0)), 0;
      history, rehearsals, failures, refusals := [], [], 0, [];
    }

    /** Other writers get any number of turns. */
    method Interfere() returns (ghost ws: seq<Write>)
      requires Valid()
      modifies this
      ensures Valid() && OnlyForeign(ws) && rehearsals == old(rehearsals) && Untroubled()
    {
      ws := [];
      var turns: nat := *;
      while turns > 0
        invariant Valid() && OnlyForeign(ws) && rehearsals == old(rehearsals) && Untroubled()
      {
        var next: Json := *;
        var after := SetVersion(next, VersionText(version + 1));
        ghost var w := Write(Foreign, doc, Null, after);
        history, ws := history + [w], ws + [w];
        doc, version := after, version + 1;
        turns := turns - 1;
      }
    }

    /** A read may fail; it changes nothing. */
    method Get() returns (r: Json, ok: bool)
      requires Valid()
      modifies `failures
      ensures ok ==> r == doc
      ensures failures == old(failures) + (if ok then 0 else 1)
    {
      r, ok := doc, *;
      if !ok {
        failures := failures + 1;
      }
    }

    /** A refused or failed patch persists nothing; an accepted one persists once
        unless it is a dry run. A patch the server takes goes through unless the
        call fails. */
    method Patch(patch: Json, dryRun: bool) returns (r: Json, ok: bool)
      requires Valid()
      modifies this
      ensures Valid()
      ensures ok ==> Guarded(old(doc), patch)
      ensures !ok || dryRun ==>
        doc == old(doc) && version == old(version) && history == old(history)
      ensures ok && !dryRun ==>
        && version == old(version) + 1
        && doc == r == SetVersion(Apply(old(doc), patch), VersionText(version))
        && history == old(history) + [Write(Client, old(doc), patch, doc)]
      ensures rehearsals == old(rehearsals) + (if ok && dryRun then [Rehearsal(old(doc), patch)] else [])
      ensures failures == old(failures) + (if !ok && Guarded(old(doc), patch) then 1 else 0)
      ensures refusals == old(refusals) + (if Guarded(old(doc), patch) then [] else [Refusal(old(doc), patch)])
    {
      r, ok := doc, *;
      if !Guarded(doc, patch) {
        refusals := refusals + [Refusal(doc, patch)];
        return r, false;
      }
      if !ok {
        failures := failures + 1;
      }
      if ok && !dryRun {
        version := version + 1;
        r := SetVersion(Apply(doc, patch), VersionText(version));
        history := history + [Write(Client, doc, patch, r)];
        doc := r;
      }
      if ok && dryRun {
        rehearsals := rehearsals + [Rehearsal(doc, patch)];
      }
    }
  }

  // ------------------------------------------------------------ the client

  datatype Suggestion = Suggestion(title: string, text: Text, apply: bool, hasPatch: bool,
                                   sourceUID: string, sourceVersion: string)

  /** Crashed is the runtime panic of assigning into a nil map. */
  datatype Outcome = Applied(titles: seq<string>) | Failed(titles: seq<string>) | Crashed

  function Titles(ps: seq<Suggestion>): seq<string> {
    seq(|ps|, i requires 0 <= i < |ps| => ps[i].title)
  }

  function Texts(ps: seq<Suggestion>): seq<Text> {
    seq(|ps|, i requires 0 <= i < |ps| => ps[i].text)
  }

  datatype Stamped = StampedPatch(patch: Json) | NotAnObject | NilMap

  /** mergePatchWithResourceVersion: an empty version is left out, metadata that
      is not an object is replaced, and a null patch is written into a nil map. */
  function Stamp(text: Text, version: string): Stamped {
    if !Decodes(text) then NotAnObject
    else if text.json.Null? then NilMap
    else if version == "" then
      StampedPatch(Obj(text.json.members["metadata" := Obj(Metadata(text.json))]))
    else StampedPatch(SetVersion(text.json, version))
  }

  /** The version the i-th own write must have found. */
  function VersionFound(mine: seq<Write>, i: nat, expected: string): string
    requires i <= |mine|
  {
    if i == 0 then expected else VersionString(mine[i - 1].after)
  }

  /** One own write: the stamped patch of its suggestion on that version. */
  ghost predicate OwnWrite(w: Write, text: Text, version: string) {
    && w.author.Client?
    && VersionOf(w.before) == Str(version)
    && Stamp(text, version) == StampedPatch(w.patch)
    && w.after == SetVersion(Apply(w.before, w.patch), VersionString(w.after))
  }

  /** Own writes that follow each other without a gap. */
  ghost predicate OwnWrites(mine: seq<Write>, texts: seq<Text>, expected: string) {
    && |mine| <= |texts|
    && forall i | 0 <= i < |mine| :: OwnWriteAt(mine, i, texts[i], expected)
  }

  ghost predicate OwnWriteAt(mine: seq<Write>, i: nat, text: Text, expected: string)
    requires i < |mine|
  {
    && OwnWrite(mine[i], text, VersionFound(mine, i, expected))
    && (i > 0 ==> mine[i].before == mine[i - 1].after)
  }

  function VersionString(doc: Json): string {
    if VersionOf(doc).Str? then VersionOf(doc).s else ""
  }

  lemma StampGuards(doc: Json, text: Text, version: string)
    requires version != "" && Stamp(text, version).StampedPatch? && doc.Obj?
    requires Guarded(doc, Stamp(text, version).patch)
    ensures VersionOf(doc) == Str(version)
  {
    var p := Stamp(text, version).patch;
    AppliedVersion(MemberOr(doc, "metadata"), p.members["metadata"], version);
    assert Apply(doc, p).members["metadata"] == Apply(MemberOr(doc, "metadata"), p.members["metadata"]);
  }

  /** On the version it names, the server takes every stamped patch. */
  lemma StampAccepted(doc: Json, text: Text, version: string)
    requires version != "" && Stamp(text, version).StampedPatch? && doc.Obj? && VersionOf(doc) == Str(version)
    ensures Guarded(doc, Stamp(text, version).patch)
  {
    var p := Stamp(text, version).patch;
    AppliedVersion(MemberOr(doc, "metadata"), p.members["metadata"], version);
    assert Apply(doc, p).members["metadata"] == Apply(MemberOr(doc, "metadata"), p.members["metadata"]);
  }

  lemma AppliedVersion(target: Json, metadata: Json, version: string)
    requires metadata.Obj? && "resourceVersion" in metadata.members
    requires metadata.members["resourceVersion"] == Str(version)
    ensures var r := Apply(target, metadata);
      r.Obj? && "resourceVersion" in r.members && r.members["resourceVersion"] == Str(version)
  {
  }

  /** What an execution leaves in the server's history: foreign writes, then own
      writes with nothing in between, then foreign writes. */
  datatype Trail = Trail(earlier: seq<Write>, mine: seq<Write>, later: seq<Write>)

  twostate predicate Left(server: ApiServer, t: Trail, expected: string)
    reads server
  {
    && server.history == old(server.history) + t.earlier + t.mine + t.later
    && AllForeign(t.earlier) && AllForeign(t.later)
    && server.version == old(server.version) + |t.earlier| + |t.mine| + |t.later|
    && (t.mine != [] ==>
          && expected == VersionText(old(server.version) + |t.earlier|)
          && VersionOf(t.mine[0].before) == Str(expected)
          && (t.earlier == [] ==> t.mine[0].before == old(server.doc)))
  }

  /** One atomic patch: all or nothing. */
  ghost predicate MergedOutcome(r: Outcome, mine: seq<Write>, patches: seq<Suggestion>, expected: string)
    requires Mergeable(Texts(patches))
  {
    var text := MergedText(Texts(patches));
    && (r.Applied? ==> |mine| == 1 && OwnWrites(mine, [text], expected) && r.titles == Titles(patches))
    && (!r.Applied? ==> mine == [])
    && (r.Failed? ==> r.titles == [])
    && (r.Crashed? ==> text == Parsed(Null))
  }

  /** The sequential fallback persists a proper prefix and never succeeds: the
      patch that could not be merged cannot be stamped either. */
  ghost predicate PartialOutcome(r: Outcome, mine: seq<Write>, patches: seq<Suggestion>, allowPartial: bool,
                                 expected: string) {
    && !r.Applied?
    && |mine| < |patches|
    && OwnWrites(mine, Texts(patches), expected)
    && (r.Failed? ==> r.titles == Titles(patches)[..|mine|])
    && (r.Crashed? ==> patches[|mine|].text == Parsed(Null))
    && (!allowPartial ==> mine == [] && r == Failed([]))
  }

  /** No call failed, and nobody else wrote. */
  twostate predicate Undisturbed(server: ApiServer, t: Trail)
    reads server
  {
    server.failures == old(server.failures) && t.earlier == t.later == []
  }

  /** What holds up a sequential apply that nothing disturbs: without consent and
      a warning that could be written it does not start; with both it stops at the
      first patch that is not an object. */
  ghost predicate StopsAt(r: Outcome, mine: seq<Write>, patches: seq<Suggestion>, consented: bool) {
    if !consented then mine == [] && r == Failed([])
    else
      && |mine| < |patches|
      && (forall i | 0 <= i < |mine| :: patches[i].text.Parsed? && patches[i].text.json.Obj?)
      && !(patches[|mine|].text.Parsed? && patches[|mine|].text.json.Obj?)
      && r == if patches[|mine|].text == Parsed(Null) then Crashed else Failed(Titles(patches)[..|mine|])
  }

  /** What a merged apply comes to when nothing disturbs it. */
  function MergedResult(text: Text, patches: seq<Suggestion>): Outcome {
    if text.Parsed? && text.json.Obj? then Applied(Titles(patches))
    else if text == Parsed(Null) then Crashed
    else Failed([])
  }

  /** A merged apply fails only for a failed call, a foreign write, another
      version than the expected one, or a single patch that is no object. */
  lemma FewMerge(patches: seq<Suggestion>)
    ensures |Texts(patches)| == |patches| && (|patches| <= 1 ==> Mergeable(Texts(patches)))
  {
  }

  lemma NoOwnWrites(texts: seq<Text>, expected: string)
    ensures OwnWrites([], texts, expected)
  {
  }

  method ExecutePatches(server: ApiServer, patches: seq<Suggestion>, allowPartial: bool, expected: string,
                        warned: bool)
    returns (r: Outcome, ghost t: Trail)
    requires server.Valid()
    modifies server
    ensures server.Valid() && Left(server, t, expected) && server.failures >= old(server.failures)
    ensures Undisturbed(server, t) && expected == VersionText(old(server.version)) && Mergeable(Texts(patches)) ==>
      r == MergedResult(MergedText(Texts(patches)), patches)
    ensures Undisturbed(server, t) && expected == VersionText(old(server.version)) && !Mergeable(Texts(patches)) ==>
      StopsAt(r, t.mine, patches, allowPartial && warned)
    ensures Mergeable(Texts(patches)) ==> MergedOutcome(r, t.mine, patches, expected)
    ensures !Mergeable(Texts(patches)) ==> PartialOutcome(r, t.mine, patches, allowPartial, expected)
    ensures Mergeable(Texts(patches)) && t.mine != [] ==> Rehearsed(server, t.mine[0])
  {
    hide Mergeable, Texts, MergedText, MergedResult, OwnWrites, Titles, Stamp;
    FewMerge(patches);
    NoOwnWrites(Texts(patches), expected);
    ghost var before := server.Interfere();
    t := Trail(before, [], []);
    var current, found := server.Get();
    if !found || VersionOf(current) != Str(expected) {
      return Failed([]), t;
    }
    var merge := MergePatches(Texts(patches));
    if merge.Merged? {
      r, t := ApplyMerged(server, patches, merge.text, expected);
    } else {
      if !allowPartial || !warned {
        return Failed([]), t;
      }
      r, t := ApplySequentially(server, patches, expected);
    }
    t := Trail(before + t.earlier, t.mine, t.later);
  }

  /** The reviewed version is current when this starts, so own writes found
      nothing before them. */
  twostate predicate LeftFromReviewed(server: ApiServer, t: Trail)
    reads server
  {
    && server.history == old(server.history) + t.earlier + t.mine + t.later
    && AllForeign(t.earlier) && AllForeign(t.later)
    && server.version == old(server.version) + |t.earlier| + |t.mine| + |t.later|
    && (t.mine != [] ==> t.earlier == [] && t.mine[0].before == old(server.doc))
  }

  /** The last thing the server accepted before a write was a dry run of the very
      same patch on the very same document. */
  twostate predicate Rehearsed(server: ApiServer, w: Write)
    reads server
  {
    server.rehearsals == old(server.rehearsals) + [Rehearsal(w.before, w.patch)]
  }

  method ApplyMerged(server: ApiServer, patches: seq<Suggestion>, text: Text, expected: string)
    returns (r: Outcome, ghost t: Trail)
    requires server.Valid() && VersionText(server.version) == expected
    requires Mergeable(Texts(patches)) && text == MergedText(Texts(patches))
    modifies server
    ensures server.Valid() && LeftFromReviewed(server, t)
    ensures MergedOutcome(r, t.mine, patches, expected)
    ensures t.mine != [] ==> Rehearsed(server, t.mine[0])
    ensures server.failures >= old(server.failures)
    ensures Undisturbed(server, t) ==>
      r == MergedResult(text, patches)
  {
    t := Trail([], [], []);
    var stamped := Stamp(text, expected);
    if stamped.NotAnObject? {
      return Failed([]), t;
    }
    if stamped.NilMap? {
      return Crashed, t;
    }
    var _, valid, _, f1 := PatchStamped(server, text, stamped.patch, expected, true);
    if !valid {
      return Failed([]), Trail(f1, [], []);
    }
    var _, accepted, w, f2 := PatchStamped(server, text, stamped.patch, expected, false);
    if !accepted {
      return Failed([]), Trail(f1 + f2, [], []);
    }
    return Applied(Titles(patches)), Trail([], [w], []);
  }

  /** Others may write first; then the server decides. An accepted patch found
      exactly the version it names. */
  method PatchStamped(server: ApiServer, text: Text, patch: Json, version: string, dryRun: bool)
    returns (updated: Json, ok: bool, ghost w: Write, ghost turn: seq<Write>)
    requires server.Valid() && version != "" && Stamp(text, version) == StampedPatch(patch)
    modifies server
    ensures server.Valid()
    ensures !ok || dryRun ==> server.OnlyForeign(turn)
    ensures ok && !dryRun ==>
      && AllForeign(turn) && server.history == old(server.history) + turn + [w]
      && version == VersionText(old(server.version) + |turn|)
      && server.version == old(server.version) + |turn| + 1
      && (turn == [] ==> w.before == old(server.doc))
      && OwnWrite(w, text, version)
      && w.after == updated == server.doc
      && w.patch == patch
    ensures ok && dryRun ==> Rehearsed(server, w) && (turn == [] ==> w.before == old(server.doc)) && w.patch == patch
    ensures !ok || !dryRun ==> server.rehearsals == old(server.rehearsals)
    ensures server.failures >= old(server.failures)
    ensures server.failures == old(server.failures) && turn == [] && version == VersionText(old(server.version)) ==> ok
  {
    turn := server.Interfere();
    ghost var found := server.doc;
    if turn == [] && version == VersionText(server.version) {
      StampAccepted(found, text, version);
    }
    updated, ok := server.Patch(patch, dryRun);
    w := Write(Client, found, patch, updated);
    if ok {
      StampGuards(found, text, version);
    }
  }

  method ApplySequentially(server: ApiServer, patches: seq<Suggestion>, expected: string)
    returns (r: Outcome, ghost t: Trail)
    requires server.Valid() && VersionText(server.version) == expected
    requires !Mergeable(Texts(patches))
    modifies server
    ensures server.Valid() && LeftFromReviewed(server, t)
    ensures PartialOutcome(r, t.mine, patches, true, expected)
    ensures server.failures >= old(server.failures)
    ensures Undisturbed(server, t) ==> StopsAt(r, t.mine, patches, true)
  {
    hide Rehearsed, OwnWrites, OwnWrite;
    NoOwnWrites(Texts(patches), expected);
    var applied: seq<string> := [];
    var resourceVersion := expected;
    ghost var mine: seq<Write> := [];
    for i := 0 to |patches|
      invariant server.Valid() && |mine| == i
      invariant LeftFromReviewed(server, Trail([], mine, []))
      invariant server.doc == if mine == [] then old(server.doc) else mine[|mine| - 1].after
      invariant resourceVersion == VersionText(old(server.version) + i)
      invariant resourceVersion == VersionFound(mine, i, expected)
      invariant OwnWrites(mine, Texts(patches), expected)
      invariant applied == Titles(patches)[..i]
      invariant forall j | 0 <= j < i :: patches[j].text.Parsed? && patches[j].text.json.Obj?
      invariant server.failures >= old(server.failures)
    {
      var stamped := Stamp(patches[i].text, resourceVersion);
      if stamped.NotAnObject? {
        return Failed(applied), Trail([], mine, []);
      }
      if stamped.NilMap? {
        return Crashed, Trail([], mine, []);
      }
      var updated, accepted, w, turn := PatchStamped(server, patches[i].text, stamped.patch, resourceVersion, false);
      if !accepted {
        return Failed(applied), Trail([], mine, turn);
      }
      assert turn == [];
      OwnWritesSnoc(mine, w, Texts(patches), expected);
      mine := mine + [w];
      resourceVersion := VersionString(updated);
      applied := applied + [patches[i].title];
    }
    // The loop of the source falls through to a success nobody can reach.
    assert false;
  }

  lemma OwnWritesSnoc(mine: seq<Write>, w: Write, texts: seq<Text>, expected: string)
    requires OwnWrites(mine, texts, expected) && |mine| < |texts|
    requires OwnWrite(w, texts[|mine|], VersionFound(mine, |mine|, expected))
    requires mine != [] ==> w.before == mine[|mine| - 1].after
    ensures OwnWrites(mine + [w], texts, expected)
  {
    forall i | 0 <= i < |mine + [w]| ensures OwnWriteAt(mine + [w], i, texts[i], expected) {
      if i < |mine| {
        OwnWriteAtPrefix(mine, w, i, texts[i], expected);
      }
    }
  }

  lemma OwnWriteAtPrefix(mine: seq<Write>, w: Write, i: nat, text: Text, expected: string)
    requires i < |mine| && OwnWriteAt(mine, i, text, expected)
    ensures OwnWriteAt(mine + [w], i, text, expected)
  {
    hide OwnWrite, VersionString;
    assert (mine + [w])[i] == mine[i];
    assert i > 0 ==> (mine + [w])[i - 1] == mine[i - 1];
  }
}
