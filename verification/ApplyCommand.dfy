/** The whole apply command, from suggestions to the live object, and what the one
    write it may leave means for the reviewed document. */
module ApplyCommand {
  import opened Common
  import opened JsonMerge
  import opened ApplyProtocol

  datatype GuardMode = Block | Warn | UnknownMode

  /** The policy file, if any: whether it loads, its verdict on one suggestion,
      and whether the combined final patch can be evaluated and is accepted, given
      the HPA under review. */
  datatype Policy = NoPolicy | UnreadablePolicy
                  | Policy(mode: GuardMode, allows: (Json, Suggestion) -> bool,
                           evaluates: (Json, Text) -> bool, acceptsFinal: (Json, Text) -> bool)

  datatype Options = Options(dryRun: bool, yes: bool, allowPartial: bool, policy: Policy)

  datatype Report = NothingSuggested | NothingAllowed | Declined | Validated(titles: seq<string>)
                  | Executed(outcome: Outcome)

  /** The suggestions still describe this document. */
  predicate FreshFor(doc: Json, ps: seq<Suggestion>) {
    forall i | 0 <= i < |ps| ::
      && (ps[i].sourceUID != "" ==> UidOf(doc) == Str(ps[i].sourceUID))
      && (ps[i].sourceVersion != "" ==> VersionOf(doc) == Str(ps[i].sourceVersion))
  }

  function Applicable(ss: seq<Suggestion>): seq<Suggestion> {
    if ss == [] then []
    else
      var last := ss[|ss| - 1];
      Applicable(ss[..|ss| - 1]) + (if last.apply && last.hasPatch then [last] else [])
  }

  function Permitted(policy: Policy, doc: Json, ps: seq<Suggestion>): seq<Suggestion>
    requires policy.Policy?
  {
    if ps == [] then []
    else
      var last := ps[|ps| - 1];
      Permitted(policy, doc, ps[..|ps| - 1]) + (if policy.allows(doc, last) then [last] else [])
  }

  /** A final patch that cannot be evaluated aborts in every mode; one the policy
      rejects aborts in blocking mode. */
  predicate FinalPasses(policy: Policy, doc: Json, text: Text)
    requires policy.Policy?
  {
    policy.evaluates(doc, text) && (policy.mode.Block? ==> policy.acceptsFinal(doc, text))
  }

  /** What the guard lets through: None aborts the command. */
  function Guard(policy: Policy, doc: Json, ps: seq<Suggestion>): Option<seq<Suggestion>> {
    if policy.NoPolicy? then Some(ps)
    else if policy.UnreadablePolicy? || policy.mode.UnknownMode? then None
    else
      var permitted := Permitted(policy, doc, ps);
      if policy.mode.Block? && |permitted| < |ps| then None
      else if permitted != [] && Mergeable(Texts(permitted)) && !FinalPasses(policy, doc, MergedText(Texts(permitted)))
      then None
      else Some(permitted)
  }

  lemma {:induction false} PermittedAll(policy: Policy, doc: Json, ps: seq<Suggestion>)
    requires policy.Policy?
    ensures |Permitted(policy, doc, ps)| <= |ps|
    ensures |Permitted(policy, doc, ps)| == |ps| ==>
      Permitted(policy, doc, ps) == ps && forall i | 0 <= i < |ps| :: policy.allows(doc, ps[i])
  {
    if ps != [] {
      PermittedAll(policy, doc, ps[..|ps| - 1]);
    }
  }

  /** In blocking mode nothing passes unless every suggestion and their combined
      final state do. */
  lemma BlockingGuard(policy: Policy, doc: Json, ps: seq<Suggestion>)
    requires policy.Policy? && policy.mode.Block? && ps != []
    ensures Guard(policy, doc, ps) == Some(ps) || Guard(policy, doc, ps) == None
    ensures Guard(policy, doc, ps) == Some(ps) <==>
      && (forall i | 0 <= i < |ps| :: policy.allows(doc, ps[i]))
      && (Mergeable(Texts(ps)) ==>
            var text := MergedText(Texts(ps));
            policy.evaluates(doc, text) && policy.acceptsFinal(doc, text))
  {
    PermittedAll(policy, doc, ps);
    if forall i | 0 <= i < |ps| :: policy.allows(doc, ps[i]) {
      AllPermitted(policy, doc, ps);
    }
  }

  lemma {:induction false} AllPermitted(policy: Policy, doc: Json, ps: seq<Suggestion>)
    requires policy.Policy? && forall i | 0 <= i < |ps| :: policy.allows(doc, ps[i])
    ensures Permitted(policy, doc, ps) == ps
  {
    if ps != [] {
      AllPermitted(policy, doc, ps[..|ps| - 1]);
    }
  }

  lemma {:induction false} ApplicableMeans(ss: seq<Suggestion>)
    ensures Picks(ss, (s: Suggestion) => s.apply && s.hasPatch, Applicable(ss))
  {
    var chosen := (s: Suggestion) => s.apply && s.hasPatch;
    if ss == [] {
      PicksNone(chosen);
    } else {
      var init, last := ss[..|ss| - 1], ss[|ss| - 1];
      ApplicableMeans(init);
      PicksSnoc(init, chosen, Applicable(init), last);
      assert ss == init + [last];
      hide Picks;
    }
  }

  lemma {:induction false} PermittedMeans(policy: Policy, doc: Json, ps: seq<Suggestion>)
    requires policy.Policy?
    ensures Picks(ps, (s: Suggestion) => policy.allows(doc, s), Permitted(policy, doc, ps))
  {
    var chosen := (s: Suggestion) => policy.allows(doc, s);
    if ps == [] {
      PicksNone(chosen);
    } else {
      var init, last := ps[..|ps| - 1], ps[|ps| - 1];
      PermittedMeans(policy, doc, init);
      PicksSnoc(init, chosen, Permitted(policy, doc, init), last);
      assert ps == init + [last];
      hide Picks;
    }
  }

  /** Without a policy everything passes; one that cannot be read, or an unknown
      mode, stops the command. */
  lemma GuardWithoutVerdict(policy: Policy, doc: Json, ps: seq<Suggestion>)
    ensures policy.NoPolicy? ==> Guard(policy, doc, ps) == Some(ps)
    ensures policy.UnreadablePolicy? || (policy.Policy? && policy.mode.UnknownMode?) ==>
      Guard(policy, doc, ps) == None
  {
  }

  /** In warning mode exactly what the policy allows passes, in order, unless the
      policy cannot evaluate its combination. */
  lemma WarningGuard(policy: Policy, doc: Json, ps: seq<Suggestion>) returns (allowed: seq<Suggestion>)
    requires policy.Policy? && policy.mode.Warn?
    ensures Picks(ps, (s: Suggestion) => policy.allows(doc, s), allowed)
    ensures Guard(policy, doc, ps) ==
      if allowed != [] && Mergeable(Texts(allowed)) && !policy.evaluates(doc, MergedText(Texts(allowed)))
      then None else Some(allowed)
  {
    PermittedMeans(policy, doc, ps);
    hide Picks, Mergeable, MergedText, Texts;
    allowed := Permitted(policy, doc, ps);
  }

  /** Freshness over the fields of the document. */
  lemma FreshMeans(members: map<string, Json>, metadata: map<string, Json>, uid: string, version: string,
                   ps: seq<Suggestion>)
    ensures var doc := Obj(members["metadata" := Obj(metadata["uid" := Str(uid)]["resourceVersion" := Str(version)])]);
      FreshFor(doc, ps) <==> forall i | 0 <= i < |ps| ::
        && (ps[i].sourceUID == "" || ps[i].sourceUID == uid)
        && (ps[i].sourceVersion == "" || ps[i].sourceVersion == version)
  {
    var md := metadata["uid" := Str(uid)]["resourceVersion" := Str(version)];
    var doc := Obj(members["metadata" := Obj(md)]);
    assert Metadata(doc) == md;
    assert UidOf(doc) == Str(uid) && VersionOf(doc) == Str(version);
    hide UidOf, VersionOf, Metadata;
  }

  /** The suggestions marked to apply that carry a patch, in order. */
  method CollectApplicable(ss: seq<Suggestion>) returns (ps: seq<Suggestion>)
    ensures ps == Applicable(ss)
    ensures Picks(ss, (s: Suggestion) => s.apply && s.hasPatch, ps)
  {
    ps := [];
    for i := 0 to |ss|
      invariant ps == Applicable(ss[..i])
    {
      assert ss[..i + 1][..i] == ss[..i];
      if ss[i].apply && ss[i].hasPatch {
        ps := ps + [ss[i]];
      }
    }
    assert ss[..|ss|] == ss;
    ApplicableMeans(ss);
  }

  predicate AllObjects(ps: seq<Suggestion>) {
    forall i | 0 <= i < |ps| :: ps[i].text.Parsed? && ps[i].text.json.Obj?
  }

  /** The patches a validation sends: each one, and the merged one when there are
      several. */
  function Validations(ps: seq<Suggestion>): seq<Json>
    requires AllObjects(ps)
  {
    Jsons(ps) + (if |ps| > 1 then [MergedText(Texts(ps)).json] else [])
  }

  function Jsons(ps: seq<Suggestion>): seq<Json>
    requires AllObjects(ps)
  {
    if ps == [] then [] else Jsons(ps[..|ps| - 1]) + [ps[|ps| - 1].text.json]
  }

  function PatchesOf(rs: seq<Rehearsal>): seq<Json> {
    if rs == [] then [] else PatchesOf(rs[..|rs| - 1]) + [rs[|rs| - 1].patch]
  }

  lemma NoneAccepted(before: seq<Rehearsal>)
    ensures AcceptedSince(before, before, [])
  {
    assert before[|before|..] == [];
  }

  /** The server accepted dry runs of exactly these patches, in this order. */
  twostate predicate Accepted(server: ApiServer, patches: seq<Json>)
    reads server
  {
    AcceptedSince(old(server.rehearsals), server.rehearsals, patches)
  }

  ghost predicate AcceptedSince(before: seq<Rehearsal>, after: seq<Rehearsal>, patches: seq<Json>) {
    && |before| <= |after| && after[..|before|] == before
    && PatchesOf(after[|before|..]) == patches
  }

  /** The server takes each patch on this document. */
  predicate Acceptable(doc: Json, ps: seq<Suggestion>) {
    forall i | 0 <= i < |ps| :: ps[i].text.Parsed? && Guarded(doc, ps[i].text.json)
  }

  /** The text is one of the patches, or their combination. */
  ghost predicate Sends(ps: seq<Suggestion>, text: Text) {
    || (exists i | 0 <= i < |ps| :: ps[i].text == text)
    || (Mergeable(Texts(ps)) && MergedText(Texts(ps)) == text)
  }

  /** Why a validation fails: a call failed, a text is no JSON, or the server
      refused one of the patches on the document it then had. */
  twostate predicate Invalid(server: ApiServer, ps: seq<Suggestion>)
    reads server
  {
    || server.failures > old(server.failures)
    || Sends(ps, Malformed)
    || RefusedOne(old(server.refusals), server.refusals, ps)
  }

  ghost predicate RefusedOne(before: seq<Refusal>, after: seq<Refusal>, ps: seq<Suggestion>) {
    && after != [] && after[..|after| - 1] == before
    && !Guarded(after[|before|].before, after[|before|].patch)
    && Sends(ps, Parsed(after[|before|].patch))
  }

  /** Server-side dry run of every patch and of the merged one. Only objects get
      through, so everything that passes can be merged. With no failed call and no
      foreign write it passes exactly when the server takes every single patch. */
  method PreValidate(server: ApiServer, ps: seq<Suggestion>) returns (ok: bool, ghost ws: seq<Write>)
    requires server.Valid()
    modifies server
    ensures server.Valid() && server.OnlyForeign(ws)
    ensures ok ==> AllObjects(ps) && Accepted(server, Validations(ps))
    ensures server.failures >= old(server.failures) && (ok ==> server.Untroubled())
    ensures !ok ==> Invalid(server, ps)
    ensures server.failures == old(server.failures) && ws == [] ==> (ok <==> Acceptable(old(server.doc), ps))
  {
    hide Guarded, Mergeable, MergedText, Sends, RefusedOne, Texts, AcceptedSince, VersionOf;
    NoneAccepted(server.rehearsals);
    ws, ok := [], true;
    for i := 0 to |ps|
      invariant ok && server.Valid() && server.OnlyForeign(ws) && server.Untroubled()
      invariant AllObjects(ps[..i]) && Accepted(server, Jsons(ps[..i]))
      invariant ws == [] ==> Acceptable(old(server.doc), ps[..i])
    {
      assert ps[..i + 1][..i] == ps[..i];
      ghost var more: seq<Write>;
      label Before:
      ok, more := DryRun(server, ps[i].text);
      ws := ws + more;
      if !ok {
        OneFailed(old@Before(server.refusals), server.refusals, server.doc, ps, ps[i].text);
        return;
      }
      OneMoreAccepted(old(server.rehearsals), old@Before(server.rehearsals), server.rehearsals, Jsons(ps[..i]),
                      ps[i].text.json);
    }
    assert ps[..|ps|] == ps;
    ObjectsMerge(ps);
    assert |ps| <= 1 ==> Validations(ps) == Jsons(ps);
    if |ps| > 1 && Mergeable(Texts(ps)) {
      MergedAcceptable(old(server.doc), ps);
      ghost var more: seq<Write>;
      label Merging:
      ok, more := DryRun(server, MergedText(Texts(ps)));
      ws := ws + more;
      if ok {
        OneMoreAccepted(old(server.rehearsals), old@Merging(server.rehearsals), server.rehearsals, Jsons(ps),
                        MergedText(Texts(ps)).json);
      } else {
        OneFailed(old@Merging(server.refusals), server.refusals, server.doc, ps, MergedText(Texts(ps)));
      }
    }
  }

  lemma OneFailed(before: seq<Refusal>, after: seq<Refusal>, doc: Json, ps: seq<Suggestion>, text: Text)
    requires (exists i | 0 <= i < |ps| :: ps[i].text == text)
          || (Mergeable(Texts(ps)) && MergedText(Texts(ps)) == text)
    ensures text.Malformed? ==> Sends(ps, Malformed)
    ensures text.Parsed? && !Guarded(doc, text.json) && after == before + [Refusal(doc, text.json)] ==>
      RefusedOne(before, after, ps)
  {
    hide Guarded, Mergeable, MergedText, Texts;
  }

  lemma ObjectsMerge(ps: seq<Suggestion>)
    requires AllObjects(ps)
    ensures Mergeable(Texts(ps))
  {
  }

  /** What a patch may say about the version of an object: nothing, the current
      one, or that there is none. */
  predicate Harmless(p: Json, version: Json) {
    "resourceVersion" in Metadata(p) ==> Metadata(p)["resourceVersion"] in {version, Null, Str("")}
  }

  lemma VersionAfter(doc: Json, p: Json)
    requires doc.Obj? && VersionOf(doc).Str? && p.Obj?
    ensures var v := VersionOf(Apply(doc, p));
      if "resourceVersion" in Metadata(p) then v == Apply(VersionOf(doc), Metadata(p)["resourceVersion"])
      else v in {VersionOf(doc), Null}
  {
    var md := MemberOr(doc, "metadata");
    assert md.Obj?;
    if "metadata" in p.members && p.members["metadata"].Obj? {
      var inner := p.members["metadata"];
      assert Apply(doc, p).members["metadata"] == Apply(md, inner);
    }
  }

  lemma GuardedMeansHarmless(doc: Json, p: Json)
    requires doc.Obj? && VersionOf(doc).Str?
    ensures Guarded(doc, p) <==> p.Obj? && Harmless(p, VersionOf(doc))
  {
    if p.Obj? {
      VersionAfter(doc, p);
      assert Apply(doc, p).Obj?;
      hide VersionOf, Metadata;
    }
  }

  lemma HarmlessMerge(a: Json, b: Json, version: Json)
    requires a.Obj? && b.Obj? && Harmless(a, version) && Harmless(b, version) && version.Str?
    ensures Harmless(DeepMerge(a, b), version)
  {
    if "metadata" in b.members && b.members["metadata"].Obj? && MemberOr(a, "metadata").Obj? {
      assert MemberOr(DeepMerge(a, b), "metadata") == DeepMerge(MemberOr(a, "metadata"), b.members["metadata"]);
    }
  }

  lemma {:induction false} HarmlessMergeAll(ps: seq<Json>, version: Json)
    requires Objects(ps) && version.Str? && forall i | 0 <= i < |ps| :: Harmless(ps[i], version)
    ensures Harmless(MergeAll(ps), version)
  {
    if ps != [] {
      HarmlessMergeAll(ps[..|ps| - 1], version);
      HarmlessMerge(MergeAll(ps[..|ps| - 1]), ps[|ps| - 1], version);
    }
  }

  /** When the server takes each patch, it takes their combination. */
  lemma MergedAcceptable(doc: Json, ps: seq<Suggestion>)
    requires doc.Obj? && VersionOf(doc).Str? && AllObjects(ps) && |ps| > 1
    ensures Acceptable(doc, ps) ==>
      Mergeable(Texts(ps)) && MergedText(Texts(ps)).Parsed? && Guarded(doc, MergedText(Texts(ps)).json)
  {
    hide Guarded, Harmless, VersionOf;
    if Acceptable(doc, ps) {
      forall i | 0 <= i < |ps| ensures Harmless(ps[i].text.json, VersionOf(doc)) {
        GuardedMeansHarmless(doc, ps[i].text.json);
      }
      var decoded := DecodedAll(Texts(ps));
      HarmlessMergeAll(decoded, VersionOf(doc));
      GuardedMeansHarmless(doc, MergeAll(decoded));
    }
  }

  lemma OneMoreAccepted(was: seq<Rehearsal>, before: seq<Rehearsal>, after: seq<Rehearsal>, patches: seq<Json>,
                        patch: Json)
    requires AcceptedSince(was, before, patches)
    requires |after| == |before| + 1 && after[..|before|] == before && after[|before|].patch == patch
    ensures AcceptedSince(was, after, patches + [patch])
  {
    var more := after[|was|..];
    assert more[..|more| - 1] == before[|was|..];
    assert before[..|was|] == after[..|was|];
  }

  method DryRun(server: ApiServer, text: Text) returns (ok: bool, ghost ws: seq<Write>)
    requires server.Valid()
    modifies server
    ensures server.Valid() && server.OnlyForeign(ws)
    ensures ok ==> text.Parsed? && text.json.Obj?
    ensures ok ==>
      && |server.rehearsals| == |old(server.rehearsals)| + 1
      && server.rehearsals[..|old(server.rehearsals)|] == old(server.rehearsals)
      && server.rehearsals[|old(server.rehearsals)|].patch == text.json
    ensures ok <==> text.Parsed? && Guarded(server.doc, text.json) && server.failures == old(server.failures)
    ensures ok ==> server.Untroubled()
    ensures server.failures >= old(server.failures)
    ensures !ok && server.failures == old(server.failures) ==>
      || text.Malformed?
      || (server.refusals == old(server.refusals) + [Refusal(server.doc, text.json)]
          && !Guarded(server.doc, text.json))
  {
    ws := server.Interfere();
    if text.Malformed? {
      return false, ws;
    }
    var _, accepted := server.Patch(text.json, true);
    ok := accepted;
  }

  /** The fetch before the review: whether it succeeds and every suggestion still
      describes what it found. */
  method ApplyTarget(server: ApiServer, ps: seq<Suggestion>) returns (current: Json, ok: bool, ghost before: seq<Write>)
    requires server.Valid()
    modifies server
    ensures server.Valid() && server.OnlyForeign(before)
    ensures server.rehearsals == old(server.rehearsals) && server.refusals == old(server.refusals)
    ensures server.failures >= old(server.failures)
    ensures ok <==> server.failures == old(server.failures) && FreshFor(server.doc, ps)
    ensures ok ==> current == server.doc
  {
    hide FreshFor;
    before := server.Interfere();
    current, ok := server.Get();
    ok := ok && FreshFor(current, ps);
  }

  /** What the guard let through: validated, confirmed unless told otherwise, and
      executed. */
  method ApplyAllowed(server: ApiServer, patches: seq<Suggestion>, opts: Options, agreed: bool, current: Json,
                      warned: bool)
    returns (r: Report, ghost t: Trail)
    requires server.Valid() && patches != [] && current == server.doc
    modifies server
    ensures server.Valid() && server.failures >= old(server.failures)
    ensures server.history == old(server.history) + t.earlier + t.mine + t.later
    ensures AllForeign(t.earlier) && AllForeign(t.later) && |t.mine| <= 1
    ensures t.mine != [] <==> r.Executed? && r.outcome.Applied?
    ensures r.Declined? ==>
      Invalid(server, patches) || (!opts.dryRun && !opts.yes && !agreed)
    ensures r.Validated? ==> opts.dryRun && r.titles == Titles(patches)
    ensures r.Executed? ==> !opts.dryRun && (opts.yes || agreed) && !r.outcome.Crashed?
    ensures r.Declined? || ((r.Validated? || r.Executed?) && AllObjects(patches))
    ensures Undisturbed(server, t) ==>
      && (r.Validated? <==> Acceptable(current, patches) && opts.dryRun)
      && (r.Executed? <==> Acceptable(current, patches) && !opts.dryRun && (opts.yes || agreed))
      && (r.Executed? ==> r.outcome == Applied(Titles(patches)))
    ensures t.mine != [] ==>
      && t.mine[0].before == current && Mergeable(Texts(patches))
      && OwnWrites(t.mine, [MergedText(Texts(patches))], VersionString(current))
      && r.outcome.titles == Titles(patches)
      && server.rehearsals != []
      && server.rehearsals[|server.rehearsals| - 1] == Rehearsal(t.mine[0].before, t.mine[0].patch)
  {
    hide Titles, Mergeable, MergedText, Texts, OwnWrites, VersionString, Validations, Acceptable, AllObjects,
         RefusedOne, Sends;
    var valid, validating := PreValidate(server, patches);
    t := Trail(validating, [], []);
    if !valid {
      return Declined, t;
    }
    if opts.dryRun {
      return Validated(Titles(patches)), t;
    }
    if !opts.yes && !agreed {
      return Declined, t;
    }
    r, t := ExecuteReviewed(server, patches, opts.allowPartial, current, validating, warned);
  }

  /** At most one write ever results, and only on the very document that was
      fetched for review, that every suggestion still described, that the policy
      accepted, that the operator confirmed by flag or by answer, and on which the
      server had just accepted a dry run of the same patch. It is declined only for
      a failed call, a stale suggestion, the guard, a rejected patch or a missing
      agreement; with no failed call and no foreign write the report is settled. */
  method ApplySuggestions(server: ApiServer, suggestions: seq<Suggestion>, opts: Options, skipConfirm: bool,
                          answer: bool, warned: bool)
    returns (r: Report, ghost reviewed: Json, ghost t: Trail)
    requires server.Valid()
    modifies server
    ensures server.Valid()
    ensures server.history == old(server.history) + t.earlier + t.mine + t.later
    ensures AllForeign(t.earlier) && AllForeign(t.later) && |t.mine| <= 1
    ensures t.mine != [] <==> r.Executed? && r.outcome.Applied?
    ensures Justified(r, opts, skipConfirm || answer, reviewed, Applicable(suggestions))
    ensures r.Declined? ==> CalledOff(server, opts, skipConfirm || answer, reviewed, Applicable(suggestions))
    ensures Undisturbed(server, t) ==>
      && reviewed == old(server.doc)
      && Settled(r, opts, skipConfirm || answer, reviewed, Applicable(suggestions))
    ensures t.mine != [] ==>
      var allowed := Guard(opts.policy, reviewed, Applicable(suggestions)).value;
      && t.mine[0].before == reviewed
      && Mergeable(Texts(allowed))
      && OwnWrites(t.mine, [MergedText(Texts(allowed))], VersionString(reviewed))
      && r.outcome.titles == Titles(allowed)
      && server.rehearsals != []
      && server.rehearsals[|server.rehearsals| - 1] == Rehearsal(t.mine[0].before, t.mine[0].patch)
  {
    hide Guard, Applicable, FreshFor, Titles, Mergeable, MergedText, OwnWrites, VersionString, Validations,
         Acceptable, RefusedOne, Sends;
    reviewed, t := server.doc, Trail([], [], []);
    var collected := CollectApplicable(suggestions);
    if collected == [] {
      return NothingSuggested, reviewed, t;
    }
    var current, found, before := ApplyTarget(server, collected);
    reviewed, t := server.doc, Trail(before, [], []);
    if !found {
      return Declined, reviewed, t;
    }
    var guarded := Guard(opts.policy, current, collected);
    if guarded.None? {
      return Declined, reviewed, t;
    }
    var patches := guarded.value;
    if patches == [] {
      return NothingAllowed, reviewed, t;
    }
    r, t := ApplyAllowed(server, patches, opts, skipConfirm || answer, current, warned);
    t := Trail(before + t.earlier, t.mine, t.later);
  }

  /** Why the command gives up before it writes. */
  twostate predicate CalledOff(server: ApiServer, opts: Options, agreed: bool, reviewed: Json, ps: seq<Suggestion>)
    reads server
  {
    || server.failures > old(server.failures)
    || !FreshFor(reviewed, ps)
    || Guard(opts.policy, reviewed, ps).None?
    || Invalid(server, Guard(opts.policy, reviewed, ps).value)
    || (!opts.dryRun && !opts.yes && !agreed)
  }

  /** The report on a document that nobody else touches, when every call gets
      through. */
  ghost predicate Settled(r: Report, opts: Options, agreed: bool, doc: Json, ps: seq<Suggestion>) {
    var checked := ps != [] && FreshFor(doc, ps) && Guard(opts.policy, doc, ps).Some?;
    var allowed := if checked then Guard(opts.policy, doc, ps).value else [];
    var ready := allowed != [] && Acceptable(doc, allowed);
    && (r.NothingSuggested? <==> ps == [])
    && (r.NothingAllowed? <==> checked && allowed == [])
    && (r.Validated? <==> ready && opts.dryRun)
    && (r.Executed? <==> ready && !opts.dryRun && (opts.yes || agreed))
    && (r.Validated? ==> r.titles == Titles(allowed))
    && (r.Executed? ==> r.outcome == Applied(Titles(allowed)))
  }

  /** What each report says about the command that gave it. */
  ghost predicate Justified(r: Report, opts: Options, agreed: bool, reviewed: Json, ps: seq<Suggestion>) {
    && (r.NothingSuggested? <==> ps == [])
    && (r.NothingAllowed? || r.Validated? || r.Executed? ==>
          FreshFor(reviewed, ps) && Guard(opts.policy, reviewed, ps).Some?)
    && (r.NothingAllowed? ==> Guard(opts.policy, reviewed, ps).value == [])
    && (r.Validated? || r.Executed? ==>
          var allowed := Guard(opts.policy, reviewed, ps).value; allowed != [] && AllObjects(allowed))
    && (r.Validated? ==> opts.dryRun && r.titles == Titles(Guard(opts.policy, reviewed, ps).value))
    && (r.Executed? ==> !opts.dryRun && (opts.yes || agreed) && !r.outcome.Crashed?)
  }

  /** The last phase, seen from the moment of review. */
  method ExecuteReviewed(server: ApiServer, patches: seq<Suggestion>, allowPartial: bool,
                         current: Json, ghost since: seq<Write>, warned: bool)
    returns (r: Report, ghost t: Trail)
    requires server.Valid() && patches != []
    requires AllObjects(patches)
    requires AllForeign(since) && |since| <= server.version
    requires VersionOf(current) == Str(VersionText(server.version - |since|))
    requires since == [] ==> current == server.doc
    modifies server
    ensures server.Valid()
    ensures |since| <= |t.earlier| && t.earlier[..|since|] == since
    ensures server.history == old(server.history) + t.earlier[|since|..] + t.mine + t.later
    ensures AllForeign(t.earlier) && AllForeign(t.later) && |t.mine| <= 1
    ensures r.Executed? && !r.outcome.Crashed? && (t.mine != [] <==> r.outcome.Applied?)
    ensures t.mine != [] ==>
      && t.mine[0].before == current && Mergeable(Texts(patches))
      && OwnWrites(t.mine, [MergedText(Texts(patches))], VersionString(current))
      && r.outcome.titles == Titles(patches)
      && Rehearsed(server, t.mine[0])
    ensures server.failures >= old(server.failures)
    ensures Undisturbed(server, t) ==> r == Executed(Applied(Titles(patches)))
  {
    ObjectsMerge(patches);
    var outcome, trail := ExecutePatches(server, patches, allowPartial, VersionString(current), warned);
    r, t := Executed(outcome), Trail(since + trail.earlier, trail.mine, trail.later);
  }

  // ------------------------------------------------ what the write means

  /** Adding the precondition changes nothing but the version. */
  ghost predicate OnlyGuards(p: Json, version: string, doc: Json)
    requires p.Obj?
  {
    Apply(doc, SetVersion(p, version)) == SetVersion(Apply(doc, p), version)
  }

  ghost predicate KeepsMetadata(p: Json) {
    "metadata" !in Members(p) || Members(p)["metadata"].Obj?
  }

  lemma StampedMember(doc: Json, p: Json, version: string, k: string)
    requires p.Obj? && doc.Obj? && k != "metadata"
    ensures MemberIn(Apply(doc, SetVersion(p, version)), k) == MemberIn(SetVersion(Apply(doc, p), version), k)
  {
  }

  function MemberIn(j: Json, k: string): Option<Json> {
    if k in Members(j) then Some(Members(j)[k]) else None
  }

  /** The metadata both ways. */
  lemma StampedMetadata(doc: Json, p: Json, version: string)
    requires p.Obj? && doc.Obj? && VersionOf(doc) == Str(version) && KeepsMetadata(p)
    ensures MemberIn(Apply(doc, SetVersion(p, version)), "metadata")
         == MemberIn(SetVersion(Apply(doc, p), version), "metadata")
  {
    var md := MemberOr(doc, "metadata");
    var stamped := Obj(Metadata(p)["resourceVersion" := Str(version)]);
    assert Members(Apply(doc, SetVersion(p, version)))["metadata"] == Apply(md, stamped);
    assert md.Obj?;
    if "metadata" in p.members {
      assert Metadata(Apply(doc, p)) == Members(Apply(md, p.members["metadata"]));
      assert Members(Apply(md, stamped))
          == Members(Apply(md, p.members["metadata"]))["resourceVersion" := Str(version)];
    } else {
      assert Metadata(Apply(doc, p)) == md.members;
      assert Members(Apply(md, stamped)) == md.members["resourceVersion" := Str(version)];
    }
  }

  lemma SameMembers(a: Json, b: Json)
    requires a.Obj? && b.Obj? && forall k :: MemberIn(a, k) == MemberIn(b, k)
    ensures a == b
  {
    forall k ensures k in a.members <==> k in b.members
      ensures k in a.members ==> a.members[k] == b.members[k]
    {
      assert MemberIn(a, k) == MemberIn(b, k);
    }
    assert a.members == b.members;
  }

  lemma StampOnlyGuards(doc: Json, p: Json, version: string)
    requires p.Obj? && doc.Obj? && VersionOf(doc) == Str(version) && KeepsMetadata(p)
    ensures OnlyGuards(p, version, doc)
  {
    var a, b := Apply(doc, SetVersion(p, version)), SetVersion(Apply(doc, p), version);
    forall k ensures MemberIn(a, k) == MemberIn(b, k) {
      if k == "metadata" {
        StampedMetadata(doc, p, version);
      } else {
        StampedMember(doc, p, version, k);
      }
    }
    SameMembers(a, b);
  }

  /** The precondition is transparent on every object of that version exactly
      when the patch does not replace metadata by something else. */
  lemma StampOnlyGuardsExactly(p: Json, version: string)
    requires p.Obj?
    ensures (forall doc: Json | doc.Obj? && VersionOf(doc) == Str(version) :: OnlyGuards(p, version, doc))
       <==> KeepsMetadata(p)
  {
    hide KeepsMetadata, OnlyGuards, VersionOf;
    if KeepsMetadata(p) {
      forall doc: Json | doc.Obj? && VersionOf(doc) == Str(version) ensures OnlyGuards(p, version, doc) {
        StampOnlyGuards(doc, p, version);
      }
    } else {
      var doc := ReplacedMetadata(p, version);
      assert !OnlyGuards(p, version, doc);
    }
  }

  /** The stamped patch keeps a UID that the patch itself throws away. */
  lemma ReplacedMetadata(p: Json, version: string) returns (doc: Json)
    requires p.Obj? && !KeepsMetadata(p)
    ensures doc.Obj? && VersionOf(doc) == Str(version) && !OnlyGuards(p, version, doc)
  {
    var md := map["resourceVersion" := Str(version), "uid" := Str("u")];
    doc := Obj(map["metadata" := Obj(md)]);
    var stamped := Obj(map["resourceVersion" := Str(version)]);
    assert Metadata(p) == map[];
    assert SetVersion(p, version).members["metadata"] == stamped;
    assert Metadata(Apply(doc, SetVersion(p, version))) == Members(Apply(Obj(md), stamped));
    assert UidOf(Apply(doc, SetVersion(p, version))) == Str("u");
    assert Metadata(Apply(doc, p)) == map[];
    assert UidOf(SetVersion(Apply(doc, p), version)) == Null;
  }

  lemma SetVersionTwice(doc: Json, v: string, w: string)
    ensures SetVersion(SetVersion(doc, v), w) == SetVersion(doc, w)
  {
    assert Metadata(SetVersion(doc, v))["resourceVersion" := Str(w)] == Metadata(doc)["resourceVersion" := Str(w)];
  }

  /** The one write of a merged apply leaves what the suggestions, applied one
      after another, make of the reviewed document. */
  lemma AppliedMeansSequence(w: Write, ps: seq<Json>, version: string)
    requires ps != [] && Objects(ps) && w.before.Obj? && version != ""
    requires OwnWrite(w, Parsed(MergeAll(ps)), version)
    requires !Forgets(ps) && KeepsMetadata(MergeAll(ps))
    ensures w.after == SetVersion(ApplyAll(w.before, ps), VersionString(w.after))
  {
    var merged, last := MergeAll(ps), VersionString(w.after);
    assert w.patch == SetVersion(merged, version);
    StampOnlyGuards(w.before, merged, version);
    SetVersionTwice(Apply(w.before, merged), version, last);
    FaithfulMerge(w.before, ps);
  }
}
