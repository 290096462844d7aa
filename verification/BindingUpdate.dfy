/**
 * The update of binding policy: for every assembly of the catalog either one normalised entry with a
 * redirect, or, where redirects may not be touched, additional codeBase hints. Updating twice changes
 * nothing more.
 */
module BindingUpdate {
  import opened Bytes
  import opened BindingPolicy

  // ---------------------------------------------------------------- the two outcomes

  function Created(info: AssemblyInfo): Child {
    Identity(Some(info.name), Some(info.token), Some("neutral"))
  }

  function CodeBaseOf(p: Platform, c: Candidate): Child {
    CodeBase(Some(p.show(c.version)), c.uri)
  }

  /** The one entry that replaces all matching ones. */
  function Normalised(p: Platform, info: AssemblyInfo, selected: Candidate): Entry {
    DependentAssembly(
      [Created(info),
       Redirect(Some("0.0.0.0-" + p.show(selected.version)), Some(p.show(selected.version)))]
      + if p.HasCodeBase(selected) then [CodeBaseOf(p, selected)] else [])
  }

  function VersionText(p: Platform, c: Child): set<string>
    requires c.CodeBase?
  {
    if c.version.Some? && !p.blank(c.version.value) then {p.fold(c.version.value)} else {}
  }

  /** The version texts that existing codeBase entries carry, without regard to case. */
  function ExistingVersions(p: Platform, codeBases: seq<Child>): set<string>
    requires forall i :: 0 <= i < |codeBases| ==> codeBases[i].CodeBase?
  {
    if codeBases == [] then {} else VersionText(p, codeBases[0]) + ExistingVersions(p, codeBases[1..])
  }

  /** The hints for candidates with a location whose version text is not there yet. */
  function Missing(p: Platform, existing: set<string>, candidates: seq<Candidate>): (r: seq<Child>)
    ensures forall i :: 0 <= i < |r| ==> r[i].CodeBase?
    decreases |candidates|
  {
    if candidates == [] then []
    else
      var text := p.fold(p.show(candidates[0].version));
      if p.HasCodeBase(candidates[0]) && text !in existing
      then [CodeBaseOf(p, candidates[0])] + Missing(p, existing + {text}, candidates[1..])
      else Missing(p, existing, candidates[1..])
  }

  function Extended(e: Entry, hints: seq<Child>): Entry
    requires e.DependentAssembly?
  {
    DependentAssembly(e.children + hints)
  }

  /** hints go to the first matching entry. */
  function ExtendFirst(p: Platform, entries: seq<Entry>, info: AssemblyInfo, hints: seq<Child>): seq<Entry> {
    if entries == [] then []
    else if Matches(p, entries[0], info) then [Extended(entries[0], hints)] + entries[1..]
    else [entries[0]] + ExtendFirst(p, entries[1..], info, hints)
  }

  function Hints(p: Platform, info: AssemblyInfo, matching: seq<Entry>): seq<Child> {
    Missing(p, ExistingVersions(p, CodeBases(matching)), Candidates(p, info, matching))
  }

  function Ensured(p: Platform, entries: seq<Entry>, info: AssemblyInfo): seq<Entry> {
    var matching := Matching(p, entries, info);
    if matching == [] then entries + [DependentAssembly([Created(info)] + Hints(p, info, []))]
    else ExtendFirst(p, entries, info, Hints(p, info, matching))
  }

  /** Several redirects that do not agree, or redirects may not be modified. */
  predicate Untouchable(p: Platform, disallowed: bool, matching: seq<Entry>) {
    disallowed || (|Redirects(matching)| > 1 && EffectiveRedirectVersion(p, Redirects(matching)).None?)
  }

  function Choice(p: Platform, info: AssemblyInfo, matching: seq<Entry>): (c: Candidate)
    ensures forall x :: x in Candidates(p, info, matching) ==> AtMost(x.version, c.version)
    ensures c in Candidates(p, info, matching)
  {
    var candidates := Candidates(p, info, matching);
    assert candidates[0] == ProfilerCandidate(info);
    SelectedIsHighest(candidates, ProfilerCandidate(info));
    SelectCandidate(candidates).value
  }

  function Updated(p: Platform, disallowed: bool, entries: seq<Entry>, info: AssemblyInfo): seq<Entry> {
    var matching := Matching(p, entries, info);
    if Untouchable(p, disallowed, matching) then Ensured(p, entries, info)
    else NotMatching(p, entries, info) + [Normalised(p, info, Choice(p, info, matching))]
  }

  function UpdatedAll(p: Platform, disallowed: bool, entries: seq<Entry>, catalog: seq<AssemblyInfo>): seq<Entry>
    decreases |catalog|
  {
    if catalog == [] then entries
    else Updated(p, disallowed, UpdatedAll(p, disallowed, entries, catalog[..|catalog| - 1]), catalog[|catalog| - 1])
  }

  /** A catalog is a dictionary by name, without regard to case. */
  ghost predicate Distinct(p: Platform, catalog: seq<AssemblyInfo>) {
    forall i, j :: 0 <= i < j < |catalog| ==> p.fold(catalog[i].name) != p.fold(catalog[j].name)
  }

  /** The locations of packaged and probed assemblies are not blank. */
  ghost predicate Located(p: Platform, info: AssemblyInfo) {
    !p.blank(info.uri) && (p.probe(info).Some? ==> p.HasCodeBase(p.probe(info).value))
  }

  // ---------------------------------------------------------------- filters

  lemma {:induction false} MatchingAppend(p: Platform, a: seq<Entry>, b: seq<Entry>, info: AssemblyInfo)
    ensures Matching(p, a + b, info) == Matching(p, a, info) + Matching(p, b, info)
    decreases |a|
  {
    hide Matches;
    if a == [] {
      assert a + b == b;
    } else {
      MatchingAppend(p, a[1..], b, info);
      assert (a + b)[1..] == a[1..] + b;
    }
  }

  lemma {:induction false} NotMatchingAppend(p: Platform, a: seq<Entry>, b: seq<Entry>, info: AssemblyInfo)
    ensures NotMatching(p, a + b, info) == NotMatching(p, a, info) + NotMatching(p, b, info)
    decreases |a|
  {
    hide Matches;
    if a == [] {
      assert a + b == b;
    } else {
      NotMatchingAppend(p, a[1..], b, info);
      assert (a + b)[1..] == a[1..] + b;
    }
  }

  lemma {:induction false} NothingMatches(p: Platform, entries: seq<Entry>, info: AssemblyInfo)
    requires Matching(p, entries, info) == []
    ensures NotMatching(p, entries, info) == entries
    decreases |entries|
  {
    hide Matches;
    if entries != [] {
      NothingMatches(p, entries[1..], info);
    }
  }

  lemma {:induction false} NoneLeft(p: Platform, entries: seq<Entry>, info: AssemblyInfo)
    ensures Matching(p, NotMatching(p, entries, info), info) == []
    decreases |entries|
  {
    hide Matches;
    if entries != [] {
      NoneLeft(p, entries[1..], info);
      var rest := NotMatching(p, entries[1..], info);
      if Matches(p, entries[0], info) {
        assert NotMatching(p, entries, info) == rest;
      } else {
        assert ([entries[0]] + rest)[1..] == rest;
      }
    }
  }

  /** An entry is about one assembly only. */
  lemma MatchesOne(p: Platform, e: Entry, a: AssemblyInfo, b: AssemblyInfo)
    requires p.fold(a.name) != p.fold(b.name)
    ensures !(Matches(p, e, a) && Matches(p, e, b))
  {
  }

  lemma {:induction false} OthersUnaffected(p: Platform, entries: seq<Entry>, a: AssemblyInfo, b: AssemblyInfo)
    requires p.fold(a.name) != p.fold(b.name)
    ensures Matching(p, NotMatching(p, entries, a), b) == Matching(p, entries, b)
    decreases |entries|
  {
    hide Matches;
    if entries != [] {
      OthersUnaffected(p, entries[1..], a, b);
      MatchesOne(p, entries[0], a, b);
      var rest := NotMatching(p, entries[1..], a);
      if Matches(p, entries[0], a) {
        assert NotMatching(p, entries, a) == rest;
      } else {
        assert ([entries[0]] + rest)[1..] == rest;
      }
    }
  }

  lemma {:induction false} IdentityComesFirst(children: seq<Child>, more: seq<Child>)
    requires FirstIdentity(children).Some?
    ensures FirstIdentity(children + more) == FirstIdentity(children)
    decreases |children|
  {
    if !children[0].Identity? {
      IdentityComesFirst(children[1..], more);
      assert (children + more)[1..] == children[1..] + more;
    }
  }

  lemma ExtendedMatches(p: Platform, e: Entry, hints: seq<Child>, a: AssemblyInfo, b: AssemblyInfo)
    requires Matches(p, e, a)
    ensures Matches(p, Extended(e, hints), b) == Matches(p, e, b)
  {
    IdentityComesFirst(e.children, hints);
  }

  /** The matching entries after hints have been added to the first of them. */
  function ExtendedMatching(matching: seq<Entry>, hints: seq<Child>): seq<Entry>
    requires matching != [] && matching[0].DependentAssembly?
  {
    [Extended(matching[0], hints)] + matching[1..]
  }

  lemma {:induction false} ExtendFirstFilters(p: Platform, entries: seq<Entry>, a: AssemblyInfo, b: AssemblyInfo,
                                              hints: seq<Child>)
    requires Matching(p, entries, a) != []
    ensures Matching(p, ExtendFirst(p, entries, a, hints), a) == ExtendedMatching(Matching(p, entries, a), hints)
    ensures p.fold(a.name) != p.fold(b.name) ==>
              Matching(p, ExtendFirst(p, entries, a, hints), b) == Matching(p, entries, b)
    ensures NotMatching(p, ExtendFirst(p, entries, a, hints), a) == NotMatching(p, entries, a)
    decreases |entries|
  {
    hide Matches;
    var r := ExtendFirst(p, entries, a, hints);
    assert r == [r[0]] + r[1..];
    if Matches(p, entries[0], a) {
      ExtendedMatches(p, entries[0], hints, a, a);
      ExtendedMatches(p, entries[0], hints, a, b);
      if p.fold(a.name) != p.fold(b.name) {
        MatchesOne(p, entries[0], a, b);
      }
    } else {
      ExtendFirstFilters(p, entries[1..], a, b, hints);
    }
  }

  lemma {:induction false} ExtendFirstBefore(p: Platform, a: seq<Entry>, b: seq<Entry>, info: AssemblyInfo,
        hints: seq<Child>)
    requires Matching(p, a, info) != []
    ensures ExtendFirst(p, a + b, info, hints) == ExtendFirst(p, a, info, hints) + b
    decreases |a|
  {
    hide Matches;
    assert (a + b)[1..] == a[1..] + b;
    if !Matches(p, a[0], info) {
      ExtendFirstBefore(p, a[1..], b, info, hints);
    }
  }

  lemma {:induction false} ExtendByNothing(p: Platform, entries: seq<Entry>, info: AssemblyInfo)
    ensures ExtendFirst(p, entries, info, []) == entries
    decreases |entries|
  {
    if entries != [] {
      if Matches(p, entries[0], info) {
        assert entries[0].children + [] == entries[0].children;
      } else {
        ExtendByNothing(p, entries[1..], info);
      }
    }
  }

  // ---------------------------------------------------------------- hints are added once

  lemma {:induction false} ChildrenAppend(a: seq<Child>, b: seq<Child>)
    ensures ChildRedirects(a + b) == ChildRedirects(a) + ChildRedirects(b)
    ensures ChildCodeBases(a + b) == ChildCodeBases(a) + ChildCodeBases(b)
    decreases |a|
  {
    if a == [] {
      assert a + b == b;
    } else {
      ChildrenAppend(a[1..], b);
      assert (a + b)[1..] == a[1..] + b;
    }
  }

  lemma {:induction false} OnlyCodeBases(hints: seq<Child>)
    requires forall i :: 0 <= i < |hints| ==> hints[i].CodeBase?
    ensures ChildRedirects(hints) == [] && ChildCodeBases(hints) == hints
    decreases |hints|
  {
    if hints != [] {
      OnlyCodeBases(hints[1..]);
    }
  }

  /** Hints add to the codeBase entries and leave the redirects as they are. */
  lemma ExtendedContents(matching: seq<Entry>, hints: seq<Child>)
    requires matching != [] && matching[0].DependentAssembly?
    requires forall i :: 0 <= i < |hints| ==> hints[i].CodeBase?
    ensures var m := ExtendedMatching(matching, hints);
            && Redirects(m) == Redirects(matching)
            && forall c :: c in CodeBases(m) <==> c in CodeBases(matching) || c in hints
  {
    ChildrenAppend(matching[0].children, hints);
    OnlyCodeBases(hints);
    var m := ExtendedMatching(matching, hints);
    assert m[1..] == matching[1..];
  }

  lemma {:induction false} VersionsOfMembers(p: Platform, codeBases: seq<Child>, c: Child)
    requires forall i :: 0 <= i < |codeBases| ==> codeBases[i].CodeBase?
    requires c in codeBases
    ensures c.CodeBase? && VersionText(p, c) <= ExistingVersions(p, codeBases)
    decreases |codeBases|
  {
    if codeBases[0] != c {
      VersionsOfMembers(p, codeBases[1..], c);
    }
  }

  lemma {:induction false} VersionHasMember(p: Platform, codeBases: seq<Child>, text: string) returns (c: Child)
    requires forall i :: 0 <= i < |codeBases| ==> codeBases[i].CodeBase?
    requires text in ExistingVersions(p, codeBases)
    ensures c in codeBases && c.CodeBase? && text in VersionText(p, c)
    decreases |codeBases|
  {
    if text in VersionText(p, codeBases[0]) {
      c := codeBases[0];
    } else {
      c := VersionHasMember(p, codeBases[1..], text);
    }
  }

  lemma {:induction false} CandidateOfMember(p: Platform, codeBases: seq<Child>, x: Candidate)
    requires forall i :: 0 <= i < |codeBases| ==> codeBases[i].CodeBase?
    ensures x in CodeBaseCandidates(p, codeBases) <==>
            exists c :: c in codeBases && c.CodeBase? && CodeBaseCandidate(p, c) == Some(x)
    decreases |codeBases|
  {
    hide CodeBaseCandidate;
    if codeBases != [] {
      CandidateOfMember(p, codeBases[1..], x);
      assert codeBases == [codeBases[0]] + codeBases[1..];
    }
  }

  /** A candidate needs no hint once its version text is known. */
  predicate CoveredBy(p: Platform, existing: set<string>, c: Candidate) {
    p.HasCodeBase(c) ==> p.fold(p.show(c.version)) in existing
  }

  lemma {:induction false} MissingCovers(p: Platform, existing: set<string>, candidates: seq<Candidate>)
    requires p.Sound()
    ensures forall c :: c in candidates ==>
      CoveredBy(p, existing + ExistingVersions(p, Missing(p, existing, candidates)), c)
    ensures forall h :: h in Missing(p, existing, candidates) ==>
              exists c :: c in candidates && p.HasCodeBase(c) && h == CodeBaseOf(p, c)
    decreases |candidates|
  {
    if candidates != [] {
      var c := candidates[0];
      var text := p.fold(p.show(c.version));
      assert candidates == [c] + candidates[1..];
      if p.HasCodeBase(c) && text !in existing {
        var rest := Missing(p, existing + {text}, candidates[1..]);
        MissingCovers(p, existing + {text}, candidates[1..]);
        var all := Missing(p, existing, candidates);
        assert all[0] == CodeBaseOf(p, c) && all[1..] == rest;
        assert VersionText(p, all[0]) == {text};
        assert existing + ExistingVersions(p, all) == existing + {text} + ExistingVersions(p, rest);
      } else {
        MissingCovers(p, existing, candidates[1..]);
      }
    }
  }

  lemma {:induction false} NothingMissing(p: Platform, existing: set<string>, candidates: seq<Candidate>)
    requires forall c :: c in candidates ==> CoveredBy(p, existing, c)
    ensures Missing(p, existing, candidates) == []
    decreases |candidates|
  {
    if candidates != [] {
      assert candidates[0] in candidates;
      NothingMissing(p, existing, candidates[1..]);
    }
  }

  /** matching' is matching with its missing hints added. */
  ghost predicate HintsAdded(p: Platform, info: AssemblyInfo, matching: seq<Entry>, matching': seq<Entry>) {
    && Redirects(matching') == Redirects(matching)
    && forall c :: c in CodeBases(matching') <==> c in CodeBases(matching) || c in Hints(p, info, matching)
  }

  lemma HintsAreCovered(p: Platform, info: AssemblyInfo, matching: seq<Entry>, matching': seq<Entry>, x: Candidate)
    requires p.Sound() && HintsAdded(p, info, matching, matching') && x in Candidates(p, info, matching)
    ensures CoveredBy(p, ExistingVersions(p, CodeBases(matching')), x)
  {
    hide CoveredBy, Candidates, CodeBases, Redirects;
    var existing, hints := ExistingVersions(p, CodeBases(matching)), Hints(p, info, matching);
    MissingCovers(p, existing, Candidates(p, info, matching));
    forall text | text in existing + ExistingVersions(p, hints)
      ensures text in ExistingVersions(p, CodeBases(matching'))
    {
      var c;
      if text in existing {
        c := VersionHasMember(p, CodeBases(matching), text);
      } else {
        c := VersionHasMember(p, hints, text);
      }
      VersionsOfMembers(p, CodeBases(matching'), c);
    }
    CoveredByMore(p, existing + ExistingVersions(p, hints), ExistingVersions(p, CodeBases(matching')), x);
  }

  lemma CoveredByMore(p: Platform, few: set<string>, many: set<string>, x: Candidate)
    requires CoveredBy(p, few, x) && few <= many
    ensures CoveredBy(p, many, x)
  {
  }

  lemma CandidateKinds(p: Platform, info: AssemblyInfo, matching: seq<Entry>, x: Candidate)
    ensures x in Candidates(p, info, matching) <==>
            x == ProfilerCandidate(info) || x in CodeBaseCandidates(p, CodeBases(matching)) ||
              x in Optional(p.probe(info))
            || x in RedirectCandidates(EffectiveRedirectVersion(p, Redirects(matching)))
  {
  }

  /** A candidate that comes from an added hint has the version of the candidate the hint was for. */
  lemma HintCandidate(p: Platform, y: Candidate, x: Candidate)
    requires p.Sound() && CodeBaseCandidate(p, CodeBaseOf(p, y)) == Some(x)
    ensures x.version == y.version
  {
  }

  lemma NoMoreHints(p: Platform, info: AssemblyInfo, matching: seq<Entry>, matching': seq<Entry>)
    requires p.Sound() && HintsAdded(p, info, matching, matching')
    ensures Hints(p, info, matching') == []
  {
    hide Candidates, CodeBases, Redirects, CodeBaseCandidates, CodeBaseCandidate, Missing;
    var existing' := ExistingVersions(p, CodeBases(matching'));
    var candidates := Candidates(p, info, matching);
    MissingCovers(p, ExistingVersions(p, CodeBases(matching)), candidates);
    forall x | x in Candidates(p, info, matching') ensures CoveredBy(p, existing', x) {
      CandidateKinds(p, info, matching, x);
      CandidateKinds(p, info, matching', x);
      if x in candidates {
        HintsAreCovered(p, info, matching, matching', x);
      } else {
        CandidateOfMember(p, CodeBases(matching'), x);
        CandidateOfMember(p, CodeBases(matching), x);
        var c :| c in CodeBases(matching') && c.CodeBase? && CodeBaseCandidate(p, c) == Some(x);
        assert c in Hints(p, info, matching);
        var y :| y in candidates && p.HasCodeBase(y) && c == CodeBaseOf(p, y);
        HintCandidate(p, y, x);
        HintsAreCovered(p, info, matching, matching', y);
      }
    }
    NothingMissing(p, existing', Candidates(p, info, matching'));
  }

  // ---------------------------------------------------------------- one assembly, twice

  /** What the matching entries are after an update. */
  function Outcome(p: Platform, disallowed: bool, info: AssemblyInfo, matching: seq<Entry>): (r: seq<Entry>)
    requires forall i :: 0 <= i < |matching| ==> matching[i].DependentAssembly?
    ensures r != []
  {
    if !Untouchable(p, disallowed, matching) then [Normalised(p, info, Choice(p, info, matching))]
    else if matching == [] then [DependentAssembly([Created(info)] + Hints(p, info, []))]
    else ExtendedMatching(matching, Hints(p, info, matching))
  }

  lemma CreatedContents(info: AssemblyInfo, hints: seq<Child>)
    requires forall i :: 0 <= i < |hints| ==> hints[i].CodeBase?
    ensures var r := [DependentAssembly([Created(info)] + hints)];
            Redirects(r) == Redirects([]) == [] && CodeBases(r) == hints && CodeBases([]) == []
  {
    assert ([Created(info)] + hints)[1..] == hints;
    OnlyCodeBases(hints);
    var r := [DependentAssembly([Created(info)] + hints)];
    assert r[1..] == [];
    assert CodeBases(r) == hints + [] && Redirects(r) == [] + [];
  }

  lemma OutcomeOfUntouchable(p: Platform, disallowed: bool, info: AssemblyInfo, matching: seq<Entry>)
    requires p.Sound() && forall i :: 0 <= i < |matching| ==> matching[i].DependentAssembly?
    requires Untouchable(p, disallowed, matching)
    ensures var r := Outcome(p, disallowed, info, matching);
            Untouchable(p, disallowed, r) && Hints(p, info, r) == []
  {
    hide EffectiveRedirectVersion, Missing, Candidates, ExistingVersions, Redirects, CodeBases;
    var hints := Hints(p, info, matching);
    var r := Outcome(p, disallowed, info, matching);
    if matching == [] {
      CreatedContents(info, hints);
    } else {
      ExtendedContents(matching, hints);
    }
    NoMoreHints(p, info, matching, r);
  }

  lemma NormalisedContents(p: Platform, info: AssemblyInfo, s: Candidate)
    requires p.Sound()
    ensures var m := [Normalised(p, info, s)];
            && |Redirects(m)| == 1 && EffectiveRedirectVersion(p, Redirects(m)) == Some(s.version)
            && CodeBaseCandidates(p, CodeBases(m))
               == if p.HasCodeBase(s) then [Candidate(CodeBaseEntry, s.version, None, s.uri)] else []
  {
    var hint := if p.HasCodeBase(s) then [CodeBaseOf(p, s)] else [];
    var redirect := Redirect(Some("0.0.0.0-" + p.show(s.version)), Some(p.show(s.version)));
    var children := [Created(info), redirect] + hint;
    ChildrenAppend([Created(info), redirect], hint);
    OnlyCodeBases(hint);
    assert [Created(info), redirect][1..] == [redirect];
    assert ChildRedirects([redirect]) == [redirect] && ChildCodeBases([redirect]) == [];
    var m := [Normalised(p, info, s)];
    assert m[0].children == children;
    assert Redirects(m) == ChildRedirects(children) + Redirects(m[1..]);
    assert CodeBases(m) == ChildCodeBases(children) + CodeBases(m[1..]);
    assert Redirects(m) == [redirect];
    assert CodeBases(m) == hint;
  }

  /** An existing redirect is selected only when it is above everything else. */
  lemma SelectedRedirect(candidates: seq<Candidate>, profiler: Candidate)
    requires profiler in candidates && profiler.source == Profiler
    ensures SelectCandidate(candidates).Some?
    ensures var s := SelectCandidate(candidates).value;
            s.source == ExistingRedirect ==>
              forall c :: c in candidates && c.source != ExistingRedirect ==> Less(c.version, s.version)
  {
    hide HighestOther, HighestRedirect, FirstOf;
    HighestOtherIsHighest(candidates);
    HighestRedirectIsHighest(candidates);
    var highest := HighestOther(candidates).value;
    FirstOfFinds(candidates, CodeBaseEntry, highest);
    FirstOfFinds(candidates, Profiler, highest);
    FirstOfFinds(candidates, Probe, highest);
  }

  /** If there is a codeBase candidate of the highest version, the first such is selected. */
  lemma SelectedCodeBase(candidates: seq<Candidate>, c: Candidate)
    requires c in candidates && c.source == CodeBaseEntry
    requires forall x :: x in candidates ==> AtMost(x.version, c.version)
    requires forall x :: x in candidates && x.source == CodeBaseEntry ==> x == c
    ensures SelectCandidate(candidates) == Some(c)
  {
    hide HighestOther, HighestRedirect, FirstOf;
    HighestOtherIsHighest(candidates);
    HighestRedirectIsHighest(candidates);
    FirstOfFinds(candidates, CodeBaseEntry, c.version);
  }

  /** If an existing redirect is above everything else and is the only one, it is selected. */
  lemma SelectedExisting(candidates: seq<Candidate>, r: Candidate, profiler: Candidate)
    requires r in candidates && r.source == ExistingRedirect
    requires profiler in candidates && profiler.source == Profiler
    requires forall x :: x in candidates && x.source != ExistingRedirect ==> Less(x.version, r.version)
    requires forall x :: x in candidates && x.source == ExistingRedirect ==> x == r
    ensures SelectCandidate(candidates) == Some(r)
  {
    hide HighestOther, HighestRedirect, FirstOf;
    HighestOtherIsHighest(candidates);
    HighestRedirectIsHighest(candidates);
  }

  lemma LocatedCandidates(p: Platform, info: AssemblyInfo, matching: seq<Entry>, x: Candidate)
    requires Located(p, info) && p.Sound() && x in Candidates(p, info, matching)
    ensures x.source != ExistingRedirect ==> p.HasCodeBase(x)
    ensures x.source == ExistingRedirect ==> !p.HasCodeBase(x)
  {
    CandidateKinds(p, info, matching, x);
    CandidateOfMember(p, CodeBases(matching), x);
  }

  /** Choosing again among what a normalised entry leaves gives the same entry. */
  lemma NormalisedTwice(p: Platform, info: AssemblyInfo, matching: seq<Entry>)
    requires p.Sound() && Located(p, info)
    ensures var n := Normalised(p, info, Choice(p, info, matching));
            !Untouchable(p, false, [n]) && Normalised(p, info, Choice(p, info, [n])) == n
  {
    hide Candidates, SelectCandidate, CodeBases, Redirects, CodeBaseCandidates, Normalised, Located;
    var s := Choice(p, info, matching);
    var n := Normalised(p, info, s);
    var before, after := Candidates(p, info, matching), Candidates(p, info, [n]);
    var profiler := ProfilerCandidate(info);
    CandidateKinds(p, info, matching, profiler);
    CandidateKinds(p, info, [n], profiler);
    NormalisedContents(p, info, s);
    LocatedCandidates(p, info, matching, s);
    forall x | x in after ensures x == Candidate(ExistingRedirect, s.version, None, None)
        || (p.HasCodeBase(s) && x == Candidate(CodeBaseEntry, s.version, None, s.uri))
        || (x in before && x.source != ExistingRedirect && x.source != CodeBaseEntry)
    {
      CandidateKinds(p, info, [n], x);
      CandidateKinds(p, info, matching, x);
    }
    if p.HasCodeBase(s) {
      var c := Candidate(CodeBaseEntry, s.version, None, s.uri);
      CandidateKinds(p, info, [n], c);
      SelectedCodeBase(after, c);
      SameNormalised(p, info, s, c);
    } else {
      SelectedRedirect(before, profiler);
      var r := Candidate(ExistingRedirect, s.version, None, None);
      CandidateKinds(p, info, [n], r);
      SelectedExisting(after, r, profiler);
      SameNormalised(p, info, s, r);
    }
  }

  lemma SameNormalised(p: Platform, info: AssemblyInfo, a: Candidate, b: Candidate)
    requires a.version == b.version && p.HasCodeBase(a) == p.HasCodeBase(b) && (p.HasCodeBase(a) ==> a.uri == b.uri)
    ensures Normalised(p, info, a) == Normalised(p, info, b)
  {
  }

  lemma NormalisedMatches(p: Platform, info: AssemblyInfo, s: Candidate, other: AssemblyInfo)
    ensures Matches(p, Normalised(p, info, s), other) <==>
              p.fold(info.name) == p.fold(other.name) && p.fold(info.token) == p.fold(other.token)
  {
  }

  lemma CreatedMatches(p: Platform, info: AssemblyInfo, hints: seq<Child>, other: AssemblyInfo)
    ensures Matches(p, DependentAssembly([Created(info)] + hints), other) <==>
              p.fold(info.name) == p.fold(other.name) && p.fold(info.token) == p.fold(other.token)
  {
  }

  lemma MatchingOne(p: Platform, e: Entry, info: AssemblyInfo)
    ensures Matching(p, [e], info) == if Matches(p, e, info) then [e] else []
    ensures NotMatching(p, [e], info) == if Matches(p, e, info) then [] else [e]
  {
    assert [e][1..] == [];
  }

  // ---------------------------------------------------------------- the whole catalog

  /** The entry an update of one assembly appends, if it may rewrite. */
  function Fresh(p: Platform, disallowed: bool, entries: seq<Entry>, info: AssemblyInfo): seq<Entry> {
    var matching := Matching(p, entries, info);
    if Untouchable(p, disallowed, matching) then [] else [Normalised(p, info, Choice(p, info, matching))]
  }

  function FreshAll(p: Platform, disallowed: bool, entries: seq<Entry>, catalog: seq<AssemblyInfo>): seq<Entry>
    decreases |catalog|
  {
    if catalog == [] then []
    else
      var n := |catalog| - 1;
      FreshAll(p, disallowed, entries, catalog[..n]) + Fresh(p, disallowed, entries, catalog[n])
  }

  /** What an update does apart from appending rewritten entries. */
  function KeptOne(p: Platform, disallowed: bool, entries: seq<Entry>, kept: seq<Entry>,
        info: AssemblyInfo): seq<Entry>
  {
    if Untouchable(p, disallowed, Matching(p, entries, info)) then Ensured(p, kept, info)
    else NotMatching(p, kept, info)
  }

  function Kept(p: Platform, disallowed: bool, entries: seq<Entry>, catalog: seq<AssemblyInfo>): seq<Entry>
    decreases |catalog|
  {
    if catalog == [] then entries
    else KeptOne(p, disallowed, entries, Kept(p, disallowed, entries, catalog[..|catalog| - 1]), catalog[|catalog| - 1])
  }

  ghost predicate Apart(p: Platform, catalog: seq<AssemblyInfo>, info: AssemblyInfo) {
    forall i :: 0 <= i < |catalog| ==> p.fold(catalog[i].name) != p.fold(info.name)
  }

  lemma KeptOneElsewhere(p: Platform, disallowed: bool, entries: seq<Entry>, kept: seq<Entry>, a: AssemblyInfo,
        b: AssemblyInfo)
    requires p.fold(a.name) != p.fold(b.name)
    ensures Matching(p, KeptOne(p, disallowed, entries, kept, a), b) == Matching(p, kept, b)
  {
    hide Hints, Untouchable, Matches;
    OthersUnaffected(p, kept, a, b);
    var matching := Matching(p, kept, a);
    if matching == [] {
      var n := DependentAssembly([Created(a)] + Hints(p, a, []));
      CreatedMatches(p, a, Hints(p, a, []), b);
      MatchingAppend(p, kept, [n], b);
      MatchingOne(p, n, b);
    } else {
      ExtendFirstFilters(p, kept, a, b, Hints(p, a, matching));
    }
  }

  lemma FreshElsewhere(p: Platform, disallowed: bool, entries: seq<Entry>, a: AssemblyInfo, b: AssemblyInfo)
    requires p.fold(a.name) != p.fold(b.name)
    ensures Matching(p, Fresh(p, disallowed, entries, a), b) == []
  {
    hide Choice, Normalised, Untouchable, Matches;
    var s := Choice(p, a, Matching(p, entries, a));
    NormalisedMatches(p, a, s, b);
    MatchingOne(p, Normalised(p, a, s), b);
  }

  lemma {:induction false} CatalogElsewhere(p: Platform, disallowed: bool, entries: seq<Entry>,
        catalog: seq<AssemblyInfo>, b: AssemblyInfo)
    requires Apart(p, catalog, b)
    ensures Matching(p, Kept(p, disallowed, entries, catalog), b) == Matching(p, entries, b)
    ensures Matching(p, FreshAll(p, disallowed, entries, catalog), b) == []
    decreases |catalog|
  {
    hide KeptOne, Fresh, Matching;
    if catalog == [] {
      MatchingNothing(p, b);
    } else {
      var before, a := catalog[..|catalog| - 1], catalog[|catalog| - 1];
      CatalogElsewhere(p, disallowed, entries, before, b);
      KeptOneElsewhere(p, disallowed, entries, Kept(p, disallowed, entries, before), a, b);
      FreshElsewhere(p, disallowed, entries, a, b);
      MatchingAppend(p, FreshAll(p, disallowed, entries, before), Fresh(p, disallowed, entries, a), b);
    }
  }

  lemma MatchingNothing(p: Platform, info: AssemblyInfo)
    ensures Matching(p, [], info) == []
  {
  }

  lemma {:induction false} NothingFresh(p: Platform, entries: seq<Entry>, catalog: seq<AssemblyInfo>)
    ensures FreshAll(p, true, entries, catalog) == []
    decreases |catalog|
  {
    if catalog != [] {
      NothingFresh(p, entries, catalog[..|catalog| - 1]);
    }
  }

  /** Ensuring hints in a list that ends with entries for other assemblies. */
  lemma EnsuredBefore(p: Platform, disallowed: bool, kept: seq<Entry>, added: seq<Entry>, a: AssemblyInfo)
    requires Untouchable(p, disallowed, Matching(p, kept, a)) && Matching(p, added, a) == []
    requires disallowed ==> added == []
    ensures Ensured(p, kept + added, a) == Ensured(p, kept, a) + added
  {
    hide Hints, Matches;
    var matching := Matching(p, kept, a);
    MatchingAppend(p, kept, added, a);
    assert matching + [] == matching;
    if matching == [] {
      assert added == [];
      assert kept + added == kept;
    } else {
      ExtendFirstBefore(p, kept, added, a, Hints(p, a, matching));
    }
  }

  lemma UpdatedSplit(p: Platform, disallowed: bool, entries: seq<Entry>, kept: seq<Entry>, added: seq<Entry>,
        a: AssemblyInfo)
    requires Matching(p, kept, a) == Matching(p, entries, a) && Matching(p, added, a) == []
    requires disallowed ==> added == []
    ensures Updated(p, disallowed, kept + added, a)
         == KeptOne(p, disallowed, entries, kept, a) + (added + Fresh(p, disallowed, entries, a))
  {
    hide Ensured, Choice, Normalised, Matches, Matching, NotMatching, Untouchable;
    var matching := Matching(p, entries, a);
    MatchingAppend(p, kept, added, a);
    assert matching + [] == matching;
    if Untouchable(p, disallowed, matching) {
      EnsuredBefore(p, disallowed, kept, added, a);
      assert added + [] == added;
    } else {
      NotMatchingAppend(p, kept, added, a);
      NothingMatches(p, added, a);
      var n := [Normalised(p, a, Choice(p, a, matching))];
      assert NotMatching(p, kept, a) + added + n == NotMatching(p, kept, a) + (added + n);
    }
  }

  lemma DistinctParts(p: Platform, catalog: seq<AssemblyInfo>, i: nat)
    requires Distinct(p, catalog) && i < |catalog|
    ensures Distinct(p, catalog[..i]) && Apart(p, catalog[..i], catalog[i]) && Apart(p, catalog[i + 1..], catalog[i])
  {
  }

  /** Rewritten entries come last, in the order of the catalog; everything else stays where it was. */
  lemma {:induction false} UpdateShape(p: Platform, disallowed: bool, entries: seq<Entry>, catalog: seq<AssemblyInfo>)
    requires Distinct(p, catalog)
    ensures UpdatedAll(p, disallowed, entries, catalog)
         == Kept(p, disallowed, entries, catalog) + FreshAll(p, disallowed, entries, catalog)
    decreases |catalog|
  {
    hide Updated, KeptOne, Fresh, Matching, Distinct, Apart;
    if catalog == [] {
      assert entries + [] == entries;
    } else {
      var n := |catalog| - 1;
      DistinctParts(p, catalog, n);
      UpdateShape(p, disallowed, entries, catalog[..n]);
      CatalogElsewhere(p, disallowed, entries, catalog[..n], catalog[n]);
      if disallowed {
        NothingFresh(p, entries, catalog[..n]);
      }
      UpdatedSplit(p, disallowed, entries, Kept(p, disallowed, entries, catalog[..n]),
                   FreshAll(p, disallowed, entries, catalog[..n]), catalog[n]);
    }
  }

  // ---------------------------------------------------------------- the second pass

  lemma KeptOneHere(p: Platform, disallowed: bool, entries: seq<Entry>, kept: seq<Entry>, a: AssemblyInfo)
    requires Matching(p, kept, a) == Matching(p, entries, a)
    ensures Matching(p, KeptOne(p, disallowed, entries, kept, a), a)
         == if Untouchable(p, disallowed, Matching(p, entries, a))
            then Outcome(p, disallowed, a, Matching(p, entries, a)) else []
  {
    hide Hints, Matches, Untouchable;
    NoneLeft(p, kept, a);
    var matching := Matching(p, kept, a);
    if matching == [] {
      var n := DependentAssembly([Created(a)] + Hints(p, a, []));
      CreatedMatches(p, a, Hints(p, a, []), a);
      MatchingAppend(p, kept, [n], a);
      MatchingOne(p, n, a);
    } else {
      ExtendFirstFilters(p, kept, a, a, Hints(p, a, matching));
    }
  }

  lemma FreshHere(p: Platform, disallowed: bool, entries: seq<Entry>, a: AssemblyInfo)
    ensures Matching(p, Fresh(p, disallowed, entries, a), a)
         == if Untouchable(p, disallowed, Matching(p, entries, a)) then []
            else Outcome(p, disallowed, a, Matching(p, entries, a))
    ensures NotMatching(p, Fresh(p, disallowed, entries, a), a) == []
  {
    hide Choice, Normalised, Untouchable, Matches;
    var s := Choice(p, a, Matching(p, entries, a));
    NormalisedMatches(p, a, s, a);
    MatchingOne(p, Normalised(p, a, s), a);
  }

  /** What the matching entries of an assembly come to, and where they are. */
  lemma {:induction false} CatalogOutcome(p: Platform, disallowed: bool, entries: seq<Entry>,
        catalog: seq<AssemblyInfo>, j: nat)
    requires Distinct(p, catalog) && j < |catalog|
    ensures var m := Matching(p, entries, catalog[j]);
            var outcome := Outcome(p, disallowed, catalog[j], m);
            && Matching(p, Kept(p, disallowed, entries, catalog), catalog[j])
               == (if Untouchable(p, disallowed, m) then outcome else [])
            && Matching(p, FreshAll(p, disallowed, entries, catalog), catalog[j])
               == (if Untouchable(p, disallowed, m) then [] else outcome)
    decreases |catalog|
  {
    hide KeptOne, Fresh, Matching, Outcome, Untouchable, Apart;
    var n := |catalog| - 1;
    var before, b, a := catalog[..n], catalog[n], catalog[j];
    DistinctParts(p, catalog, n);
    MatchingAppend(p, FreshAll(p, disallowed, entries, before), Fresh(p, disallowed, entries, b), a);
    if j == n {
      CatalogElsewhere(p, disallowed, entries, before, a);
      KeptOneHere(p, disallowed, entries, Kept(p, disallowed, entries, before), a);
      FreshHere(p, disallowed, entries, a);
    } else {
      CatalogOutcome(p, disallowed, entries, before, j);
      KeptOneElsewhere(p, disallowed, entries, Kept(p, disallowed, entries, before), b, a);
      FreshElsewhere(p, disallowed, entries, b, a);
    }
  }

  function FreshFrom(p: Platform, disallowed: bool, entries: seq<Entry>, catalog: seq<AssemblyInfo>): seq<Entry>
    decreases |catalog|
  {
    if catalog == [] then []
    else Fresh(p, disallowed, entries, catalog[0]) + FreshFrom(p, disallowed, entries, catalog[1..])
  }

  lemma {:induction false} FreshSplit(p: Platform, disallowed: bool, entries: seq<Entry>,
        catalog: seq<AssemblyInfo>, i: nat)
    requires i <= |catalog|
    ensures FreshAll(p, disallowed, entries, catalog[..i]) + FreshFrom(p, disallowed, entries, catalog[i..])
         == FreshAll(p, disallowed, entries, catalog)
    decreases |catalog| - i
  {
    hide Fresh;
    if i == |catalog| {
      assert catalog[..i] == catalog;
    } else {
      FreshSplit(p, disallowed, entries, catalog, i + 1);
      assert catalog[..i + 1][..i] == catalog[..i];
      assert catalog[i..][1..] == catalog[i + 1..];
      var a, b, c := FreshAll(p, disallowed, entries, catalog[..i]), Fresh(p, disallowed, entries, catalog[i]),
                     FreshFrom(p, disallowed, entries, catalog[i + 1..]);
      assert a + (b + c) == (a + b) + c;
    }
  }

  lemma {:induction false} FreshFromElsewhere(p: Platform, disallowed: bool, entries: seq<Entry>,
        catalog: seq<AssemblyInfo>, b: AssemblyInfo)
    requires Apart(p, catalog, b)
    ensures Matching(p, FreshFrom(p, disallowed, entries, catalog), b) == []
    decreases |catalog|
  {
    hide Fresh, Matching;
    if catalog == [] {
      MatchingNothing(p, b);
    } else {
      FreshFromElsewhere(p, disallowed, entries, catalog[1..], b);
      FreshElsewhere(p, disallowed, entries, catalog[0], b);
      MatchingAppend(p, Fresh(p, disallowed, entries, catalog[0]), FreshFrom(p, disallowed, entries, catalog[1..]), b);
    }
  }

  /** A second look at an assembly whose entries are an outcome: nothing to do, or the same entry again. */
  lemma SecondLook(p: Platform, disallowed: bool, entries: seq<Entry>, result: seq<Entry>, a: AssemblyInfo)
    requires p.Sound() && Located(p, a)
    requires Matching(p, result, a) == Outcome(p, disallowed, a, Matching(p, entries, a))
    ensures Untouchable(p, disallowed, Matching(p, result, a)) == Untouchable(p, disallowed, Matching(p, entries, a))
    ensures Fresh(p, disallowed, result, a) == Fresh(p, disallowed, entries, a)
    ensures Untouchable(p, disallowed, Matching(p, entries, a)) ==> Hints(p, a, Matching(p, result, a)) == []
  {
    hide Matching, Choice, Normalised, Hints, Located;
    var m := Matching(p, entries, a);
    if Untouchable(p, disallowed, m) {
      OutcomeOfUntouchable(p, disallowed, a, m);
    } else {
      NormalisedTwice(p, a, m);
    }
  }

  lemma SecondKept(p: Platform, disallowed: bool, entries: seq<Entry>, result: seq<Entry>, kept: seq<Entry>,
                   later: seq<Entry>, a: AssemblyInfo)
    requires p.Sound() && Located(p, a)
    requires Matching(p, result, a) == Outcome(p, disallowed, a, Matching(p, entries, a))
    requires Matching(p, kept, a)
          == (if Untouchable(p, disallowed, Matching(p, entries, a)) then Matching(p, result, a) else [])
    requires Matching(p, later, a) == [] && Matching(p, result, a) != []
    ensures KeptOne(p, disallowed, result, kept + (Fresh(p, disallowed, entries, a) + later), a) == kept + later
  {
    hide Matching, NotMatching, Outcome, Hints, Untouchable, Located, Fresh, KeptOne;
    SecondLook(p, disallowed, entries, result, a);
    FreshHere(p, disallowed, entries, a);
    if Untouchable(p, disallowed, Matching(p, entries, a)) {
      NoFresh(p, disallowed, entries, a);
      assert Fresh(p, disallowed, entries, a) + later == later;
      EnsuredTwice(p, disallowed, result, kept, later, a);
    } else {
      RemovedTwice(p, disallowed, result, kept, Fresh(p, disallowed, entries, a), later, a);
    }
  }

  lemma NoFresh(p: Platform, disallowed: bool, entries: seq<Entry>, a: AssemblyInfo)
    requires Untouchable(p, disallowed, Matching(p, entries, a))
    ensures Fresh(p, disallowed, entries, a) == []
  {
  }

  lemma EnsuredTwice(p: Platform, disallowed: bool, result: seq<Entry>, kept: seq<Entry>, later: seq<Entry>,
        a: AssemblyInfo)
    requires Untouchable(p, disallowed, Matching(p, result, a)) && Hints(p, a, Matching(p, result, a)) == []
    requires Matching(p, kept, a) == Matching(p, result, a) != [] && Matching(p, later, a) == []
    ensures KeptOne(p, disallowed, result, kept + later, a) == kept + later
  {
    hide Matching, NotMatching, Hints, Untouchable, ExtendFirst;
    MatchingAppend(p, kept, later, a);
    assert Matching(p, kept, a) + [] == Matching(p, kept, a);
    ExtendByNothing(p, kept + later, a);
  }

  lemma RemovedTwice(p: Platform, disallowed: bool, result: seq<Entry>, kept: seq<Entry>, added: seq<Entry>,
                     later: seq<Entry>, a: AssemblyInfo)
    requires !Untouchable(p, disallowed, Matching(p, result, a))
    requires Matching(p, kept, a) == [] && NotMatching(p, added, a) == [] && Matching(p, later, a) == []
    ensures KeptOne(p, disallowed, result, kept + (added + later), a) == kept + later
  {
    hide Matching, NotMatching, Untouchable;
    NotMatchingAppend(p, kept, added + later, a);
    NotMatchingAppend(p, added, later, a);
    NothingMatches(p, later, a);
    NothingMatches(p, kept, a);
  }

  lemma {:induction false} SecondPass(p: Platform, disallowed: bool, entries: seq<Entry>,
        catalog: seq<AssemblyInfo>, i: nat)
    requires p.Sound() && Distinct(p, catalog) && i <= |catalog|
    requires forall j :: 0 <= j < |catalog| ==> Located(p, catalog[j])
    ensures var kept := Kept(p, disallowed, entries, catalog);
            var result := kept + FreshAll(p, disallowed, entries, catalog);
            && Kept(p, disallowed, result, catalog[..i]) == kept + FreshFrom(p, disallowed, entries, catalog[i..])
            && FreshAll(p, disallowed, result, catalog[..i]) == FreshAll(p, disallowed, entries, catalog[..i])
    decreases i
  {
    hide Kept, FreshAll, FreshFrom, KeptOne, Fresh, Matching, Outcome, Untouchable, Located, Distinct, Apart;
    var kept := Kept(p, disallowed, entries, catalog);
    var result := kept + FreshAll(p, disallowed, entries, catalog);
    if i == 0 {
      FreshSplit(p, disallowed, entries, catalog, 0);
      assert catalog[0..] == catalog;
      Nothing(p, disallowed, entries, result);
      assert catalog[..0] == [];
    } else {
      var k := i - 1;
      var a := catalog[k];
      SecondPass(p, disallowed, entries, catalog, k);
      DistinctParts(p, catalog, k);
      CatalogOutcome(p, disallowed, entries, catalog, k);
      MatchingAppend(p, kept, FreshAll(p, disallowed, entries, catalog), a);
      FreshFromElsewhere(p, disallowed, entries, catalog[i..], a);
      SecondLook(p, disallowed, entries, result, a);
      SecondKept(p, disallowed, entries, result, kept, FreshFrom(p, disallowed, entries, catalog[i..]), a);
      Unfold(p, disallowed, entries, result, catalog, k);
    }
  }

  lemma Unfold(p: Platform, disallowed: bool, entries: seq<Entry>, result: seq<Entry>, catalog: seq<AssemblyInfo>,
        k: nat)
    requires k < |catalog|
    ensures Kept(p, disallowed, result, catalog[..k + 1])
         == KeptOne(p, disallowed, result, Kept(p, disallowed, result, catalog[..k]), catalog[k])
    ensures FreshAll(p, disallowed, result, catalog[..k + 1])
         == FreshAll(p, disallowed, result, catalog[..k]) + Fresh(p, disallowed, result, catalog[k])
    ensures FreshAll(p, disallowed, entries, catalog[..k + 1])
         == FreshAll(p, disallowed, entries, catalog[..k]) + Fresh(p, disallowed, entries, catalog[k])
    ensures FreshFrom(p, disallowed, entries, catalog[k..])
         == Fresh(p, disallowed, entries, catalog[k]) + FreshFrom(p, disallowed, entries, catalog[k + 1..])
  {
    hide KeptOne, Fresh;
    assert catalog[k..][1..] == catalog[k + 1..] && catalog[k..][0] == catalog[k];
    assert catalog[..k + 1][..k] == catalog[..k];
  }

  lemma Nothing(p: Platform, disallowed: bool, entries: seq<Entry>, result: seq<Entry>)
    ensures Kept(p, disallowed, result, []) == result
    ensures FreshAll(p, disallowed, result, []) == FreshAll(p, disallowed, entries, []) == []
  {
  }

  /** Updating what an update has produced changes nothing, whatever was there in the first place. */
  lemma {:induction false} UpdateIsIdempotent(p: Platform, disallowed: bool, entries: seq<Entry>,
        catalog: seq<AssemblyInfo>)
    requires p.Sound() && Distinct(p, catalog)
    requires forall j :: 0 <= j < |catalog| ==> Located(p, catalog[j])
    ensures var result := UpdatedAll(p, disallowed, entries, catalog);
            UpdatedAll(p, disallowed, result, catalog) == result
  {
    hide Kept, FreshAll, UpdatedAll, Distinct, Located;
    var result := UpdatedAll(p, disallowed, entries, catalog);
    UpdateShape(p, disallowed, entries, catalog);
    UpdateShape(p, disallowed, result, catalog);
    SecondPass(p, disallowed, entries, catalog, |catalog|);
    assert catalog[..|catalog|] == catalog && catalog[|catalog|..] == [];
    assert Kept(p, disallowed, entries, catalog) + [] == Kept(p, disallowed, entries, catalog);
  }

  /** A rewritten assembly has one entry, whose redirect targets the highest of all candidate versions. */
  lemma {:induction false} RewrittenToHighest(p: Platform, entries: seq<Entry>, catalog: seq<AssemblyInfo>, j: nat)
      returns (s: Candidate)
    requires Distinct(p, catalog) && j < |catalog|
    requires !Untouchable(p, false, Matching(p, entries, catalog[j]))
    ensures Matching(p, UpdatedAll(p, false, entries, catalog), catalog[j]) == [Normalised(p, catalog[j], s)]
    ensures s in Candidates(p, catalog[j], Matching(p, entries, catalog[j]))
    ensures forall c :: c in Candidates(p, catalog[j], Matching(p, entries, catalog[j])) ==>
      AtMost(c.version, s.version)
  {
    hide Matching, Kept, FreshAll, UpdatedAll, Distinct, Candidates;
    var m := Matching(p, entries, catalog[j]);
    s := Choice(p, catalog[j], m);
    UpdateShape(p, false, entries, catalog);
    CatalogOutcome(p, false, entries, catalog, j);
    MatchingAppend(p, Kept(p, false, entries, catalog), FreshAll(p, false, entries, catalog), catalog[j]);
  }

  // ---------------------------------------------------------------- entries about other assemblies

  predicate MatchesAny(p: Platform, e: Entry, catalog: seq<AssemblyInfo>) {
    exists i :: 0 <= i < |catalog| && Matches(p, e, catalog[i])
  }

  function Unrelated(p: Platform, entries: seq<Entry>, catalog: seq<AssemblyInfo>): seq<Entry> {
    if entries == [] then []
    else (if MatchesAny(p, entries[0], catalog) then [] else [entries[0]]) + Unrelated(p, entries[1..], catalog)
  }

  lemma {:induction false} UnrelatedToOne(p: Platform, entries: seq<Entry>, catalog: seq<AssemblyInfo>, i: nat)
    requires i < |catalog|
    ensures Unrelated(p, NotMatching(p, entries, catalog[i]), catalog) == Unrelated(p, entries, catalog)
    decreases |entries|
  {
    hide Matches;
    if entries != [] {
      UnrelatedToOne(p, entries[1..], catalog, i);
      var rest := NotMatching(p, entries[1..], catalog[i]);
      if Matches(p, entries[0], catalog[i]) {
        assert MatchesAny(p, entries[0], catalog);
        assert NotMatching(p, entries, catalog[i]) == rest;
      } else {
        assert ([entries[0]] + rest)[1..] == rest;
      }
    }
  }

  lemma {:induction false} UnrelatedStayUpTo(p: Platform, disallowed: bool, entries: seq<Entry>,
        catalog: seq<AssemblyInfo>, n: nat)
    requires n <= |catalog|
    ensures Unrelated(p, UpdatedAll(p, disallowed, entries, catalog[..n]), catalog) == Unrelated(p, entries, catalog)
    decreases n
  {
    hide Updated, Unrelated, Matching, NotMatching;
    if n > 0 {
      var before := UpdatedAll(p, disallowed, entries, catalog[..n - 1]);
      var a := catalog[n - 1];
      assert catalog[..n][..n - 1] == catalog[..n - 1];
      UnrelatedStayUpTo(p, disallowed, entries, catalog, n - 1);
      UpdatedElsewhere(p, disallowed, before, a);
      UnrelatedToOne(p, before, catalog, n - 1);
      UnrelatedToOne(p, Updated(p, disallowed, before, a), catalog, n - 1);
    }
  }

  lemma UpdatedElsewhere(p: Platform, disallowed: bool, entries: seq<Entry>, a: AssemblyInfo)
    ensures NotMatching(p, Updated(p, disallowed, entries, a), a) == NotMatching(p, entries, a)
  {
    hide Hints, Choice, Normalised, Untouchable, Matches;
    var matching := Matching(p, entries, a);
    if !Untouchable(p, disallowed, matching) {
      var others, s := NotMatching(p, entries, a), Choice(p, a, matching);
      NormalisedMatches(p, a, s, a);
      NoneLeft(p, entries, a);
      NothingMatches(p, others, a);
      NotMatchingAppend(p, others, [Normalised(p, a, s)], a);
      MatchingOne(p, Normalised(p, a, s), a);
    } else if matching == [] {
      var n := DependentAssembly([Created(a)] + Hints(p, a, []));
      CreatedMatches(p, a, Hints(p, a, []), a);
      NotMatchingAppend(p, entries, [n], a);
      MatchingOne(p, n, a);
    } else {
      ExtendFirstFilters(p, entries, a, a, Hints(p, a, matching));
    }
  }

  /** Entries about no assembly of the catalog keep their content and their order. */
  lemma {:induction false} UnrelatedStay(p: Platform, disallowed: bool, entries: seq<Entry>, catalog: seq<AssemblyInfo>)
    ensures Unrelated(p, UpdatedAll(p, disallowed, entries, catalog), catalog) == Unrelated(p, entries, catalog)
  {
    UnrelatedStayUpTo(p, disallowed, entries, catalog, |catalog|);
    assert catalog[..|catalog|] == catalog;
  }
}
