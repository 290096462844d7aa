/**
 * The loops that carry out the update of binding policy on the assemblyBinding element.
 */
module BindingUpdater {
  import opened Bytes
  import opened BindingPolicy
  import opened BindingUpdate

  class AssemblyBindingUpdater {
    const platform: Platform
    const disallowBindingRedirects: bool
    /** The children of the assemblyBinding element. */
    var entries: seq<Entry>

    constructor (platform: Platform, disallowBindingRedirects: bool, entries: seq<Entry>)
      ensures this.platform == platform && this.disallowBindingRedirects == disallowBindingRedirects
      ensures this.entries == entries
    {
      this.platform, this.disallowBindingRedirects, this.entries := platform, disallowBindingRedirects, entries;
    }

    method ModifyAssemblyBinding(catalog: seq<AssemblyInfo>)
      modifies this
      ensures entries == UpdatedAll(platform, disallowBindingRedirects, old(entries), catalog)
    {
      hide Updated;
      for i := 0 to |catalog|
        invariant entries == UpdatedAll(platform, disallowBindingRedirects, old(entries), catalog[..i])
      {
        assert catalog[..i + 1][..i] == catalog[..i];
        UpdateAssembly(catalog[i]);
      }
      assert catalog[..|catalog|] == catalog;
    }

    /** The body of the loop over the catalog. */
    method UpdateAssembly(info: AssemblyInfo)
      modifies this
      ensures entries == Updated(platform, disallowBindingRedirects, old(entries), info)
    {
      hide Matching, NotMatching, Candidates, Missing, EffectiveRedirectVersion, Redirects, Normalised,
        SelectCandidate;
      var matching := Matching(platform, entries, info);
      var existingRedirects := Redirects(matching);
      var effective := EffectiveRedirectVersion(platform, existingRedirects);
      var candidates := CollectCandidates(info, matching, effective);
      if disallowBindingRedirects {
        EnsureCandidateCodeBases(info, matching, candidates);
        return;
      }
      if |existingRedirects| > 1 && effective.None? {
        EnsureCandidateCodeBases(info, matching, candidates);
        return;
      }
      ghost var choice := Choice(platform, info, matching);
      var selected := SelectCandidate(candidates);
      Selectable(info, matching);
      RewriteDependentAssembly(info, selected.value);
    }

    lemma Selectable(info: AssemblyInfo, matching: seq<Entry>)
      ensures SelectCandidate(Candidates(platform, info, matching)) == Some(Choice(platform, info, matching))
    {
      var candidates := Candidates(platform, info, matching);
      assert candidates[0] == ProfilerCandidate(info);
      SelectedIsHighest(candidates, ProfilerCandidate(info));
    }

    method CollectCandidates(info: AssemblyInfo, matching: seq<Entry>, effective: Option<Version>)
      returns (candidates: seq<Candidate>)
      requires effective == EffectiveRedirectVersion(platform, Redirects(matching))
      ensures candidates == Candidates(platform, info, matching)
    {
      hide CodeBases, Redirects, EffectiveRedirectVersion;
      candidates := [ProfilerCandidate(info)];
      var codeBases := CodeBases(matching);
      for i := 0 to |codeBases|
        invariant candidates + CodeBaseCandidates(platform, codeBases[i..])
               == [ProfilerCandidate(info)] + CodeBaseCandidates(platform, codeBases)
      {
        assert codeBases[i..][0] == codeBases[i] && codeBases[i..][1..] == codeBases[i + 1..];
        var candidate := CodeBaseCandidate(platform, codeBases[i]);
        if candidate.Some? {
          candidates := candidates + [candidate.value];
        }
      }
      assert candidates == [ProfilerCandidate(info)] + CodeBaseCandidates(platform, codeBases);
      var probing := platform.probe(info);
      candidates := candidates + Optional(probing) + RedirectCandidates(effective);
    }

    /** Removes every matching entry and appends the normalised one. */
    method RewriteDependentAssembly(info: AssemblyInfo, selected: Candidate)
      modifies this
      ensures entries == NotMatching(platform, old(entries), info) + [Normalised(platform, info, selected)]
    {
      hide Matches, Normalised, NotMatching;
      var i: nat := 0;
      ghost var start := entries;
      while i < |entries|
        invariant i <= |entries|
        invariant entries[..i] + NotMatching(platform, entries[i..], info) == NotMatching(platform, start, info)
        decreases |entries| - i
      {
        NextEntry(entries, i, info);
        if Matches(platform, entries[i], info) {
          entries := entries[..i] + entries[i + 1..];
        } else {
          i := i + 1;
        }
      }
      NothingLeft(entries, info);
      entries := entries + [Normalised(platform, info, selected)];
    }

    lemma NextEntry(entries: seq<Entry>, i: nat, info: AssemblyInfo)
      requires i < |entries|
      ensures Matches(platform, entries[i], info) ==>
                var rest := entries[..i] + entries[i + 1..];
                rest[..i] + NotMatching(platform, rest[i..], info) ==
                  entries[..i] + NotMatching(platform, entries[i..], info)
      ensures !Matches(platform, entries[i], info) ==>
                entries[..i + 1] + NotMatching(platform, entries[i + 1..], info)
                == entries[..i] + NotMatching(platform, entries[i..], info)
    {
      hide Matches;
      var rest := entries[..i] + entries[i + 1..];
      assert entries[i..][0] == entries[i] && entries[i..][1..] == entries[i + 1..];
      if Matches(platform, entries[i], info) {
        assert rest[..i] == entries[..i] && rest[i..] == entries[i + 1..];
      } else {
        assert entries[..i + 1] == entries[..i] + [entries[i]];
      }
    }

    lemma NothingLeft(entries: seq<Entry>, info: AssemblyInfo)
      ensures entries[..|entries|] + NotMatching(platform, entries[|entries|..], info) == entries
    {
    }

    lemma NextHint(existing: set<string>, candidates: seq<Candidate>, i: nat, added: seq<Child>)
      requires i < |candidates|
      ensures added + Missing(platform, existing, candidates[i..])
           == if platform.HasCodeBase(candidates[i]) && platform.fold(platform.show(candidates[i].version)) !in existing
              then (added + [CodeBaseOf(platform, candidates[i])])
                   + Missing(platform, existing + {platform.fold(platform.show(candidates[i].version))},
                     candidates[i + 1..])
              else added + Missing(platform, existing, candidates[i + 1..])
    {
      assert candidates[i..][0] == candidates[i] && candidates[i..][1..] == candidates[i + 1..];
    }

    lemma NoMoreCandidates(existing: set<string>, candidates: seq<Candidate>, added: seq<Child>)
      ensures added + Missing(platform, existing, candidates[|candidates|..]) == added
    {
    }

    /** Adds the missing codeBase hints to the first matching entry, or to a new one. */
    method EnsureCandidateCodeBases(info: AssemblyInfo, matching: seq<Entry>, candidates: seq<Candidate>)
      requires matching == Matching(platform, entries, info)
      requires candidates == Candidates(platform, info, matching)
      modifies this
      ensures entries == Ensured(platform, old(entries), info)
    {
      hide Matches, Candidates, ExistingVersions, CodeBases, Missing, Extended, ExtendFirst, Matching;
      var first: nat := 0;
      while first < |entries| && !Matches(platform, entries[first], info)
        invariant first <= |entries|
        invariant forall k :: 0 <= k < first ==> !Matches(platform, entries[k], info)
      {
        first := first + 1;
      }
      ghost var start := entries;
      ghost var hints := Hints(platform, info, matching);
      FirstMatch(start, info, first, hints);
      if first == |entries| {
        entries := entries + [DependentAssembly([Created(info)])];
      }
      ghost var extended := entries;
      var existing := ExistingVersions(platform, CodeBases(matching));
      ghost var added: seq<Child> := [];
      assert candidates[0..] == candidates;
      ExtendNot(extended[first]);
      for i := 0 to |candidates|
        invariant |entries| == |extended| && entries == extended[first := Extended(extended[first], added)]
        invariant added + Missing(platform, existing, candidates[i..]) == hints
      {
        NextHint(existing, candidates, i, added);
        var candidate := candidates[i];
        var versionText := platform.fold(platform.show(candidate.version));
        if platform.HasCodeBase(candidate) && versionText !in existing {
          var hint := CodeBaseOf(platform, candidate);
          ExtendTwice(extended[first], added, hint);
          entries := entries[first := DependentAssembly(entries[first].children + [hint])];
          existing := existing + {versionText};
          added := added + [hint];
        }
      }
      NoMoreCandidates(existing, candidates, added);
      CreatedExtended(info, hints);
    }

    lemma ExtendNot(e: Entry)
      requires e.DependentAssembly?
      ensures Extended(e, []) == e
    {
      assert e.children + [] == e.children;
    }

    lemma CreatedExtended(info: AssemblyInfo, hints: seq<Child>)
      ensures Extended(DependentAssembly([Created(info)]), hints) == DependentAssembly([Created(info)] + hints)
    {
    }

    lemma ExtendTwice(e: Entry, hints: seq<Child>, hint: Child)
      requires e.DependentAssembly?
      ensures Extended(e, hints).DependentAssembly?
      ensures DependentAssembly(Extended(e, hints).children + [hint]) == Extended(e, hints + [hint])
    {
      assert e.children + hints + [hint] == e.children + (hints + [hint]);
    }

    /** Where the first matching entry is, and what extending it gives. */
    lemma FirstMatch(start: seq<Entry>, info: AssemblyInfo, first: nat, hints: seq<Child>)
      requires first <= |start| && forall k :: 0 <= k < first ==> !Matches(platform, start[k], info)
      requires first < |start| ==> Matches(platform, start[first], info)
      ensures Matching(platform, start, info) == [] <==> first == |start|
      ensures first < |start| ==>
                start[first].DependentAssembly?
                && ExtendFirst(platform, start, info, hints) == start[first := Extended(start[first], hints)]
      decreases |start|
    {
      if start != [] && first > 0 {
        FirstMatch(start[1..], info, first - 1, hints);
      }
    }
  }
}
