/**
 * Binding policy for the assemblies of a catalog: reading what the entries of an application's
 * configuration say about an assembly, choosing one candidate, and the entry that is to result.
 */
module BindingPolicy {
  import opened Bytes

  // ---------------------------------------------------------------- versions

  datatype RawVersion = RawVersion(major: nat, minor: nat, build: int, revision: int)

  /** Build and revision may be undefined, as -1; a revision needs a build. */
  type Version = v: RawVersion | v.build >= -1 && v.revision >= -1 && (v.build == -1 ==> v.revision == -1)
    witness RawVersion(0, 0, 0, 0)

  predicate Less(a: Version, b: Version) {
    a.major < b.major || (a.major == b.major &&
    (a.minor < b.minor || (a.minor == b.minor &&
    (a.build < b.build || (a.build == b.build && a.revision < b.revision)))))
  }

  predicate AtMost(a: Version, b: Version) {
    !Less(b, a)
  }

  // ---------------------------------------------------------------- the configuration

  /** The children of a dependentAssembly element that matter, and any others. */
  datatype Child =
    | Identity(name: Option<string>, token: Option<string>, culture: Option<string>)
    | Redirect(oldVersion: Option<string>, newVersion: Option<string>)
    | CodeBase(version: Option<string>, href: Option<string>)
    | OtherChild(content: string)

  /** The children of the assemblyBinding element. */
  datatype Entry = DependentAssembly(children: seq<Child>) | OtherEntry(content: string)

  datatype AssemblyInfo =
    AssemblyInfo(name: string, token: string, version: Version, fileVersion: Option<Version>, uri: string)

  datatype Source = Profiler | CodeBaseEntry | Probe | ExistingRedirect

  datatype Candidate = Candidate(source: Source, version: Version, fileVersion: Option<Version>, uri: Option<string>)

  /**
   * The platform: case folding, blank strings, version texts, and what probing finds for an assembly.
   */
  datatype Platform = Platform(fold: string -> string, blank: string -> bool,
                               parse: string -> Option<Version>, show: Version -> string,
                               probe: AssemblyInfo -> Option<Candidate>)
  {
    ghost predicate Sound() {
      && (forall v: Version :: parse(show(v)) == Some(v) && !blank(show(v)))
      && (forall info :: probe(info).Some? ==> probe(info).value.source == Probe)
    }

    predicate SameText(text: Option<string>, other: string) {
      text.Some? && fold(text.value) == fold(other)
    }

    function ParseAttribute(text: Option<string>): Option<Version> {
      if text.None? then None else parse(text.value)
    }

    predicate HasCodeBase(c: Candidate) {
      c.uri.Some? && !blank(c.uri.value)
    }
  }

  function FirstIdentity(children: seq<Child>): Option<Child> {
    if children == [] then None
    else if children[0].Identity? then Some(children[0])
    else FirstIdentity(children[1..])
  }

  predicate Matches(p: Platform, e: Entry, info: AssemblyInfo) {
    e.DependentAssembly? &&
    match FirstIdentity(e.children)
    case None => false
    case Some(identity) =>
      identity.Identity? && p.SameText(identity.name, info.name) && p.SameText(identity.token, info.token)
  }

  function Matching(p: Platform, entries: seq<Entry>, info: AssemblyInfo): (r: seq<Entry>)
    ensures forall i :: 0 <= i < |r| ==> r[i].DependentAssembly? && Matches(p, r[i], info)
  {
    if entries == [] then []
    else (if Matches(p, entries[0], info) then [entries[0]] else []) + Matching(p, entries[1..], info)
  }

  function NotMatching(p: Platform, entries: seq<Entry>, info: AssemblyInfo): seq<Entry> {
    if entries == [] then []
    else (if Matches(p, entries[0], info) then [] else [entries[0]]) + NotMatching(p, entries[1..], info)
  }

  function ChildRedirects(children: seq<Child>): (r: seq<Child>)
    ensures forall i :: 0 <= i < |r| ==> r[i].Redirect?
  {
    if children == [] then []
    else (if children[0].Redirect? then [children[0]] else []) + ChildRedirects(children[1..])
  }

  function ChildCodeBases(children: seq<Child>): (r: seq<Child>)
    ensures forall i :: 0 <= i < |r| ==> r[i].CodeBase?
  {
    if children == [] then []
    else (if children[0].CodeBase? then [children[0]] else []) + ChildCodeBases(children[1..])
  }

  function Redirects(entries: seq<Entry>): (r: seq<Child>)
    ensures forall i :: 0 <= i < |r| ==> r[i].Redirect?
  {
    if entries == [] then []
    else (if entries[0].DependentAssembly? then ChildRedirects(entries[0].children) else []) + Redirects(entries[1..])
  }

  function CodeBases(entries: seq<Entry>): (r: seq<Child>)
    ensures forall i :: 0 <= i < |r| ==> r[i].CodeBase?
  {
    if entries == [] then []
    else (if entries[0].DependentAssembly? then ChildCodeBases(entries[0].children) else []) + CodeBases(entries[1..])
  }

  // ---------------------------------------------------------------- candidates

  /** The one version that several redirects agree on, when all of them can be read. */
  function CommonVersion(p: Platform, redirects: seq<Child>): Option<Version>
    requires redirects != [] && forall i :: 0 <= i < |redirects| ==> redirects[i].Redirect?
  {
    var first := p.ParseAttribute(redirects[0].newVersion);
    if forall i :: 0 <= i < |redirects| ==> p.ParseAttribute(redirects[i].newVersion) == first then first else None
  }

  function EffectiveRedirectVersion(p: Platform, redirects: seq<Child>): Option<Version>
    requires forall i :: 0 <= i < |redirects| ==> redirects[i].Redirect?
  {
    if |redirects| == 0 then None else CommonVersion(p, redirects)
  }

  function CodeBaseCandidate(p: Platform, c: Child): Option<Candidate>
    requires c.CodeBase?
  {
    var version := p.ParseAttribute(c.version);
    if version.None? || c.href.None? || p.blank(c.href.value) then None
    else Some(Candidate(CodeBaseEntry, version.value, None, c.href))
  }

  function CodeBaseCandidates(p: Platform, codeBases: seq<Child>): seq<Candidate>
    requires forall i :: 0 <= i < |codeBases| ==> codeBases[i].CodeBase?
  {
    if codeBases == [] then []
    else
      var c := CodeBaseCandidate(p, codeBases[0]);
      (if c.Some? then [c.value] else []) + CodeBaseCandidates(p, codeBases[1..])
  }

  function ProfilerCandidate(info: AssemblyInfo): Candidate {
    Candidate(Profiler, info.version, info.fileVersion, Some(info.uri))
  }

  function Optional<T>(o: Option<T>): seq<T> {
    if o.Some? then [o.value] else []
  }

  function RedirectCandidates(effective: Option<Version>): seq<Candidate> {
    if effective.Some? then [Candidate(ExistingRedirect, effective.value, None, None)] else []
  }

  function Candidates(p: Platform, info: AssemblyInfo, matching: seq<Entry>): seq<Candidate> {
    [ProfilerCandidate(info)] + CodeBaseCandidates(p, CodeBases(matching)) + Optional(p.probe(info))
    + RedirectCandidates(EffectiveRedirectVersion(p, Redirects(matching)))
  }

  // ---------------------------------------------------------------- choosing

  /** The first of the candidates with the highest existing redirect. */
  function HighestRedirect(candidates: seq<Candidate>): Option<Candidate> {
    if candidates == [] then None
    else
      var rest := HighestRedirect(candidates[1..]);
      if candidates[0].source == ExistingRedirect && (rest.None? || AtMost(rest.value.version, candidates[0].version))
      then Some(candidates[0]) else rest
  }

  /** The highest version of the others; 0.0.0.0 if there are none. */
  function HighestOther(candidates: seq<Candidate>): Option<Version> {
    if candidates == [] then None
    else
      var rest := HighestOther(candidates[1..]);
      if candidates[0].source != ExistingRedirect && (rest.None? || Less(rest.value, candidates[0].version))
      then Some(candidates[0].version) else rest
  }

  function FirstOf(candidates: seq<Candidate>, source: Source, version: Version): Option<Candidate> {
    if candidates == [] then None
    else if candidates[0].source == source && candidates[0].version == version then Some(candidates[0])
    else FirstOf(candidates[1..], source, version)
  }

  /** None stands for the exception thrown when nothing can be selected. */
  function SelectCandidate(candidates: seq<Candidate>): Option<Candidate> {
    var redirect := HighestRedirect(candidates);
    var other := HighestOther(candidates);
    var highest: Version := if other.Some? then other.value else RawVersion(0, 0, 0, 0);
    if redirect.Some? && Less(highest, redirect.value.version) then redirect
    else
      var codeBase := FirstOf(candidates, CodeBaseEntry, highest);
      if codeBase.Some? then codeBase
      else
        var profiler, probe := FirstOf(candidates, Profiler, highest), FirstOf(candidates, Probe, highest);
        if profiler.Some? then
          (if probe.Some? && profiler.value.fileVersion.Some? && probe.value.fileVersion.Some?
              && profiler.value.fileVersion != probe.value.fileVersion
              && !Less(probe.value.fileVersion.value, profiler.value.fileVersion.value)
           then probe else profiler)
        else probe
  }

  lemma {:induction false} HighestOtherIsHighest(candidates: seq<Candidate>)
    ensures forall c :: c in candidates && c.source != ExistingRedirect ==>
              HighestOther(candidates).Some? && AtMost(c.version, HighestOther(candidates).value)
    ensures HighestOther(candidates).Some? ==>
              exists c :: c in candidates && c.source != ExistingRedirect && c.version == HighestOther(candidates).value
    decreases |candidates|
  {
    if candidates != [] {
      HighestOtherIsHighest(candidates[1..]);
      assert candidates == [candidates[0]] + candidates[1..];
    }
  }

  lemma {:induction false} HighestRedirectIsHighest(candidates: seq<Candidate>)
    ensures forall c :: c in candidates && c.source == ExistingRedirect ==>
              HighestRedirect(candidates).Some? && AtMost(c.version, HighestRedirect(candidates).value.version)
    ensures HighestRedirect(candidates).Some? ==>
              HighestRedirect(candidates).value in candidates &&
                HighestRedirect(candidates).value.source == ExistingRedirect
    decreases |candidates|
  {
    if candidates != [] {
      HighestRedirectIsHighest(candidates[1..]);
      assert candidates == [candidates[0]] + candidates[1..];
    }
  }

  lemma {:induction false} FirstOfFinds(candidates: seq<Candidate>, source: Source, version: Version)
    ensures var r := FirstOf(candidates, source, version);
            && (r.Some? <==> exists c :: c in candidates && c.source == source && c.version == version)
            && (r.Some? ==> r.value in candidates && r.value.source == source && r.value.version == version)
    decreases |candidates|
  {
    if candidates != [] {
      FirstOfFinds(candidates[1..], source, version);
      assert candidates == [candidates[0]] + candidates[1..];
    }
  }

  /** Something can always be selected, and it is a candidate of the highest version of all. */
  lemma SelectedIsHighest(candidates: seq<Candidate>, profiler: Candidate)
    requires profiler in candidates && profiler.source == Profiler
    ensures SelectCandidate(candidates).Some?
    ensures var s := SelectCandidate(candidates).value;
            s in candidates && forall c :: c in candidates ==> AtMost(c.version, s.version)
  {
    hide HighestOther, HighestRedirect, FirstOf;
    HighestOtherIsHighest(candidates);
    HighestRedirectIsHighest(candidates);
    var highest := HighestOther(candidates).value;
    FirstOfFinds(candidates, CodeBaseEntry, highest);
    FirstOfFinds(candidates, Profiler, highest);
    FirstOfFinds(candidates, Probe, highest);
  }
}
