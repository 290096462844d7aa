/**
 * Redirection of assembly references while modules load. The table of redirections is kept across loads:
 * a redirection follows a higher reference as long as it has not been used, and stays put from then on.
 */
module AssemblyRedirects {
  import opened Bytes

  type ushort = x: int | 0 <= x < 0x1_0000

  datatype Version = Version(major: ushort, minor: ushort, build: ushort, revision: ushort)

  datatype Redirection = Redirection(version: Version, count: nat)

  function CompareToAssemblyVersion(redirect: Version, assembly: Version): int {
    if redirect.major != assembly.major then (if redirect.major > assembly.major then 1 else -1)
    else if redirect.minor != assembly.minor then (if redirect.minor > assembly.minor then 1 else -1)
    else if redirect.build != assembly.build then (if redirect.build > assembly.build then 1 else -1)
    else if redirect.revision != assembly.revision then (if redirect.revision > assembly.revision then 1 else -1)
    else 0
  }

  /** A version as a number of four digits to the base 2^16. */
  function Rank(v: Version): nat {
    ((v.major * 0x1_0000 + v.minor) * 0x1_0000 + v.build) * 0x1_0000 + v.revision
  }

  /** The comparison is the order of the ranks, hence total. */
  lemma ComparisonIsByRank(a: Version, b: Version)
    ensures CompareToAssemblyVersion(a, b) == if Rank(a) > Rank(b) then 1 else if Rank(a) < Rank(b) then -1 else 0
    ensures Rank(a) == Rank(b) <==> a == b
  {
  }

  /** A reference of a loading module: what the metadata says of it, and whether it can be rewritten. */
  datatype AssemblyRef = Unreadable | AssemblyRef(name: string, version: Version, writable: bool)

  /** What happened to a redirection. */
  datatype Event =
    | Rewritten(name: string, from: Version, to: Version)
    | Retargeted(name: string, from: Version, to: Version)

  type Table = map<string, Redirection>

  datatype State = State(redirects: Table, log: seq<Event>)

  // ---------------------------------------------------------------- one reference

  function Used(r: Redirection): Redirection {
    r.(count := Wrap32(r.count + 1))
  }

  /** What one reference does to the table, and to the record of what was done. */
  function Redirect(s: State, assemblyRef: AssemblyRef): State {
    if assemblyRef.Unreadable? || assemblyRef.name == "" || assemblyRef.name !in s.redirects then s
    else
      var name, version := assemblyRef.name, assemblyRef.version;
      var r := s.redirects[name];
      if Rank(r.version) > Rank(version) then
        (if assemblyRef.writable
         then State(s.redirects[name := Used(r)], s.log + [Rewritten(name, version, r.version)])
         else s)
      else if Rank(r.version) < Rank(version) && r.count == 0 then
        State(s.redirects[name := Used(r.(version := version))], s.log + [Retargeted(name, r.version, version)])
      else s
  }

  function RedirectAll(s: State, refs: seq<AssemblyRef>): State
    decreases |refs|
  {
    if refs == [] then s else Redirect(RedirectAll(s, refs[..|refs| - 1]), refs[|refs| - 1])
  }

  // ---------------------------------------------------------------- the record of a run

  function Uses(log: seq<Event>, name: string): (n: nat)
    ensures n <= |log|
  {
    if log == [] then 0 else Uses(log[..|log| - 1], name) + if log[|log| - 1].name == name then 1 else 0
  }

  function Target(initial: Table, log: seq<Event>, name: string): Version
    requires name in initial
  {
    if log == [] then initial[name].version
    else
      var last := log[|log| - 1];
      if last.Retargeted? && last.name == name then last.to else Target(initial, log[..|log| - 1], name)
  }

  /** One entry after the record before it: upward, and retargeting only at a count of zero. */
  ghost predicate Follows(initial: Table, before: seq<Event>, e: Event) {
    && e.name in initial
    && Rank(e.from) < Rank(e.to)
    && (e.Rewritten? ==> e.to == Target(initial, before, e.name))
    && (e.Retargeted? ==> e.from == Target(initial, before, e.name) && Wrap32(Uses(before, e.name)) == 0)
  }

  ghost predicate Recorded(initial: Table, log: seq<Event>) {
    log == [] || (Recorded(initial, log[..|log| - 1]) && Follows(initial, log[..|log| - 1], log[|log| - 1]))
  }

  /** The table is what the record makes of the initial one, with unused redirections. */
  ghost predicate Consistent(initial: Table, s: State) {
    && (forall name :: name in initial ==> initial[name].count == 0)
    && s.redirects.Keys == initial.Keys
    && Recorded(initial, s.log)
    && forall name :: name in initial ==>
         s.redirects[name] == Redirection(Target(initial, s.log, name), Wrap32(Uses(s.log, name)))
  }

  lemma AppendEvent(initial: Table, log: seq<Event>, e: Event, name: string)
    requires name in initial
    ensures Uses(log + [e], name) == Uses(log, name) + if e.name == name then 1 else 0
    ensures Target(initial, log + [e], name) ==
      if e.Retargeted? && e.name == name then e.to else Target(initial, log, name)
  {
    assert (log + [e])[..|log|] == log;
  }

  lemma AppendRecorded(initial: Table, log: seq<Event>, e: Event)
    requires Recorded(initial, log) && Follows(initial, log, e)
    ensures Recorded(initial, log + [e])
  {
    assert (log + [e])[..|log|] == log;
  }

  lemma WrapStep(n: nat)
    ensures Wrap32(Wrap32(n) + 1) == Wrap32(n + 1)
  {
  }

  lemma {:induction false} RedirectIsConsistent(initial: Table, s: State, assemblyRef: AssemblyRef)
    requires Consistent(initial, s)
    ensures Consistent(initial, Redirect(s, assemblyRef))
  {
    hide Rank, Uses, Target, Recorded, Wrap32;
    var s' := Redirect(s, assemblyRef);
    if s' != s {
      var name := assemblyRef.name;
      var e := s'.log[|s.log|];
      AppendRecorded(initial, s.log, e);
      WrapStep(Uses(s.log, name));
      forall n | n in initial
        ensures s'.redirects[n] == Redirection(Target(initial, s'.log, n), Wrap32(Uses(s'.log, n)))
      {
        AppendEvent(initial, s.log, e, n);
      }
    }
  }

  lemma {:induction false} RunIsConsistent(initial: Table, s: State, refs: seq<AssemblyRef>)
    requires Consistent(initial, s)
    ensures Consistent(initial, RedirectAll(s, refs))
    decreases |refs|
  {
    hide Consistent, Redirect;
    if refs != [] {
      RunIsConsistent(initial, s, refs[..|refs| - 1]);
      RedirectIsConsistent(initial, RedirectAll(s, refs[..|refs| - 1]), refs[|refs| - 1]);
    }
  }

  // ---------------------------------------------------------------- what the record of a run shows

  /** Every reference rewritten for a name carries the target the name ends with. */
  ghost predicate Final(initial: Table, log: seq<Event>, name: string)
    requires name in initial
  {
    forall i :: 0 <= i < |log| && log[i].Rewritten? && log[i].name == name ==> log[i].to == Target(initial, log, name)
  }

  /** The target has changed at most once, upward, and before anything else was done with it. */
  ghost predicate MovedOnce(initial: Table, log: seq<Event>, name: string)
    requires name in initial
  {
    && (forall i :: 0 <= i < |log| && log[i].Retargeted? && log[i].name == name ==>
          Uses(log[..i], name) == 0 && log[i].from == initial[name].version && Rank(log[i].from) < Rank(log[i].to))
    && Rank(initial[name].version) <= Rank(Target(initial, log, name))
  }

  /** As long as the use count has not wrapped around, targets move at most once and rewriting is final. */
  lemma {:induction false} TargetsAreStable(initial: Table, log: seq<Event>, name: string)
    requires Recorded(initial, log) && name in initial && Uses(log, name) <= TWO_TO_THE_32
    ensures Final(initial, log, name) && MovedOnce(initial, log, name)
    ensures Uses(log, name) == 0 ==> Target(initial, log, name) == initial[name].version
    decreases |log|
  {
    hide Rank, Final, MovedOnce, Target;
    if log == [] {
      NothingMoved(initial, name);
    } else {
      var before, e := log[..|log| - 1], log[|log| - 1];
      assert log == before + [e];
      TargetsAreStable(initial, before, name);
      AppendEvent(initial, before, e, name);
      StableAfter(initial, before, e, name);
    }
  }

  lemma NothingMoved(initial: Table, name: string)
    requires name in initial
    ensures Final(initial, [], name) && MovedOnce(initial, [], name)
    ensures Target(initial, [], name) == initial[name].version
  {
  }

  lemma {:induction false} NoneBefore(log: seq<Event>, name: string)
    requires Uses(log, name) == 0
    ensures forall i :: 0 <= i < |log| ==> log[i].name != name
    decreases |log|
  {
    if log != [] {
      NoneBefore(log[..|log| - 1], name);
    }
  }

  ghost predicate Stable(initial: Table, log: seq<Event>, name: string)
    requires name in initial
  {
    Final(initial, log, name) && MovedOnce(initial, log, name)
  }

  /** The reference is higher than the target of a name that has been used, and its count reads zero. */
  predicate Unsettles(s: State, assemblyRef: AssemblyRef, name: string) {
    && assemblyRef.AssemblyRef? && assemblyRef.name == name && name != "" && name in s.redirects
    && Rank(s.redirects[name].version) < Rank(assemblyRef.version)
    && s.redirects[name].count == 0 && Uses(s.log, name) > 0
  }

  /** A count reads zero after a use only when it has wrapped around. */
  lemma UnsettledByWrapOnly(initial: Table, s: State, assemblyRef: AssemblyRef, name: string)
    requires Consistent(initial, s) && Unsettles(s, assemblyRef, name)
    ensures Uses(s.log, name) % TWO_TO_THE_32 == 0 && Uses(s.log, name) >= TWO_TO_THE_32
  {
    hide Rank, Uses, Target, Recorded;
  }

  /** An entry made in between is there for good, with what was there before it. */
  lemma EntryStays(log: seq<Event>, e: Event, i: nat)
    requires i < |log|
    ensures (log + [e])[i] == log[i] && (log + [e])[..i] == log[..i]
  {
  }

  /** An entry that moves a used target unsettles it for ever. */
  lemma OnceMovedAgain(initial: Table, log: seq<Event>, e: Event, name: string)
    requires name in initial && Recorded(initial, log) && Follows(initial, log, e)
    ensures !MovedOnce(initial, log, name) ==> !MovedOnce(initial, log + [e], name)
    ensures e.Retargeted? && e.name == name && Uses(log, name) > 0 ==> !MovedOnce(initial, log + [e], name)
  {
    hide Rank, Uses, Target, Follows;
    var longer := log + [e];
    assert longer[|log|] == e && longer[..|log|] == log;
    if !MovedOnce(initial, log, name) {
      TargetsOnlyRise(initial, log, name);
      var i :| 0 <= i < |log| && log[i].Retargeted? && log[i].name == name &&
        !(Uses(log[..i], name) == 0 && log[i].from == initial[name].version && Rank(log[i].from) < Rank(log[i].to));
      EntryStays(log, e, i);
    }
  }

  lemma {:induction false} TargetsOnlyRise(initial: Table, log: seq<Event>, name: string)
    requires name in initial && Recorded(initial, log)
    ensures Rank(initial[name].version) <= Rank(Target(initial, log, name))
    decreases |log|
  {
    hide Rank, Uses;
    if log != [] {
      TargetsOnlyRise(initial, log[..|log| - 1], name);
    }
  }

  /** One reference keeps a name stable exactly when it does not unsettle it, and cannot make it stable again. */
  lemma RedirectStaysStable(initial: Table, s: State, assemblyRef: AssemblyRef, name: string)
    requires Consistent(initial, s) && name in initial
    requires Uses(s.log, name) == 0 ==> Target(initial, s.log, name) == initial[name].version
    ensures var s' := Redirect(s, assemblyRef);
            && (Stable(initial, s'.log, name) <==> Stable(initial, s.log, name) && !Unsettles(s, assemblyRef, name))
            && (Uses(s'.log, name) == 0 ==> Target(initial, s'.log, name) == initial[name].version)
  {
    hide Rank, Uses, Target, Recorded, Final, MovedOnce, Wrap32;
    var s' := Redirect(s, assemblyRef);
    if s' != s {
      var e := s'.log[|s.log|];
      assert s'.log == s.log + [e];
      assert Follows(initial, s.log, e);
      AppendEvent(initial, s.log, e, name);
      if !MovedOnce(initial, s.log, name) || Unsettles(s, assemblyRef, name) {
        OnceMovedAgain(initial, s.log, e, name);
      } else {
        StableAfter(initial, s.log, e, name);
      }
    }
  }

  /** A target that is moved only before its first use stays or becomes as final as it was. */
  lemma StableAfter(initial: Table, before: seq<Event>, e: Event, name: string)
    requires name in initial && Follows(initial, before, e) && MovedOnce(initial, before, name)
    requires Uses(before, name) == 0 ==> Target(initial, before, name) == initial[name].version
    requires e.Retargeted? && e.name == name ==> Uses(before, name) == 0
    ensures Stable(initial, before + [e], name) <==> Stable(initial, before, name)
  {
    hide Rank, Uses, Target;
    var log := before + [e];
    AppendEvent(initial, before, e, name);
    assert forall i :: 0 <= i < |before| ==> before[i] == log[i] && before[..i] == log[..i];
    assert log[..|before|] == before;
    if e.name == name && e.Retargeted? {
      NoneBefore(before, name);
    }
  }

  ghost predicate NeverUnsettled(s: State, refs: seq<AssemblyRef>, name: string) {
    forall i :: 0 <= i < |refs| ==> !Unsettles(RedirectAll(s, refs[..i]), refs[i], name)
  }

  lemma UnsettledSoFar(s: State, refs: seq<AssemblyRef>, n: nat, name: string)
    requires n < |refs|
    ensures NeverUnsettled(s, refs[..n + 1], name) <==>
      NeverUnsettled(s, refs[..n], name) && !Unsettles(RedirectAll(s, refs[..n]), refs[n], name)
  {
    hide Unsettles, RedirectAll;
    var longer := refs[..n + 1];
    assert forall i :: 0 <= i <= n ==> longer[i] == refs[i] && longer[..i] == refs[..i];
    assert forall i :: 0 <= i < n ==> refs[..n][i] == refs[i] && refs[..n][..i] == refs[..i];
  }

  /**
   * Over any run of references from a fresh table, targets move at most once, upward and before their first
   * use, and rewriting is final, if and only if no higher reference meets a used name whose count reads zero.
   */
  lemma {:induction false} RunIsStableExactly(initial: Table, refs: seq<AssemblyRef>, name: string)
    requires (forall n :: n in initial ==> initial[n].count == 0) && name in initial
    ensures var s, end := State(initial, []), RedirectAll(State(initial, []), refs);
            && Consistent(initial, end)
            && (Stable(initial, end.log, name) <==> NeverUnsettled(s, refs, name))
            && (Uses(end.log, name) == 0 ==> Target(initial, end.log, name) == initial[name].version)
    decreases |refs|
  {
    hide Consistent, Stable, Unsettles, NeverUnsettled, Redirect, Uses, Target;
    var s := State(initial, []);
    if refs == [] {
      FreshIsStable(initial, name);
    } else {
      var n := |refs| - 1;
      RunIsStableExactly(initial, refs[..n], name);
      RedirectIsConsistent(initial, RedirectAll(s, refs[..n]), refs[n]);
      RedirectStaysStable(initial, RedirectAll(s, refs[..n]), refs[n], name);
      UnsettledSoFar(s, refs, n, name);
      assert refs[..n + 1] == refs;
    }
  }

  lemma FreshIsStable(initial: Table, name: string)
    requires (forall n :: n in initial ==> initial[n].count == 0) && name in initial
    ensures Consistent(initial, State(initial, [])) && Stable(initial, [], name)
    ensures NeverUnsettled(State(initial, []), [], name)
    ensures Uses([], name) == 0 && Target(initial, [], name) == initial[name].version
  {
    hide Rank;
    NothingMoved(initial, name);
  }

  function Repeat<T>(x: T, n: nat): (s: seq<T>)
    ensures |s| == n
  {
    if n == 0 then [] else Repeat(x, n - 1) + [x]
  }

  /** The same lower reference n times: each one is rewritten, and the count is n modulo 2^32. */
  lemma {:induction false} LowerReferences(initial: Table, r: AssemblyRef, n: nat)
    requires r.AssemblyRef? && r.writable && r.name != "" && r.name in initial && initial[r.name].count == 0
    requires Rank(r.version) < Rank(initial[r.name].version)
    ensures var end := RedirectAll(State(initial, []), Repeat(r, n));
            && end.log == Repeat(Rewritten(r.name, r.version, initial[r.name].version), n)
            && end.redirects.Keys == initial.Keys
            && end.redirects[r.name] == Redirection(initial[r.name].version, Wrap32(n))
            && Uses(end.log, r.name) == n
    decreases n
  {
    hide Rank, Redirect;
    var refs := Repeat(r, n);
    if n > 0 {
      LowerReferences(initial, r, n - 1);
      assert refs[..n - 1] == Repeat(r, n - 1) && refs[n - 1] == r;
      LowerReference(RedirectAll(State(initial, []), Repeat(r, n - 1)), r, n - 1);
    }
  }

  lemma LowerReference(s: State, r: AssemblyRef, n: nat)
    requires r.AssemblyRef? && r.writable && r.name != "" && r.name in s.redirects
    requires Rank(r.version) < Rank(s.redirects[r.name].version) && s.redirects[r.name].count == Wrap32(n)
    ensures var s' := Redirect(s, r);
            && s'.log == s.log + [Rewritten(r.name, r.version, s.redirects[r.name].version)]
            && s'.redirects.Keys == s.redirects.Keys
            && s'.redirects[r.name] == Redirection(s.redirects[r.name].version, Wrap32(n + 1))
            && Uses(s'.log, r.name) == Uses(s.log, r.name) + 1
  {
    hide Rank, Wrap32;
    WrapStep(n);
    assert (s.log + [Rewritten(r.name, r.version, s.redirects[r.name].version)])[..|s.log|] == s.log;
  }

  /**
   * A run that does it: 2^32 references to a lower version, all of them rewritten, and then one to a higher
   * version than the target. From then on the references rewritten before carry a target that is not final.
   */
  lemma WrapUnsettlesTargets(name: string, lower: Version, target: Version, higher: Version)
    returns (refs: seq<AssemblyRef>)
    requires name != "" && Rank(lower) < Rank(target) < Rank(higher)
    ensures refs == Repeat(AssemblyRef(name, lower, true), TWO_TO_THE_32) + [AssemblyRef(name, higher, true)]
    ensures var initial := map[name := Redirection(target, 0)];
            var end := RedirectAll(State(initial, []), refs);
            !Stable(initial, end.log, name) && name in end.redirects && end.redirects[name].version == higher
  {
    hide Rank, Repeat, Uses, Target, Final, MovedOnce;
    var initial := map[name := Redirection(target, 0)];
    var r, last := AssemblyRef(name, lower, true), AssemblyRef(name, higher, true);
    var used := Repeat(r, TWO_TO_THE_32);
    refs := used + [last];
    LowerReferences(initial, r, TWO_TO_THE_32);
    RunIsStableExactly(initial, used, name);
    var s := RedirectAll(State(initial, []), used);
    assert refs[..|refs| - 1] == used && refs[|refs| - 1] == last;
    assert Unsettles(s, last, name);
    RedirectStaysStable(initial, s, last, name);
  }

  // ---------------------------------------------------------------- the code

  class AssemblyRedirector {
    var redirects: Table
    ghost var log: seq<Event>
    ghost const initial: Table

    ghost function Abstract(): State
      reads this
    {
      State(redirects, log)
    }

    ghost predicate Valid()
      reads this
    {
      Consistent(initial, Abstract())
    }

    constructor (table: map<string, Version>)
      ensures Valid() && log == [] && redirects.Keys == table.Keys
      ensures forall name :: name in table ==> redirects[name] == Redirection(table[name], 0)
    {
      redirects := map name | name in table :: Redirection(table[name], 0);
      initial := map name | name in table :: Redirection(table[name], 0);
      log := [];
    }

    /** The references of one loading module; the result gives their versions afterwards. */
    method RedirectAssemblyReferences(refs: seq<AssemblyRef>) returns (versions: seq<Option<Version>>)
      requires Valid()
      modifies this
      ensures Valid() && Abstract() == RedirectAll(old(Abstract()), refs)
      ensures |versions| == |refs|
      ensures forall i :: 0 <= i < |refs| ==>
        versions[i] == VersionAfter(RedirectAll(old(Abstract()), refs[..i]), refs[i])
    {
      hide Rank, Consistent;
      versions := [];
      for i := 0 to |refs|
        invariant Valid() && Abstract() == RedirectAll(old(Abstract()), refs[..i])
        invariant |versions| == i
        invariant forall j :: 0 <= j < i ==>
          versions[j] == VersionAfter(RedirectAll(old(Abstract()), refs[..j]), refs[j])
      {
        assert refs[..i + 1][..i] == refs[..i];
        var version := RedirectReference(refs[i]);
        versions := versions + [version];
      }
      assert refs[..|refs|] == refs;
    }

    method RedirectReference(assemblyRef: AssemblyRef) returns (version: Option<Version>)
      requires Valid()
      modifies this
      ensures Valid() && Abstract() == Redirect(old(Abstract()), assemblyRef)
      ensures version == VersionAfter(old(Abstract()), assemblyRef)
    {
      hide Rank, Consistent;
      RedirectIsConsistent(initial, Abstract(), assemblyRef);
      if assemblyRef.Unreadable? {
        return None;
      }
      var name := assemblyRef.name;
      version := Some(assemblyRef.version);
      if name == "" || name !in redirects {
        return;
      }
      var redirect := redirects[name];
      ComparisonIsByRank(redirect.version, assemblyRef.version);
      var comparison := CompareToAssemblyVersion(redirect.version, assemblyRef.version);
      if comparison > 0 {
        if assemblyRef.writable {
          redirects := redirects[name := redirect.(count := Wrap32(redirect.count + 1))];
          log := log + [Rewritten(name, assemblyRef.version, redirect.version)];
          version := Some(redirect.version);
        }
      } else if comparison < 0 && redirect.count == 0 {
        redirects := redirects[name := Redirection(assemblyRef.version, Wrap32(redirect.count + 1))];
        log := log + [Retargeted(name, redirect.version, assemblyRef.version)];
      }
    }
  }

  /** The version a reference has after it was looked at: raised to the target, or as it was. */
  function VersionAfter(s: State, assemblyRef: AssemblyRef): Option<Version> {
    if assemblyRef.Unreadable? then None
    else if assemblyRef.name != "" && assemblyRef.name in s.redirects && assemblyRef.writable
         && Rank(s.redirects[assemblyRef.name].version) > Rank(assemblyRef.version)
    then Some(s.redirects[assemblyRef.name].version)
    else Some(assemblyRef.version)
  }
}
