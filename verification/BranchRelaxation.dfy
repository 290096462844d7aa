/**
 * Widening of short branches: each pass of Export lays the whole list out, then widens every short
 * branch whose distance does not fit in an INT8, and starts again if it widened any.
 */
module BranchRelaxation {
  import opened Opcodes
  import opened InstructionList

  predicate FitsInt8(d: int) {
    -128 <= d <= 127
  }

  /** The branch at i is short and out of reach in the layout of c. */
  predicate MustWiden(c: Code, i: nat)
    requires i < |c| && Symbolic(c)
  {
    IsShortBranch(c[i].op) && !FitsInt8(Distance(c, i))
  }

  function Widened(x: Instr): (y: Instr)
    requires IsShortBranch(x.op)
  {
    Instr(Long(x.op), x.operand)
  }

  /** One pass over the list: all distances are measured in the layout the pass began with. */
  function Pass(c: Code): (d: Code)
    requires Symbolic(c)
    ensures |d| == |c|
  {
    seq(|c|, i requires 0 <= i < |c| => if MustWiden(c, i) then Widened(c[i]) else c[i])
  }

  /** Every remaining short branch reaches its target. */
  ghost predicate Settled(c: Code)
    requires Symbolic(c)
  {
    forall i :: 0 <= i < |c| ==> !MustWiden(c, i)
  }

  /** d is c with some of its short branches replaced by their long forms. */
  ghost predicate Widens(c: Code, d: Code) {
    && |c| == |d|
    && forall i :: 0 <= i < |c| ==> d[i] == c[i] || (IsShortBranch(c[i].op) && d[i] == Widened(c[i]))
  }

  function ShortBranches(c: Code): (n: nat) {
    if |c| == 0 then 0 else (if IsShortBranch(c[0].op) then 1 else 0) + ShortBranches(c[1..])
  }

  lemma PassWidens(c: Code)
    requires Symbolic(c)
    ensures Widens(c, Pass(c)) && Symbolic(Pass(c))
    ensures Settled(c) <==> Pass(c) == c
  {
    if !Settled(c) {
      var i :| 0 <= i < |c| && MustWiden(c, i);
      assert Pass(c)[i].op != c[i].op;
    }
  }

  lemma WideningKeepsSymbolic(c: Code, d: Code)
    requires Symbolic(c) && Widens(c, d)
    ensures Symbolic(d)
  {
  }

  lemma WidensTransitive(c: Code, d: Code, e: Code)
    requires Widens(c, d) && Widens(d, e)
    ensures Widens(c, e)
  {
  }

  lemma {:induction false} WideningLowersShortBranches(c: Code, d: Code)
    requires Widens(c, d)
    ensures ShortBranches(d) <= ShortBranches(c)
    ensures c != d ==> ShortBranches(d) < ShortBranches(c)
  {
    if |c| > 0 {
      WideningLowersShortBranches(c[1..], d[1..]);
      assert c == [c[0]] + c[1..] && d == [d[0]] + d[1..];
    }
  }

  /** The fixpoint of the retry loop. */
  function Relax(c: Code): (d: Code)
    requires Symbolic(c)
    ensures Symbolic(d) && |d| == |c|
    decreases ShortBranches(c)
  {
    PassWidens(c);
    var d := Pass(c);
    if d == c then c
    else
      WideningLowersShortBranches(c, d);
      Relax(d)
  }

  // ---- Widening only stretches distances ----

  lemma WidenedSize(x: Instr, y: Instr)
    requires y == x || (IsShortBranch(x.op) && y == Widened(x))
    ensures Size(x.op) <= Size(y.op)
  {
  }

  lemma {:induction false} WideningStretches(c: Code, d: Code, i: nat, j: nat)
    requires Widens(c, d) && i <= j <= |c|
    ensures 0 <= Offset(c, j) - Offset(c, i) <= Offset(d, j) - Offset(d, i)
    decreases j
  {
    hide Offset, Size;
    if i < j {
      LayoutStep(c, j - 1);
      LayoutStep(d, j - 1);
      WideningStretches(c, d, i, j - 1);
      WidenedSize(c[j - 1], d[j - 1]);
    }
  }

  /** A short branch out of reach stays out of reach however many other branches are widened. */
  lemma OutOfReachStaysOutOfReach(c: Code, d: Code, i: nat)
    requires Symbolic(c) && Symbolic(d) && Widens(c, d) && i < |c|
    requires MustWiden(c, i) && d[i] == c[i]
    ensures MustWiden(d, i)
  {
    var t := c[i].operand.target;
    if t <= i {
      WideningStretches(c, d, t, i + 1);
    } else {
      WideningStretches(c, d, i + 1, t);
    }
  }

  lemma PassStaysBelow(c: Code, d: Code)
    requires Symbolic(c) && Symbolic(d) && Widens(c, d) && Settled(d)
    ensures Widens(Pass(c), d)
  {
    var p := Pass(c);
    forall i | 0 <= i < |c|
      ensures d[i] == p[i] || (IsShortBranch(p[i].op) && d[i] == Widened(p[i]))
    {
      if MustWiden(c, i) && d[i] == c[i] {
        OutOfReachStaysOutOfReach(c, d, i);
      }
    }
  }

  /** The loop ends in a layout where every short branch fits, having widened short branches only. */
  lemma {:induction false} RelaxSettles(c: Code)
    requires Symbolic(c)
    ensures Widens(c, Relax(c)) && Settled(Relax(c))
    decreases ShortBranches(c)
  {
    PassWidens(c);
    if Pass(c) != c {
      WideningLowersShortBranches(c, Pass(c));
      RelaxSettles(Pass(c));
      WidensTransitive(c, Pass(c), Relax(c));
    }
  }

  /** Optimality: every widening of c in which the remaining short branches fit widens what Relax widens. */
  lemma {:induction false} RelaxIsLeast(c: Code, d: Code)
    requires Symbolic(c) && Symbolic(d) && Widens(c, d) && Settled(d)
    ensures Widens(Relax(c), d)
    ensures CodeSize(Relax(c)) <= CodeSize(d)
    decreases ShortBranches(c)
  {
    PassWidens(c);
    if Pass(c) == c {
      WideningStretches(c, d, 0, |c|);
    } else {
      WideningLowersShortBranches(c, Pass(c));
      PassStaysBelow(c, d);
      RelaxIsLeast(Pass(c), d);
    }
  }

  /** Relaxation widens nothing exactly when nothing needs widening. */
  lemma RelaxLeavesSettledCode(c: Code)
    requires Symbolic(c)
    ensures Relax(c) == c <==> Settled(c)
  {
    PassWidens(c);
    RelaxSettles(c);
  }

  /** The number of passes the retry loop makes. */
  function Passes(c: Code): (n: nat)
    requires Symbolic(c)
    decreases ShortBranches(c)
  {
    PassWidens(c);
    var d := Pass(c);
    if d == c then 1
    else
      WideningLowersShortBranches(c, d);
      1 + Passes(d)
  }

  /** Each retry uses up a short branch, so there are at most ShortBranches(c) retries. */
  lemma {:induction false} PassesBounded(c: Code)
    requires Symbolic(c)
    ensures Passes(c) <= 1 + ShortBranches(c)
    decreases ShortBranches(c)
  {
    PassWidens(c);
    if Pass(c) != c {
      WideningLowersShortBranches(c, Pass(c));
      PassesBounded(Pass(c));
    }
  }
}
