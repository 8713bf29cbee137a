/** The recursive solver of the modular program, working in place on three
    pegs and a shared step counter. */
module Solver {
  import opened Rings
  import opened Solution
  import opened Stacks

  /** Moves `maxDepth` rings (all of `source`'s when `None`) from `source`
      onto `target` via `helper`, counting every attempted move in the step
      counter (`step` on entry, `steps` on return), and stopping at the
      first refused move. It computes exactly `Solve`, so the lemmas about
      `Solve` (`SolveMovesTower`, `SolveReplaysTrace`, `SolveEveryMoveLegal`)
      describe it. */
  method MoveStack(source: Stack, target: Stack, helper: Stack, step: nat, maxDepth: Option<nat>)
    returns (steps: nat, r: Outcome)
    requires source != target && source != helper && target != helper
    requires Depth(|source.rings|, maxDepth) >= 1 || |source.rings| == 1
    modifies source`rings, target`rings, helper`rings
    ensures var s := Solve(Pegs(old(source.rings), old(target.rings), old(helper.rings)),
                           Depth(|old(source.rings)|, maxDepth));
      Pegs(source.rings, target.rings, helper.rings) == s.pegs
      && r == s.outcome && steps == step + |s.trace|
    decreases Depth(|source.rings|, maxDepth)
  {
    ghost var p := Pegs(source.rings, target.rings, helper.rings);
    var depth := if maxDepth.None? then |source.rings| else maxDepth.value;
    assert depth == Depth(|source.rings|, maxDepth);
    if |source.rings| == 1 || depth == 1 {
      SolveBase(p, depth);
      steps := step + 1;
      r := source.MoveRing(target);
      assert Pegs(source.rings, target.rings, helper.rings) == MoveOne(p).pegs && r == MoveOne(p).outcome;
      return;
    }
    var nextDepth := if maxDepth.None? then |source.rings| - 1 else maxDepth.value - 1;
    assert nextDepth == NextDepth(|source.rings|, maxDepth);
    ghost var s1 := Solve(SwapTargetHelper(p), depth - 1);
    var result;
    steps, result := MoveStack(source, helper, target, step, Some(nextDepth));
    assert Pegs(source.rings, helper.rings, target.rings) == s1.pegs;
    assert result == s1.outcome && steps == step + |s1.trace|;
    if result.Err? {
      SolveFirstFails(p, depth, s1);
      assert |Solve(p, depth).trace| == |s1.trace|;
      return steps, result;
    }
    ghost var u := MoveOne(SwapTargetHelper(s1.pegs));
    steps := steps + 1;
    r := source.MoveRing(target);
    assert Pegs(source.rings, target.rings, helper.rings) == u.pegs && r == u.outcome;
    if r.Err? {
      SolveUncoverFails(p, depth, s1);
      assert |Solve(p, depth).trace| == |s1.trace| + 1;
      return;
    }
    ghost var s2 := Solve(SwapSourceHelper(u.pegs), depth - 1);
    ghost var before := steps;
    steps, r := MoveStack(helper, target, source, steps, Some(nextDepth));
    assert Pegs(helper.rings, target.rings, source.rings) == s2.pegs;
    assert r == s2.outcome && steps == before + |s2.trace|;
    SolveUnfold(p, depth, s1, s2);
    assert |Solve(p, depth).trace| == |s1.trace| + 1 + |s2.trace|;
  }

  /** A whole-peg solve that treats an empty source as nothing to do, where
      `MoveStack` with no depth would compute a next depth of -1. */
  method MoveWholeStack(source: Stack, target: Stack, helper: Stack, step: nat)
    returns (steps: nat, r: Outcome)
    requires source != target && source != helper && target != helper
    modifies source`rings, target`rings, helper`rings
    ensures var s := SolveTower(Pegs(old(source.rings), old(target.rings), old(helper.rings)));
      Pegs(source.rings, target.rings, helper.rings) == s.pegs
      && r == s.outcome && steps == step + |s.trace|
  {
    if |source.rings| == 0 {
      return step, Ok;
    }
    steps, r := MoveStack(source, target, helper, step, None);
  }
}
