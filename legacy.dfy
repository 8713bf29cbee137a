/** The earlier, self-contained program: its own peg class, ring move and
    solver, and the run that moves a six-ring red tower onto the blue peg. */
module Legacy {
  import opened Colors
  import opened Rings
  import opened Solution

  class Stack {
    var rings: seq<nat>
    var color: Color
    var name: string

    /** A peg holding exactly the given rings. */
    constructor (name: string, rings: seq<nat>, color: Color)
      ensures this.rings == rings && this.color == color && this.name == name
    {
      this.rings := rings;
      this.color := color;
      this.name := name;
    }
  }

  /** Moves the top ring of `source` onto `target`, refusing with "Nothing to
      move" when `source` is empty and then with "Cannot put a larger ring on
      a smaller one" when it would cover a smaller ring; a refused move
      changes neither peg. */
  method MoveRing(source: Stack, target: Stack) returns (r: Outcome)
    requires source != target
    modifies source`rings, target`rings
    ensures var t := TryMove(old(source.rings), old(target.rings));
      r == t.outcome && source.rings == t.from && target.rings == t.to
  {
    if |source.rings| == 0 {
      return Err(NothingToMove);
    }
    if |target.rings| != 0 && source.rings[|source.rings| - 1] > target.rings[|target.rings| - 1] {
      return Err(LargerOnSmaller);
    }
    var ring := source.rings[|source.rings| - 1];
    source.rings := source.rings[..|source.rings| - 1];
    target.rings := target.rings + [ring];
    r := Ok;
  }

  /** The solver of the earlier program; it computes exactly `Solve`, like
      the modular one, so the same lemmas describe both. */
  method MoveStack(source: Stack, target: Stack, helper: Stack, step: nat, maxDepth: Option<nat>)
    returns (steps: nat, r: Outcome)
    requires source != target && source != helper && target != helper
    requires Depth(|source.rings|, maxDepth) >= 1 || |source.rings| == 1
    modifies source`rings, target`rings, helper`rings
    ensures var s := Solve(Pegs(old(source.rings), old(target.rings), old(helper.rings)),
                           Depth(|old(source.rings)|, maxDepth));
      Pegs(source.rings, target.rings, helper.rings) == s.pegs
      && r == s.outcome && steps == step + |s.trace|
    decreases Depth(|source.rings|, maxDepth)
  {
    ghost var p := Pegs(source.rings, target.rings, helper.rings);
    var depth := if maxDepth.None? then |source.rings| else maxDepth.value;
    assert depth == Depth(|source.rings|, maxDepth);
    if |source.rings| == 1 || depth == 1 {
      SolveBase(p, depth);
      steps := step + 1;
      r := MoveRing(source, target);
      assert Pegs(source.rings, target.rings, helper.rings) == MoveOne(p).pegs && r == MoveOne(p).outcome;
      return;
    }
    var nextDepth := if maxDepth.None? then |source.rings| - 1 else maxDepth.value - 1;
    assert nextDepth == NextDepth(|source.rings|, maxDepth);
    ghost var s1 := Solve(SwapTargetHelper(p), depth - 1);
    var result;
    steps, result := MoveStack(source, helper, target, step, Some(nextDepth));
    assert Pegs(source.rings, helper.rings, target.rings) == s1.pegs;
    assert result == s1.outcome && steps == step + |s1.trace|;
    if result.Err? {
      SolveFirstFails(p, depth, s1);
      assert |Solve(p, depth).trace| == |s1.trace|;
      return steps, result;
    }
    ghost var u := MoveOne(SwapTargetHelper(s1.pegs));
    steps := steps + 1;
    r := MoveRing(source, target);
    assert Pegs(source.rings, target.rings, helper.rings) == u.pegs && r == u.outcome;
    if r.Err? {
      SolveUncoverFails(p, depth, s1);
      assert |Solve(p, depth).trace| == |s1.trace| + 1;
      return;
    }
    ghost var s2 := Solve(SwapSourceHelper(u.pegs), depth - 1);
    ghost var before := steps;
    steps, r := MoveStack(helper, target, source, steps, Some(nextDepth));
    assert Pegs(helper.rings, target.rings, source.rings) == s2.pegs;
    assert r == s2.outcome && steps == before + |s2.trace|;
    SolveUnfold(p, depth, s1, s2);
    assert |Solve(p, depth).trace| == |s1.trace| + 1 + |s2.trace|;
  }

  /** The program's run: six rings from red onto blue via yellow, from step
      0, with the result unwrapped. It succeeds after 63 moves, leaving red
      and yellow empty and the tower on blue in its original order. */
  method SixRings() returns (r: Outcome, step: nat, red: seq<nat>, blue: seq<nat>, yellow: seq<nat>)
    ensures r == Ok && step == 63
    ensures red == [] && blue == [6, 5, 4, 3, 2, 1] && yellow == []
  {
    var redPeg := new Stack("Red", [6, 5, 4, 3, 2, 1], Red);
    var bluePeg := new Stack("Blue", [], Blue);
    var yellowPeg := new Stack("Yellow", [], Yellow);
    SolveSixRings(redPeg.rings);
    step, r := MoveStack(redPeg, bluePeg, yellowPeg, 0, None);
    red, blue, yellow := redPeg.rings, bluePeg.rings, yellowPeg.rings;
  }

  /** The solve behind `SixRings`. */
  lemma SolveSixRings(tower: seq<nat>)
    requires tower == [6, 5, 4, 3, 2, 1]
    ensures var s := Solve(Pegs(tower, [], []), |tower|);
      s.outcome == Ok && s.pegs == Pegs([], tower, []) && |s.trace| == 63
  {
    assert FullTower(6) == tower;
    SolveFullTower(6);
  }
}
