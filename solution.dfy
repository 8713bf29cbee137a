/** The recursive three-peg solve as a function of the three pegs' rings,
    the moves it attempts, and the facts proved about it. The solver methods
    are proved to compute exactly `Solve`. */
module Solution {
  import opened Rings

  datatype Option<T> = None | Some(value: T)

  /** The role a peg plays in one call of the solver. */
  datatype Peg = Source | Target | Helper

  /** One attempted ring move between two roles. */
  datatype Move = Move(from: Peg, to: Peg)

  /** The rings of the three pegs of one solver call, by role. */
  datatype Pegs = Pegs(source: seq<nat>, target: seq<nat>, helper: seq<nat>) {
    function Get(p: Peg): seq<nat> {
      match p
      case Source => source
      case Target => target
      case Helper => helper
    }

    function Put(p: Peg, rings: seq<nat>): Pegs {
      match p
      case Source => this.(source := rings)
      case Target => this.(target := rings)
      case Helper => this.(helper := rings)
    }

    /** No peg has a ring resting on a smaller one. */
    predicate Ordered() {
      NonIncreasing(source) && NonIncreasing(target) && NonIncreasing(helper)
    }
  }

  /** Where the roles of a nested solver call sit among its caller's roles. */
  datatype Roles = Roles(source: Peg, target: Peg, helper: Peg) {
    function Of(p: Peg): Peg {
      match p
      case Source => source
      case Target => target
      case Helper => helper
    }

    predicate Distinct() {
      source != target && source != helper && target != helper
    }
  }

  /** The first nested call: source onto helper, via target. */
  const ToHelper: Roles := Roles(Source, Helper, Target)
  /** The second nested call: helper onto target, via source. */
  const FromHelper: Roles := Roles(Helper, Target, Source)

  /** The pegs as the nested call sees them. */
  function View(p: Pegs, r: Roles): Pegs {
    Pegs(p.Get(r.source), p.Get(r.target), p.Get(r.helper))
  }

  /** The caller's pegs once the nested call has left its pegs as `q`. */
  function Unview(p: Pegs, r: Roles, q: Pegs): Pegs {
    p.Put(r.source, q.source).Put(r.target, q.target).Put(r.helper, q.helper)
  }

  /** A nested call's moves, named by the caller's roles. */
  function Relabel(ms: seq<Move>, r: Roles): (rs: seq<Move>)
    ensures |rs| == |ms|
  {
    if ms == [] then [] else [Move(r.Of(ms[0].from), r.Of(ms[0].to))] + Relabel(ms[1..], r)
  }

  /** The number of rings a call moves: the whole source peg when no depth is
      given. */
  function Depth(sourceSize: nat, maxDepth: Option<nat>): nat {
    if maxDepth.None? then sourceSize else maxDepth.value
  }

  /** The pegs after a solve, what it reported, and the moves it attempted in
      order, the failing one (if any) last. */
  datatype Solved = Solved(pegs: Pegs, outcome: Outcome, trace: seq<Move>)

  /** One attempted move of the source's top ring onto the target. */
  function MoveOne(p: Pegs): Solved {
    var t := TryMove(p.source, p.target);
    Solved(Pegs(t.from, t.to, p.helper), t.outcome, [Move(Source, Target)])
  }

  /** The pegs as the first nested call sees them: target and helper
      exchanged. */
  function SwapTargetHelper(p: Pegs): Pegs {
    Pegs(p.source, p.helper, p.target)
  }

  /** The pegs as the second nested call sees them: source and helper
      exchanged. */
  function SwapSourceHelper(p: Pegs): Pegs {
    Pegs(p.helper, p.target, p.source)
  }

  /** The first nested call's result, seen from its caller. */
  function LiftToHelper(s: Solved): Solved {
    Solved(SwapTargetHelper(s.pegs), s.outcome, Relabel(s.trace, ToHelper))
  }

  /** The second nested call's result, seen from its caller. */
  function LiftFromHelper(s: Solved): Solved {
    Solved(SwapSourceHelper(s.pegs), s.outcome, Relabel(s.trace, FromHelper))
  }

  /** `b` done after `a`. */
  function Then(a: Solved, b: Solved): Solved {
    Solved(b.pegs, b.outcome, a.trace + b.trace)
  }

  /** Moving `depth` rings from source to target via helper. A call with
      depth 0 on a source that does not hold exactly one ring is excluded: the
      program's `depth - 1` underflows there. */
  function Solve(p: Pegs, depth: nat): Solved
    requires depth >= 1 || |p.source| == 1
    decreases depth
  {
    if |p.source| == 1 || depth == 1 then
      MoveOne(p)
    else
      var first := LiftToHelper(Solve(SwapTargetHelper(p), depth - 1));
      if first.outcome.Err? then
        first
      else
        var uncovered := Then(first, MoveOne(first.pegs));
        if uncovered.outcome.Err? then
          uncovered
        else
          var q := uncovered.pegs;
          Then(uncovered, LiftFromHelper(Solve(SwapSourceHelper(q), depth - 1)))
  }

  /** The depth handed to both nested calls, as the program computes it:
      one less than the depth, which goes below zero when no depth is given
      and the source is empty. */
  function NextDepth(sourceSize: nat, maxDepth: Option<nat>): (d: int)
    ensures d == Depth(sourceSize, maxDepth) - 1
  {
    if maxDepth.None? then sourceSize - 1 else maxDepth.value - 1
  }

  /** A whole-tower solve of an empty source is not caught by the base case,
      so its next depth is -1: the program's unsigned subtraction fails
      there instead of making no move. */
  lemma ZeroRingsUnderflow(p: Pegs)
    requires p.source == []
    ensures !(|p.source| == 1 || Depth(|p.source|, None) == 1)
    ensures NextDepth(|p.source|, None) < 0
  {
  }

  /** Moving a whole source peg, with zero rings meaning zero moves. */
  function SolveTower(p: Pegs): Solved {
    if p.source == [] then Solved(p, Ok, []) else Solve(p, |p.source|)
  }

  /** The corrected whole-tower solve moves any non-increasing source onto
      pegs that accept it, in 2^n - 1 moves, including n = 0 with no move and
      no error. */
  lemma SolveTowerMovesAll(tower: seq<nat>, target: seq<nat>, helper: seq<nat>)
    requires NonIncreasing(tower)
    requires tower != [] ==> Accepts(target, tower[0]) && Accepts(helper, tower[0])
    ensures var s := SolveTower(Pegs(tower, target, helper));
      s.outcome == Ok && s.pegs == Pegs([], target + tower, helper)
      && |s.trace| == Pow2(|tower|) - 1
  {
    if tower != [] {
      assert [] + tower == tower;
      SolveMovesTower([], tower, target, helper);
      HanoiLength(|tower|);
    } else {
      assert target + tower == target;
    }
  }

  // ---------------------------------------------------------------------
  // Replaying moves one at a time

  /** One move attempt on the three pegs. (Every move the solver makes goes
      between two different pegs.) */
  function Step(p: Pegs, m: Move): (Outcome, Pegs) {
    var t := TryMove(p.Get(m.from), p.Get(m.to));
    (t.outcome, p.Put(m.from, t.from).Put(m.to, t.to))
  }

  /** The pegs after attempting moves in order up to the first failure, what
      the last attempt reported, and how many moves were attempted. */
  datatype Replayed = Replayed(pegs: Pegs, outcome: Outcome, attempted: nat)

  function Replay(p: Pegs, ms: seq<Move>): (r: Replayed)
    decreases |ms|
  {
    if ms == [] then
      Replayed(p, Ok, 0)
    else
      var (o, q) := Step(p, ms[0]);
      if o.Err? then
        Replayed(q, o, 1)
      else
        var rest := Replay(q, ms[1..]);
        Replayed(rest.pegs, rest.outcome, rest.attempted + 1)
  }

  /** Replaying `a + b` replays `a`, then, unless `a` failed, `b`. */
  lemma {:induction false} ReplayAppend(p: Pegs, a: seq<Move>, b: seq<Move>)
    decreases |a|
    ensures var ra := Replay(p, a);
      Replay(p, a + b) ==
        if ra.outcome.Err? then ra
        else var rb := Replay(ra.pegs, b); Replayed(rb.pegs, rb.outcome, |a| + rb.attempted)
  {
    if a != [] {
      assert (a + b)[0] == a[0];
      assert (a + b)[1..] == a[1..] + b;
      var (o, q) := Step(p, a[0]);
      if o.Ok? {
        ReplayAppend(q, a[1..], b);
      }
    } else {
      assert a + b == b;
    }
  }

  /** Every prefix of a successful replay succeeds. */
  lemma ReplayPrefix(p: Pegs, ms: seq<Move>, k: nat)
    requires k <= |ms| && Replay(p, ms).outcome == Ok
    ensures Replay(p, ms[..k]).outcome == Ok
  {
    assert ms == ms[..k] + ms[k..];
    ReplayAppend(p, ms[..k], ms[k..]);
  }

  /** Replaying any moves from ordered pegs keeps every peg ordered. */
  lemma {:induction false} ReplayKeepsOrder(p: Pegs, ms: seq<Move>)
    requires p.Ordered()
    ensures Replay(p, ms).pegs.Ordered()
    decreases |ms|
  {
    if ms != [] {
      TryMoveKeepsOrder(p.Get(ms[0].from), p.Get(ms[0].to));
      var (o, q) := Step(p, ms[0]);
      assert q.Ordered() by {
        forall x: Peg ensures NonIncreasing(q.Get(x)) {
        }
        assert q.source == q.Get(Source) && q.target == q.Get(Target) && q.helper == q.Get(Helper);
      }
      if o.Ok? {
        ReplayKeepsOrder(q, ms[1..]);
      }
    }
  }

  lemma ViewOfUnview(p: Pegs, r: Roles, q: Pegs)
    requires r.Distinct()
    ensures View(Unview(p, r, q), r) == q
  {
  }

  lemma UnviewTwice(p: Pegs, r: Roles, q1: Pegs, q2: Pegs)
    requires r.Distinct()
    ensures Unview(Unview(p, r, q1), r, q2) == Unview(p, r, q2)
  {
  }

  /** A relabelled move acts on the caller's pegs as the original move acts
      on the nested call's view of them. */
  lemma StepRelabel(p: Pegs, r: Roles, m: Move)
    requires r.Distinct()
    ensures var (o, q) := Step(View(p, r), m);
      Step(p, Move(r.Of(m.from), r.Of(m.to))) == (o, Unview(p, r, q))
  {
  }

  /** Replaying a nested call's relabelled moves on the caller's pegs is
      replaying the moves on the nested call's view. */
  lemma {:induction false} ReplayRelabel(p: Pegs, r: Roles, ms: seq<Move>)
    requires r.Distinct()
    ensures var q := Replay(View(p, r), ms);
      Replay(p, Relabel(ms, r)) == Replayed(Unview(p, r, q.pegs), q.outcome, q.attempted)
    decreases |ms|
  {
    if ms != [] {
      StepRelabel(p, r, ms[0]);
      var (o, q) := Step(View(p, r), ms[0]);
      if o.Ok? {
        var p' := Unview(p, r, q);
        ViewOfUnview(p, r, q);
        ReplayRelabel(p', r, ms[1..]);
        var q2 := Replay(q, ms[1..]);
        UnviewTwice(p, r, q, q2.pegs);
      }
    }
  }

  /** Replaying the moves of `s` from `p` reaches `s`'s pegs and outcome
      and attempts every one of its moves. */
  predicate Faithful(p: Pegs, s: Solved) {
    Replay(p, s.trace) == Replayed(s.pegs, s.outcome, |s.trace|)
  }

  lemma MoveOneFaithful(p: Pegs)
    ensures Faithful(p, MoveOne(p))
  {
    assert [Move(Source, Target)][1..] == [];
  }

  lemma LiftToHelperFaithful(p: Pegs, s: Solved)
    requires Faithful(SwapTargetHelper(p), s)
    ensures Faithful(p, LiftToHelper(s))
  {
    assert View(p, ToHelper) == SwapTargetHelper(p);
    assert Unview(p, ToHelper, s.pegs) == SwapTargetHelper(s.pegs);
    ReplayRelabel(p, ToHelper, s.trace);
  }

  lemma LiftFromHelperFaithful(p: Pegs, s: Solved)
    requires Faithful(SwapSourceHelper(p), s)
    ensures Faithful(p, LiftFromHelper(s))
  {
    assert View(p, FromHelper) == SwapSourceHelper(p);
    assert Unview(p, FromHelper, s.pegs) == SwapSourceHelper(s.pegs);
    ReplayRelabel(p, FromHelper, s.trace);
  }

  lemma ThenFaithful(p: Pegs, a: Solved, b: Solved)
    requires Faithful(p, a) && a.outcome == Ok && Faithful(a.pegs, b)
    ensures Faithful(p, Then(a, b))
  {
    ReplayAppend(p, a.trace, b.trace);
  }

  /** The trace is exactly what the solve did: replaying it from the initial
      pegs reaches the final pegs and outcome, and attempts every move in it,
      so the solve stops at the first failing move and undoes nothing. */
  lemma {:induction false} SolveReplaysTrace(p: Pegs, depth: nat)
    requires depth >= 1 || |p.source| == 1
    ensures Faithful(p, Solve(p, depth))
    decreases depth, 1
  {
    if |p.source| == 1 || depth == 1 {
      MoveOneFaithful(p);
    } else {
      SolveStepFaithful(p, depth);
    }
  }

  /** The recursive case of `SolveReplaysTrace`. */
  lemma {:induction false} SolveStepFaithful(p: Pegs, depth: nat)
    requires depth >= 2 && |p.source| != 1
    ensures Faithful(p, Solve(p, depth))
    decreases depth, 0
  {
    var s1 := Solve(SwapTargetHelper(p), depth - 1);
    SolveReplaysTrace(SwapTargetHelper(p), depth - 1);
    var first := LiftToHelper(s1);
    LiftToHelperFaithful(p, s1);
    if s1.outcome.Err? {
      SolveFirstFails(p, depth, s1);
    } else {
      var u := MoveOne(SwapTargetHelper(s1.pegs));
      MoveOneFaithful(first.pegs);
      ThenFaithful(p, first, u);
      if u.outcome.Err? {
        SolveUncoverFails(p, depth, s1);
      } else {
        var s2 := Solve(SwapSourceHelper(u.pegs), depth - 1);
        SolveReplaysTrace(SwapSourceHelper(u.pegs), depth - 1);
        LiftFromHelperFaithful(u.pegs, s2);
        ThenFaithful(p, Then(first, u), LiftFromHelper(s2));
        SolveUnfold(p, depth, s1, s2);
        assert Combine(s1, s2) == Then(Then(first, u), LiftFromHelper(s2));
      }
    }
  }

  /** A replay never attempts more moves than it is given. */
  lemma {:induction false} ReplayAttempted(p: Pegs, ms: seq<Move>)
    ensures Replay(p, ms).attempted <= |ms|
    decreases |ms|
  {
    if ms != [] {
      var (o, q) := Step(p, ms[0]);
      if o.Ok? {
        ReplayAttempted(q, ms[1..]);
      }
    }
  }

  /** A replay that fails having attempted every move failed at the last
      one: all moves before it succeed, and the last one, tried on the
      pegs they leave, gives the failure and the final pegs. */
  lemma ReplayFailsLast(p: Pegs, ms: seq<Move>)
    requires Replay(p, ms).outcome.Err? && Replay(p, ms).attempted == |ms|
    ensures |ms| >= 1
    ensures var before := Replay(p, ms[..|ms| - 1]);
      before.outcome == Ok
      && Step(before.pegs, ms[|ms| - 1]) == (Replay(p, ms).outcome, Replay(p, ms).pegs)
  {
    var n := |ms| - 1;
    assert ms == ms[..n] + [ms[n]];
    ReplayAppend(p, ms[..n], [ms[n]]);
    ReplayAttempted(p, ms[..n]);
    assert [ms[n]][1..] == [];
  }

  /** A failed solve stops at its first refused move: every move of its
      trace but the last succeeds, and the last is the refused one, which
      leaves the pegs as they were before it. */
  lemma SolveStopsAtFirstError(p: Pegs, depth: nat)
    requires depth >= 1 || |p.source| == 1
    requires Solve(p, depth).outcome.Err?
    ensures var s := Solve(p, depth);
      |s.trace| >= 1
      && var before := Replay(p, s.trace[..|s.trace| - 1]);
         before.outcome == Ok
         && Step(before.pegs, s.trace[|s.trace| - 1]) == (s.outcome, s.pegs)
         && s.pegs == before.pegs
  {
    var s := Solve(p, depth);
    SolveReplaysTrace(p, depth);
    ReplayFailsLast(p, s.trace);
    var before := Replay(p, s.trace[..|s.trace| - 1]);
    var m := s.trace[|s.trace| - 1];
    var t := TryMove(before.pegs.Get(m.from), before.pegs.Get(m.to));
    assert t.from == before.pegs.Get(m.from) && t.to == before.pegs.Get(m.to);
  }

  /** Solving from an empty source fails at once with "Nothing to move",
      after one attempted move (onto the target or the helper, by the
      parity of the depth), and changes no peg. */
  lemma {:induction false} SolveFromEmpty(target: seq<nat>, helper: seq<nat>, depth: nat)
    requires depth >= 1
    ensures Solve(Pegs([], target, helper), depth)
         == Solved(Pegs([], target, helper), Err(NothingToMove),
                   [Move(Source, if depth % 2 == 1 then Target else Helper)])
    decreases depth
  {
    if depth > 1 {
      SolveFromEmpty(helper, target, depth - 1);
    }
  }

  /** When the ring uncovered by the first nested call cannot go onto the
      target (the source is empty, or its top is larger than the target's),
      the solve stops there with that error: the pegs stay as the first
      nested call left them, the trace ends with the refused move, and the
      second nested call never runs. */
  lemma SolveStopsAtUncoveredRing(p: Pegs, depth: nat, s1: Solved)
    requires depth >= 2 && |p.source| != 1
    requires s1 == Solve(SwapTargetHelper(p), depth - 1) && s1.outcome == Ok
    requires var q := SwapTargetHelper(s1.pegs); q.source == [] || !Accepts(q.target, Top(q.source))
    ensures var q, s := SwapTargetHelper(s1.pegs), Solve(p, depth);
      s.outcome == (if q.source == [] then Err(NothingToMove) else Err(LargerOnSmaller))
      && s.pegs == q
      && s.trace == Relabel(s1.trace, ToHelper) + [Move(Source, Target)]
  {
    var q := SwapTargetHelper(s1.pegs);
    TryMoveOutcomes(q.source, q.target);
    SolveUncoverFails(p, depth, s1);
  }

  /** For instance `[2, 1]` onto `[1]`: ring 1 goes to the helper, ring 2 is
      refused on the target, and the solve ends after two moves. */
  lemma UncoveredRingExample()
    ensures Solve(Pegs([2, 1], [1], []), 2)
         == Solved(Pegs([2], [1], [1]), Err(LargerOnSmaller), [Move(Source, Helper), Move(Source, Target)])
  {
    assert Solve(Pegs([2, 1], [], [1]), 1) == Solved(Pegs([2], [1], [1]), Ok, [Move(Source, Target)]);
  }

  // ---------------------------------------------------------------------
  // The classical solution

  function Pow2(n: nat): (r: nat)
    ensures r >= 1
  {
    if n == 0 then 1 else 2 * Pow2(n - 1)
  }

  /** The classical move sequence for `d` rings, in the outer call's roles. */
  function Hanoi(d: nat): seq<Move> {
    if d == 0 then []
    else Relabel(Hanoi(d - 1), ToHelper) + [Move(Source, Target)] + Relabel(Hanoi(d - 1), FromHelper)
  }

  /** The classical solution takes 2^d - 1 moves. */
  lemma {:induction false} HanoiLength(d: nat)
    ensures |Hanoi(d)| == Pow2(d) - 1
  {
    if d > 0 {
      HanoiLength(d - 1);
    }
  }

  /** Three rings go A→B, A→C, B→C, A→B, C→A, C→B, A→B (A source, B target,
      C helper). */
  lemma HanoiThree()
    ensures Hanoi(3) == [Move(Source, Target), Move(Source, Helper), Move(Target, Helper),
                         Move(Source, Target), Move(Helper, Source), Move(Helper, Target),
                         Move(Source, Target)]
  {
    assert Hanoi(1) == [Move(Source, Target)];
    assert Hanoi(2) == [Move(Source, Helper), Move(Source, Target), Move(Helper, Target)];
  }

  /** The top `|tower|` rings of the source form a non-increasing run that
      each of the other pegs (and the rest of the source) accepts. */
  predicate Movable(rest: seq<nat>, tower: seq<nat>, target: seq<nat>, helper: seq<nat>) {
    |tower| >= 1 && NonIncreasing(tower)
    && Accepts(rest, tower[0]) && Accepts(target, tower[0]) && Accepts(helper, tower[0])
  }

  /** The result of a solve whose three stages all ran: the second nested
      call's pegs and outcome, and every attempted move in order. */
  function Combine(s1: Solved, s2: Solved): Solved {
    Solved(SwapSourceHelper(s2.pegs), s2.outcome,
           Relabel(s1.trace, ToHelper) + [Move(Source, Target)] + Relabel(s2.trace, FromHelper))
  }

  /** The base case of `Solve`: one move. */
  lemma SolveBase(p: Pegs, depth: nat)
    requires |p.source| == 1 || depth == 1
    ensures Solve(p, depth) == MoveOne(p)
  {
  }

  /** The recursive case of `Solve` when the first nested call fails. */
  lemma SolveFirstFails(p: Pegs, depth: nat, s1: Solved)
    requires depth >= 2 && |p.source| != 1
    requires s1 == Solve(SwapTargetHelper(p), depth - 1) && s1.outcome.Err?
    ensures Solve(p, depth) == LiftToHelper(s1)
  {
  }

  /** The recursive case of `Solve` when the uncovered ring is refused. */
  lemma SolveUncoverFails(p: Pegs, depth: nat, s1: Solved)
    requires depth >= 2 && |p.source| != 1
    requires s1 == Solve(SwapTargetHelper(p), depth - 1) && s1.outcome == Ok
    requires MoveOne(SwapTargetHelper(s1.pegs)).outcome.Err?
    ensures Solve(p, depth) == Then(LiftToHelper(s1), MoveOne(SwapTargetHelper(s1.pegs)))
  {
  }

  /** The recursive case of `Solve` when its first two stages succeed. */
  lemma SolveUnfold(p: Pegs, depth: nat, s1: Solved, s2: Solved)
    requires depth >= 2 && |p.source| != 1
    requires s1 == Solve(SwapTargetHelper(p), depth - 1) && s1.outcome == Ok
    requires MoveOne(SwapTargetHelper(s1.pegs)).outcome == Ok
    requires s2 == Solve(SwapSourceHelper(MoveOne(SwapTargetHelper(s1.pegs)).pegs), depth - 1)
    ensures Solve(p, depth) == Combine(s1, s2)
  {
  }

  /** The correctness theorem: the tower lands on the target in the same
      order, the rest of the source and the helper end as they began, the
      solve succeeds, and its moves are the classical ones. */
  lemma SolveMovesTower(rest: seq<nat>, tower: seq<nat>, target: seq<nat>, helper: seq<nat>)
    requires Movable(rest, tower, target, helper)
    ensures var s := Solve(Pegs(rest + tower, target, helper), |tower|);
      s.outcome == Ok && s.pegs == Pegs(rest, target + tower, helper) && s.trace == Hanoi(|tower|)
  {
    SolveMovesTowerAt(Pegs(rest + tower, target, helper), |tower|, rest, tower, target, helper);
  }

  /** `SolveMovesTower` for pegs `p` and depth `depth` known to be that
      tower and its height. */
  lemma {:induction false} SolveMovesTowerAt(p: Pegs, depth: nat, rest: seq<nat>, tower: seq<nat>, target: seq<nat>, helper: seq<nat>)
    requires Movable(rest, tower, target, helper)
    requires p == Pegs(rest + tower, target, helper) && depth == |tower|
    ensures Solve(p, depth) == Solved(Pegs(rest, target + tower, helper), Ok, Hanoi(depth))
    decreases depth
  {
    if depth == 1 {
      SolveMovesOneRing(p, rest, tower, target, helper);
    } else {
      var t0, sub := tower[0], tower[1..];
      MovableSplit(rest, tower, target, helper);
      TowerSplit(rest, tower, target);
      var s1 := Solve(SwapTargetHelper(p), depth - 1);
      SolveMovesTowerAt(SwapTargetHelper(p), depth - 1, rest + [t0], sub, helper, target);
      var u := MoveOne(SwapTargetHelper(s1.pegs));
      UncoverBottom(rest, t0, sub, target, helper, s1.pegs);
      var q := SwapSourceHelper(u.pegs);
      var s2 := Solve(q, depth - 1);
      SolveMovesTowerAt(q, depth - 1, helper, sub, target + [t0], rest);
      SolveUnfold(p, depth, s1, s2);
      CombineTower(depth, rest, target + [t0] + sub, helper, s1, s2);
    }
  }

  /** The base case of `SolveMovesTower`. */
  lemma SolveMovesOneRing(p: Pegs, rest: seq<nat>, tower: seq<nat>, target: seq<nat>, helper: seq<nat>)
    requires |tower| == 1 && Accepts(target, tower[0])
    requires p == Pegs(rest + tower, target, helper)
    ensures Solve(p, 1) == Solved(Pegs(rest, target + tower, helper), Ok, Hanoi(1))
  {
    assert Top(rest + tower) == tower[0] && (rest + tower)[..|rest + tower| - 1] == rest;
    assert MoveOne(p) == Solved(Pegs(rest, target + tower, helper), Ok, [Move(Source, Target)]);
    assert Hanoi(1) == [Move(Source, Target)];
  }

  /** The nested calls of `SolveMovesTower` get movable towers. */
  lemma MovableSplit(rest: seq<nat>, tower: seq<nat>, target: seq<nat>, helper: seq<nat>)
    requires Movable(rest, tower, target, helper) && |tower| >= 2
    ensures Movable(rest + [tower[0]], tower[1..], helper, target)
    ensures Movable(helper, tower[1..], target + [tower[0]], rest)
    ensures Accepts(target, tower[0])
  {
    assert tower[1] <= Below(tower, 1);
    var sub := tower[1..];
    forall i | 0 < i < |sub| ensures sub[i] <= Below(sub, i) {
      assert tower[i + 1] <= Below(tower, i + 1);
    }
  }

  /** Splitting a tower into its bottom ring and the rest. */
  lemma TowerSplit(rest: seq<nat>, tower: seq<nat>, target: seq<nat>)
    requires |tower| >= 1
    ensures rest + tower == rest + [tower[0]] + tower[1..]
    ensures target + [tower[0]] + tower[1..] == target + tower
    ensures Top(rest + [tower[0]]) == tower[0] && (rest + [tower[0]])[..|rest|] == rest
    ensures |tower[1..]| == |tower| - 1
  {
    assert tower == [tower[0]] + tower[1..];
  }

  /** Between the nested calls of `SolveMovesTower` the bottom ring moves
      onto the target. */
  lemma UncoverBottom(rest: seq<nat>, t0: nat, sub: seq<nat>, target: seq<nat>, helper: seq<nat>, q: Pegs)
    requires Accepts(target, t0) && q == Pegs(rest + [t0], helper + sub, target)
    ensures MoveOne(SwapTargetHelper(q)) == Solved(Pegs(rest, target + [t0], helper + sub), Ok, [Move(Source, Target)])
    ensures SwapSourceHelper(MoveOne(SwapTargetHelper(q)).pegs) == Pegs(helper + sub, target + [t0], rest)
  {
    assert Top(rest + [t0]) == t0 && (rest + [t0])[..|rest|] == rest;
  }

  /** The recursive case of `SolveMovesTower`, from what the two nested
      calls achieve. */
  lemma CombineTower(depth: nat, rest: seq<nat>, full: seq<nat>, helper: seq<nat>, s1: Solved, s2: Solved)
    requires depth >= 2 && s1.trace == Hanoi(depth - 1)
    requires s2.outcome == Ok && s2.pegs == Pegs(helper, full, rest) && s2.trace == Hanoi(depth - 1)
    ensures Combine(s1, s2) == Solved(Pegs(rest, full, helper), Ok, Hanoi(depth))
  {
  }

  /** Such a solve attempts exactly 2^d - 1 moves for a tower of d rings, so
      the step counter grows by that much. */
  lemma SolveMoveCount(rest: seq<nat>, tower: seq<nat>, target: seq<nat>, helper: seq<nat>)
    requires Movable(rest, tower, target, helper)
    ensures |Solve(Pegs(rest + tower, target, helper), |tower|).trace| == Pow2(|tower|) - 1
  {
    SolveMovesTower(rest, tower, target, helper);
    HanoiLength(|tower|);
  }

  /** Every move of such a solve is accepted, and when the pegs start
      ordered every intermediate state is ordered. */
  lemma SolveEveryMoveLegal(rest: seq<nat>, tower: seq<nat>, target: seq<nat>, helper: seq<nat>)
    requires Movable(rest, tower, target, helper)
    ensures var p := Pegs(rest + tower, target, helper);
      var s := Solve(p, |tower|);
      forall k :: 0 <= k <= |s.trace| ==>
        Replay(p, s.trace[..k]).outcome == Ok
        && (p.Ordered() ==> Replay(p, s.trace[..k]).pegs.Ordered())
  {
    var p := Pegs(rest + tower, target, helper);
    var s := Solve(p, |tower|);
    SolveMovesTower(rest, tower, target, helper);
    SolveReplaysTrace(p, |tower|);
    forall k | 0 <= k <= |s.trace|
      ensures Replay(p, s.trace[..k]).outcome == Ok
      ensures p.Ordered() ==> Replay(p, s.trace[..k]).pegs.Ordered()
    {
      ReplayPrefix(p, s.trace, k);
      if p.Ordered() {
        ReplayKeepsOrder(p, s.trace[..k]);
      }
    }
  }

  /** Solving a tower from A onto B and then back from B onto A restores
      every peg. */
  lemma SolveThereAndBack(rest: seq<nat>, tower: seq<nat>, target: seq<nat>, helper: seq<nat>)
    requires Movable(rest, tower, target, helper)
    ensures var there := Solve(Pegs(rest + tower, target, helper), |tower|);
      var back := Solve(Pegs(there.pegs.target, there.pegs.source, there.pegs.helper), |tower|);
      there.outcome == Ok && back.outcome == Ok
      && back.pegs == Pegs(target, rest + tower, helper)
  {
    SolveMovesTower(rest, tower, target, helper);
    assert Movable(target, tower, rest, helper);
    SolveMovesTower(target, tower, rest, helper);
  }

  /** A full tower of n >= 1 rings moves onto two empty pegs in 2^n - 1
      moves. */
  lemma SolveFullTower(n: nat)
    requires n >= 1
    ensures var s := Solve(Pegs(FullTower(n), [], []), n);
      s.outcome == Ok && s.pegs == Pegs([], FullTower(n), []) && |s.trace| == Pow2(n) - 1
  {
    var t := FullTower(n);
    FullTowerMovable(t, n);
    SolveMovesTower([], t, [], []);
    HanoiLength(n);
  }

  lemma FullTowerMovable(t: seq<nat>, n: nat)
    requires n >= 1 && t == FullTower(n)
    ensures Movable([], t, [], []) && [] + t == t && |t| == n
  {
  }

  /** Three rings: the seven classical moves, ending with all rings on the
      target. */
  lemma SolveThreeRings()
    ensures Solve(Pegs([3, 2, 1], [], []), 3)
         == Solved(Pegs([], [3, 2, 1], []), Ok,
                   [Move(Source, Target), Move(Source, Helper), Move(Target, Helper),
                    Move(Source, Target), Move(Helper, Source), Move(Helper, Target),
                    Move(Source, Target)])
  {
    ThreeRingsMovable();
    SolveMovesTower([], [3, 2, 1], [], []);
    HanoiThree();
  }

  lemma ThreeRingsMovable()
    ensures Movable([], [3, 2, 1], [], []) && [] + [3, 2, 1] == [3, 2, 1]
  {
    assert NonIncreasing([3, 2, 1]) by {
      forall i | 0 < i < 3 ensures [3, 2, 1][i] <= Below([3, 2, 1], i) {
      }
    }
  }
}
