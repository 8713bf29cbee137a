/** The rings on one peg, and the single legal way of moving a ring from one
    peg to another. A peg's rings are listed bottom first: the last element
    is the ring on top. */
module Rings {

  /** The two ways a move can be refused. */
  datatype MoveError = NothingToMove | LargerOnSmaller {
    /** The fixed message the program reports for this error. */
    function Message(): string {
      match this
      case NothingToMove => "Nothing to move"
      case LargerOnSmaller => "Cannot put a larger ring on a smaller one"
    }
  }

  /** What a move or a whole solve reports: nothing on success, the error
      (whose message is the program's error string) on failure. */
  datatype Outcome = Ok | Err(error: MoveError)

  /** The ring on top of a non-empty peg. */
  function Top(rings: seq<nat>): nat
    requires rings != []
  {
    rings[|rings| - 1]
  }

  /** A peg holding `rings` may receive `ring`: it is empty, or its top ring
      is not smaller than `ring`. */
  predicate Accepts(rings: seq<nat>, ring: nat) {
    rings == [] || ring <= Top(rings)
  }

  /** No ring rests on a smaller one. */
  predicate NonIncreasing(rings: seq<nat>) {
    forall i :: 0 < i < |rings| ==> rings[i] <= Below(rings, i)
  }

  /** The ring directly beneath ring `i`. */
  function Below(rings: seq<nat>, i: nat): nat
    requires 0 < i < |rings|
  {
    rings[i - 1]
  }

  /** Every ring rests on a strictly larger one. */
  predicate Descending(rings: seq<nat>) {
    forall i, j :: 0 <= i < j < |rings| ==> rings[j] < rings[i]
  }

  /** The full tower of `size` rings: `size` at the bottom, 1 on top. */
  function FullTower(size: nat): (tower: seq<nat>)
    ensures |tower| == size && Descending(tower)
    ensures size > 0 ==> tower[0] == size && Top(tower) == 1
    ensures forall i :: 0 <= i < size ==> 1 <= tower[i] <= size
  {
    seq(size, i requires 0 <= i < size => size - i)
  }

  /** Both pegs after an attempted move, and what the attempt reported. */
  datatype Transfer = Transfer(outcome: Outcome, from: seq<nat>, to: seq<nat>)

  /** Moving the top ring of `from` onto `to`: refused when `from` is empty
      (checked first) or when the ring is larger than the top of a
      non-empty `to`. */
  function TryMove(from: seq<nat>, to: seq<nat>): Transfer {
    if |from| == 0 then
      Transfer(Err(NothingToMove), from, to)
    else if |to| != 0 && Top(from) > Top(to) then
      Transfer(Err(LargerOnSmaller), from, to)
    else
      Transfer(Ok, from[..|from| - 1], to + [Top(from)])
  }

  /** Each outcome of a move, stated both ways: "Nothing to move" exactly
      for an empty source, "Cannot put a larger ring on a smaller one"
      exactly when the target refuses the source's top (equal sizes are
      accepted), success otherwise; a refused move changes neither peg and
      an accepted one moves the top ring from one peg to the other. */
  lemma TryMoveOutcomes(from: seq<nat>, to: seq<nat>)
    ensures var t := TryMove(from, to);
      (t.outcome == Err(NothingToMove) <==> from == [])
      && (t.outcome == Err(LargerOnSmaller) <==> from != [] && !Accepts(to, Top(from)))
      && (t.outcome == Ok <==> from != [] && Accepts(to, Top(from)))
      && (t.outcome.Err? ==> t.from == from && t.to == to)
      && (t.outcome == Ok ==> t.from + [Top(from)] == from && t.to == to + [Top(from)])
  {
  }

  /** A move, accepted or not, neither creates nor destroys rings. */
  lemma TryMoveConserves(from: seq<nat>, to: seq<nat>)
    ensures var t := TryMove(from, to);
      |t.from| + |t.to| == |from| + |to|
      && multiset(t.from) + multiset(t.to) == multiset(from) + multiset(to)
  {
    var t := TryMove(from, to);
    if t.outcome == Ok {
      assert from == t.from + [Top(from)];
    }
  }

  /** A move, accepted or not, never leaves a ring resting on a smaller one. */
  lemma TryMoveKeepsOrder(from: seq<nat>, to: seq<nat>)
    requires NonIncreasing(from) && NonIncreasing(to)
    ensures NonIncreasing(TryMove(from, to).from) && NonIncreasing(TryMove(from, to).to)
  {
    var t := TryMove(from, to);
    if t.outcome == Ok {
      forall i | 0 < i < |t.to| ensures t.to[i] <= Below(t.to, i) {
        if i < |to| {
          assert Below(t.to, i) == Below(to, i);
        }
      }
      forall i | 0 < i < |t.from| ensures t.from[i] <= Below(t.from, i) {
        assert Below(t.from, i) == Below(from, i);
      }
    }
  }

  /** A move between two strictly descending pegs keeps them strictly
      descending unless the two top rings have the same size. */
  lemma TryMoveKeepsDescending(from: seq<nat>, to: seq<nat>)
    requires Descending(from) && Descending(to)
    requires from != [] && to != [] ==> Top(from) != Top(to)
    ensures Descending(TryMove(from, to).from) && Descending(TryMove(from, to).to)
  {
    var t := TryMove(from, to);
    if t.outcome == Ok {
      forall i, j | 0 <= i < j < |t.to| ensures t.to[j] < t.to[i] {
        if j == |to| && i < |to| - 1 {
          assert to[i] > Top(to);
        }
      }
    }
  }
}
