/** A peg of the modular program: a named, coloured stack of ring sizes
    whose last element is the top ring. */
module Stacks {
  import opened Colors
  import opened Rings

  class Stack {
    var rings: seq<nat>
    var color: Color
    var name: string

    /** A peg holding exactly the given rings. */
    constructor (name: string, rings: seq<nat>, color: Color)
      ensures this.rings == rings && this.color == color && this.name == name
    {
      this.rings := rings;
      this.color := color;
      this.name := name;
    }

    /** A peg holding the full tower `size, size - 1, ..., 1`, pushed one
        ring at a time from the largest down. */
    constructor OfSize(name: string, size: nat, color: Color)
      ensures rings == FullTower(size) && this.color == color && this.name == name
    {
      var tower: seq<nat> := [];
      var ring := size;
      while ring >= 1
        invariant 0 <= ring <= size
        invariant |tower| == size - ring
        invariant forall i :: 0 <= i < |tower| ==> tower[i] == size - i
      {
        tower := tower + [ring];
        ring := ring - 1;
      }
      rings := tower;
      this.color := color;
      this.name := name;
    }

    /** Moves this peg's top ring onto `target`, or reports why it cannot:
        "Nothing to move" when this peg is empty (checked first), "Cannot put
        a larger ring on a smaller one" when the ring is larger than the top
        of a non-empty `target`. A refused move changes neither peg; names
        and colours never change. */
    method MoveRing(target: Stack) returns (r: Outcome)
      requires target != this
      modifies this`rings, target`rings
      ensures var t := TryMove(old(rings), old(target.rings));
        r == t.outcome && rings == t.from && target.rings == t.to
    {
      if |rings| == 0 {
        return Err(NothingToMove);
      }
      if |target.rings| != 0 && rings[|rings| - 1] > target.rings[|target.rings| - 1] {
        return Err(LargerOnSmaller);
      }
      var ring := rings[|rings| - 1];
      rings := rings[..|rings| - 1];
      target.rings := target.rings + [ring];
      r := Ok;
    }
  }
}
