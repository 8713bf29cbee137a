/** The screen of the modular program: a `rows` by `cols` buffer of glyphs
    in row-major order, painted in place. */
module Screens {
  import opened Colors
  import opened Canvas
  import opened Stacks

  class Screen {
    const rows: nat
    const cols: nat
    const cells: array<Glyph>

    /** The buffer holds one cell per row and column. */
    predicate Valid() {
      cells.Length == rows * cols
    }

    /** A blank screen of `row` rows and `col` columns. */
    constructor (row: nat, col: nat)
      ensures rows == row && cols == col && Valid() && fresh(cells)
      ensures forall k :: 0 <= k < cells.Length ==> cells[k] == Blank
    {
      rows := row;
      cols := col;
      cells := new Glyph[row * col](_ => Blank);
    }

    /** Row `r`: the `cols` cells from position `cols * r` on. */
    function Row(r: nat): (line: seq<Glyph>)
      reads cells
      requires Flat(cols, r, cols) <= cells.Length
      ensures |line| == cols
      ensures forall c :: 0 <= c < cols ==> line[c] == cells[Flat(cols, r, c)]
    {
      cells[cols * r .. cols * r + cols]
    }

    /** The cell at row `r`, column `c`, looked up at position `cols * r + c`
        (a column past the row's end reads a later row). */
    function Index(r: nat, c: nat): (g: Glyph)
      reads cells
      requires Flat(cols, r, c) < cells.Length
    {
      cells[cols * r + c]
    }

    /** Within a row, looking a cell up agrees with reading it off the row. */
    lemma IndexInRow(r: nat, c: nat)
      requires Flat(cols, r, cols) <= cells.Length && c < cols
      ensures Index(r, c) == Row(r)[c]
    {
    }

    /** Writes `value` at row `r`, column `c`; no other cell changes. */
    method Set(r: nat, c: nat, value: Glyph)
      requires Flat(cols, r, c) < cells.Length
      modifies cells
      ensures cells[..] == old(cells[..])[Flat(cols, r, c) := value]
      ensures Index(r, c) == value
    {
      var i := cols * r;
      cells[i + c] := value;
    }

    /** Paints ring `ring` centred on row `y`, column `x`: the centre, then
        the cells to its left, then those to its right. */
    method PrintRing(ring: nat, x: nat, y: nat)
      requires RingFits(cells.Length, cols, ring, x, y)
      modifies cells
      ensures cells[..] == PaintRing(old(cells[..]), cols, ring, x, y)
    {
      var ringWidth := ring * 2 + 1;
      var halfWidth := (ringWidth - 1) / 2;
      var centre := Flat(cols, y, x);
      var pieces := GetRingPieces(ring);
      ghost var before := cells[..];
      Set(y, x, pieces.1);
      for i := 1 to halfWidth + 1
        invariant forall k :: 0 <= k < cells.Length ==>
          cells[k] == if centre - (i - 1) <= k <= centre then RingGlyph(pieces, ring, k - centre) else before[k]
      {
        Set(y, x - i, if i == halfWidth then pieces.0 else pieces.1);
      }
      for i := 1 to halfWidth + 1
        invariant forall k :: 0 <= k < cells.Length ==>
          cells[k] == if centre - ring <= k <= centre + (i - 1) then RingGlyph(pieces, ring, k - centre) else before[k]
      {
        Set(y, x + i, if i == halfWidth then pieces.2 else pieces.1);
      }
      assert forall k :: 0 <= k < cells.Length ==> cells[..][k] == PaintRing(before, cols, ring, x, y)[k];
    }

    /** Paints peg `stack` in the box whose top-left corner is column `ox`,
        row `oy`, with room for `largest` rings: each ring a row above the
        last, the pole in the empty slots, then the base. */
    method PrintStack(stack: Stack, largest: nat, ox: nat, oy: nat)
      requires StackFits(cells.Length, cols, stack.rings, largest, ox, oy)
      modifies cells
      ensures cells[..] == PaintStack(old(cells[..]), cols, stack.rings, stack.color, largest, ox, oy)
    {
      var largestWidth := largest * 2 + 1;
      var halfWidth := (largestWidth - 1) / 2;
      PrintRings(stack.rings, ox + halfWidth, oy + largest);
      var stackPieces := GetStackPieces(stack.color);
      PrintPoles(stackPieces.0, |stack.rings|, largest, ox + halfWidth, oy + largest);
      PrintBase(stackPieces, |stack.rings| == 0, ox + halfWidth, oy + largest);
    }

    /** The ring stage of `PrintStack`: ring `i` of `rings` centred on column
        `x` of row `floor - 1 - i`, bottom ring first. */
    method PrintRings(rings: seq<nat>, x: nat, floor: nat)
      requires RingsFit(cells.Length, cols, rings, x, floor)
      modifies cells
      ensures cells[..] == PaintRings(old(cells[..]), cols, rings, x, floor)
    {
      ghost var before := cells[..];
      var ringIndex := 0;
      while ringIndex < |rings|
        invariant ringIndex <= |rings|
        invariant RingsFit(cells.Length, cols, rings[..ringIndex], x, floor)
        invariant cells[..] == PaintRings(before, cols, rings[..ringIndex], x, floor)
      {
        assert RingFits(cells.Length, cols, rings[ringIndex], x, floor - 1 - ringIndex);
        PrintRing(rings[ringIndex], x, floor - 1 - ringIndex);
        ringIndex := ringIndex + 1;
        assert rings[..ringIndex][..ringIndex - 1] == rings[..ringIndex - 1];
      }
      assert rings[..ringIndex] == rings;
    }

    /** The pole stage of `PrintStack`: the pole glyph at column `x` of row
        `floor - 1 - j` for every slot `j` from `used` up to `largest - 1`. */
    method PrintPoles(pole: Glyph, used: nat, largest: nat, x: nat, floor: nat)
      requires largest <= floor && Flat(cols, floor, x) < cells.Length
      modifies cells
      ensures cells[..] == PaintPoles(old(cells[..]), cols, pole, used, largest, x, floor)
    {
      ghost var before := cells[..];
      var stackIndex := used;
      while stackIndex < largest
        invariant used <= largest ==>
          stackIndex <= largest && cells[..] == PaintPoles(before, cols, pole, used, stackIndex, x, floor)
        invariant largest < used ==> stackIndex == used && cells[..] == before
      {
        MulMono(cols, floor - stackIndex - 1, floor);
        Set(floor - stackIndex - 1, x, pole);
        stackIndex := stackIndex + 1;
      }
    }

    /** The base stage of `PrintStack`: fill two cells either side of column
        `x` on row `floor`, then the junction (empty peg) or fill at `x`. */
    method PrintBase(stackPieces: StackPieces, empty: bool, x: nat, floor: nat)
      requires 2 <= x && Flat(cols, floor, x) + 2 < cells.Length
      modifies cells
      ensures cells[..] == PaintBase(old(cells[..]), cols, stackPieces, empty, x, floor)
    {
      ghost var before := cells[..];
      var centre := Flat(cols, floor, x);
      var stackHalfWidth := 2;
      for i := 1 to stackHalfWidth + 1
        invariant forall k :: 0 <= k < cells.Length ==>
          cells[k] == if centre - (i - 1) <= k < centre then stackPieces.2 else before[k]
      {
        Set(floor, x - i, stackPieces.2);
      }
      for i := 1 to stackHalfWidth + 1
        invariant forall k :: 0 <= k < cells.Length ==>
          cells[k] == if centre - 2 <= k <= centre + (i - 1) && k != centre then stackPieces.2 else before[k]
      {
        Set(floor, x + i, stackPieces.2);
      }
      if empty {
        Set(floor, x, stackPieces.1);
      } else {
        Set(floor, x, stackPieces.2);
      }
      assert forall k :: 0 <= k < cells.Length ==>
        cells[..][k] == PaintBase(before, cols, stackPieces, empty, x, floor)[k];
    }

    /** The screen as text: each row's glyphs followed by a line break. */
    function Text(): (text: seq<Token>)
      reads cells
      requires Valid()
      ensures |text| == rows * (cols + 1)
    {
      LinesLength(cells[..], cols, rows);
      Lines(cells[..], cols, rows)
    }

    /** Item `c` of line `r` of the text is the cell at row `r`, column `c`,
        and every line ends in a line break. */
    lemma TextLayout(r: nat, c: nat)
      requires Valid() && r < rows && c <= cols
      ensures c < cols ==> Flat(cols, r, c) < cells.Length
      ensures (cols + 1) * r + c < |Text()|
      ensures Text()[(cols + 1) * r + c] == if c < cols then Cell(Index(r, c)) else Newline
    {
      assert cells.Length == cols * rows;
      LinesLayout(cells[..], cols, rows, r, c);
      assert Text() == Lines(cells[..], cols, rows);
      if c < cols {
        MulMono(cols, r + 1, rows);
        assert Flat(cols, r, c) < cells.Length;
        assert cells[..][Flat(cols, r, c)] == Index(r, c);
      }
    }
  }
}
