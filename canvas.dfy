/** What the screen draws, as values: glyphs, the glyph sets of rings and
    pegs, and the effect of painting a ring, a whole peg and the text of a
    row-major glyph buffer. */
module Canvas {
  import opened Colors

  /** The terminal colour a glyph is written in: red, bold green, yellow,
      blue, or none. */
  datatype Tint = RedInk | GreenInk | YellowInk | BlueInk | Plain

  /** The box-drawing shapes: a ring's left cap, body and right cap, and a
      peg's pole, the junction of an empty peg with its base, and the base
      fill. */
  datatype Shape = LeftCap | Body | RightCap | Pole | Junction | Fill

  /** One screen cell: blank, or a shape in a tint. */
  datatype Glyph = Blank | Piece(shape: Shape, tint: Tint)

  /** A ring's left cap, body and right cap. */
  type RingPieces = (Glyph, Glyph, Glyph)

  /** A peg's pole, junction and base fill. */
  type StackPieces = (Glyph, Glyph, Glyph)

  function RingSet(t: Tint): RingPieces {
    (Piece(LeftCap, t), Piece(Body, t), Piece(RightCap, t))
  }

  function StackSet(t: Tint): StackPieces {
    (Piece(Pole, t), Piece(Junction, t), Piece(Fill, t))
  }

  /** The ring glyphs, in the colour of the ring's size. */
  function GetRingPieces(ringSize: nat): (p: RingPieces)
    ensures p.0.Piece? && p.0.tint != Plain && p == RingSet(p.0.tint)
  {
    match GetRingColor(ringSize)
    case Red => RingSet(RedInk)
    case Blue => RingSet(BlueInk)
    case BrightGreen => RingSet(GreenInk)
    case Yellow => RingSet(YellowInk)
    case _ => RingSet(Plain)
  }

  /** Two rings are drawn alike exactly when they have the same colour. */
  lemma RingPiecesFollowColor(a: nat, b: nat)
    ensures GetRingPieces(a) == GetRingPieces(b) <==> GetRingColor(a) == GetRingColor(b)
  {
  }

  /** The peg glyphs in the peg's colour; pegs of any colour other than red,
      blue, yellow and (plain) green are drawn without colour. */
  function GetStackPieces(c: Color): (p: StackPieces)
    ensures p.0.Piece? && p == StackSet(p.0.tint)
    ensures p.0.tint == Plain <==> c == BrightGreen || c == White
  {
    match c
    case Red => StackSet(RedInk)
    case Blue => StackSet(BlueInk)
    case Yellow => StackSet(YellowInk)
    case Green => StackSet(GreenInk)
    case _ => StackSet(Plain)
  }

  // ---------------------------------------------------------------------
  // Row-major cells

  /** The position of row `r`, column `c` in a buffer `cols` cells wide. A
      column past the end of a row lands in a later row. */
  function Flat(cols: nat, r: nat, c: nat): nat {
    cols * r + c
  }

  lemma MulMono(a: nat, b: nat, c: nat)
    requires b <= c
    ensures a * b <= a * c
  {
  }

  /** A cell of row `r1` lies outside any span of columns `lo..hi` of a
      different row `r2`. */
  lemma RowsApart(cols: nat, r1: nat, c1: nat, r2: nat, lo: nat, hi: nat)
    requires c1 < cols && lo <= hi < cols && r1 != r2
    ensures Flat(cols, r1, c1) < Flat(cols, r2, lo) || Flat(cols, r2, hi) < Flat(cols, r1, c1)
  {
    if r1 < r2 {
      MulMono(cols, r1 + 1, r2);
    } else {
      MulMono(cols, r2 + 1, r1);
    }
  }

  // ---------------------------------------------------------------------
  // Rings

  /** The glyph a ring of half-width `ring` shows `d` columns right of its
      centre: caps at the two ends, body elsewhere (a ring of half-width 0
      is a single body glyph). */
  function RingGlyph(p: RingPieces, ring: nat, d: int): Glyph {
    if ring > 0 && d + ring == 0 then p.0
    else if ring > 0 && d == ring then p.2
    else p.1
  }

  /** Painting the ring does not underflow a column and stays inside the
      buffer. */
  predicate RingFits(length: nat, cols: nat, ring: nat, x: nat, y: nat) {
    ring <= x && Flat(cols, y, x) + ring < length
  }

  /** The buffer after painting ring `ring` centred on row `y`, column `x`:
      the `2 * ring + 1` cells around the centre take the ring's glyphs and
      every other cell keeps its glyph. */
  function PaintRing(s: seq<Glyph>, cols: nat, ring: nat, x: nat, y: nat): (t: seq<Glyph>)
    requires RingFits(|s|, cols, ring, x, y)
    ensures |t| == |s|
  {
    var centre := Flat(cols, y, x);
    var p := GetRingPieces(ring);
    seq(|s|, k requires 0 <= k < |s| =>
      if centre - ring <= k <= centre + ring then RingGlyph(p, ring, k - centre) else s[k])
  }

  /** Every ring of a peg fits, the `i`-th from the bottom on row
      `floor - 1 - i`. */
  predicate RingsFit(length: nat, cols: nat, rings: seq<nat>, x: nat, floor: nat) {
    |rings| <= floor
    && forall i :: 0 <= i < |rings| ==> RingFits(length, cols, rings[i], x, floor - 1 - i)
  }

  /** The rings of a peg painted bottom first, each one row above the
      previous, all centred on column `x`. */
  function PaintRings(s: seq<Glyph>, cols: nat, rings: seq<nat>, x: nat, floor: nat): (t: seq<Glyph>)
    requires RingsFit(|s|, cols, rings, x, floor)
    ensures |t| == |s|
    decreases |rings|
  {
    if rings == [] then s
    else
      var n := |rings| - 1;
      assert RingFits(|s|, cols, rings[n], x, floor - 1 - n);
      PaintRing(PaintRings(s, cols, rings[..n], x, floor), cols, rings[n], x, floor - 1 - n)
  }

  // ---------------------------------------------------------------------
  // Pole and base

  /** The pole glyph painted at column `x` of the rows `floor - 1 - j` for
      `low <= j < high`, the slots no ring occupies. */
  function PaintPoles(s: seq<Glyph>, cols: nat, pole: Glyph, low: nat, high: nat, x: nat, floor: nat): (t: seq<Glyph>)
    requires high <= floor && Flat(cols, floor, x) < |s|
    ensures |t| == |s|
    decreases high
  {
    if high <= low then s
    else
      MulMono(cols, floor - high, floor);
      PaintPoles(s, cols, pole, low, high - 1, x, floor)[Flat(cols, floor - high, x) := pole]
  }

  /** The base on row `floor`: fill two cells either side of column `x`, and
      at `x` the junction for an empty peg or fill otherwise. */
  function PaintBase(s: seq<Glyph>, cols: nat, p: StackPieces, empty: bool, x: nat, floor: nat): (t: seq<Glyph>)
    requires 2 <= x && Flat(cols, floor, x) + 2 < |s|
    ensures |t| == |s|
  {
    var centre := Flat(cols, floor, x);
    seq(|s|, k requires 0 <= k < |s| =>
      if k == centre then (if empty then p.1 else p.2)
      else if centre - 2 <= k <= centre + 2 then p.2
      else s[k])
  }

  /** Painting the peg neither underflows nor leaves the buffer. */
  predicate StackFits(length: nat, cols: nat, rings: seq<nat>, largest: nat, ox: nat, oy: nat) {
    RingsFit(length, cols, rings, ox + largest, oy + largest)
    && 2 <= ox + largest && Flat(cols, oy + largest, ox + largest) + 2 < length
  }

  /** A peg with box corner (`ox`, `oy`) and room for `largest` rings: its
      rings, then the pole in the empty slots, then its base. */
  function PaintStack(s: seq<Glyph>, cols: nat, rings: seq<nat>, color: Color, largest: nat, ox: nat, oy: nat): (t: seq<Glyph>)
    requires StackFits(|s|, cols, rings, largest, ox, oy)
    ensures |t| == |s|
  {
    var x := ox + largest;
    var floor := oy + largest;
    var p := GetStackPieces(color);
    var withRings := PaintRings(s, cols, rings, x, floor);
    var withPoles := PaintPoles(withRings, cols, p.0, |rings|, largest, x, floor);
    PaintBase(withPoles, cols, p, |rings| == 0, x, floor)
  }

  // ---------------------------------------------------------------------
  // Where a peg's glyphs land

  /** The peg's picture fits in its rows: it has at most `largest` rings,
      none wider than the largest, and the widest ring and the base end
      before the row does. */
  predicate InRows(cols: nat, rings: seq<nat>, largest: nat, ox: nat) {
    |rings| <= largest
    && (forall i :: 0 <= i < |rings| ==> rings[i] <= largest)
    && ox + 2 * largest < cols && ox + largest + 2 < cols
  }

  /** A cell outside a ring's span keeps its glyph. */
  lemma PaintRingElsewhere(s: seq<Glyph>, cols: nat, ring: nat, x: nat, y: nat, k: nat)
    requires RingFits(|s|, cols, ring, x, y) && k < |s|
    requires k < Flat(cols, y, x - ring) || Flat(cols, y, x + ring) < k
    ensures PaintRing(s, cols, ring, x, y)[k] == s[k]
  {
  }

  /** Ring `i` of the peg ends up on row `floor - 1 - i`: the cell `d`
      columns right of the centre shows that ring's glyph. */
  lemma {:induction false} PaintRingsCell(s: seq<Glyph>, cols: nat, rings: seq<nat>, x: nat, floor: nat, i: nat, d: int)
    requires RingsFit(|s|, cols, rings, x, floor)
    requires forall j :: 0 <= j < |rings| ==> x + rings[j] < cols
    requires i < |rings| && -rings[i] <= d <= rings[i]
    ensures Flat(cols, floor - 1 - i, x + d) < |s|
    ensures PaintRings(s, cols, rings, x, floor)[Flat(cols, floor - 1 - i, x + d)]
         == RingGlyph(GetRingPieces(rings[i]), rings[i], d)
    decreases |rings|
  {
    var n := |rings| - 1;
    var k := Flat(cols, floor - 1 - i, x + d);
    assert RingFits(|s|, cols, rings[i], x, floor - 1 - i);
    assert RingFits(|s|, cols, rings[n], x, floor - 1 - n);
    var before := PaintRings(s, cols, rings[..n], x, floor);
    if i < n {
      assert rings[..n][i] == rings[i];
      PaintRingsCell(s, cols, rings[..n], x, floor, i, d);
      assert x + rings[i] < cols && x + rings[n] < cols;
      RowsApart(cols, floor - 1 - i, x + d, floor - 1 - n, x - rings[n], x + rings[n]);
      PaintRingElsewhere(before, cols, rings[n], x, floor - 1 - n, k);
    } else {
      PaintRingCell(before, cols, rings[n], x, floor - 1 - n, d);
    }
  }

  /** The cell `d` columns right of a ring's centre shows the ring's glyph
      for that offset. */
  lemma PaintRingCell(s: seq<Glyph>, cols: nat, ring: nat, x: nat, y: nat, d: int)
    requires RingFits(|s|, cols, ring, x, y) && 0 <= d + ring && d <= ring
    ensures Flat(cols, y, x + d) < |s|
    ensures PaintRing(s, cols, ring, x, y)[Flat(cols, y, x + d)] == RingGlyph(GetRingPieces(ring), ring, d)
  {
  }

  /** A cell of a row with no pole glyph keeps its glyph under the painting
      of the poles, and the pole rows show the pole at column `x`. */
  lemma {:induction false} PaintPolesCell(s: seq<Glyph>, cols: nat, pole: Glyph, low: nat, high: nat, x: nat, floor: nat, r: nat, c: nat)
    requires high <= floor && Flat(cols, floor, x) < |s| && x < cols
    requires c < cols && Flat(cols, r, c) < |s|
    ensures var t := PaintPoles(s, cols, pole, low, high, x, floor);
      t[Flat(cols, r, c)] == (if c == x && r < floor && low <= floor - 1 - r < high then pole else s[Flat(cols, r, c)])
    decreases high
  {
    if high > low {
      PaintPolesCell(s, cols, pole, low, high - 1, x, floor, r, c);
      if r != floor - high {
        RowsApart(cols, r, c, floor - high, x, x);
      }
    }
  }

  /** Away from the base, a peg's picture is its rings overlaid by its
      pole. */
  lemma PaintStackAboveBase(s: seq<Glyph>, cols: nat, rings: seq<nat>, color: Color, largest: nat, ox: nat, oy: nat, k: nat)
    requires StackFits(|s|, cols, rings, largest, ox, oy) && k < |s|
    requires var centre := Flat(cols, oy + largest, ox + largest); k + 2 < centre || centre + 2 < k
    ensures var x, floor := ox + largest, oy + largest;
      PaintStack(s, cols, rings, color, largest, ox, oy)[k]
      == PaintPoles(PaintRings(s, cols, rings, x, floor), cols, GetStackPieces(color).0, |rings|, largest, x, floor)[k]
  {
  }

  /** Ring `i` of a peg that fits in its rows is drawn on row
      `oy + largest - 1 - i`, centred on column `ox + largest`. */
  lemma PaintStackRing(s: seq<Glyph>, cols: nat, rings: seq<nat>, color: Color, largest: nat, ox: nat, oy: nat, i: nat, d: int)
    requires StackFits(|s|, cols, rings, largest, ox, oy) && InRows(cols, rings, largest, ox)
    requires i < |rings| && -rings[i] <= d <= rings[i]
    ensures var k := Flat(cols, oy + largest - 1 - i, ox + largest + d);
      k < |s| && PaintStack(s, cols, rings, color, largest, ox, oy)[k]
        == RingGlyph(GetRingPieces(rings[i]), rings[i], d)
  {
    var x, floor := ox + largest, oy + largest;
    PaintRingUnderPoles(s, cols, rings, GetStackPieces(color).0, largest, x, floor, i, d);
    RowsApart(cols, floor - 1 - i, x + d, floor, x - 2, x + 2);
    PaintStackAboveBase(s, cols, rings, color, largest, ox, oy, Flat(cols, floor - 1 - i, x + d));
  }

  /** The pole never covers a ring. */
  lemma PaintRingUnderPoles(s: seq<Glyph>, cols: nat, rings: seq<nat>, pole: Glyph, largest: nat, x: nat, floor: nat, i: nat, d: int)
    requires RingsFit(|s|, cols, rings, x, floor) && Flat(cols, floor, x) < |s|
    requires |rings| <= largest <= floor && largest <= x && x + largest < cols
    requires forall j :: 0 <= j < |rings| ==> rings[j] <= largest
    requires i < |rings| && -rings[i] <= d <= rings[i]
    ensures var k := Flat(cols, floor - 1 - i, x + d);
      k < |s| && PaintPoles(PaintRings(s, cols, rings, x, floor), cols, pole, |rings|, largest, x, floor)[k]
        == RingGlyph(GetRingPieces(rings[i]), rings[i], d)
  {
    PaintRingsCell(s, cols, rings, x, floor, i, d);
    PaintPolesCell(PaintRings(s, cols, rings, x, floor), cols, pole, |rings|, largest, x, floor, floor - 1 - i, x + d);
  }

  /** Every slot from the peg's ring count up to `largest - 1` shows the pole
      at the centre column, on row `oy + largest - 1 - j`. */
  lemma PaintStackPole(s: seq<Glyph>, cols: nat, rings: seq<nat>, color: Color, largest: nat, ox: nat, oy: nat, j: nat)
    requires StackFits(|s|, cols, rings, largest, ox, oy) && InRows(cols, rings, largest, ox)
    requires |rings| <= j < largest
    ensures var k := Flat(cols, oy + largest - 1 - j, ox + largest);
      k < |s| && PaintStack(s, cols, rings, color, largest, ox, oy)[k] == GetStackPieces(color).0
  {
    var x, floor := ox + largest, oy + largest;
    var r := floor - 1 - j;
    MulMono(cols, r, floor);
    var p := GetStackPieces(color);
    var withRings := PaintRings(s, cols, rings, x, floor);
    PaintPolesCell(withRings, cols, p.0, |rings|, largest, x, floor, r, x);
    RowsApart(cols, r, x, floor, x - 2, x + 2);
  }

  /** The base row `oy + largest` shows fill at the two cells either side of
      the centre, and at the centre the junction exactly when the peg is
      empty. */
  lemma PaintStackBase(s: seq<Glyph>, cols: nat, rings: seq<nat>, color: Color, largest: nat, ox: nat, oy: nat, e: int)
    requires StackFits(|s|, cols, rings, largest, ox, oy)
    requires -2 <= e <= 2
    ensures var k := Flat(cols, oy + largest, ox + largest) + e;
      0 <= k < |s| && PaintStack(s, cols, rings, color, largest, ox, oy)[k]
        == if e == 0 && rings == [] then GetStackPieces(color).1 else GetStackPieces(color).2
  {
  }

  /** Cells more than two columns left or right of the peg's box, or in
      rows above or below it, keep their glyphs. */
  lemma PaintStackElsewhere(s: seq<Glyph>, cols: nat, rings: seq<nat>, color: Color, largest: nat, ox: nat, oy: nat, r: nat, c: nat)
    requires StackFits(|s|, cols, rings, largest, ox, oy) && InRows(cols, rings, largest, ox)
    requires c < cols && Flat(cols, r, c) < |s|
    requires r < oy || oy + largest < r || c + 2 < ox || ox + 2 * largest + 2 < c
    ensures PaintStack(s, cols, rings, color, largest, ox, oy)[Flat(cols, r, c)] == s[Flat(cols, r, c)]
  {
    var x, floor := ox + largest, oy + largest;
    var k := Flat(cols, r, c);
    var p := GetStackPieces(color);
    PaintRingsAway(s, cols, rings, x, floor, largest, r, c);
    var withRings := PaintRings(s, cols, rings, x, floor);
    PaintPolesCell(withRings, cols, p.0, |rings|, largest, x, floor, r, c);
    if r != floor {
      RowsApart(cols, r, c, floor, x - 2, x + 2);
    }
  }

  /** The helper of `PaintStackElsewhere` for the rings. */
  lemma {:induction false} PaintRingsAway(s: seq<Glyph>, cols: nat, rings: seq<nat>, x: nat, floor: nat, largest: nat, r: nat, c: nat)
    requires RingsFit(|s|, cols, rings, x, floor)
    requires |rings| <= largest <= floor && largest <= x && x + largest < cols
    requires forall j :: 0 <= j < |rings| ==> rings[j] <= largest
    requires c < cols && Flat(cols, r, c) < |s|
    requires r + largest < floor || floor <= r || c + 2 + largest < x || x + largest + 2 < c
    ensures PaintRings(s, cols, rings, x, floor)[Flat(cols, r, c)] == s[Flat(cols, r, c)]
    decreases |rings|
  {
    if rings != [] {
      var n := |rings| - 1;
      assert RingFits(|s|, cols, rings[n], x, floor - 1 - n);
      PaintRingsAway(s, cols, rings[..n], x, floor, largest, r, c);
      if r != floor - 1 - n {
        RowsApart(cols, r, c, floor - 1 - n, x - rings[n], x + rings[n]);
      }
      PaintRingElsewhere(PaintRings(s, cols, rings[..n], x, floor), cols, rings[n], x, floor - 1 - n, Flat(cols, r, c));
    }
  }

  // ---------------------------------------------------------------------
  // The screen as text

  /** One item of the screen's text: a cell's glyph or a line break. */
  datatype Token = Cell(glyph: Glyph) | Newline

  /** Row `r` of the buffer, as text, without its line break. */
  function RowText(s: seq<Glyph>, cols: nat, r: nat): (line: seq<Token>)
    requires Flat(cols, r, cols) <= |s|
    ensures |line| == cols
  {
    seq(cols, c requires 0 <= c < cols => Cell(s[Flat(cols, r, c)]))
  }

  /** The first `rows` rows of the buffer, each followed by a line break. */
  function Lines(s: seq<Glyph>, cols: nat, rows: nat): (text: seq<Token>)
    requires cols * rows <= |s|
    decreases rows
  {
    if rows == 0 then []
    else
      MulMono(cols, rows - 1, rows);
      Lines(s, cols, rows - 1) + RowText(s, cols, rows - 1) + [Newline]
  }

  /** The text of a `rows` by `cols` screen has `rows` lines of `cols`
      glyphs: item `c` of line `r` is the cell at row `r`, column `c`, and
      each line ends in a line break. */
  lemma {:induction false} LinesLayout(s: seq<Glyph>, cols: nat, rows: nat, r: nat, c: nat)
    requires cols * rows <= |s|
    requires r < rows && c <= cols
    ensures c < cols ==> Flat(cols, r, c) < |s|
    ensures |Lines(s, cols, rows)| == (cols + 1) * rows
    ensures (cols + 1) * r + c < (cols + 1) * rows
    ensures Lines(s, cols, rows)[(cols + 1) * r + c]
         == if c < cols then Cell(s[Flat(cols, r, c)]) else Newline
    decreases rows
  {
    MulMono(cols, r + 1, rows);
    MulMono(cols + 1, r + 1, rows);
    MulMono(cols, rows - 1, rows);
    var prefix := Lines(s, cols, rows - 1);
    LinesLength(s, cols, rows - 1);
    assert (cols + 1) * rows == (cols + 1) * (rows - 1) + cols + 1;
    if r < rows - 1 {
      LinesLayout(s, cols, rows - 1, r, c);
    } else {
      assert (cols + 1) * r == |prefix|;
    }
  }

  lemma {:induction false} LinesLength(s: seq<Glyph>, cols: nat, rows: nat)
    requires cols * rows <= |s|
    ensures |Lines(s, cols, rows)| == (cols + 1) * rows
    decreases rows
  {
    if rows > 0 {
      MulMono(cols, rows - 1, rows);
      LinesLength(s, cols, rows - 1);
    }
  }
}
