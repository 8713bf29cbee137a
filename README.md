# Tower of Hanoi solver, modelled in Dafny

This project models a small Rust Tower of Hanoi program. It has:

- three coloured pegs (`Stack`), each holding ring sizes bottom first;
- a single guarded move (`move_ring`) that is the only way rings change pegs;
- the recursive three-peg solver (`move_stack`), with an optional depth and
  a shared step counter;
- a row-major glyph buffer (`Screen`) that draws rings, poles and bases as
  box-drawing glyphs.

The repository also has an earlier, self-contained version of the program in
`src/main.rs`. It has its own peg, move, solver, ring colours and a six-ring
run, and it is modelled alongside the modular version.

The model is organised as follows:

- `colors.dfy` (`Colors`): the terminal colours, and the colour of a ring
  of a given size.
- `rings.dfy` (`Rings`): a peg's rings as a sequence, the two move errors
  and their messages, the full tower, and `TryMove`. `TryMove` is the
  value-level move: which error is reported when, and what the two pegs
  become.
- `solution.dfy` (`Solution`) holds the solver as a function, `Solve`. It
  returns the final pegs, the outcome and the trace of attempted moves, and
  holds the lemmas about the solver:
  - the trace replays to the result;
  - the first error stops the solve;
  - a tower lands on the target in order, via the classical move sequence;
  - the move count is 2^n - 1;
  - every intermediate state is legal.
- `stack.dfy` (`Stacks`): the peg class of `src/stack.rs`. Its `MoveRing`
  updates both pegs in place and is proved equal to `TryMove`.
- `solver.dfy` (`Solver`): the recursive `MoveStack` of `src/solver.rs`. It
  updates three pegs in place and is proved to compute exactly `Solve`.
- `canvas.dfy` (`Canvas`) covers what is drawn, as values:
  - glyphs, and the ring and peg glyph lookups;
  - the effect of painting a ring or a peg on the cell sequence;
  - the screen's text;
  - the layout lemmas that say where each ring, pole and base glyph lands.
- `screen.dfy` (`Screens`): the `Screen` class over an array of cells. Its
  painting methods are proved to produce exactly the `Canvas` functions.
- `legacy.dfy` (`Legacy`): `src/main.rs`'s peg, `move_ring` and
  `move_stack`, and its six-ring run.

The step counter (`&mut u32`) is an in/out parameter. `MoveStack` takes
`step` and returns `steps`, and it adds one for every attempted move,
including a refused one. The verbose and interactive switches are off, as
they are in the source, so the printing and pausing calls do nothing.

One boundary case of the code departs from its evident intent. Moving a
tower of zero rings should make no move and report no error. The code
instead computes `source.rings.len() - 1` on an empty source, which fails in
unsigned arithmetic (`src/solver.rs:24-26`, `src/main.rs:75-77`). The model
follows the code. `Solve` and both `MoveStack`s require `depth >= 1` or a
single-ring source, which is exactly the set of calls that do not underflow.
The discrepancy is recorded under Findings.

## Model

| member | source | states |
|---|---|---|
| Colors.GetRingColor | src/screen.rs:160-169 | a ring's colour is red, bright green, yellow or blue, never white or plain green: the white arm is unreachable |
| Colors.RingColorCycle | src/main.rs:109-118 | two rings share a colour exactly when their sizes agree modulo 4 (both directions) |
| Rings.FullTower | src/stack.rs:19-23 | the full tower of size n has n rings, strictly decreasing from bottom to top, n at the bottom and 1 on top, all between 1 and n |
| Rings.TryMoveOutcomes | src/stack.rs:52-59 | an empty source fails with "Nothing to move" (checked first); a top larger than a non-empty target's top fails with "Cannot put a larger ring on a smaller one"; otherwise the move succeeds (equal sizes included). A refused move leaves both pegs unchanged, and a successful one pops the source's top and pushes it on the target. Each outcome is stated both ways |
| Rings.TryMoveConserves | src/stack.rs:58 | a move, accepted or not, keeps the total ring count and the multiset of rings |
| Rings.TryMoveKeepsOrder | src/stack.rs:55-58 | a move keeps both pegs non-increasing from bottom to top |
| Rings.TryMoveKeepsDescending | src/stack.rs:55-58 | a move keeps both pegs strictly descending when their tops differ in size |
| Stacks.Stack.constructor | src/stack.rs:12-18 | the new peg holds exactly the given rings, colour and name |
| Stacks.Stack.OfSize | src/stack.rs:19-29 | the descending push loop builds exactly `FullTower(size)` |
| Stacks.Stack.MoveRing | src/stack.rs:32-60 | the result and both pegs' new rings are those of `TryMove` on the old rings; names and colours are untouched |
| Solver.MoveStack | src/solver.rs:3-48 | the three pegs end as `Solve` says, the result is `Solve`'s outcome, and the counter grows by the number of moves `Solve` attempts. The depth defaults to the source's size; the base case is one move; the first error aborts |
| Solver.MoveWholeStack | src/solver.rs:10-28 | the corrected whole-peg solve: the result is `SolveTower`'s, with an empty source leaving everything unchanged and reporting success |
| Solution.SolveReplaysTrace | src/solver.rs:18-47 | replaying the solve's trace move by move from the initial pegs reaches its final pegs and outcome and attempts every move of the trace: nothing is rolled back or skipped |
| Solution.SolveStopsAtFirstError | src/solver.rs:29-39 | in a failed solve every move before the last succeeds, and the last move is the refused one, which leaves the pegs as they were |
| Solution.SolveFromEmpty | src/solver.rs:18-33 | a solve of depth at least 1 from an empty source fails with "Nothing to move" after exactly one attempted move, changing no peg |
| Solution.SolveStopsAtUncoveredRing | src/solver.rs:35-39 | whenever the first nested call succeeds and the uncovered ring cannot be placed, the solve returns that error ("Nothing to move" for an empty source, otherwise "Cannot put a larger ring on a smaller one"), leaves the pegs as the first nested call left them, ends its trace with the refused move and never starts the second nested call |
| Solution.UncoveredRingExample | src/solver.rs:29-39 | for example `[2, 1]` onto `[1]`: ring 1 goes to the helper, ring 2 is refused on the target, and the solve fails after two moves |
| Solution.HanoiThree | src/solver.rs:29-47 | the classical sequence for three rings is A→B, A→C, B→C, A→B, C→A, C→B, A→B |
| Solution.HanoiLength | src/solver.rs:29-47 | the classical sequence for d rings has 2^d - 1 moves |
| Solution.SolveMovesTower | src/solver.rs:3-48 | if the top d ≥ 1 rings of the source are non-increasing and every peg accepts the largest of them, the solve succeeds. Those rings end on top of the target in the same order, the helper and the rest of the source are unchanged, and the moves are the classical ones |
| Solution.SolveMoveCount | src/solver.rs:19-35 | under the same condition the solve attempts exactly 2^d - 1 moves, so the counter grows by 2^d - 1 |
| Solution.SolveEveryMoveLegal | src/solver.rs:20-39 | under the same condition every prefix of the trace replays without error, and from ordered pegs every intermediate state has no ring on a smaller one |
| Solution.SolveThereAndBack | src/solver.rs:3-48 | solving a tower onto the target and then back onto the source restores all three pegs |
| Solution.SolveFullTower | src/solver.rs:3-48 | a full tower of n ≥ 1 rings moves onto two empty pegs in 2^n - 1 moves and arrives intact |
| Solution.SolveThreeRings | src/solver.rs:3-48 | three rings `[3, 2, 1]` end on the target after the seven classical moves |
| Solution.ReplayKeepsOrder | src/stack.rs:55-58 | any sequence of attempted moves from ordered pegs leaves the pegs ordered |
| Solution.ZeroRingsUnderflow | src/solver.rs:18-26 | for an empty source with no depth the base case is skipped and the next depth is -1 |
| Solution.SolveTowerMovesAll | src/solver.rs:10-14 | the corrected whole-tower solve moves any non-increasing tower that both other pegs accept in 2^n - 1 moves. This includes n = 0: no move and no error |
| Canvas.GetRingPieces | src/screen.rs:171-179 | a ring's glyphs are a left cap, body and right cap in one tint, never uncoloured |
| Canvas.RingPiecesFollowColor | src/screen.rs:171-179 | two rings get the same glyphs exactly when they get the same colour |
| Canvas.GetStackPieces | src/screen.rs:181-189 | a peg's glyphs are a pole, junction and fill in one tint, uncoloured exactly for bright green and white pegs |
| Canvas.PaintRingsCell | src/screen.rs:127-135 | when every ring fits in its row, ring i ends on row `floor - 1 - i` and the cell d columns from the centre shows that ring's glyph for d, even after the later rings are painted |
| Canvas.PaintPolesCell | src/screen.rs:137-143 | the pole stage writes the pole glyph at the centre column of exactly the rows of slots from the ring count up to `largest - 1`, and keeps every other in-row cell |
| Canvas.PaintStackRing | src/screen.rs:124-135 | in a painted peg, ring i from the bottom is drawn on row `oy + largest - 1 - i`, centred on column `ox + largest`: caps at its two ends, body between |
| Canvas.PaintStackPole | src/screen.rs:137-143 | every slot from the ring count up to `largest - 1` shows the pole glyph at the centre column |
| Canvas.PaintStackBase | src/screen.rs:144-156 | the base row shows fill at the two cells either side of the centre, and at the centre the junction exactly when the peg is empty |
| Canvas.PaintStackElsewhere | src/screen.rs:117-157 | cells above or below the peg's box, or more than two columns beside it, keep their glyphs |
| Canvas.LinesLayout | src/screen.rs:62-70 | the text of r rows has r lines of `cols` glyphs, each followed by a line break; item c of line r is the cell at row r, column c |
| Screens.Screen.constructor | src/screen.rs:73-79 | a new screen has `rows * cols` cells, all blank |
| Screens.Screen.Row | src/screen.rs:81-84 | row r is `cols` cells long and its c-th element is the cell at position `cols * r + c` |
| Screens.Screen.IndexInRow | src/screen.rs:86-89 | looking up row r, column c gives the c-th element of row r |
| Screens.Screen.Set | src/screen.rs:96-99 | only the cell at position `cols * r + c` changes, and it now holds the value |
| Screens.Screen.PrintRing | src/screen.rs:101-115 | the cells from `x - ring` to `x + ring` of row y take the left cap, body and right cap (a ring of size 0 gives one body glyph), and no other cell changes |
| Screens.Screen.PrintStack | src/screen.rs:117-157 | the buffer becomes `PaintStack` of the old buffer: rings, then poles, then base |
| Screens.Screen.PrintRings | src/screen.rs:127-135 | the ring loop paints ring i centred on row `floor - 1 - i`, bottom ring first |
| Screens.Screen.PrintPoles | src/screen.rs:136-143 | the pole loop paints the pole for each empty slot and nothing when the peg is full or over-full |
| Screens.Screen.PrintBase | src/screen.rs:144-156 | the base writes fill either side of the centre, then junction or fill at the centre |
| Screens.Screen.Text | src/screen.rs:62-70 | the screen's text has `rows * (cols + 1)` items |
| Screens.Screen.TextLayout | src/screen.rs:62-70 | item c of line r of the text is the cell at row r, column c, and every line ends in a line break |
| Legacy.Stack.constructor | src/main.rs:17-23 | the new peg holds exactly the given rings, colour and name |
| Legacy.MoveRing | src/main.rs:120-143 | the result and both pegs' new rings are those of `TryMove`: "Nothing to move" first, then "Cannot put a larger ring on a smaller one", otherwise pop and push |
| Legacy.MoveStack | src/main.rs:54-99 | the same exact correspondence with `Solve` as the modular solver, so every `Solve` lemma applies |
| Legacy.SixRings | src/main.rs:42-52 | moving `[6, 5, 4, 3, 2, 1]` from red to blue via yellow from step 0 succeeds (so the unwrap does not panic) with step 63, red and yellow empty and blue `[6, 5, 4, 3, 2, 1]` |

## Left out

- Printing and terminal interaction are not modelled. This covers:
  - the move and stack messages of `move_ring` and `move_stack`;
  - `display_stacks` and `pause`, with its read from standard input;
  - the clear-screen escape.

  The verbose and interactive switches are taken as false, as the source
  sets them, and the display calls in the solver as doing nothing.
- The `fmt::Display` implementations of both `Stack`s are not modelled.
  They build coloured, comma-joined text.
- The ANSI escape strings are not modelled. A glyph is a shape and a tint;
  the escape codes 31, 32;1, 33 and 34 become the tints red, green, yellow
  and blue. `Screen`'s text is a sequence of glyph and line-break tokens,
  not characters.
- `Color` keeps only the six colours the program names (red, green, bright
  green, yellow, blue, white). The terminal library's colour type has more;
  `get_stack_pieces` gives every colour other than red, blue, yellow and
  green the plain glyphs, which here means bright green and white only.
- `Screen::index_mut` is not modelled. It only hands out a mutable
  reference to the cell that `index` reads.
- The wiring between `src/solver.rs`, `src/stack.rs` and the crate root is
  not modelled. The crate root that defines `IS_VERBOSE`, `pause` and
  `display_stacks` for them is not part of this model.
- Solver.MoveStack: does not model the 32-bit wrap-around of `step`; the
  counter is an unbounded natural number.
- Legacy.MoveStack: does not model the 32-bit wrap-around of `step`; the
  counter is an unbounded natural number.
- Legacy.Stack.constructor: ring sizes are natural numbers, not `u32`.
  The only arithmetic on them is `% 4` in the ring colour, which cannot
  overflow; everything else compares them.
- Screens.Screen.constructor: `row * col` is an unbounded product, so an
  allocation that would overflow `usize` is not modelled.
- Screens.Screen.PrintStack: the ring sizes come from the peg unchanged.
  The `try_into().unwrap()` from `usize` to `usize` cannot fail.
- Canvas.PaintStackRing, Canvas.PaintStackPole and
  Canvas.PaintStackElsewhere: these layout lemmas assume the peg fits in
  its rows (at most `largest` rings, none wider than `largest`, the box
  narrower than the screen). Outside that assumption the exact effect is
  still `PaintStack`, where a column past a row's end lands in the next
  row, as in the source.
- Solve: a zero-ring solve with no depth is excluded by its precondition.
  The code fails there; see Findings.

## Findings

| source | as written | input that shows it | evidently intended | confidence | as-written member | corrected member |
|---|---|---|---|---|---|---|
| src/solver.rs:24-26 | with no depth and an empty source the base case is skipped and `source.rings.len() - 1` is computed in `usize` | `move_stack` on an empty source with `max_depth` `None` | a tower of zero rings needs zero moves and no error | medium, not executed | Solution.ZeroRingsUnderflow | Solver.MoveWholeStack |
