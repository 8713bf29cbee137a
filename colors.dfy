/** The terminal colours the program names, and the colour a ring of a
    given size is drawn in. */
module Colors {
  datatype Color = Red | Green | BrightGreen | Yellow | Blue | White

  /** The colour of a ring, cycling red, bright green, yellow, blue with
      the ring size; the white arm is never taken. */
  function GetRingColor(ringSize: nat): (c: Color)
    ensures c != White && c != Green
  {
    match ringSize % 4
    case 0 => Red
    case 1 => BrightGreen
    case 2 => Yellow
    case 3 => Blue
    case _ => White
  }

  /** Two rings share a colour exactly when their sizes agree modulo 4. */
  lemma RingColorCycle(a: nat, b: nat)
    ensures GetRingColor(a) == GetRingColor(b) <==> a % 4 == b % 4
  {
  }
}
