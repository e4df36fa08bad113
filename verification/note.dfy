/**
 * server/Note: a note, modelled as a value (the Java object is mutable
 * through setMessage), and its half-open containment test.
 */
module Notes {

  /**
   * A note: id, top-left corner (x, y), colour name and text. The datatype
   * constructor is the Java constructor and the destructors are its getters.
   */
  datatype Note = Note(id: string, x: int, y: int, color: string, message: string)

  /** containsPoint: (px, py) lies in [x, x + noteWidth) × [y, y + noteHeight). */
  function ContainsPoint(n: Note, px: int, py: int, noteWidth: int, noteHeight: int): (r: bool)
    ensures r <==> 0 <= px - n.x < noteWidth && 0 <= py - n.y < noteHeight
  {
    px >= n.x && px < n.x + noteWidth && py >= n.y && py < n.y + noteHeight
  }

  /** setMessage: a note that differs from `n` in its text only. */
  function SetMessage(n: Note, message: string): (r: Note)
    ensures r.message == message
    ensures r.id == n.id && r.x == n.x && r.y == n.y && r.color == n.color
  {
    n.(message := message)
  }

  /** The rectangle holds its own origin but neither edge one step past it. */
  lemma ContainsOriginNotFarEdges(n: Note, w: int, h: int)
    requires w > 0 && h > 0
    ensures ContainsPoint(n, n.x, n.y, w, h)
    ensures ContainsPoint(n, n.x + w - 1, n.y + h - 1, w, h)
    ensures !ContainsPoint(n, n.x + w, n.y, w, h)
    ensures !ContainsPoint(n, n.x, n.y + h, w, h)
  {
  }

  /** A rectangle with no width or no height holds no point. */
  lemma DegenerateContainsNothing(n: Note, px: int, py: int, w: int, h: int)
    requires w <= 0 || h <= 0
    ensures !ContainsPoint(n, px, py, w, h)
  {
  }

  /** Setting the message twice keeps the last one; setting the current one changes nothing. */
  lemma SetMessageOverwrites(n: Note, m1: string, m2: string)
    ensures SetMessage(SetMessage(n, m1), m2) == SetMessage(n, m2)
    ensures SetMessage(n, n.message) == n
  {
  }
}
