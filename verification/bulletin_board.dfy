/**
 * server/BulletinBoard: the shared board state. Every method that reads or
 * changes the lists is `synchronized`, and `getNote` searches the copy that
 * the synchronized `getNotes` returns, so each operation is modelled as one
 * atomic step: a pure function from the board before to the board after,
 * paired with the value the Java method returns. Queries return fresh
 * lists, but the notes in them are the board's own objects; here notes are
 * values. `getNotes` and `getPins` are the `notes` and `pins` fields.
 */
module BulletinBoard {
  import opened Wrappers
  import opened JavaStrings
  import opened Lists
  import opened Notes

  /** A pin is just a coordinate. */
  datatype Pin = Pin(x: int, y: int)

  /** Fixed board and note dimensions, then the notes and pins in insertion order. */
  datatype Board = Board(
    boardWidth: int, boardHeight: int, noteWidth: int, noteHeight: int,
    notes: seq<Note>, pins: seq<Pin>)

  /** The board an operation leaves behind and the value it returns. */
  datatype Step<R> = Step(board: Board, result: R)

  /** The constructor: given dimensions, no notes, no pins. */
  function NewBoard(boardWidth: int, boardHeight: int, noteWidth: int, noteHeight: int): (b: Board)
    ensures b.boardWidth == boardWidth && b.boardHeight == boardHeight
    ensures b.noteWidth == noteWidth && b.noteHeight == noteHeight
    ensures b.notes == [] && b.pins == []
    ensures Valid(b)
  {
    Board(boardWidth, boardHeight, noteWidth, noteHeight, [], [])
  }

  /** isValidNotePosition: a note at (x, y) lies completely on the board. */
  predicate IsValidNotePosition(b: Board, x: int, y: int) {
    x >= 0 && y >= 0 && x + b.noteWidth <= b.boardWidth && y + b.noteHeight <= b.boardHeight
  }

  /** notesCompletelyOverlap: same origin, hence (fixed size) the same footprint. */
  predicate NotesCompletelyOverlap(a: Note, c: Note) {
    a.x == c.x && a.y == c.y
  }

  predicate DifferentOrigins(a: Note, c: Note) {
    !NotesCompletelyOverlap(a, c)
  }

  /** isPinInsideNote, with the board's note dimensions. */
  predicate IsPinInsideNote(b: Board, pinX: int, pinY: int, n: Note) {
    pinX >= n.x && pinX < n.x + b.noteWidth && pinY >= n.y && pinY < n.y + b.noteHeight
  }

  /** The board invariant: every note on the board, no two notes with one origin. */
  ghost predicate Valid(b: Board) {
    && (forall n :: n in b.notes ==> IsValidNotePosition(b, n.x, n.y))
    && Pairwise(b.notes, DifferentOrigins)
  }

  /** The overlap loop of addNote. */
  function OverlapsExisting(notes: seq<Note>, note: Note): (r: bool)
    ensures r <==> exists m :: m in notes && m.x == note.x && m.y == note.y
  {
    if notes == [] then false
    else NotesCompletelyOverlap(note, notes[0]) || OverlapsExisting(notes[1..], note)
  }

  /** addNote: rejects a note off the board or on an occupied origin; otherwise appends it. */
  function AddNote(b: Board, note: Note): (r: Step<bool>)
    ensures r.result <==>
      && 0 <= note.x && 0 <= note.y
      && note.x + b.noteWidth <= b.boardWidth && note.y + b.noteHeight <= b.boardHeight
      && forall m :: m in b.notes ==> m.x != note.x || m.y != note.y
    ensures r.result ==> r.board == b.(notes := b.notes + [note])
    ensures !r.result ==> r.board == b
  {
    if !IsValidNotePosition(b, note.x, note.y) then
      Step(b, false)
    else if OverlapsExisting(b.notes, note) then
      Step(b, false)
    else
      Step(b.(notes := b.notes + [note]), true)
  }

  /** removeNote: deletes the first note with the id; pins are never touched. */
  function RemoveNote(b: Board, noteId: Option<string>): (r: Step<bool>)
    ensures r.result <==> noteId.Some? && exists n :: n in b.notes && n.id == noteId.value
    ensures r.board.pins == b.pins
    ensures r.result ==> exists i ::
      && 0 <= i < |b.notes| && b.notes[i].id == noteId.value
      && (forall j :: 0 <= j < i ==> b.notes[j].id != noteId.value)
      && r.board == b.(notes := b.notes[..i] + b.notes[i + 1..])
    ensures !r.result ==> r.board == b
  {
    if noteId.None? then
      Step(b, false)
    else
      match FindFirst(b.notes, (n: Note) => n.id == noteId.value)
      case None => Step(b, false)
      case Some(i) => Step(b.(notes := RemoveAt(b.notes, i)), true)
  }

  /** getNote: the first note with the id, or null. */
  function GetNote(b: Board, noteId: Option<string>): (r: Option<Note>)
    ensures r.Some? <==> noteId.Some? && exists n :: n in b.notes && n.id == noteId.value
    ensures r.Some? ==> exists i ::
      && 0 <= i < |b.notes| && b.notes[i] == r.value && r.value.id == noteId.value
      && forall j :: 0 <= j < i ==> b.notes[j].id != noteId.value
  {
    if noteId.None? then
      None
    else
      match FindFirst(b.notes, (n: Note) => n.id == noteId.value)
      case None => None
      case Some(i) => Some(b.notes[i])
  }

  /** The search loop of addPin. */
  function AnyNoteCovers(b: Board, notes: seq<Note>, x: int, y: int): (r: bool)
    ensures r <==> exists n :: n in notes && IsPinInsideNote(b, x, y, n)
  {
    if notes == [] then false
    else IsPinInsideNote(b, x, y, notes[0]) || AnyNoteCovers(b, notes[1..], x, y)
  }

  /** addPin: one new pin iff some note's rectangle covers the point. */
  function AddPin(b: Board, x: int, y: int): (r: Step<bool>)
    ensures r.result <==> exists n :: n in b.notes && ContainsPoint(n, x, y, b.noteWidth, b.noteHeight)
    ensures r.result ==> r.board == b.(pins := b.pins + [Pin(x, y)])
    ensures !r.result ==> r.board == b
  {
    if AnyNoteCovers(b, b.notes, x, y) then Step(b.(pins := b.pins + [Pin(x, y)]), true)
    else Step(b, false)
  }

  /** removePin: deletes the first pin at exactly (x, y), leaving any later duplicate. */
  function RemovePin(b: Board, x: int, y: int): (r: Step<bool>)
    ensures r.result <==> Pin(x, y) in b.pins
    ensures r.board.notes == b.notes
    ensures multiset(r.board.pins) == multiset(b.pins) - multiset{Pin(x, y)}
    ensures r.result ==> exists i ::
      && 0 <= i < |b.pins| && b.pins[i] == Pin(x, y) && Pin(x, y) !in b.pins[..i]
      && r.board == b.(pins := b.pins[..i] + b.pins[i + 1..])
    ensures !r.result ==> r.board == b
  {
    match FindFirst(b.pins, (p: Pin) => p.x == x && p.y == y)
    case None => Step(b, false)
    case Some(i) => Step(b.(pins := RemoveAt(b.pins, i)), true)
  }

  /** The inner pin loop of shake, which stops at the first covering pin. */
  function PinnedBy(b: Board, pins: seq<Pin>, n: Note): (r: bool)
    ensures r <==> exists p :: p in pins && IsPinInsideNote(b, p.x, p.y, n)
  {
    if pins == [] then false
    else IsPinInsideNote(b, pins[0].x, pins[0].y, n) || PinnedBy(b, pins[1..], n)
  }

  /** A note is pinned iff some pin of the board lies inside it. */
  function IsPinned(b: Board, n: Note): bool {
    PinnedBy(b, b.pins, n)
  }

  /**
   * shake as written: collect the unpinned notes, then removeAll of them.
   * It keeps exactly the pinned notes, in order, and reports how many went.
   */
  function Shake(b: Board): (r: Step<int>)
    ensures r.board == b.(notes := r.board.notes)
    ensures IsSubsequence(r.board.notes, b.notes)
    ensures forall n :: multiset(r.board.notes)[n] == if IsPinned(b, n) then multiset(b.notes)[n] else 0
    ensures forall n :: n in r.board.notes <==> n in b.notes && IsPinned(b, n)
    ensures r.result == |b.notes| - |r.board.notes|
  {
    var toRemove := Filter(b.notes, (n: Note) => !IsPinned(b, n));
    var kept := Filter(b.notes, (n: Note) => n !in toRemove);
    FilterCongruent(b.notes, (n: Note) => n !in toRemove, (n: Note) => IsPinned(b, n));
    assert multiset(toRemove) + multiset(kept) == multiset(b.notes);
    Step(b.(notes := kept), |toRemove|)
  }

  /** getNotesContaining: the notes whose rectangle holds (x, y), in board order. */
  function GetNotesContaining(b: Board, x: int, y: int): (r: seq<Note>)
    ensures IsSubsequence(r, b.notes)
    ensures forall n ::
              multiset(r)[n] == if ContainsPoint(n, x, y, b.noteWidth, b.noteHeight) then multiset(b.notes)[n] else 0
    ensures forall n :: n in r <==> n in b.notes && ContainsPoint(n, x, y, b.noteWidth, b.noteHeight)
  {
    Filter(b.notes, (n: Note) => ContainsPoint(n, x, y, b.noteWidth, b.noteHeight))
  }

  /** getNotesByColour: the notes whose colour equals the argument exactly (none for null). */
  function GetNotesByColour(b: Board, colour: Option<string>): (r: seq<Note>)
    ensures IsSubsequence(r, b.notes)
    ensures forall n :: multiset(r)[n] == if colour.Some? && n.color == colour.value then multiset(b.notes)[n] else 0
    ensures forall n :: n in r <==> n in b.notes && colour.Some? && n.color == colour.value
    ensures colour.None? ==> r == []
  {
    Filter(b.notes, (n: Note) => colour.Some? && n.color == colour.value)
  }

  /** getNotesByContent: the notes whose text contains the substring. */
  function GetNotesByContent(b: Board, substring: string): (r: seq<Note>)
    ensures IsSubsequence(r, b.notes)
    ensures forall n :: multiset(r)[n] == if Contains(n.message, substring) then multiset(b.notes)[n] else 0
    ensures forall n :: n in r <==> n in b.notes && Contains(n.message, substring)
  {
    Filter(b.notes, (n: Note) => Contains(n.message, substring))
  }

  /** getPinsAt: one copy of Pin(x, y) for each pin at exactly that coordinate. */
  function GetPinsAt(b: Board, x: int, y: int): (r: seq<Pin>)
    ensures |r| == multiset(b.pins)[Pin(x, y)]
    ensures forall p :: p in r ==> p == Pin(x, y)
  {
    var r := Filter(b.pins, (p: Pin) => p.x == x && p.y == y);
    AllEqualCount(r, Pin(x, y));
    r
  }

  /** clear: no notes and no pins; the dimensions stay. */
  function Clear(b: Board): (r: Board)
    ensures r.notes == [] && r.pins == []
    ensures r.boardWidth == b.boardWidth && r.boardHeight == b.boardHeight
    ensures r.noteWidth == b.noteWidth && r.noteHeight == b.noteHeight
  {
    b.(notes := [], pins := [])
  }

  /** Note.containsPoint with the board's note size is the board's own pin test. */
  lemma ContainsPointAgreesWithBoard(b: Board, x: int, y: int, n: Note)
    ensures IsPinInsideNote(b, x, y, n) <==> ContainsPoint(n, x, y, b.noteWidth, b.noteHeight)
  {
  }

  /** A successful addNote keeps every note on the board and all origins distinct. */
  lemma AddNotePreservesValid(b: Board, note: Note)
    requires Valid(b)
    ensures Valid(AddNote(b, note).board)
  {
    var r := AddNote(b, note);
    if r.result {
      var ns := r.board.notes;
      assert ns == b.notes + [note];
      forall i, j | 0 <= i < j < |ns|
        ensures DifferentOrigins(ns[i], ns[j])
      {
        if j < |b.notes| {
          assert ns[i] == b.notes[i] && ns[j] == b.notes[j];
        } else {
          assert ns[i] in b.notes;
        }
      }
    }
  }

  /** Deleting the i-th note keeps the invariant. */
  lemma ValidRemoveAt(b: Board, i: nat)
    requires Valid(b) && i < |b.notes|
    ensures Valid(b.(notes := RemoveAt(b.notes, i)))
  {
    PairwiseRemoveAt(b.notes, i, DifferentOrigins);
    RemoveAtMembers(b.notes, i);
  }

  /** removeNote keeps the invariant: it only drops a note. */
  lemma RemoveNotePreservesValid(b: Board, noteId: Option<string>)
    requires Valid(b)
    ensures Valid(RemoveNote(b, noteId).board)
  {
    if noteId.Some? {
      var i := FindFirst(b.notes, (n: Note) => n.id == noteId.value);
      if i.Some? {
        ValidRemoveAt(b, i.value);
      }
    }
  }

  /** shake keeps the invariant: the survivors are a sub-list of a valid list. */
  lemma ShakePreservesValid(b: Board)
    requires Valid(b)
    ensures Valid(Shake(b).board)
  {
    var r := Shake(b).board;
    PairwiseSubsequence(r.notes, b.notes, DifferentOrigins);
  }

  /** Pin operations and clear never break the invariant. */
  lemma PinsAndClearPreserveValid(b: Board, x: int, y: int)
    requires Valid(b)
    ensures Valid(AddPin(b, x, y).board)
    ensures Valid(RemovePin(b, x, y).board)
    ensures Valid(Clear(b))
  {
  }

  /** After a shake every note is pinned, so a second shake removes nothing. */
  lemma {:induction false} ShakeIdempotent(b: Board)
    ensures Shake(Shake(b).board).result == 0
    ensures Shake(Shake(b).board).board == Shake(b).board
  {
    var b1 := Shake(b).board;
    assert b1.pins == b.pins;
    assert forall n :: n in b1.notes ==> IsPinned(b1, n);
    var toRemove := Filter(b1.notes, (n: Note) => !IsPinned(b1, n));
    assert forall n :: n !in toRemove;
    assert multiset(toRemove) == multiset{};
    assert toRemove == [];
    FilterKeepsAll(b1.notes, (n: Note) => n !in toRemove);
  }

  /** Removing a freshly added note by its (unused) id restores the board. */
  lemma RemoveNoteUndoesAddNote(b: Board, note: Note)
    requires AddNote(b, note).result
    requires forall n :: n in b.notes ==> n.id != note.id
    ensures RemoveNote(AddNote(b, note).board, Some(note.id)) == Step(b, true)
  {
    var ns := b.notes + [note];
    var k := |b.notes|;
    assert forall j :: 0 <= j < k ==> ns[j] == b.notes[j] && b.notes[j] in b.notes;
    FindFirstIs(ns, (n: Note) => n.id == note.id, k);
    assert RemoveAt(ns, k) == b.notes;
  }

  /** Removing a freshly added pin at a coordinate with no older pin restores the board. */
  lemma RemovePinUndoesAddPin(b: Board, x: int, y: int)
    requires AddPin(b, x, y).result
    requires Pin(x, y) !in b.pins
    ensures RemovePin(AddPin(b, x, y).board, x, y) == Step(b, true)
  {
    var ps := b.pins + [Pin(x, y)];
    var k := |b.pins|;
    assert forall j :: 0 <= j < k ==> ps[j] == b.pins[j] && b.pins[j] in b.pins;
    FindFirstIs(ps, (p: Pin) => p.x == x && p.y == y, k);
    assert RemoveAt(ps, k) == b.pins;
  }

  /** After clear every query is empty, no pin can be placed and shake removes nothing. */
  lemma ClearEmptiesBoard(b: Board, x: int, y: int, colour: Option<string>, text: string)
    ensures Clear(b).notes == [] && Clear(b).pins == []
    ensures GetNotesContaining(Clear(b), x, y) == []
    ensures GetNotesByColour(Clear(b), colour) == []
    ensures GetNotesByContent(Clear(b), text) == []
    ensures GetPinsAt(Clear(b), x, y) == []
    ensures !AddPin(Clear(b), x, y).result
    ensures Shake(Clear(b)).result == 0
  {
  }

  /**
   * A worked example on a 100x100 board with 10x10 notes: a note
   * at (0, 0) is accepted, a second one there is refused, one at (95, 95) is
   * off the board; a pin at (5, 5) is accepted and keeps that note through a
   * shake, while an unpinned note at (50, 50) is shaken off.
   */
  lemma PostPinShakeExample()
    ensures var b0 := NewBoard(100, 100, 10, 10);
            var hello := Note("1", 0, 0, "RED", "hello");
            var s1 := AddNote(b0, hello);
            && s1.result
            && !AddNote(s1.board, Note("2", 0, 0, "RED", "bye")).result
            && !AddNote(s1.board, Note("3", 95, 95, "RED", "x")).result
            && var s2 := AddPin(s1.board, 5, 5);
               && s2.result && s2.board.pins == [Pin(5, 5)]
               && var s3 := AddNote(s2.board, Note("4", 50, 50, "RED", "loose"));
                  && s3.result
                  && Shake(s3.board) == Step(s2.board, 1)
  {
    var b0 := NewBoard(100, 100, 10, 10);
    var hello := Note("1", 0, 0, "RED", "hello");
    var s1 := AddNote(b0, hello);
    assert s1.board == b0.(notes := [hello]);
    var s2 := AddPin(s1.board, 5, 5);
    assert ContainsPoint(hello, 5, 5, 10, 10);
    var loose := Note("4", 50, 50, "RED", "loose");
    var s3 := AddNote(s2.board, loose);
    assert s3.board.notes == [hello, loose];
    ScenarioShake(s3.board, hello, loose);
  }

  /** The shake of the worked example: the pinned note stays, the loose one goes. */
  lemma ScenarioShake(b: Board, hello: Note, loose: Note)
    requires b.notes == [hello, loose] && b.pins == [Pin(5, 5)]
    requires b.noteWidth == 10 && b.noteHeight == 10
    requires hello.x == 0 && hello.y == 0 && loose.x == 50 && loose.y == 50
    ensures Shake(b) == Step(b.(notes := [hello]), 1)
  {
    assert IsPinned(b, hello);
    assert !IsPinned(b, loose);
    var toRemove := Filter(b.notes, (n: Note) => !IsPinned(b, n));
    assert toRemove == [loose];
    assert Shake(b).board.notes == [hello];
  }
}
