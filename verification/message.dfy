/**
 * shared/Message (the server-side copy): builders for every command and
 * response line, the note and pin formatters, and the parsers of
 * ';'-separated note and pin lists. A Java int is printed as IntToString;
 * a null String, Integer or List argument is `None`.
 */
module Message {
  import opened Wrappers
  import opened JavaStrings
  import opened Decimal
  import opened Protocol
  import opened Lists

  /** The field delimiter as a one-character string. */
  const Space: string := [Delimiter]

  /** A null message or content is printed as "". */
  function OrEmpty(s: Option<string>): string {
    if s.Some? then s.value else ""
  }

  /** A printed int has no blank, separator, '=' or line end in it. */
  lemma DecimalIsToken(i: int)
    ensures IsToken(IntToString(i))
    ensures Delimiter !in IntToString(i) && ListSeparator !in IntToString(i)
    ensures '=' !in IntToString(i) && '\n' !in IntToString(i)
  {
  }

  // ----- command lines -----

  /** buildPostCommand: "POST x y colour message\n". */
  function BuildPostCommand(x: int, y: int, colour: string, message: Option<string>): string {
    CmdPost + Space + IntToString(x) + Space + IntToString(y) + Space + colour + Space + OrEmpty(message) + LineEnd
  }

  /** buildGetPinsCommand: "GET PINS\n". */
  function BuildGetPinsCommand(): string {
    CmdGet + Space + GetPins + LineEnd
  }

  /**
   * buildGetCommand: "GET", then in this order a colour filter when the
   * colour is non-empty, a contains filter when both coordinates are
   * present, a refersTo filter when the text is non-empty, then "\n".
   */
  function BuildGetCommand(colour: Option<string>, containsX: Option<int>, containsY: Option<int>,
                           refersTo: Option<string>): string
  {
    CmdGet
    + (if colour.Some? && colour.value != "" then Space + FilterColour + colour.value else "")
    + (if containsX.Some? && containsY.Some?
       then Space + FilterContains + IntToString(containsX.value) + Space + IntToString(containsY.value)
       else "")
    + (if refersTo.Some? && refersTo.value != "" then Space + FilterRefersTo + refersTo.value else "")
    + LineEnd
  }

  /** buildPinCommand: "PIN x y\n". */
  function BuildPinCommand(x: int, y: int): string {
    CmdPin + Space + IntToString(x) + Space + IntToString(y) + LineEnd
  }

  /** buildUnpinCommand: "UNPIN x y\n". */
  function BuildUnpinCommand(x: int, y: int): string {
    CmdUnpin + Space + IntToString(x) + Space + IntToString(y) + LineEnd
  }

  function BuildShakeCommand(): string {
    CmdShake + LineEnd
  }

  function BuildDisconnectCommand(): string {
    CmdDisconnect + LineEnd
  }

  function BuildClearCommand(): string {
    CmdClear + LineEnd
  }

  // ----- response lines -----

  /**
   * buildOkResponse: a bare "OK" line exactly when there is no information
   * to carry; otherwise the information sits between "OK " and the line end.
   */
  function BuildOkResponse(info: Option<string>): (r: string)
    ensures r == RespOk + LineEnd <==> info.None? || info.value == ""
    ensures info.Some? && info.value != "" ==>
      && |r| == |info.value| + 4
      && r[..3] == RespOk + Space && r[3..|r| - 1] == info.value && r[|r| - 1] == '\n'
  {
    if info.None? || info.value == "" then RespOk + LineEnd
    else RespOk + Space + info.value + LineEnd
  }

  /** buildErrorResponse: "ERROR code message\n", keeping the blank before an empty message. */
  function BuildErrorResponse(errorCode: string, message: Option<string>): string {
    RespError + Space + errorCode + Space + OrEmpty(message) + LineEnd
  }

  /** Appending a blank and then the field, for every field in order (the StringBuilder pattern). */
  function AppendEach(colours: seq<string>): string {
    if colours == [] then "" else Space + colours[0] + AppendEach(colours[1..])
  }

  /** The fixed fields of the handshake line. */
  function HandshakeFields(boardWidth: int, boardHeight: int, noteWidth: int, noteHeight: int): seq<string> {
    [RespOk, RespBoard, IntToString(boardWidth), IntToString(boardHeight),
     RespNote, IntToString(noteWidth), IntToString(noteHeight), RespColours]
  }

  /** buildHandshakeResponse: the fixed fields, each colour, then "\n"; a null list adds no colour. */
  function BuildHandshakeResponse(boardWidth: int, boardHeight: int, noteWidth: int, noteHeight: int,
                                  colours: Option<seq<string>>): string
  {
    RespOk
    + AppendEach([RespBoard, IntToString(boardWidth), IntToString(boardHeight),
                  RespNote, IntToString(noteWidth), IntToString(noteHeight), RespColours])
    + AppendEach(if colours.Some? then colours.value else [])
    + LineEnd
  }

  // ----- formatters -----

  /** formatNote: "x y colour content", a null content printed as "". */
  function FormatNote(x: int, y: int, colour: string, content: Option<string>): string {
    IntToString(x) + Space + IntToString(y) + Space + colour + Space + OrEmpty(content)
  }

  /** formatPin: "x y". */
  function FormatPin(x: int, y: int): string {
    IntToString(x) + Space + IntToString(y)
  }

  /**
   * A formatted pin never holds a line end; a formatted note holds one
   * exactly when its colour or its content does, since neither is checked.
   */
  lemma FormattedLinesHaveNoLineEnd(x: int, y: int, colour: string, content: Option<string>)
    ensures '\n' !in FormatPin(x, y)
    ensures '\n' !in FormatNote(x, y, colour, content) <==> '\n' !in colour && '\n' !in OrEmpty(content)
  {
    DecimalIsToken(x);
    DecimalIsToken(y);
  }

  // ----- list parsers -----

  /** The four text fields of a parsed note: x, y, colour, content. */
  datatype NoteFields = NoteFields(x: string, y: string, colour: string, content: string)

  /** The two text fields of a parsed pin. */
  datatype PinFields = PinFields(x: string, y: string)

  /** The four note fields, each trimmed. */
  function TrimmedNote(x: string, y: string, colour: string, content: string): NoteFields {
    NoteFields(Trim(x), Trim(y), Trim(colour), Trim(content))
  }

  /** The positions of the first three blanks of a note segment. */
  datatype Cuts = Cuts(endOfX: nat, endOfY: nat, endOfColour: nat)

  /**
   * The three indexOf searches of parseNoteList on one trimmed segment, each
   * starting after the previous blank; fewer than three blanks give nothing.
   */
  function NoteCuts(s: string): (r: Option<Cuts>)
    ensures r.Some? ==> r.value.endOfX < r.value.endOfY < r.value.endOfColour < |s|
  {
    match IndexOfFrom(s, Delimiter, 0)
    case None => None
    case Some(endOfX) =>
      match IndexOfFrom(s, Delimiter, endOfX + 1)
      case None => None
      case Some(endOfY) =>
        match IndexOfFrom(s, Delimiter, endOfY + 1)
        case None => None
        case Some(endOfColour) => Some(Cuts(endOfX, endOfY, endOfColour))
  }

  /** The four substrings between the cuts: x, y, colour and content, untrimmed. */
  function Pieces(s: string, c: Cuts): (r: seq<string>)
    requires c.endOfX < c.endOfY < c.endOfColour < |s|
    ensures |r| == 4
  {
    [s[..c.endOfX], s[c.endOfX + 1..c.endOfY], s[c.endOfY + 1..c.endOfColour], s[c.endOfColour + 1..]]
  }

  /** One segment of parseNoteList: trimmed, skipped when blank, then cut, each field trimmed. */
  function ParseNoteSegment(segment: string): Option<NoteFields> {
    var s := Trim(segment);
    if s == "" then None
    else
      match NoteCuts(s)
      case None => None
      case Some(c) =>
        var p := Pieces(s, c);
        Some(TrimmedNote(p[0], p[1], p[2], p[3]))
  }

  /** The segment loop of parseNoteList: the segments that parse, in order. */
  function ParseNoteSegments(segments: seq<string>): seq<NoteFields> {
    FilterMap(segments, ParseNoteSegment)
  }

  /** parseNoteList: nothing for a null or blank response, else the segments between ';'s. */
  function ParseNoteList(response: Option<string>): seq<NoteFields> {
    if response.None? || Trim(response.value) == "" then []
    else ParseNoteSegments(JavaSplit(response.value, ListSeparator))
  }

  /** One segment of parsePinList: the first two blank-separated fields, trimmed. */
  function ParsePinSegment(segment: string): Option<PinFields> {
    var s := Trim(segment);
    if s == "" then None
    else
      var parts := JavaSplit(s, Delimiter);
      if |parts| >= 2 then Some(PinFields(Trim(parts[0]), Trim(parts[1]))) else None
  }

  /** The segment loop of parsePinList. */
  function ParsePinSegments(segments: seq<string>): seq<PinFields> {
    FilterMap(segments, ParsePinSegment)
  }

  /** parsePinList: nothing for a null or blank response, else the segments between ';'s. */
  function ParsePinList(response: Option<string>): seq<PinFields> {
    if response.None? || Trim(response.value) == "" then []
    else ParsePinSegments(JavaSplit(response.value, ListSeparator))
  }

  // ----- what the parsers recover -----

  /** Reference reading of a note segment: split the trimmed text at its first three blanks. */
  function NoteBySplit(s: string): Option<NoteFields> {
    var parts := SplitLimit(s, Delimiter, 4);
    if |parts| == 4 then Some(TrimmedNote(parts[0], parts[1], parts[2], parts[3]))
    else None
  }

  /** The three indexOf searches of parseNoteList cut exactly where split(" ", 4) cuts. */
  lemma NoteCutsSplit(s: string)
    ensures var parts := SplitLimit(s, Delimiter, 4);
      && (NoteCuts(s).Some? <==> |parts| == 4)
      && (NoteCuts(s).Some? ==> Pieces(s, NoteCuts(s).value) == parts)
  {
    var first := IndexOfFrom(s, Delimiter, 0);
    if first.None? {
      NoCut(s);
    } else {
      var e1 := first.value;
      var second := IndexOfFrom(s, Delimiter, e1 + 1);
      if second.None? {
        OneCut(s, e1);
      } else {
        var e2 := second.value;
        var third := IndexOfFrom(s, Delimiter, e2 + 1);
        if third.None? {
          TwoCuts(s, e1, e2);
        } else {
          ThreeCuts(s, e1, e2, third.value);
        }
      }
    }
  }

  /** No blank: neither reading finds four pieces. */
  lemma NoCut(s: string)
    requires IndexOfFrom(s, Delimiter, 0).None?
    ensures NoteCuts(s).None? && |SplitLimit(s, Delimiter, 4)| == 1
  {
  }

  /** One blank only: neither reading finds four pieces. */
  lemma OneCut(s: string, e1: nat)
    requires IndexOfFrom(s, Delimiter, 0) == Some(e1) && IndexOfFrom(s, Delimiter, e1 + 1).None?
    ensures NoteCuts(s).None? && |SplitLimit(s, Delimiter, 4)| == 2
  {
    SplitLimitSuffixLast(s, Delimiter, e1 + 1, 3);
  }

  /** Two blanks only: neither reading finds four pieces. */
  lemma TwoCuts(s: string, e1: nat, e2: nat)
    requires IndexOfFrom(s, Delimiter, 0) == Some(e1) && IndexOfFrom(s, Delimiter, e1 + 1) == Some(e2)
    requires IndexOfFrom(s, Delimiter, e2 + 1).None?
    ensures NoteCuts(s).None? && |SplitLimit(s, Delimiter, 4)| == 3
  {
    TwoCutsNone(s, e1, e2);
    TwoCutsSplit(s, e1, e2);
  }

  /** With two blanks only, parseNoteList finds no third cut. */
  lemma TwoCutsNone(s: string, e1: nat, e2: nat)
    requires IndexOfFrom(s, Delimiter, 0) == Some(e1) && IndexOfFrom(s, Delimiter, e1 + 1) == Some(e2)
    requires IndexOfFrom(s, Delimiter, e2 + 1).None?
    ensures NoteCuts(s).None?
  {
  }

  /** With two blanks only, split(" ", 4) yields three pieces. */
  lemma TwoCutsSplit(s: string, e1: nat, e2: nat)
    requires IndexOfFrom(s, Delimiter, 0) == Some(e1) && IndexOfFrom(s, Delimiter, e1 + 1) == Some(e2)
    requires IndexOfFrom(s, Delimiter, e2 + 1).None?
    ensures |SplitLimit(s, Delimiter, 4)| == 3
  {
    assert e1 < |s| && e2 < |s|;
    SplitLimitSuffixLast(s, Delimiter, e2 + 1, 2);
    SplitLimitSuffix(s, Delimiter, e1 + 1, 3, e2);
    assert |SplitLimit(s[e1 + 1..], Delimiter, 3)| == 2;
  }

  /** Three blanks: both readings find the same four pieces. */
  lemma ThreeCuts(s: string, e1: nat, e2: nat, e3: nat)
    requires IndexOfFrom(s, Delimiter, 0) == Some(e1) && IndexOfFrom(s, Delimiter, e1 + 1) == Some(e2)
    requires IndexOfFrom(s, Delimiter, e2 + 1) == Some(e3)
    ensures NoteCuts(s).Some? && Pieces(s, NoteCuts(s).value) == SplitLimit(s, Delimiter, 4)
  {
    NoteOfCuts(s, e1, e2, e3);
    assert e1 < e2 < e3 < |s|;
    ThreeCutsParts(s, e1, e2, e3);
    PiecesAre(s, e1, e2, e3, SplitLimit(s, Delimiter, 4));
  }

  /** The cuts of parseNoteList are the three blanks found one after the other. */
  lemma NoteOfCuts(s: string, e1: nat, e2: nat, e3: nat)
    requires IndexOfFrom(s, Delimiter, 0) == Some(e1) && IndexOfFrom(s, Delimiter, e1 + 1) == Some(e2)
    requires IndexOfFrom(s, Delimiter, e2 + 1) == Some(e3)
    ensures NoteCuts(s) == Some(Cuts(e1, e2, e3))
  {
  }

  /** Three blanks found by indexOf are where split(" ", 4) cuts. */
  lemma ThreeCutsParts(s: string, e1: nat, e2: nat, e3: nat)
    requires IndexOfFrom(s, Delimiter, 0) == Some(e1) && IndexOfFrom(s, Delimiter, e1 + 1) == Some(e2)
    requires IndexOfFrom(s, Delimiter, e2 + 1) == Some(e3)
    ensures SplitLimit(s, Delimiter, 4) == [s[..e1], s[e1 + 1..e2], s[e2 + 1..e3], s[e3 + 1..]]
  {
    var tail := SplitLimit(s[e1 + 1..], Delimiter, 3);
    LastTwoCuts(s, e1, e2, e3);
    SplitLimitSuffix(s, Delimiter, 0, 4, e1);
    assert s[0..] == s;
    assert SplitLimit(s, Delimiter, 4) == [s[0..e1]] + tail;
    assert s[0..e1] == s[..e1];
    ConsThree(s[..e1], s[e1 + 1..e2], s[e2 + 1..e3], s[e3 + 1..], tail);
  }

  /** One piece before a list of three is a list of four. */
  lemma ConsThree(h: string, a: string, b: string, c: string, t: seq<string>)
    requires t == [a, b, c]
    ensures [h] + t == [h, a, b, c]
  {
  }

  /** The pieces between three cuts, named. */
  lemma PiecesAre(s: string, e1: nat, e2: nat, e3: nat, x: seq<string>)
    requires e1 < e2 < e3 < |s|
    requires x == [s[..e1], s[e1 + 1..e2], s[e2 + 1..e3], s[e3 + 1..]]
    ensures Pieces(s, Cuts(e1, e2, e3)) == x
  {
  }

  /** The last two of three blanks cut the rest of the text into three pieces. */
  lemma LastTwoCuts(s: string, e1: nat, e2: nat, e3: nat)
    requires e1 < |s|
    requires IndexOfFrom(s, Delimiter, e1 + 1) == Some(e2) && IndexOfFrom(s, Delimiter, e2 + 1) == Some(e3)
    ensures SplitLimit(s[e1 + 1..], Delimiter, 3) == [s[e1 + 1..e2], s[e2 + 1..e3], s[e3 + 1..]]
  {
    LastCut(s, e2, e3);
    SplitLimitSuffix(s, Delimiter, e1 + 1, 3, e2);
  }

  /** The last blank cuts the rest of the text into two pieces. */
  lemma LastCut(s: string, e2: nat, e3: nat)
    requires e2 < |s|
    requires IndexOfFrom(s, Delimiter, e2 + 1) == Some(e3)
    ensures SplitLimit(s[e2 + 1..], Delimiter, 2) == [s[e2 + 1..e3], s[e3 + 1..]]
  {
    SplitLimitSuffix(s, Delimiter, e2 + 1, 2, e3);
    SplitLimitOne(s[e3 + 1..], Delimiter);
  }

  /** A segment parses as the reference reading of its trimmed text. */
  lemma ParseNoteSegmentSplits(segment: string)
    ensures ParseNoteSegment(segment) == NoteBySplit(Trim(segment))
  {
    NoteCutsSplit(Trim(segment));
  }

  /** A note segment parses exactly when its trimmed text has at least three blanks. */
  lemma ParseNoteSegmentDefined(segment: string)
    ensures ParseNoteSegment(segment).Some? <==> multiset(Trim(segment))[Delimiter] >= 3
  {
    ParseNoteSegmentSplits(segment);
    SplitLimitCount(Trim(segment), Delimiter, 4);
  }

  /** A pin segment parses exactly when its trimmed text has a blank. */
  lemma ParsePinSegmentDefined(segment: string)
    ensures ParsePinSegment(segment).Some? <==> Delimiter in Trim(segment)
  {
    var s := Trim(segment);
    if s != "" {
      TrimSpec(segment);
      JavaSplitKeepsAll(s, Delimiter);
      SplitAllCount(s, Delimiter);
      if Delimiter in s {
        assert multiset(s)[Delimiter] >= 1;
      }
    }
  }

  // ----- response fields -----

  /**
   * Splitting the ERROR line (without its line end) at its first two blanks
   * gives back code and message; the codes of `Protocol`, such as
   * ErrInvalidFormat or ErrColourNotSupported, are single words.
   */
  lemma ErrorResponseFields(errorCode: string, message: Option<string>)
    requires Delimiter !in errorCode
    ensures var r := BuildErrorResponse(errorCode, message);
      && r[|r| - 1] == '\n'
      && SplitLimit(r[..|r| - 1], Delimiter, 3) == [RespError, errorCode, OrEmpty(message)]
  {
    var r := BuildErrorResponse(errorCode, message);
    var m := OrEmpty(message);
    JoinCons(Space, RespError, [errorCode, m]);
    JoinTwo(Space, errorCode, m);
    assert [RespError] + [errorCode, m] == [RespError, errorCode, m];
    assert r[..|r| - 1] == Join(Space, [RespError, errorCode, m]);
    SplitLimitJoin([RespError, errorCode, m], Delimiter);
  }

  /** Joining a list that starts with one field and continues with colours. */
  lemma {:induction false} JoinThenAppendEach(a: string, colours: seq<string>)
    ensures Join(Space, [a] + colours) == a + AppendEach(colours)
    decreases |colours|
  {
    if colours == [] {
      assert [a] + colours == [a];
    } else {
      var first, rest := colours[0], colours[1..];
      assert [first] + rest == colours;
      JoinCons(Space, a, colours);
      JoinThenAppendEach(first, rest);
      var j, t := Join(Space, colours), AppendEach(rest);
      assert j == first + t;
      assert AppendEach(colours) == Space + first + t;
      assert a + Space + (first + t) == a + (Space + first + t);
    }
  }

  /** Appending two lists of fields one by one appends the first, then the second. */
  lemma {:induction false} AppendEachConcat(a: seq<string>, b: seq<string>)
    ensures AppendEach(a + b) == AppendEach(a) + AppendEach(b)
    decreases |a|
  {
    if a == [] {
      assert a + b == b;
    } else {
      assert (a + b)[1..] == a[1..] + b;
      AppendEachConcat(a[1..], b);
    }
  }

  /** Without its line end, the handshake line is its fields joined by blanks. */
  lemma HandshakeLine(boardWidth: int, boardHeight: int, noteWidth: int, noteHeight: int,
                      colours: Option<seq<string>>)
    ensures var r := BuildHandshakeResponse(boardWidth, boardHeight, noteWidth, noteHeight, colours);
      var cs := if colours.Some? then colours.value else [];
      && r[|r| - 1] == '\n'
      && r[..|r| - 1] == Join(Space, HandshakeFields(boardWidth, boardHeight, noteWidth, noteHeight) + cs)
  {
    var r := BuildHandshakeResponse(boardWidth, boardHeight, noteWidth, noteHeight, colours);
    var cs := if colours.Some? then colours.value else [];
    var f := HandshakeFields(boardWidth, boardHeight, noteWidth, noteHeight);
    var line := RespOk + AppendEach(f[1..]) + AppendEach(cs);
    assert r == line + LineEnd;
    assert r[..|r| - 1] == line;
    AppendEachConcat(f[1..], cs);
    assert [RespOk] + (f[1..] + cs) == f + cs;
    JoinThenAppendEach(RespOk, f[1..] + cs);
  }

  /** No fixed handshake field holds a blank, and the last one is not empty. */
  lemma HandshakeFieldsAreTokens(boardWidth: int, boardHeight: int, noteWidth: int, noteHeight: int)
    ensures var f := HandshakeFields(boardWidth, boardHeight, noteWidth, noteHeight);
      && (forall i :: 0 <= i < |f| ==> Delimiter !in f[i])
      && f[|f| - 1] != ""
  {
    DecimalIsToken(boardWidth);
    DecimalIsToken(boardHeight);
    DecimalIsToken(noteWidth);
    DecimalIsToken(noteHeight);
  }

  /**
   * Without its line end, the handshake line splits on blanks into the fixed
   * fields followed by the colours, in order, provided no colour holds a
   * blank and the last one is not empty.
   */
  lemma HandshakeResponseFields(boardWidth: int, boardHeight: int, noteWidth: int, noteHeight: int,
                                colours: Option<seq<string>>)
    requires colours.Some? ==> forall i :: 0 <= i < |colours.value| ==> Delimiter !in colours.value[i]
    requires colours.Some? && colours.value != [] ==> colours.value[|colours.value| - 1] != ""
    ensures var r := BuildHandshakeResponse(boardWidth, boardHeight, noteWidth, noteHeight, colours);
      var cs := if colours.Some? then colours.value else [];
      && r[|r| - 1] == '\n'
      && JavaSplit(r[..|r| - 1], Delimiter) == HandshakeFields(boardWidth, boardHeight, noteWidth, noteHeight) + cs
  {
    var cs := if colours.Some? then colours.value else [];
    var f := HandshakeFields(boardWidth, boardHeight, noteWidth, noteHeight);
    HandshakeLine(boardWidth, boardHeight, noteWidth, noteHeight, colours);
    HandshakeFieldsAreTokens(boardWidth, boardHeight, noteWidth, noteHeight);
    assert forall i :: 0 <= i < |f + cs| ==> Delimiter !in (f + cs)[i];
    assert (f + cs)[|f + cs| - 1] != "";
    JavaSplitJoin(f + cs, Delimiter);
  }

  // ----- list round trips -----

  /** A note as the server lists it: position, colour and content. */
  datatype NoteLine = NoteLine(x: int, y: int, colour: string, content: string)

  /**
   * What a note must look like to survive formatting and parsing: a colour
   * with no blank or ';' and untouched by trim, and a non-empty content with
   * no ';' and untouched by trim.
   */
  predicate Listable(n: NoteLine) {
    && Delimiter !in n.colour && ListSeparator !in n.colour && IsTrimmed(n.colour)
    && n.content != "" && ListSeparator !in n.content && IsTrimmed(n.content)
  }

  function FormatNotes(notes: seq<NoteLine>): (r: seq<string>)
    ensures |r| == |notes|
    ensures forall i :: 0 <= i < |notes| ==>
      r[i] == FormatNote(notes[i].x, notes[i].y, notes[i].colour, Some(notes[i].content))
  {
    seq(|notes|, i requires 0 <= i < |notes| =>
      FormatNote(notes[i].x, notes[i].y, notes[i].colour, Some(notes[i].content)))
  }

  /** The fields a listed note should come back as. */
  function NoteFieldsOf(n: NoteLine): NoteFields {
    NoteFields(IntToString(n.x), IntToString(n.y), n.colour, n.content)
  }

  /** A formatted note is its four fields joined by blanks, and trim leaves it alone. */
  lemma FormattedNoteShape(n: NoteLine)
    requires Listable(n)
    ensures var seg := FormatNote(n.x, n.y, n.colour, Some(n.content));
      && seg == Join(Space, [IntToString(n.x), IntToString(n.y), n.colour, n.content])
      && IsTrimmed(seg) && ListSeparator !in seg
  {
    var xs, ys := IntToString(n.x), IntToString(n.y);
    DecimalIsToken(n.x);
    DecimalIsToken(n.y);
    JoinCons(Space, xs, [ys, n.colour, n.content]);
    JoinCons(Space, ys, [n.colour, n.content]);
    JoinTwo(Space, n.colour, n.content);
    assert [xs] + [ys, n.colour, n.content] == [xs, ys, n.colour, n.content];
    assert [ys] + [n.colour, n.content] == [ys, n.colour, n.content];
  }

  /** Formatting a note and parsing the segment gives back its four fields. */
  lemma NoteSegmentRoundTrip(n: NoteLine)
    requires Listable(n)
    ensures ParseNoteSegment(FormatNote(n.x, n.y, n.colour, Some(n.content))) == Some(NoteFieldsOf(n))
  {
    var seg := FormatNote(n.x, n.y, n.colour, Some(n.content));
    var parts := [IntToString(n.x), IntToString(n.y), n.colour, n.content];
    FormattedNoteSplit(n);
    ParseNoteSegmentSplits(seg);
    NoteOfPieces(seg, parts);
    ListableFieldsTrimmed(n);
  }

  /** A formatted note is already trimmed and split(" ", 4) recovers its four fields. */
  lemma FormattedNoteSplit(n: NoteLine)
    requires Listable(n)
    ensures var seg := FormatNote(n.x, n.y, n.colour, Some(n.content));
      && Trim(seg) == seg
      && SplitLimit(seg, Delimiter, 4) == [IntToString(n.x), IntToString(n.y), n.colour, n.content]
  {
    var seg := FormatNote(n.x, n.y, n.colour, Some(n.content));
    var parts := [IntToString(n.x), IntToString(n.y), n.colour, n.content];
    FormattedNoteShape(n);
    TrimOfTrimmed(seg);
    DecimalIsToken(n.x);
    DecimalIsToken(n.y);
    SplitLimitJoin(parts, Delimiter);
  }

  /** The reference reading of a text that split(" ", 4) cuts into four given pieces. */
  lemma NoteOfPieces(s: string, parts: seq<string>)
    requires |parts| == 4 && SplitLimit(s, Delimiter, 4) == parts
    ensures NoteBySplit(s) == Some(TrimmedNote(parts[0], parts[1], parts[2], parts[3]))
  {
  }

  /** Trimming the fields of a listable note changes none of them. */
  lemma ListableFieldsTrimmed(n: NoteLine)
    requires Listable(n)
    ensures TrimmedNote(IntToString(n.x), IntToString(n.y), n.colour, n.content) == NoteFieldsOf(n)
  {
    DecimalIsToken(n.x);
    DecimalIsToken(n.y);
    TokenIsTrimmed(IntToString(n.x));
    TokenIsTrimmed(IntToString(n.y));
    TrimOfTrimmed(n.colour);
    TrimOfTrimmed(n.content);
  }

  /** The segment loop parses every formatted note back, in order. */
  lemma NoteSegmentsRoundTrip(notes: seq<NoteLine>)
    requires forall i :: 0 <= i < |notes| ==> Listable(notes[i])
    ensures ParseNoteSegments(FormatNotes(notes)) == seq(|notes|, i requires 0 <= i < |notes| => NoteFieldsOf(notes[i]))
  {
    var segs := FormatNotes(notes);
    var expected := seq(|notes|, i requires 0 <= i < |notes| => NoteFieldsOf(notes[i]));
    forall i | 0 <= i < |segs|
      ensures ParseNoteSegment(segs[i]) == Some(expected[i])
    {
      NoteSegmentRoundTrip(notes[i]);
    }
    FilterMapAll(segs, ParseNoteSegment, expected);
  }

  /**
   * Joining formatted notes with ';' and parsing the response gives back
   * every note's decimal x, decimal y, colour and content, in order.
   */
  lemma NoteListRoundTrip(notes: seq<NoteLine>)
    requires forall i :: 0 <= i < |notes| ==> Listable(notes[i])
    ensures ParseNoteList(Some(Join([ListSeparator], FormatNotes(notes)))) ==
      seq(|notes|, i requires 0 <= i < |notes| => NoteFieldsOf(notes[i]))
  {
    var segs := FormatNotes(notes);
    var response := Join([ListSeparator], segs);
    if notes == [] {
      assert response == "";
    } else {
      forall i | 0 <= i < |segs|
        ensures ListSeparator !in segs[i]
      {
        FormattedNoteShape(notes[i]);
      }
      DecimalIsToken(notes[0].x);
      assert segs[0][0] == IntToString(notes[0].x)[0];
      JoinHead([ListSeparator], segs);
      TrimNonBlank(response, 0);
      JavaSplitJoin(segs, ListSeparator);
      NoteSegmentsRoundTrip(notes);
    }
  }

  /** A formatted pin is its two fields joined by a blank, and trim leaves it alone. */
  lemma PinSegmentRoundTrip(x: int, y: int)
    ensures ParsePinSegment(FormatPin(x, y)) == Some(PinFields(IntToString(x), IntToString(y)))
  {
    var xs, ys := IntToString(x), IntToString(y);
    DecimalIsToken(x);
    DecimalIsToken(y);
    JoinTwo(Space, xs, ys);
    TrimOfTrimmed(FormatPin(x, y));
    JavaSplitJoin([xs, ys], Delimiter);
    TokenIsTrimmed(xs);
    TokenIsTrimmed(ys);
  }

  function FormatPins(pins: seq<(int, int)>): (r: seq<string>)
    ensures |r| == |pins|
    ensures forall i :: 0 <= i < |pins| ==> r[i] == FormatPin(pins[i].0, pins[i].1)
  {
    seq(|pins|, i requires 0 <= i < |pins| => FormatPin(pins[i].0, pins[i].1))
  }

  /** The fields a listed pin should come back as. */
  function PinFieldsOf(p: (int, int)): PinFields {
    PinFields(IntToString(p.0), IntToString(p.1))
  }

  /** The segment loop parses every formatted pin back, in order. */
  lemma PinSegmentsRoundTrip(pins: seq<(int, int)>)
    ensures ParsePinSegments(FormatPins(pins)) == seq(|pins|, i requires 0 <= i < |pins| => PinFieldsOf(pins[i]))
  {
    var segs := FormatPins(pins);
    var expected := seq(|pins|, i requires 0 <= i < |pins| => PinFieldsOf(pins[i]));
    forall i | 0 <= i < |segs|
      ensures ParsePinSegment(segs[i]) == Some(expected[i])
    {
      PinSegmentRoundTrip(pins[i].0, pins[i].1);
    }
    FilterMapAll(segs, ParsePinSegment, expected);
  }

  /** Joining formatted pins with ';' and parsing the response gives back every pin, in order. */
  lemma PinListRoundTrip(pins: seq<(int, int)>)
    ensures ParsePinList(Some(Join([ListSeparator], FormatPins(pins)))) ==
      seq(|pins|, i requires 0 <= i < |pins| => PinFieldsOf(pins[i]))
  {
    var segs := FormatPins(pins);
    var response := Join([ListSeparator], segs);
    if pins == [] {
      assert response == "";
    } else {
      forall i | 0 <= i < |segs|
        ensures ListSeparator !in segs[i]
      {
        DecimalIsToken(pins[i].0);
        DecimalIsToken(pins[i].1);
      }
      DecimalIsToken(pins[0].0);
      assert segs[0][0] == IntToString(pins[0].0)[0];
      JoinHead([ListSeparator], segs);
      TrimNonBlank(response, 0);
      DecimalIsToken(pins[|pins| - 1].0);
      JavaSplitJoin(segs, ListSeparator);
      PinSegmentsRoundTrip(pins);
    }
  }

  /**
   * A note with empty (or null) content is formatted with a trailing blank
   * that trim() removes, so the segment has only two blanks left and the
   * note is dropped from the list.
   */
  lemma EmptyContentIsDropped(x: int, y: int, colour: string, content: Option<string>)
    requires IsToken(colour) && ListSeparator !in colour
    requires content.None? || content.value == ""
    ensures ParseNoteList(Some(FormatNote(x, y, colour, content))) == []
  {
    EmptyContentSegment(x, y, colour, content);
    SingleSegmentList(FormatNote(x, y, colour, content));
  }

  /** The segment of a note with empty content does not parse. */
  lemma EmptyContentSegment(x: int, y: int, colour: string, content: Option<string>)
    requires IsToken(colour) && ListSeparator !in colour
    requires content.None? || content.value == ""
    ensures ListSeparator !in FormatNote(x, y, colour, content)
    ensures ParseNoteSegment(FormatNote(x, y, colour, content)).None?
  {
    var seg := FormatNote(x, y, colour, content);
    var m := IntToString(x) + Space + IntToString(y) + Space + colour;
    assert seg == m + Space;
    EmptyContentTrims(x, y, colour, m);
    TwoBlanksAndTrailing(m);
  }

  /** A trimmed text with two blanks, followed by one more blank, is no note. */
  lemma TwoBlanksAndTrailing(m: string)
    requires IsTrimmed(m) && multiset(m)[Delimiter] == 2
    ensures ParseNoteSegment(m + Space).None?
  {
    TrimFrames("", m, Space);
    assert "" + m + Space == m + Space;
    ParseNoteSegmentDefined(m + Space);
  }

  /** A response without ';' is one segment: the list holds its note if it parses, else nothing. */
  lemma SingleSegmentList(seg: string)
    requires ListSeparator !in seg
    ensures ParseNoteList(Some(seg)) == if ParseNoteSegment(seg).Some? then [ParseNoteSegment(seg).value] else []
  {
    if seg != "" {
      JavaSplitJoin([seg], ListSeparator);
    }
  }

  /** The text of a note before its content: trimmed, non-empty, with exactly two blanks. */
  lemma EmptyContentTrims(x: int, y: int, colour: string, m: string)
    requires IsToken(colour) && ListSeparator !in colour
    requires m == IntToString(x) + Space + IntToString(y) + Space + colour
    ensures m != "" && IsTrimmed(m) && ListSeparator !in m
    ensures multiset(m)[Delimiter] == 2
  {
    var xs, ys := IntToString(x), IntToString(y);
    DecimalIsToken(x);
    DecimalIsToken(y);
    assert m[0] == xs[0];
    assert m[|m| - 1] == colour[|colour| - 1];
    assert forall i :: 0 <= i < |colour| ==> colour[i] != Delimiter;
    assert multiset(m) == multiset(xs) + multiset(Space) + multiset(ys) + multiset(Space) + multiset(colour);
  }
}
