# Bulletin board: a Dafny model of the server core and its wire protocol

This project models the sequential core of a networked bulletin board.
Clients post fixed-size notes on a rectangular board, pin them, query them
and shake off the unpinned ones. The modelled parts are:

- **the board engine** (`server/BulletinBoard` with the `server/Note`
  value): an ordered list of notes, an ordered list of pin coordinates and
  fixed board and note dimensions. Every method that reads or changes the
  lists is `synchronized`, and `getNote` searches the copy returned by the
  synchronized `getNotes`, so each operation is one pure function from the
  board before to the board after, paired with what the method returns
  (`BulletinBoard.Step`);
- **the command parser** (`utils/ProtocolParser`): keyword recognition by
  prefix, parameter trimming, the four-field `POST` split, the two-field
  `PIN`/`UNPIN` split, the `GET` filter tokenizer and `isValidCommand`;
- **the message codec** (the server-side `shared/Message`): the command
  builders, the OK / ERROR / handshake response builders, the note and pin
  formatters, and the parsers of `;`-separated note and pin lists;
- **the two colour validators** (`shared/Colours` in the server tree, with
  three colours, and `shared/Colours` in the shared tree, with ten).

Java's string primitives are modelled exactly in `JavaStrings`:
- `trim` removes characters up to U+0020 at both ends;
- `split(" ")` drops trailing empty pieces;
- `split(d, n)` cuts at the first n-1 separators and drops nothing;
- `indexOf(c, from)` returns the first match at or after `from`.

A Java `int` is printed by `Decimal.IntToString`. A Java `null` is
`Wrappers.Option.None`, wherever the source tests for it.

The properties proved are:
- the board invariant (every note on the board, no two notes with one
  origin) is preserved by every board operation;
- exact characterisations of each board operation and query;
- the characterisations of the parser's functions against reference
  definitions (`JavaStrings.SplitLimit`, `ProtocolParser.FilterReference`);
- round trips, under the preconditions stated in each round-trip lemma
  (for instance a colour that is a token, and a non-empty one-line message
  for POST): the commands the builders emit are read back by the parser as the
  values they were built from, and formatted note and pin lists parse back
  to their fields. Two cases are proved NOT to read back: a POST built with
  a null or empty message is rejected by the parser
  (`CommandRoundTrip.PostWithoutMessageIsRejected`), and a note formatted
  with null or empty content is dropped from the parsed list
  (`Message.EmptyContentIsDropped`).

Modules: `Wrappers`, `Lists`, `JavaStrings`, `Decimal`, `Protocol` (the
wire constants), `Notes`, `BulletinBoard`, `ServerColours`,
`SharedColours`, `ProtocolParser`, `Message`, `CommandRoundTrip` and
`GetRoundTrip`.

`Protocol.java` spells the handshake's colour tag `colourS`
(shared/src/main/java/shared/Protocol.java:35) and the unsupported-colour
error code `colour_NOT_SUPPORTED` (shared/src/main/java/shared/Protocol.java:40);
the model uses those spellings.

## Model

| member | source | states |
|---|---|---|
| BulletinBoard.NewBoard | server/src/main/java/server/BulletinBoard.java:48-55 | A new board keeps the four dimensions, has no notes and no pins, and satisfies the board invariant |
| BulletinBoard.OverlapsExisting | server/src/main/java/server/BulletinBoard.java:72-76 | The overlap loop finds a clash iff some existing note has exactly the new note's origin, whatever its id, colour or text |
| BulletinBoard.AddNote | server/src/main/java/server/BulletinBoard.java:66-79 | addNote succeeds iff the note lies fully on the board and no note has its origin; on success the note is appended at the end and nothing else changes; on failure nothing changes |
| BulletinBoard.RemoveNote | server/src/main/java/server/BulletinBoard.java:89-104 | removeNote succeeds iff the id is non-null and some note has it; exactly the first such note is removed; the pins are never touched; on failure the board is unchanged |
| BulletinBoard.GetNote | server/src/main/java/server/BulletinBoard.java:121-130 | getNote returns a note iff the id is non-null and present, and then it is the first note with that id |
| BulletinBoard.AnyNoteCovers | server/src/main/java/server/BulletinBoard.java:144-150 | The search loop of addPin is true iff some listed note's rectangle covers the point |
| BulletinBoard.AddPin | server/src/main/java/server/BulletinBoard.java:143-151 | addPin succeeds iff some note's half-open rectangle contains the point; exactly one pin is then appended, however many notes cover it; otherwise nothing changes |
| BulletinBoard.RemovePin | server/src/main/java/server/BulletinBoard.java:163-173 | removePin succeeds iff a pin sits at exactly (x, y); only the first such pin goes, so later duplicates stay; one copy leaves the multiset of pins; the notes are untouched |
| BulletinBoard.PinnedBy | server/src/main/java/server/BulletinBoard.java:186-192 | The inner loop of shake, which stops at the first hit, is true iff some pin lies inside the note |
| BulletinBoard.Shake | server/src/main/java/server/BulletinBoard.java:183-199 | shake keeps exactly the pinned notes in their original order (as a sub-list, with each pinned note's multiplicity), leaves pins and dimensions alone, and returns the number of notes removed |
| BulletinBoard.GetNotesContaining | server/src/main/java/server/BulletinBoard.java:210-218 | The result is the sub-list of notes whose rectangle contains the point, with every such note kept and in board order |
| BulletinBoard.GetNotesByColour | server/src/main/java/server/BulletinBoard.java:228-236 | The result is the sub-list of notes whose colour equals the argument exactly; a null colour matches nothing |
| BulletinBoard.GetNotesByContent | server/src/main/java/server/BulletinBoard.java:247-255 | The result is the sub-list of notes whose message contains the substring |
| BulletinBoard.GetPinsAt | server/src/main/java/server/BulletinBoard.java:264-272 | The result holds only pins at exactly (x, y), one for each such pin on the board |
| BulletinBoard.Clear | server/src/main/java/server/BulletinBoard.java:280-283 | clear empties both lists and keeps the dimensions |
| BulletinBoard.ContainsPointAgreesWithBoard | server/src/main/java/server/BulletinBoard.java:383-386 | The board's private pin test agrees with Note.containsPoint at the board's note size, for every point |
| BulletinBoard.AddNotePreservesValid | server/src/main/java/server/BulletinBoard.java:66-79 | addNote preserves the invariant: every note on the board and all origins pairwise distinct |
| BulletinBoard.RemoveNotePreservesValid | server/src/main/java/server/BulletinBoard.java:89-104 | removeNote preserves the invariant |
| BulletinBoard.ShakePreservesValid | server/src/main/java/server/BulletinBoard.java:183-199 | shake preserves the invariant |
| BulletinBoard.PinsAndClearPreserveValid | server/src/main/java/server/BulletinBoard.java:143-173 | addPin, removePin and clear preserve the invariant |
| BulletinBoard.ShakeIdempotent | server/src/main/java/server/BulletinBoard.java:183-199 | A second shake with no mutation in between removes nothing and returns 0 |
| BulletinBoard.RemoveNoteUndoesAddNote | server/src/main/java/server/BulletinBoard.java:66-104 | Removing a just-added note by its previously unused id succeeds and restores the board |
| BulletinBoard.RemovePinUndoesAddPin | server/src/main/java/server/BulletinBoard.java:143-173 | Removing a just-added pin at a coordinate that had no pin succeeds and restores the board |
| BulletinBoard.ClearEmptiesBoard | server/src/main/java/server/BulletinBoard.java:280-283 | After clear every query is empty, no pin can be placed and shake removes nothing |
| BulletinBoard.PostPinShakeExample | server/src/main/java/server/BulletinBoard.java:66-199 | Worked example on a 100x100 board with 10x10 notes: the first note at (0,0) is accepted; a second at (0,0) is refused; one at (95,95) is refused; a pin at (5,5) is accepted; a shake then keeps the pinned note and drops an unpinned one |
| Notes.ContainsPoint | server/src/main/java/server/Note.java:102-104 | containsPoint holds iff x <= px < x+w and y <= py < y+h |
| Notes.ContainsOriginNotFarEdges | server/src/main/java/server/Note.java:102-104 | For positive sizes the origin and the far inner corner are contained, but (x+w, y) and (x, y+h) are not |
| Notes.DegenerateContainsNothing | server/src/main/java/server/Note.java:102-104 | With a width or height <= 0, no point is contained |
| Notes.SetMessage | server/src/main/java/server/Note.java:89-91 | setMessage replaces the text and leaves id, position and colour untouched |
| Notes.SetMessageOverwrites | server/src/main/java/server/Note.java:89-91 | The last setMessage wins, and setting the current text changes nothing |
| ServerColours.IsValidColour | server/shared/src/main/java/shared/Colours.java:24-30 | null is rejected; otherwise a name is accepted iff its upper-case form is one of RED, BLUE, GREEN |
| ServerColours.GetDefaultColour | server/shared/src/main/java/shared/Colours.java:33-35 | The default is RED, which the validator accepts |
| ServerColours.AvailableColoursAccepted | server/shared/src/main/java/shared/Colours.java:9-30 | The list is exactly RED, BLUE, GREEN in that order; each entry is accepted; a name is accepted iff it equals one of them ignoring case |
| SharedColours.IsValidColor | shared/src/main/java/shared/Colours.java:51-57 | null is rejected; otherwise a name is accepted iff its upper-case form is one of the ten listed names |
| SharedColours.GetDefaultColor | shared/src/main/java/shared/Colours.java:64-66 | The default is WHITE, which the validator accepts |
| SharedColours.AvailableColorsAccepted | shared/src/main/java/shared/Colours.java:23-57 | The list is exactly RED, ORANGE, YELLOW, GREEN, BLUE, PURPLE, PINK, WHITE, GRAY, BROWN in declaration order, and a name is accepted iff it equals one of them ignoring case |
| ProtocolParser.ParseCommandType | shared/src/main/java/utils/ProtocolParser.java:9-27 | The result is non-null iff the line is non-null and starts with a command word; it is then the first word, in POST, GET, PIN, UNPIN, SHAKE, CLEAR, DISCONNECT order, that is a prefix |
| ProtocolParser.ParseParameters | shared/src/main/java/utils/ProtocolParser.java:30-47 | The result is the line with that same command word cut off and then trimmed, or "" when no word is a prefix |
| ProtocolParser.ParsePostCommandSpec | shared/src/main/java/utils/ProtocolParser.java:50-57 | parsePostCommand succeeds iff the input is non-null and its trimmed text has at least three blanks; it then gives four fields, which joined by blanks rebuild the trimmed text, and only the last field may hold a blank |
| ProtocolParser.ParseGetCommand | shared/src/main/java/utils/ProtocolParser.java:60-67 | null gives null; otherwise the result is the trimmed input, PINS included |
| ProtocolParser.ParseGetCommandIdempotent | shared/src/main/java/utils/ProtocolParser.java:60-67 | Applying parseGetCommand twice equals applying it once |
| ProtocolParser.ParseGetFilters | shared/src/main/java/utils/ProtocolParser.java:70-97 | null gives null and blank text gives no filters; otherwise the result is the reference reading of the trimmed tokens |
| ProtocolParser.FiltersFromMatchesReference | shared/src/main/java/utils/ProtocolParser.java:77-95 | The for-loop, with its `i++` skip for a contains value, builds the same map as the token-by-token reference reading |
| ProtocolParser.FilterReferenceKeys | shared/src/main/java/utils/ProtocolParser.java:78-95 | A key is present iff some token with '=' has it as the text before its first '=' |
| ProtocolParser.FilterReferenceLastWins | shared/src/main/java/utils/ProtocolParser.java:82-93 | A key maps to the value of its last binding token: the text after the first '=', plus the next token when the key is contains and that token is non-empty without '=' |
| ProtocolParser.ParsePinCommand | shared/src/main/java/utils/ProtocolParser.java:100-110 | The result is non-null iff the trimmed input holds exactly one blank; it is then the two blank-free sides, which rebuild the trimmed input, with no integer check |
| ProtocolParser.ParseUnpinCommand | shared/src/main/java/utils/ProtocolParser.java:113-123 | parseUnpinCommand accepts and splits exactly as parsePinCommand does |
| ProtocolParser.IsValidCommand | shared/src/main/java/utils/ProtocolParser.java:126-141 | A command is valid iff it is non-null, its trimmed text is non-empty and that text starts with a command word |
| ProtocolParser.TypedCommandIsValid | shared/src/main/java/utils/ProtocolParser.java:9-27 | Every line with a command type is a valid command |
| ProtocolParser.ValidCommandNeedNotBeTyped | shared/src/main/java/utils/ProtocolParser.java:126-141 | The converse fails: " POST" is valid but has no command type |
| ProtocolParser.CommandWordNeedsNoBoundary | shared/src/main/java/utils/ProtocolParser.java:12-17 | There is no word-boundary check: "POSTX" is typed POST and "PINS 1 2" is typed PIN |
| Message.BuildOkResponse | server/shared/src/main/java/shared/Message.java:60-65 | The result is a bare "OK" line iff the information is null or empty; otherwise the information sits between "OK " and the line end |
| Message.ErrorResponseFields | server/shared/src/main/java/shared/Message.java:68-71 | For a blank-free code, the line splits into ERROR, the code and the message, with a null message giving "" and the blank before it kept |
| Message.HandshakeLine | server/shared/src/main/java/shared/Message.java:74-88 | The handshake line is OK BOARD w h NOTE nw nh colourS and then each colour in order, joined by blanks and ended by a line end; a null list adds no colour |
| Message.HandshakeResponseFields | server/shared/src/main/java/shared/Message.java:74-88 | For colour names without a blank whose last name is non-empty, splitting the line on blanks gives back the fixed fields followed by the colour list (an empty last name would be lost, as split drops trailing empty pieces) |
| Message.NoteCutsSplit | server/shared/src/main/java/shared/Message.java:100-109 | The three indexOf searches find cuts iff split(" ", 4) gives four pieces, and then they cut the same four pieces |
| Message.ParseNoteSegmentSplits | server/shared/src/main/java/shared/Message.java:97-110 | One segment of parseNoteList reads as the trimmed fields of split(" ", 4) of the trimmed segment |
| Message.ParseNoteSegmentDefined | server/shared/src/main/java/shared/Message.java:97-110 | A segment yields a note iff its trimmed text holds at least three blanks |
| Message.ParsePinSegmentDefined | server/shared/src/main/java/shared/Message.java:122-129 | A segment yields a pin iff its trimmed text holds a blank |
| Message.NoteSegmentRoundTrip | server/shared/src/main/java/shared/Message.java:97-110 | A formatted note parses back to its decimal x, y, colour and content when the colour has no blank and no ';' and neither leading nor trailing whitespace, and the content is non-empty with no ';' and neither leading nor trailing whitespace |
| Message.NoteListRoundTrip | server/shared/src/main/java/shared/Message.java:91-113 | Formatted notes joined by ';' parse back to their (x, y, colour, content) fields in order, given no ';' in colour or content |
| Message.PinSegmentRoundTrip | server/shared/src/main/java/shared/Message.java:122-129 | A formatted pin parses back to its decimal coordinates |
| Message.PinListRoundTrip | server/shared/src/main/java/shared/Message.java:116-131 | Formatted pins joined by ';' parse back to their coordinates in order |
| Message.FormattedLinesHaveNoLineEnd | server/shared/src/main/java/shared/Message.java:134-142 | formatPin output never holds a line end; formatNote output holds one exactly when the colour or the content does, since neither is checked |
| Message.EmptyContentIsDropped | server/shared/src/main/java/shared/Message.java:98-105 | A note formatted with null or empty content is silently dropped by parseNoteList, because the trim removes its last blank |
| Decimal.IntToStringRoundTrip | server/shared/src/main/java/shared/Message.java:134-141 | Reading back the decimal digits of a printed int gives the int |
| CommandRoundTrip.PinCommandRoundTrip | server/shared/src/main/java/shared/Message.java:35-37 | The PIN line is one line that is typed PIN, and parsePinCommand reads its parameters as the decimal x and y |
| CommandRoundTrip.UnpinCommandRoundTrip | server/shared/src/main/java/shared/Message.java:40-42 | The UNPIN line is one line that is typed UNPIN, and parseUnpinCommand reads its parameters as the decimal x and y |
| CommandRoundTrip.BareCommandsRoundTrip | server/shared/src/main/java/shared/Message.java:45-57 | The SHAKE, CLEAR and DISCONNECT lines are typed as their own command, with empty parameters |
| CommandRoundTrip.GetPinsRoundTrip | server/shared/src/main/java/shared/Message.java:14-16 | The GET PINS line is typed GET, and parseGetCommand reads it as PINS |
| CommandRoundTrip.PostCommandRoundTrip | server/shared/src/main/java/shared/Message.java:7-11 | For a colour that is a token (non-empty, no char <= U+0020) and a non-empty one-line message with no trailing whitespace, the POST line is typed POST and parses back to x, y, colour and message |
| CommandRoundTrip.PostWithoutMessageIsRejected | server/shared/src/main/java/shared/Message.java:7-11 | A POST line built with a null or empty message is typed POST, but parsePostCommand rejects it |
| GetRoundTrip.FilterWordsRead | shared/src/main/java/utils/ProtocolParser.java:78-95 | The filter words buildGetCommand emits read back as the requested filters: color, then contains as "x y" when both coordinates are given, then refersTo |
| GetRoundTrip.GetCommandRoundTrip | server/shared/src/main/java/shared/Message.java:19-32 | For colour and refersTo values that are tokens (non-empty, no char <= U+0020) whenever they are given, the GET line is typed GET and parseGetFilters recovers exactly the filters given: an empty or null text gives no entry, and contains appears only when both coordinates are present |

## Left out

- Java `int` overflow: coordinates and sizes are mathematical integers, so `x + noteWidth` in the bounds check and in `containsPoint` never wraps.
- Concurrency: `synchronized` is read as "each operation is one atomic step"; threads and locks are not modelled.
- `BulletinBoard.getPin` and `server/Pin`: the Pin constructor is empty and pin ids are never set, so a pin is its `(x, y)` pair. `addPin` calls a two-argument constructor that does not exist, and the model reads it as storing the coordinate.
- `getNotesByColour` calls `getColour()`, while Note defines `getColor()`. The model reads the colour field directly.
- `removeNote`'s doc comment says its pins go too. The code does not remove them, and the model follows the code.
- `shake` uses `removeAll`, which compares notes by `equals`; Note does not override it, so the comparison is by identity. The model removes notes by value. This gives the same result, because whether a note is pinned depends only on its value.
- `Note.toString`: `String.format` debugging output.
- `ProtocolParser.generateErrorMessage` is not modelled. It forwards to `buildErrorResponse` with a null message replaced by "".
- ProtocolParser.ParseParameters: takes a non-null string. The Java method dereferences its argument and throws on null, which is not modelled.
- A null `String` passed to a builder where the source does not test for null (the colour of `buildPostCommand` or `formatNote`, the error code) prints as "null" in Java. Here the parameter is a plain string.
- Notes.SetMessage: the Java board shares its Note objects with its callers. `addNote` stores the caller's reference (server/src/main/java/server/BulletinBoard.java:77), and `getNotes`, `getNote` and the three note queries return lists holding the board's own notes. A `setMessage` on such a note would therefore change what later queries see, without any board method being called. No code in the source calls `setMessage`, and the model treats notes as values, so this aliasing is not represented.
- SharedColours.IsValidColor: `equalsIgnoreCase` is modelled with ASCII case folding only. Java also folds other Unicode case pairs, so it accepts names such as "pınk" (dotless i), "pİnk" or "PIN" followed by the Kelvin sign, which the model rejects. ServerColours.IsValidColour is unaffected, because the only non-ASCII characters that fold to ASCII letters fold to I, K or S, and RED, BLUE and GREEN contain none of those.
- BulletinBoard.GetNotesByContent, RemoveNote, GetNote, GetNotesByColour, AddNote: the model's notes, their fields and the substring are never null. Java throws NullPointerException on null there: `addNote(null)` at server/src/main/java/server/BulletinBoard.java:68 (`note.getX()`); `getNotesByContent(null)` or a stored note with a null message at line 250; a note with a null colour at line 231; a note with a null id at lines 92 and 124, once the loop reaches it. The Note constructor accepts nulls, and the model does not represent those failures.
- The command builders have no `ensures` of their own. What they emit is stated through the round-trip lemmas of `CommandRoundTrip` and `GetRoundTrip`, which put each line through `ProtocolParser`.
- Message.FormatNote: Java copies a line end in the colour or the content into the formatted note unchecked, which breaks the one-line list response; the model reproduces this (FormattedLinesHaveNoLineEnd) rather than promising line-free output.
- CommandRoundTrip.PostCommandRoundTrip: requires the colour to be a token, which is stronger than the parser needs. An empty colour, or one with an interior tab, also reads back through split(" ", 4); that wider case is not proved.
- Message.BuildGetCommand: the colour and refersTo values are kept as given. The round trip requires each given value to be a token (non-empty, no char <= U+0020), because a blank inside one would split it into further filter tokens and trim would strip other whitespace at its ends.
- Reading a line from the socket is modelled as `CommandRoundTrip.LineOf`, which drops one trailing "\n". Socket I/O, `ClientHandler`, the client GUI, process start-up and logging are not part of this model.
- The stub copies `server/ProtocolParser` and `shared/src/.../shared/Message` return only null or "". They are not part of this model. `Protocol` contributes only its constants.
