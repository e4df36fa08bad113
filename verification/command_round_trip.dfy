/**
 * Client to server: every command line the client builds with Message is
 * read back by ProtocolParser as the command and the fields it was built
 * from. The server reads one line at a time, so it sees the built text
 * without its final line end.
 */
module CommandRoundTrip {
  import opened Wrappers
  import opened JavaStrings
  import opened Decimal
  import opened Protocol
  import opened Message
  import opened ProtocolParser

  /** The text of a built line before its final line end, as readLine returns it. */
  function LineOf(wire: string): string {
    if |wire| > 0 && wire[|wire| - 1] == '\n' then wire[..|wire| - 1] else wire
  }

  /** `wire` is one whole line: `LineOf(wire)`, free of line ends, and then "\n". */
  predicate OneLine(wire: string) {
    && wire == LineOf(wire) + LineEnd
    && '\n' !in LineOf(wire) && '\r' !in LineOf(wire)
  }

  /** A line that is some text and a line end is one line of that text. */
  lemma LineOfText(text: string)
    requires '\n' !in text && '\r' !in text
    ensures LineOf(text + LineEnd) == text
    ensures OneLine(text + LineEnd)
  {
    assert (text + LineEnd)[..|text|] == text;
  }

  /** A word that differs from a line at some position is not a prefix of it. */
  lemma CharDiffers(line: string, k: string, p: nat)
    requires p < |line| && p < |k| && line[p] != k[p]
    ensures !StartsWith(line, k)
  {
    if |k| <= |line| {
      assert line[..|k|][p] == line[p];
    }
  }

  /** A command word and a rest without line ends make one line. */
  lemma WordLine(w: string, rest: string)
    requires '\n' !in w && '\r' !in w && '\n' !in rest && '\r' !in rest
    ensures LineOf(w + rest + LineEnd) == w + rest
    ensures OneLine(w + rest + LineEnd)
  {
    assert forall c :: c in w + rest ==> c in w || c in rest;
    LineOfText(w + rest);
  }

  /**
   * A line made of command word i and some rest, when no earlier word
   * prefixes it, has that command type, and its parameters are the rest
   * trimmed.
   */
  lemma WordAndRest(i: nat, rest: string)
    requires i < |Commands|
    requires forall j :: 0 <= j < i ==> !StartsWith(Commands[i] + rest, Commands[j])
    ensures ParseCommandType(Some(Commands[i] + rest)) == Some(Commands[i])
    ensures ParseParameters(Commands[i] + rest) == Trim(rest)
  {
    var line := Commands[i] + rest;
    assert line[..|Commands[i]|] == Commands[i];
    assert StartsWith(line, Commands[i]);
    var r := FirstPrefix(line, Commands);
    assert r == Some(i);
    assert line[|Commands[i]|..] == rest;
  }

  /** Two tokens joined by one blank are a trimmed text with no line end. */
  lemma TwoTokens(a: string, b: string)
    requires IsToken(a) && IsToken(b)
    ensures IsTrimmed(a + Space + b)
    ensures '\n' !in a + Space + b && '\r' !in a + Space + b
  {
    assert forall c :: c in a + Space + b ==> c in a || c == ' ' || c in b;
  }

  /** The parameters " a b" of a PIN or UNPIN line read back as the two tokens. */
  lemma TwoTokensParse(a: string, b: string)
    requires IsToken(a) && IsToken(b)
    ensures Trim(Space + a + Space + b) == a + Space + b
    ensures ParsePinCommand(Some(a + Space + b)) == Some([a, b])
  {
    var xy := a + Space + b;
    TwoTokens(a, b);
    TrimFrames(Space, xy, "");
    assert Space + xy + "" == Space + a + Space + b;
    TrimOfTrimmed(xy);
    var r := ParsePinCommand(Some(xy));
    assert multiset(xy)[Delimiter] == multiset(a)[Delimiter] + 1 + multiset(b)[Delimiter];
    assert r.Some?;
    CutUnique(r.value[0], r.value[1], a, b, Delimiter);
  }

  /** The words PIN and UNPIN are told apart from the earlier words of the list by one char. */
  lemma CoordinateWord(i: nat, rest: string)
    requires i == 2 || i == 3
    requires '\n' !in rest && '\r' !in rest
    ensures var line := Commands[i] + rest;
      && LineOf(line + LineEnd) == line && OneLine(line + LineEnd)
      && ParseCommandType(Some(line)) == Some(Commands[i])
      && ParseParameters(line) == Trim(rest)
  {
    var w := Commands[i];
    WordLine(w, rest);
    CharDiffers(w + rest, CmdPost, if i == 2 then 1 else 0);
    CharDiffers(w + rest, CmdGet, 0);
    if i == 3 {
      CharDiffers(w + rest, CmdPin, 0);
    }
    assert forall j :: 0 <= j < i ==> !StartsWith(w + rest, Commands[j]);
    WordAndRest(i, rest);
  }

  /**
   * A PIN or UNPIN line, the word and then two tokens each after a blank,
   * has that command type and reads back as the two tokens.
   */
  lemma CoordinateCommand(i: nat, a: string, b: string)
    requires i == 2 || i == 3
    requires IsToken(a) && IsToken(b)
    ensures var line := Commands[i] + Space + a + Space + b;
      && LineOf(line + LineEnd) == line && OneLine(line + LineEnd)
      && ParseCommandType(Some(line)) == Some(Commands[i])
      && ParsePinCommand(Some(ParseParameters(line))) == Some([a, b])
  {
    var rest := Space + a + Space + b;
    TwoTokens(a, b);
    assert rest == Space + (a + Space + b);
    assert '\n' !in rest && '\r' !in rest;
    assert Commands[i] + Space + a + Space + b == Commands[i] + rest;
    CoordinateWord(i, rest);
    TwoTokensParse(a, b);
  }

  /** buildPinCommand is read back as a PIN at the same coordinates. */
  lemma PinCommandRoundTrip(x: int, y: int)
    ensures var line := LineOf(BuildPinCommand(x, y));
      && OneLine(BuildPinCommand(x, y))
      && ParseCommandType(Some(line)) == Some(CmdPin)
      && ParsePinCommand(Some(ParseParameters(line))) == Some([IntToString(x), IntToString(y)])
  {
    var a, b := IntToString(x), IntToString(y);
    DecimalIsToken(x);
    DecimalIsToken(y);
    assert BuildPinCommand(x, y) == Commands[2] + Space + a + Space + b + LineEnd;
    CoordinateCommand(2, a, b);
  }

  /** buildUnpinCommand is read back as an UNPIN at the same coordinates. */
  lemma UnpinCommandRoundTrip(x: int, y: int)
    ensures var line := LineOf(BuildUnpinCommand(x, y));
      && OneLine(BuildUnpinCommand(x, y))
      && ParseCommandType(Some(line)) == Some(CmdUnpin)
      && ParseUnpinCommand(Some(ParseParameters(line))) == Some([IntToString(x), IntToString(y)])
  {
    var a, b := IntToString(x), IntToString(y);
    DecimalIsToken(x);
    DecimalIsToken(y);
    assert BuildUnpinCommand(x, y) == Commands[3] + Space + a + Space + b + LineEnd;
    CoordinateCommand(3, a, b);
  }

  /** A bare command word whose first char no earlier word starts with is read back with no parameters. */
  lemma BareWordRoundTrip(i: nat)
    requires 4 <= i < |Commands|
    ensures var line := LineOf(Commands[i] + LineEnd);
      && OneLine(Commands[i] + LineEnd)
      && ParseCommandType(Some(line)) == Some(Commands[i])
      && ParseParameters(line) == ""
  {
    var w := Commands[i];
    assert '\n' !in w && '\r' !in w;
    LineOfText(w);
    assert w + "" == w;
    forall j | 0 <= j < i
      ensures !StartsWith(w + "", Commands[j])
    {
      CharDiffers(w, Commands[j], 0);
    }
    WordAndRest(i, "");
  }

  /** buildShakeCommand, buildClearCommand and buildDisconnectCommand are read back as themselves. */
  lemma BareCommandsRoundTrip()
    ensures ParseCommandType(Some(LineOf(BuildShakeCommand()))) == Some(CmdShake)
    ensures ParseCommandType(Some(LineOf(BuildClearCommand()))) == Some(CmdClear)
    ensures ParseCommandType(Some(LineOf(BuildDisconnectCommand()))) == Some(CmdDisconnect)
    ensures ParseParameters(LineOf(BuildShakeCommand())) == ""
    ensures ParseParameters(LineOf(BuildClearCommand())) == ""
    ensures ParseParameters(LineOf(BuildDisconnectCommand())) == ""
  {
    BareWordRoundTrip(4);
    BareWordRoundTrip(5);
    BareWordRoundTrip(6);
  }

  /** A POST message the line carries intact: non-empty, ending in a non-blank, with no line end. */
  predicate IsPostMessage(m: string) {
    m != [] && !IsTrimmable(m[|m| - 1]) && '\n' !in m && '\r' !in m
  }

  /** Three tokens and a message joined by blanks: a trimmed text with no line end. */
  lemma PostBody(a: string, b: string, c: string, m: string)
    requires IsToken(a) && IsToken(b) && IsToken(c) && IsPostMessage(m)
    ensures var body := a + Space + b + Space + c + Space + m;
      && IsTrimmed(body) && '\n' !in body && '\r' !in body
      && body == Join(Space, [a, b, c, m])
  {
    var body := a + Space + b + Space + c + Space + m;
    assert forall ch :: ch in body ==> ch in a || ch == ' ' || ch in b || ch in c || ch in m;
    assert body[0] == a[0] && body[|body| - 1] == m[|m| - 1];
    JoinTwo(Space, c, m);
    JoinCons(Space, b, [c, m]);
    assert [b] + [c, m] == [b, c, m];
    JoinCons(Space, a, [b, c, m]);
    assert [a] + [b, c, m] == [a, b, c, m];
  }

  /** The parameters " a b c m" of a POST line read back as the four fields. */
  lemma PostFieldsParse(a: string, b: string, c: string, m: string)
    requires IsToken(a) && IsToken(b) && IsToken(c) && IsPostMessage(m)
    ensures var body := a + Space + b + Space + c + Space + m;
      && Trim(Space + body) == body
      && ParsePostCommand(Some(body)) == Some([a, b, c, m])
  {
    var body := a + Space + b + Space + c + Space + m;
    PostBody(a, b, c, m);
    TrimFrames(Space, body, "");
    assert Space + body + "" == Space + body;
    TrimOfTrimmed(body);
    assert Delimiter !in a && Delimiter !in b && Delimiter !in c;
    assert forall i :: 0 <= i < 3 ==> Delimiter !in [a, b, c, m][i];
    SplitLimitJoin([a, b, c, m], Delimiter);
    TokenIsTrimmed(a);
    assert body != "";
  }

  /** POST is the first command word, so a line that starts with it is a POST. */
  lemma PostWord(rest: string)
    requires '\n' !in rest && '\r' !in rest
    ensures var line := CmdPost + rest;
      && LineOf(line + LineEnd) == line && OneLine(line + LineEnd)
      && ParseCommandType(Some(line)) == Some(CmdPost)
      && ParseParameters(line) == Trim(rest)
  {
    WordLine(CmdPost, rest);
    WordAndRest(0, rest);
  }

  /** A POST line of three tokens and a message has type POST and reads back as those four fields. */
  lemma PostLine(a: string, b: string, c: string, m: string)
    requires IsToken(a) && IsToken(b) && IsToken(c) && IsPostMessage(m)
    ensures var line := CmdPost + Space + a + Space + b + Space + c + Space + m;
      && LineOf(line + LineEnd) == line && OneLine(line + LineEnd)
      && ParseCommandType(Some(line)) == Some(CmdPost)
      && ParsePostCommand(Some(ParseParameters(line))) == Some([a, b, c, m])
  {
    var body := a + Space + b + Space + c + Space + m;
    assert CmdPost + Space + a + Space + b + Space + c + Space + m == CmdPost + (Space + body);
    PostBody(a, b, c, m);
    PostWord(Space + body);
    PostFieldsParse(a, b, c, m);
  }

  /**
   * buildPostCommand with a colour token and a message the line can carry
   * is read back as a POST of the printed position, the colour and the
   * message, blanks inside the message included.
   */
  lemma PostCommandRoundTrip(x: int, y: int, colour: string, message: string)
    requires IsToken(colour) && IsPostMessage(message)
    ensures var line := LineOf(BuildPostCommand(x, y, colour, Some(message)));
      && OneLine(BuildPostCommand(x, y, colour, Some(message)))
      && ParseCommandType(Some(line)) == Some(CmdPost)
      && ParsePostCommand(Some(ParseParameters(line))) ==
           Some([IntToString(x), IntToString(y), colour, message])
  {
    var a, b := IntToString(x), IntToString(y);
    DecimalIsToken(x);
    DecimalIsToken(y);
    assert BuildPostCommand(x, y, colour, Some(message)) ==
      CmdPost + Space + a + Space + b + Space + colour + Space + message + LineEnd;
    PostLine(a, b, colour, message);
  }

  /** Three tokens joined by blanks, between two more blanks: they trim to a text with two blanks. */
  lemma ThreeTokens(a: string, b: string, c: string)
    requires IsToken(a) && IsToken(b) && IsToken(c)
    ensures var body := a + Space + b + Space + c;
      && '\n' !in Space + body + Space && '\r' !in Space + body + Space
      && Trim(Space + body + Space) == body
      && IsTrimmed(body) && multiset(body)[Delimiter] == 2
  {
    var body := a + Space + b + Space + c;
    assert forall ch :: ch in Space + body + Space ==> ch in a || ch == ' ' || ch in b || ch in c;
    assert body[0] == a[0] && body[|body| - 1] == c[|c| - 1];
    TrimFrames(Space, body, Space);
    assert Delimiter !in a && Delimiter !in b && Delimiter !in c;
  }

  /** A trimmed POST body with only two blanks has no fourth field. */
  lemma TwoBlanksRejected(body: string)
    requires IsTrimmed(body) && multiset(body)[Delimiter] == 2
    ensures ParsePostCommand(Some(body)).None?
  {
    TrimOfTrimmed(body);
    SplitLimitCount(body, Delimiter, 4);
  }

  /** A POST line of three tokens and a trailing blank has type POST and is rejected. */
  lemma BarePostLine(a: string, b: string, c: string)
    requires IsToken(a) && IsToken(b) && IsToken(c)
    ensures var line := CmdPost + Space + a + Space + b + Space + c + Space;
      && LineOf(line + LineEnd) == line && OneLine(line + LineEnd)
      && ParseCommandType(Some(line)) == Some(CmdPost)
      && ParsePostCommand(Some(ParseParameters(line))).None?
  {
    var body := a + Space + b + Space + c;
    assert CmdPost + Space + a + Space + b + Space + c + Space == CmdPost + (Space + body + Space);
    ThreeTokens(a, b, c);
    PostWord(Space + body + Space);
    TwoBlanksRejected(body);
  }

  /**
   * Without a message (null or empty) the built POST line ends in a blank
   * that the server trims away, leaving two blanks: the parser rejects it.
   */
  lemma PostWithoutMessageIsRejected(x: int, y: int, colour: string, message: Option<string>)
    requires IsToken(colour)
    requires message.None? || message.value == ""
    ensures var line := LineOf(BuildPostCommand(x, y, colour, message));
      && OneLine(BuildPostCommand(x, y, colour, message))
      && ParseCommandType(Some(line)) == Some(CmdPost)
      && ParsePostCommand(Some(ParseParameters(line))).None?
  {
    var a, b := IntToString(x), IntToString(y);
    DecimalIsToken(x);
    DecimalIsToken(y);
    assert BuildPostCommand(x, y, colour, message) ==
      CmdPost + Space + a + Space + b + Space + colour + Space + "" + LineEnd;
    assert CmdPost + Space + a + Space + b + Space + colour + Space + "" ==
      CmdPost + Space + a + Space + b + Space + colour + Space;
    BarePostLine(a, b, colour);
  }

  /** buildGetPinsCommand is read back as a GET whose parameters are PINS. */
  lemma GetPinsRoundTrip()
    ensures var line := LineOf(BuildGetPinsCommand());
      && OneLine(BuildGetPinsCommand())
      && ParseCommandType(Some(line)) == Some(CmdGet)
      && ParseGetCommand(Some(ParseParameters(line))) == Some(GetPins)
  {
    var rest := Space + GetPins;
    assert '\n' !in CmdGet + rest && '\r' !in CmdGet + rest;
    assert BuildGetPinsCommand() == CmdGet + rest + LineEnd;
    LineOfText(CmdGet + rest);
    CharDiffers(CmdGet + rest, CmdPost, 0);
    WordAndRest(1, rest);
    TrimFrames(Space, GetPins, "");
    assert Space + GetPins + "" == rest;
  }
}
