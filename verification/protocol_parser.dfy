/**
 * utils/ProtocolParser: recognises the command word of a line and splits
 * the parameters of POST, GET, PIN and UNPIN. A Java `null` argument is
 * `None`; a `null` result is `None`.
 */
module ProtocolParser {
  import opened Wrappers
  import opened JavaStrings
  import opened Lists
  import opened Protocol

  /** The index of the first word of `keys` that prefixes `line` (the parser's if-chains). */
  function FirstPrefix(line: string, keys: seq<string>): (r: Option<nat>)
    ensures r.Some? ==> r.value < |keys| && StartsWith(line, keys[r.value])
    ensures forall j :: 0 <= j < |keys| && (r.None? || j < r.value) ==> !StartsWith(line, keys[j])
  {
    FindFirst(keys, (k: string) => StartsWith(line, k))
  }

  /**
   * parseCommandType: the first of POST, GET, PIN, UNPIN, SHAKE, CLEAR,
   * DISCONNECT that is a case-sensitive prefix of the line; no word-boundary
   * check and no trimming.
   */
  function ParseCommandType(command: Option<string>): (r: Option<string>)
    ensures r.Some? <==> command.Some? && exists k :: k in Commands && StartsWith(command.value, k)
    ensures r.Some? ==> exists i ::
      && 0 <= i < |Commands| && Commands[i] == r.value && StartsWith(command.value, r.value)
      && forall j :: 0 <= j < i ==> !StartsWith(command.value, Commands[j])
  {
    if command.None? then
      None
    else
      match FirstPrefix(command.value, Commands)
      case None => None
      case Some(i) => Some(Commands[i])
  }

  /** parseParameters: the line after the same command word, trimmed; "" if no word matches. */
  function ParseParameters(command: string): (r: string)
    ensures ParseCommandType(Some(command)).None? ==> r == ""
    ensures ParseCommandType(Some(command)).Some? ==>
      var word := ParseCommandType(Some(command)).value;
      |word| <= |command| && r == Trim(command[|word|..])
  {
    match FirstPrefix(command, Commands)
    case None => ""
    case Some(i) => Trim(command[|Commands[i]|..])
  }

  /**
   * parsePostCommand: the trimmed parameters split at their first three
   * spaces into x, y, colour and the rest of the line; null when the input
   * is null or has fewer than three spaces once trimmed.
   */
  function ParsePostCommand(params: Option<string>): Option<seq<string>> {
    if params.None? || Trim(params.value) == "" then
      None
    else
      var parts := SplitLimit(Trim(params.value), Delimiter, 4);
      if |parts| < 4 then None else Some([parts[0], parts[1], parts[2], parts[3]])
  }

  /**
   * A POST body parses exactly when its trimmed text has at least three
   * blanks; the four fields then join back to that text, and only the
   * message may hold a blank.
   */
  lemma ParsePostCommandSpec(params: Option<string>)
    ensures var r := ParsePostCommand(params);
      && (r.Some? <==> params.Some? && multiset(Trim(params.value))[Delimiter] >= 3)
      && (r.Some? ==>
            && |r.value| == 4
            && Join([Delimiter], r.value) == Trim(params.value)
            && forall i :: 0 <= i < 3 ==> Delimiter !in r.value[i])
  {
    if params.Some? && Trim(params.value) != "" {
      var t := Trim(params.value);
      var parts := SplitLimit(t, Delimiter, 4);
      SplitLimitCount(t, Delimiter, 4);
      if |parts| == 4 {
        SplitLimitPieces(t, Delimiter, 4);
        SplitLimitJoins(t, Delimiter, 4);
        FourParts(parts);
      }
    }
  }

  /** A list of four is the list of its four elements. */
  lemma FourParts(parts: seq<string>)
    requires |parts| == 4
    ensures parts == [parts[0], parts[1], parts[2], parts[3]]
  {
  }

  /** parseGetCommand: the trimmed parameters ("PINS" included), null for null. */
  function ParseGetCommand(params: Option<string>): (r: Option<string>)
    ensures r.None? <==> params.None?
    ensures r.Some? ==> r.value == Trim(params.value)
  {
    if params.None? then
      None
    else
      var trimmed := Trim(params.value);
      if trimmed == GetPins then Some(GetPins) else Some(trimmed)
  }

  /** The text before the first '=' of a token. */
  function KeyOf(tok: string): (k: string)
    requires '=' in tok
  {
    IndexOfFromPresent(tok, '=');
    var i := IndexOfFrom(tok, '=', 0).value;
    tok[..i]
  }

  /** The text after the first '=' of a token. */
  function ValueOf(tok: string): string
    requires '=' in tok
  {
    IndexOfFromPresent(tok, '=');
    tok[IndexOfFrom(tok, '=', 0).value + 1..]
  }

  /** Every piece trimmed, as the loop of parseGetFilters does before looking at it. */
  function TrimAll(parts: seq<string>): (toks: seq<string>)
    ensures |toks| == |parts|
    ensures forall i :: 0 <= i < |parts| ==> toks[i] == Trim(parts[i])
  {
    if parts == [] then [] else [Trim(parts[0])] + TrimAll(parts[1..])
  }

  /** Whether the trimmed filter token at index i binds a key (contains '='). */
  predicate IsBinding(toks: seq<string>, i: nat)
    requires i < |toks|
  {
    '=' in toks[i]
  }

  /**
   * The value a binding token gives its key: the text after '=', and for the
   * key "contains" also the next token when that one is non-empty and has
   * no '='.
   */
  function TokenValue(toks: seq<string>, i: nat): string
    requires i < |toks| && IsBinding(toks, i)
  {
    if KeyOf(toks[i]) == "contains" && i + 1 < |toks| && toks[i + 1] != "" && '=' !in toks[i + 1] then
      ValueOf(toks[i]) + " " + toks[i + 1]
    else
      ValueOf(toks[i])
  }

  /** What token i does to the filters: bind its key to its value, or nothing. */
  function Apply(toks: seq<string>, i: nat, filters: map<string, string>): map<string, string>
    requires i < |toks|
  {
    if IsBinding(toks, i) then filters[KeyOf(toks[i]) := TokenValue(toks, i)] else filters
  }

  /** The token after token i, skipping the one a `contains=` binding takes. */
  function Advance(toks: seq<string>, i: nat): (next: nat)
    requires i < |toks|
    ensures i < next <= |toks|
  {
    if IsBinding(toks, i) && KeyOf(toks[i]) == "contains" && i + 1 < |toks| && toks[i + 1] != "" && '=' !in toks[i + 1]
    then i + 2
    else i + 1
  }

  /**
   * Reference reading of a filter list: the tokens' bindings applied left
   * to right, so a later binding of a key overrides an earlier one.
   */
  function FilterReference(toks: seq<string>, n: nat): map<string, string>
    requires n <= |toks|
  {
    if n == 0 then map[] else Apply(toks, n - 1, FilterReference(toks, n - 1))
  }

  /**
   * One pass of the loop of parseGetFilters at index i: the index of the
   * next pass and the filters after this one.
   */
  function LoopBody(parts: seq<string>, i: nat, filters: map<string, string>): (r: (nat, map<string, string>))
    requires i < |parts|
    ensures i < r.0 <= |parts|
  {
    var part := Trim(parts[i]);
    if part == "" then
      (i + 1, filters)
    else
      var keyValue := SplitLimit(part, '=', 2);
      if |keyValue| == 2 then
        var key := keyValue[0];
        var value := keyValue[1];
        if key == "contains" && i + 1 < |parts| then
          var next := Trim(parts[i + 1]);
          if next != "" && '=' !in next then
            (i + 2, filters[key := value + " " + next])
          else
            (i + 1, filters[key := value])
        else
          (i + 1, filters[key := value])
      else
        (i + 1, filters)
  }

  /** The loop of parseGetFilters from index i. */
  function FiltersFrom(parts: seq<string>, i: nat, filters: map<string, string>): map<string, string>
    decreases |parts| - i
  {
    if i >= |parts| then
      filters
    else
      var (next, updated) := LoopBody(parts, i, filters);
      FiltersFrom(parts, next, updated)
  }

  /** split("=", 2) of a token with '=' is its key and its value. */
  lemma KeyValueSplit(tok: string)
    requires '=' in tok
    ensures SplitLimit(tok, '=', 2) == [KeyOf(tok), ValueOf(tok)]
  {
    IndexOfFromPresent(tok, '=');
    var i := IndexOfFrom(tok, '=', 0).value;
    IndexOfFromFirst(tok, '=', 0);
    assert tok == tok[..i] + "=" + tok[i + 1..];
    assert '=' !in tok[..i];
    assert Join("=", [tok[..i], tok[i + 1..]]) == tok by {
      JoinTwo("=", tok[..i], tok[i + 1..]);
    }
    SplitLimitJoin([tok[..i], tok[i + 1..]], '=');
  }

  /** A token without '=' is a single piece for split("=", 2). */
  lemma KeyValueNoSplit(tok: string)
    requires '=' !in tok
    ensures |SplitLimit(tok, '=', 2)| == 1
  {
    SplitLimitSpec(tok, '=', 2);
    assert multiset(tok)['='] == 0;
  }

  /** One pass of the loop is one step of the reference on the trimmed tokens. */
  lemma LoopBodyStep(parts: seq<string>, i: nat, filters: map<string, string>)
    requires i < |parts|
    ensures LoopBody(parts, i, filters) == (Advance(TrimAll(parts), i), Apply(TrimAll(parts), i, filters))
  {
    var toks := TrimAll(parts);
    var part := Trim(parts[i]);
    assert toks[i] == part;
    if part == "" {
      assert !IsBinding(toks, i);
    } else if '=' !in part {
      KeyValueNoSplit(part);
    } else {
      BindingBodyStep(parts, i, filters);
    }
  }

  /** The loop pass on a token with '=' binds what the reference binds. */
  lemma BindingBodyStep(parts: seq<string>, i: nat, filters: map<string, string>)
    requires i < |parts| && Trim(parts[i]) != "" && '=' in Trim(parts[i])
    ensures LoopBody(parts, i, filters) == (Advance(TrimAll(parts), i), Apply(TrimAll(parts), i, filters))
  {
    var toks := TrimAll(parts);
    var part := Trim(parts[i]);
    assert toks[i] == part;
    KeyValueSplit(part);
    if i + 1 < |parts| {
      assert toks[i + 1] == Trim(parts[i + 1]);
    }
  }

  /** A token absorbed by `contains=` binds nothing, so the reference skips it too. */
  lemma ReferenceStep(toks: seq<string>, i: nat)
    requires i < |toks|
    ensures FilterReference(toks, Advance(toks, i)) == Apply(toks, i, FilterReference(toks, i))
  {
    if Advance(toks, i) == i + 2 {
      assert !IsBinding(toks, i + 1);
    }
  }

  /** The loop computes the reference reading of the trimmed tokens. */
  lemma {:induction false} FiltersFromMatchesReference(parts: seq<string>, i: nat)
    requires i <= |parts|
    ensures FiltersFrom(parts, i, FilterReference(TrimAll(parts), i)) == FilterReference(TrimAll(parts), |parts|)
    decreases |parts| - i
  {
    if i < |parts| {
      var toks := TrimAll(parts);
      LoopBodyStep(parts, i, FilterReference(toks, i));
      ReferenceStep(toks, i);
      FiltersFromMatchesReference(parts, Advance(toks, i));
    }
  }

  /** The trimmed tokens of a non-blank filter string split on single spaces. */
  function FilterTokens(params: string): seq<string> {
    TrimAll(JavaSplit(Trim(params), Delimiter))
  }

  /**
   * parseGetFilters: null for null, no filters for a blank string, and
   * otherwise the reference reading of its space-separated tokens.
   */
  function ParseGetFilters(params: Option<string>): (r: Option<map<string, string>>)
    ensures r.None? <==> params.None?
    ensures params.Some? && Trim(params.value) == "" ==> r == Some(map[])
    ensures params.Some? && Trim(params.value) != "" ==>
      r == Some(FilterReference(FilterTokens(params.value), |FilterTokens(params.value)|))
  {
    if params.None? then
      None
    else
      var trimmed := Trim(params.value);
      if trimmed == "" then
        Some(map[])
      else
        var parts := JavaSplit(trimmed, Delimiter);
        FiltersFromMatchesReference(parts, 0);
        Some(FiltersFrom(parts, 0, map[]))
  }

  /** The filter keys are exactly the keys of the binding tokens. */
  lemma {:induction false} FilterReferenceKeys(toks: seq<string>, n: nat, key: string)
    requires n <= |toks|
    ensures key in FilterReference(toks, n) <==>
      exists j :: 0 <= j < n && IsBinding(toks, j) && KeyOf(toks[j]) == key
    decreases n
  {
    if n > 0 {
      FilterReferenceKeys(toks, n - 1, key);
    }
  }

  /** A key is bound to the value of its last binding token. */
  lemma {:induction false} FilterReferenceLastWins(toks: seq<string>, n: nat, j: nat)
    requires j < n <= |toks| && IsBinding(toks, j)
    requires forall k :: j < k < n && IsBinding(toks, k) ==> KeyOf(toks[k]) != KeyOf(toks[j])
    ensures KeyOf(toks[j]) in FilterReference(toks, n)
    ensures FilterReference(toks, n)[KeyOf(toks[j])] == TokenValue(toks, j)
    decreases n
  {
    if n - 1 != j {
      FilterReferenceLastWins(toks, n - 1, j);
    }
  }

  /**
   * parsePinCommand: the two sides of the only space of the trimmed
   * parameters; null unless there is exactly one space. The fields are not
   * checked to be integers.
   */
  function ParsePinCommand(params: Option<string>): (r: Option<seq<string>>)
    ensures r.Some? <==> params.Some? && multiset(Trim(params.value))[Delimiter] == 1
    ensures r.Some? ==>
      && |r.value| == 2
      && r.value[0] + [Delimiter] + r.value[1] == Trim(params.value)
      && Delimiter !in r.value[0] && Delimiter !in r.value[1]
  {
    if params.None? then
      None
    else
      var trimmed := Trim(params.value);
      if trimmed == "" then
        None
      else
        var commandParts := JavaSplit(trimmed, Delimiter);
        TrimSpec(params.value);
        JavaSplitKeepsAll(trimmed, Delimiter);
        SplitAllSpec(trimmed, Delimiter);
        if |commandParts| != 2 then
          None
        else
          JoinTwo([Delimiter], commandParts[0], commandParts[1]);
          Some([commandParts[0], commandParts[1]])
  }

  /** parseUnpinCommand: the same body as parsePinCommand, so the same result. */
  function ParseUnpinCommand(params: Option<string>): (r: Option<seq<string>>)
    ensures r == ParsePinCommand(params)
  {
    if params.None? then
      None
    else
      var trimmed := Trim(params.value);
      if trimmed == "" then
        None
      else
        var commandParts := JavaSplit(trimmed, Delimiter);
        if |commandParts| != 2 then None else Some([commandParts[0], commandParts[1]])
  }

  /** isValidCommand: the trimmed line is non-empty and starts with a command word. */
  function IsValidCommand(command: Option<string>): (r: bool)
    ensures r <==> command.Some? && Trim(command.value) != "" &&
                   exists k :: k in Commands && StartsWith(Trim(command.value), k)
  {
    if command.None? then
      false
    else
      var trimmed := Trim(command.value);
      if trimmed == "" then false else FirstPrefix(trimmed, Commands).Some?
  }

  /** Every command word is a non-empty token, so trimming a line cannot cut into it. */
  lemma CommandsAreTokens()
    ensures forall k :: k in Commands ==> IsToken(k)
  {
  }

  /** A line whose command type is recognised is also a valid command. */
  lemma TypedCommandIsValid(command: Option<string>)
    requires ParseCommandType(command).Some?
    ensures IsValidCommand(command)
  {
    var line := command.value;
    var k := ParseCommandType(command).value;
    CommandsAreTokens();
    TrimKeepsTokenPrefix(line, k);
  }

  /** Trimming a line that starts with a token keeps the token at its start. */
  lemma TrimKeepsTokenPrefix(line: string, k: string)
    requires IsToken(k) && StartsWith(line, k)
    ensures Trim(line) != "" && StartsWith(Trim(line), k)
  {
    assert line[0] == k[0] && !IsTrimmable(line[0]);
    assert TrimLeft(line) == line;
    var t := TrimRight(line);
    TrimRightSpec(line);
    assert line[|k| - 1] == k[|k| - 1] && !IsTrimmable(line[|k| - 1]);
    assert |t| >= |k|;
    assert t[..|k|] == line[..|k|];
  }

  /** The converse fails: leading blanks are trimmed by the validity check only. */
  lemma ValidCommandNeedNotBeTyped()
    ensures IsValidCommand(Some(" POST")) && ParseCommandType(Some(" POST")).None?
  {
    TrimFrames(" ", CmdPost, "");
    assert " " + CmdPost + "" == " POST";
    assert StartsWith(Trim(" POST"), CmdPost);
  }

  /** The command word is matched without a word boundary, in list order. */
  lemma CommandWordNeedsNoBoundary()
    ensures ParseCommandType(Some("POSTX")) == Some(CmdPost)
    ensures ParseCommandType(Some("PINS 1 2")) == Some(CmdPin)
  {
    var line := "PINS 1 2";
    assert line[..|CmdPost|][1] != CmdPost[1];
    assert line[..|CmdGet|][0] != CmdGet[0];
    assert line[..|CmdPin|] == CmdPin;
    assert !StartsWith(line, Commands[0]) && !StartsWith(line, Commands[1]) && StartsWith(line, Commands[2]);
  }

  /** Parsing GET parameters twice changes nothing. */
  lemma ParseGetCommandIdempotent(params: Option<string>)
    ensures ParseGetCommand(ParseGetCommand(params)) == ParseGetCommand(params)
  {
    if params.Some? {
      TrimIdempotent(params.value);
    }
  }
}
