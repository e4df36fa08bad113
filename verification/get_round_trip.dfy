/**
 * Client to server for GET with filters: the filter tokens buildGetCommand
 * writes are read back by parseGetFilters as exactly the criteria given.
 */
module GetRoundTrip {
  import opened Wrappers
  import opened JavaStrings
  import opened Decimal
  import opened Protocol
  import opened Message
  import opened ProtocolParser
  import opened CommandRoundTrip

  /** A colour or refersTo criterion is given when it is present and non-empty. */
  predicate Given(s: Option<string>) {
    s.Some? && s.value != ""
  }

  /** The filters a GET asks for: each criterion that is given, under its own key. */
  function RequestedFilters(colour: Option<string>, containsX: Option<int>, containsY: Option<int>,
                            refersTo: Option<string>): map<string, string>
  {
    var byColour := if Given(colour) then map["color" := colour.value] else map[];
    var byPoint :=
      if containsX.Some? && containsY.Some?
      then byColour["contains" := IntToString(containsX.value) + Space + IntToString(containsY.value)]
      else byColour;
    if Given(refersTo) then byPoint["refersTo" := refersTo.value] else byPoint
  }

  /** The colour filter token, if any. */
  function ColourWords(colour: Option<string>): seq<string> {
    if Given(colour) then [FilterColour + colour.value] else []
  }

  /** The contains filter: its token and the y coordinate after it, if any. */
  function ContainsWords(containsX: Option<int>, containsY: Option<int>): seq<string> {
    if containsX.Some? && containsY.Some?
    then [FilterContains + IntToString(containsX.value), IntToString(containsY.value)]
    else []
  }

  /** The refersTo filter token, if any. */
  function RefersToWords(refersTo: Option<string>): seq<string> {
    if Given(refersTo) then [FilterRefersTo + refersTo.value] else []
  }

  /** The blank-separated words after GET, in the order buildGetCommand writes them. */
  function FilterWords(colour: Option<string>, containsX: Option<int>, containsY: Option<int>,
                       refersTo: Option<string>): seq<string>
  {
    ColourWords(colour) + ContainsWords(containsX, containsY) + RefersToWords(refersTo)
  }

  /** Every word is a token, so none holds a blank or a line end. */
  predicate AllTokens(words: seq<string>) {
    forall i :: 0 <= i < |words| ==> IsToken(words[i])
  }

  /** A key, '=' and a value: the key is what comes before the first '=', the value what follows. */
  lemma BindingToken(k: string, v: string)
    requires '=' !in k
    ensures '=' in k + "=" + v
    ensures KeyOf(k + "=" + v) == k && ValueOf(k + "=" + v) == v
  {
    var tok := k + "=" + v;
    assert tok[|k|] == '=';
    IndexOfFromFinds(tok, '=', 0, |k|);
    assert tok[..|k|] == k;
    assert tok[|k| + 1..] == v;
  }

  /** A token binding a key other than "contains" binds it to its own value. */
  lemma ApplyPlain(toks: seq<string>, i: nat, k: string, v: string, m: map<string, string>)
    requires i < |toks| && toks[i] == k + "=" + v && '=' !in k && k != "contains"
    ensures Apply(toks, i, m) == m[k := v]
  {
    BindingToken(k, v);
  }

  /** A contains token followed by a plain word binds "contains" to both, and the word binds nothing. */
  lemma ApplyContains(toks: seq<string>, i: nat, v: string, m: map<string, string>, m': map<string, string>)
    requires i + 1 < |toks| && toks[i] == FilterContains + v
    requires toks[i + 1] != "" && '=' !in toks[i + 1]
    ensures Apply(toks, i, m) == m["contains" := v + Space + toks[i + 1]]
    ensures Apply(toks, i + 1, m') == m'
  {
    assert FilterContains == "contains" + "=";
    BindingToken("contains", v);
  }

  /** A printed int or a token after a filter's key is a token. */
  lemma PrefixedToken(key: string, v: string)
    requires |key| > 0 && IsToken(key) && IsToken(v)
    ensures IsToken(key + v)
  {
    assert forall i :: 0 <= i < |key + v| ==> (key + v)[i] in key || (key + v)[i] in v;
  }

  /** Three lists of tokens put together are a list of tokens. */
  lemma AllTokensThree(a: seq<string>, b: seq<string>, c: seq<string>)
    requires AllTokens(a) && AllTokens(b) && AllTokens(c)
    ensures AllTokens(a + b + c)
  {
    forall i | 0 <= i < |a + b + c|
      ensures IsToken((a + b + c)[i])
    {
      if i < |a| {
        assert (a + b + c)[i] == a[i];
      } else if i < |a| + |b| {
        assert (a + b + c)[i] == b[i - |a|];
      } else {
        assert (a + b + c)[i] == c[i - |a| - |b|];
      }
    }
  }

  /** A one-word list of a filter key and a token value is a list of tokens. */
  lemma OneFilterToken(key: string, v: string)
    requires |key| > 0 && IsToken(key) && IsToken(v)
    ensures AllTokens([key + v])
  {
    PrefixedToken(key, v);
  }

  /** The contains words are tokens. */
  lemma ContainsWordsAreTokens(containsX: Option<int>, containsY: Option<int>)
    ensures AllTokens(ContainsWords(containsX, containsY))
  {
    if containsX.Some? && containsY.Some? {
      DecimalIsToken(containsX.value);
      DecimalIsToken(containsY.value);
      PrefixedToken(FilterContains, IntToString(containsX.value));
    }
  }

  /** With tokens for colour and refersTo, every word after GET is a token. */
  lemma FilterWordsAreTokens(colour: Option<string>, containsX: Option<int>, containsY: Option<int>,
                             refersTo: Option<string>)
    requires Given(colour) ==> IsToken(colour.value)
    requires Given(refersTo) ==> IsToken(refersTo.value)
    ensures AllTokens(FilterWords(colour, containsX, containsY, refersTo))
  {
    if Given(colour) {
      OneFilterToken(FilterColour, colour.value);
    }
    ContainsWordsAreTokens(containsX, containsY);
    if Given(refersTo) {
      OneFilterToken(FilterRefersTo, refersTo.value);
    }
    AllTokensThree(ColourWords(colour), ContainsWords(containsX, containsY), RefersToWords(refersTo));
  }

  /** A list of one word is appended as a blank and the word. */
  lemma AppendOne(t: string)
    ensures AppendEach([t]) == Space + t
  {
    assert [t][1..] == [];
  }

  /** The colour words are appended as the colour filter text. */
  lemma ColourText(colour: Option<string>)
    ensures AppendEach(ColourWords(colour)) ==
      if Given(colour) then Space + FilterColour + colour.value else ""
  {
    if Given(colour) {
      AppendOne(FilterColour + colour.value);
    }
  }

  /** The contains words are appended as the contains filter text. */
  lemma ContainsText(containsX: Option<int>, containsY: Option<int>)
    ensures AppendEach(ContainsWords(containsX, containsY)) ==
      if containsX.Some? && containsY.Some?
      then Space + FilterContains + IntToString(containsX.value) + Space + IntToString(containsY.value)
      else ""
  {
    if containsX.Some? && containsY.Some? {
      var t, u := FilterContains + IntToString(containsX.value), IntToString(containsY.value);
      assert [t, u][1..] == [u];
      AppendOne(u);
    }
  }

  /** The refersTo words are appended as the refersTo filter text. */
  lemma RefersToText(refersTo: Option<string>)
    ensures AppendEach(RefersToWords(refersTo)) ==
      if Given(refersTo) then Space + FilterRefersTo + refersTo.value else ""
  {
    if Given(refersTo) {
      AppendOne(FilterRefersTo + refersTo.value);
    }
  }

  /** The built GET line is GET, the three filter texts in order, then "\n". */
  lemma GetCommandTexts(colour: Option<string>, containsX: Option<int>, containsY: Option<int>,
                        refersTo: Option<string>)
    ensures BuildGetCommand(colour, containsX, containsY, refersTo) ==
      CmdGet + AppendEach(ColourWords(colour)) + AppendEach(ContainsWords(containsX, containsY))
      + AppendEach(RefersToWords(refersTo)) + LineEnd
  {
    ColourText(colour);
    ContainsText(containsX, containsY);
    RefersToText(refersTo);
  }

  /** Appending three lists of words appends each in turn. */
  lemma AppendEachThree(a: seq<string>, b: seq<string>, c: seq<string>)
    ensures AppendEach(a + b + c) == AppendEach(a) + AppendEach(b) + AppendEach(c)
  {
    AppendEachConcat(a, b);
    AppendEachConcat(a + b, c);
  }

  lemma Regroup(w: string, ta: string, tb: string, tc: string, e: string)
    ensures w + ta + tb + tc + e == w + (ta + tb + tc) + e
  {
  }

  /** The built GET line is GET, then a blank and a word for every filter word, then "\n". */
  lemma GetCommandWords(colour: Option<string>, containsX: Option<int>, containsY: Option<int>,
                        refersTo: Option<string>)
    ensures BuildGetCommand(colour, containsX, containsY, refersTo) ==
      CmdGet + AppendEach(FilterWords(colour, containsX, containsY, refersTo)) + LineEnd
  {
    var a, b, c := ColourWords(colour), ContainsWords(containsX, containsY), RefersToWords(refersTo);
    GetCommandTexts(colour, containsX, containsY, refersTo);
    AppendEachThree(a, b, c);
    assert FilterWords(colour, containsX, containsY, refersTo) == a + b + c;
    Regroup(CmdGet, AppendEach(a), AppendEach(b), AppendEach(c), LineEnd);
  }

  /** Blank-separated tokens hold no line end. */
  lemma {:induction false} AppendEachNoLineEnd(words: seq<string>)
    requires AllTokens(words)
    ensures '\n' !in AppendEach(words) && '\r' !in AppendEach(words)
    decreases |words|
  {
    if words != [] {
      AppendEachNoLineEnd(words[1..]);
      var t := AppendEach(words[1..]);
      assert forall ch :: ch in Space + words[0] + t ==> ch == ' ' || ch in words[0] || ch in t;
    }
  }

  /** A join of strings whose outer ends are not trimmable is trimmed. */
  lemma JoinedTokensTrimmed(words: seq<string>)
    requires |words| >= 1 && words[0] != "" && words[|words| - 1] != ""
    requires !IsTrimmable(words[0][0])
    requires !IsTrimmable(words[|words| - 1][|words[|words| - 1]| - 1])
    ensures IsTrimmed(Join(Space, words))
  {
    var s := Join(Space, words);
    JoinHead(Space, words);
    assert s[0] == s[..|words[0]|][0];
    var last := words[|words| - 1];
    if |words| >= 2 {
      JoinLast(Space, words);
      assert s[|s| - 1] == last[|last| - 1];
    }
  }

  /** Blank-separated words are a blank and then their join. */
  lemma AppendEachIsJoin(words: seq<string>)
    requires |words| >= 1
    ensures AppendEach(words) == Space + Join(Space, words)
  {
    JoinThenAppendEach(words[0], words[1..]);
    assert [words[0]] + words[1..] == words;
  }

  /** Tokens joined by blanks split back into the tokens, each of them already trimmed. */
  lemma JoinedTokensSplit(words: seq<string>)
    requires |words| >= 1 && AllTokens(words)
    ensures TrimAll(JavaSplit(Join(Space, words), Delimiter)) == words
  {
    assert forall i :: 0 <= i < |words| ==> Delimiter !in words[i];
    JavaSplitJoin(words, Delimiter);
    var toks := TrimAll(JavaSplit(Join(Space, words), Delimiter));
    forall i | 0 <= i < |words|
      ensures toks[i] == words[i]
    {
      TokenIsTrimmed(words[i]);
    }
  }

  /** Blank-separated tokens trim to their join, and split back into the tokens. */
  lemma WordsReadBack(words: seq<string>)
    requires |words| >= 1 && AllTokens(words)
    ensures Trim(AppendEach(words)) == Join(Space, words)
    ensures Trim(AppendEach(words)) != ""
    ensures FilterTokens(AppendEach(words)) == words
  {
    var s := Join(Space, words);
    AppendEachIsJoin(words);
    assert IsToken(words[0]) && IsToken(words[|words| - 1]);
    JoinedTokensTrimmed(words);
    TrimFrames(Space, s, "");
    assert Space + s + "" == Space + s;
    JoinHead(Space, words);
    JoinedTokensSplit(words);
  }

  /** Reading the colour words gives the colour criterion. */
  lemma ReadColour(words: seq<string>, colour: Option<string>)
    requires |ColourWords(colour)| <= |words|
    requires words[..|ColourWords(colour)|] == ColourWords(colour)
    ensures FilterReference(words, |ColourWords(colour)|) ==
      (if Given(colour) then map["color" := colour.value] else map[])
  {
    if Given(colour) {
      assert FilterColour == "color" + "=";
      assert words[0] == ColourWords(colour)[0];
      ApplyPlain(words, 0, "color", colour.value, map[]);
    }
  }

  /** Reading on through the contains words adds the point criterion. */
  lemma ReadContains(words: seq<string>, n: nat, containsX: Option<int>, containsY: Option<int>)
    requires n + |ContainsWords(containsX, containsY)| <= |words|
    requires words[n..n + |ContainsWords(containsX, containsY)|] == ContainsWords(containsX, containsY)
    ensures FilterReference(words, n + |ContainsWords(containsX, containsY)|) ==
      if containsX.Some? && containsY.Some?
      then FilterReference(words, n)["contains" := IntToString(containsX.value) + Space + IntToString(containsY.value)]
      else FilterReference(words, n)
  {
    if containsX.Some? && containsY.Some? {
      var ws := ContainsWords(containsX, containsY);
      assert words[n] == ws[0] && words[n + 1] == ws[1];
      DecimalIsToken(containsY.value);
      var before := FilterReference(words, n);
      ApplyContains(words, n, IntToString(containsX.value), before, Apply(words, n, before));
    }
  }

  /** Reading the last word, if any, adds the refersTo criterion. */
  lemma ReadRefersTo(words: seq<string>, n: nat, refersTo: Option<string>)
    requires n + |RefersToWords(refersTo)| == |words|
    requires words[n..] == RefersToWords(refersTo)
    ensures FilterReference(words, |words|) ==
      if Given(refersTo) then FilterReference(words, n)["refersTo" := refersTo.value] else FilterReference(words, n)
  {
    if Given(refersTo) {
      assert FilterRefersTo == "refersTo" + "=";
      assert words[n] == RefersToWords(refersTo)[0];
      ApplyPlain(words, n, "refersTo", refersTo.value, FilterReference(words, n));
    }
  }

  /** The three parts of a concatenation are its slices. */
  lemma ThreeSlices(a: seq<string>, b: seq<string>, c: seq<string>)
    ensures (a + b + c)[..|a|] == a
    ensures (a + b + c)[|a|..|a| + |b|] == b
    ensures (a + b + c)[|a| + |b|..] == c
  {
  }

  /** The reference reading of the filter words is the requested filters. */
  lemma FilterWordsRead(colour: Option<string>, containsX: Option<int>, containsY: Option<int>,
                        refersTo: Option<string>)
    ensures var words := FilterWords(colour, containsX, containsY, refersTo);
      FilterReference(words, |words|) == RequestedFilters(colour, containsX, containsY, refersTo)
  {
    var a, b, c := ColourWords(colour), ContainsWords(containsX, containsY), RefersToWords(refersTo);
    var words := a + b + c;
    ThreeSlices(a, b, c);
    ReadColour(words, colour);
    ReadContains(words, |a|, containsX, containsY);
    ReadRefersTo(words, |a| + |b|, refersTo);
  }

  /** GET is told from POST by its first char, so a line that starts with it is a GET. */
  lemma GetWord(rest: string)
    requires '\n' !in rest && '\r' !in rest
    ensures var line := CmdGet + rest;
      && LineOf(line + LineEnd) == line && OneLine(line + LineEnd)
      && ParseCommandType(Some(line)) == Some(CmdGet)
      && ParseParameters(line) == Trim(rest)
  {
    WordLine(CmdGet, rest);
    CharDiffers(CmdGet + rest, CmdPost, 0);
    assert forall j :: 0 <= j < 1 ==> !StartsWith(CmdGet + rest, Commands[j]);
    WordAndRest(1, rest);
  }

  /** Blank-separated tokens, trimmed, parse as the reference reading of the tokens. */
  lemma FiltersOfWords(words: seq<string>)
    requires AllTokens(words)
    ensures ParseGetFilters(Some(Trim(AppendEach(words)))) == Some(FilterReference(words, |words|))
  {
    var t := Trim(AppendEach(words));
    TrimIdempotent(AppendEach(words));
    if words != [] {
      WordsReadBack(words);
      assert FilterTokens(t) == FilterTokens(AppendEach(words)) by {
        assert Trim(t) == t;
      }
    }
  }

  /**
   * buildGetCommand with token criteria is read back as a GET whose
   * filters are exactly the criteria given: a colour under "color", the
   * point as "x y" under "contains" and the text under "refersTo".
   */
  lemma GetCommandRoundTrip(colour: Option<string>, containsX: Option<int>, containsY: Option<int>,
                            refersTo: Option<string>)
    requires Given(colour) ==> IsToken(colour.value)
    requires Given(refersTo) ==> IsToken(refersTo.value)
    ensures var wire := BuildGetCommand(colour, containsX, containsY, refersTo);
      && OneLine(wire)
      && ParseCommandType(Some(LineOf(wire))) == Some(CmdGet)
      && ParseGetFilters(Some(ParseParameters(LineOf(wire)))) ==
           Some(RequestedFilters(colour, containsX, containsY, refersTo))
  {
    var words := FilterWords(colour, containsX, containsY, refersTo);
    var rest := AppendEach(words);
    GetCommandWords(colour, containsX, containsY, refersTo);
    FilterWordsAreTokens(colour, containsX, containsY, refersTo);
    AppendEachNoLineEnd(words);
    GetWord(rest);
    FiltersOfWords(words);
    FilterWordsRead(colour, containsX, containsY, refersTo);
  }
}
