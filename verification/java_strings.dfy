/**
 * The parts of java.lang.String that the protocol code relies on, with the
 * exact Java semantics: trim(), startsWith, indexOf, contains, the
 * single-character fast path of split (with and without a limit), String.join
 * and equalsIgnoreCase (restricted to ASCII case folding).
 */
module JavaStrings {
  import opened Wrappers

  /** String.trim() strips every char whose code is at most U+0020. */
  predicate IsTrimmable(c: char) {
    c <= ' '
  }

  predicate AllTrimmable(s: string) {
    forall i :: 0 <= i < |s| ==> IsTrimmable(s[i])
  }

  /** Neither end of `s` is trimmable, so trim() leaves it as it is. */
  predicate IsTrimmed(s: string) {
    s == [] || (!IsTrimmable(s[0]) && !IsTrimmable(s[|s| - 1]))
  }

  /** A non-empty string without any trimmable char (so without spaces). */
  predicate IsToken(s: string) {
    s != [] && forall i :: 0 <= i < |s| ==> !IsTrimmable(s[i])
  }

  /** The leading loop of String.trim(). */
  function TrimLeft(s: string): string
  {
    if |s| > 0 && IsTrimmable(s[0]) then TrimLeft(s[1..]) else s
  }

  /** The trailing loop of String.trim(). */
  function TrimRight(s: string): string
  {
    if |s| > 0 && IsTrimmable(s[|s| - 1]) then TrimRight(s[..|s| - 1]) else s
  }

  /** String.trim(). */
  function Trim(s: string): string
  {
    TrimRight(TrimLeft(s))
  }

  /** The leading loop removes a prefix of trimmable chars and stops at a non-trimmable one. */
  lemma {:induction false} TrimLeftSpec(s: string)
    ensures var r := TrimLeft(s);
      && |r| <= |s| && r == s[|s| - |r|..]
      && (r == [] || !IsTrimmable(r[0]))
      && forall i :: 0 <= i < |s| - |r| ==> IsTrimmable(s[i])
    decreases |s|
  {
    if |s| > 0 && IsTrimmable(s[0]) {
      TrimLeftSpec(s[1..]);
    }
  }

  /** The trailing loop removes a suffix of trimmable chars and stops at a non-trimmable one. */
  lemma {:induction false} TrimRightSpec(s: string)
    ensures var r := TrimRight(s);
      && |r| <= |s| && r == s[..|r|]
      && (r == [] || !IsTrimmable(r[|r| - 1]))
      && forall i :: |r| <= i < |s| ==> IsTrimmable(s[i])
    decreases |s|
  {
    if |s| > 0 && IsTrimmable(s[|s| - 1]) {
      TrimRightSpec(s[..|s| - 1]);
    }
  }

  /**
   * trim() is the middle of the string between a trimmable prefix and a
   * trimmable suffix, and neither of its ends is trimmable.
   */
  lemma TrimSpec(s: string)
    ensures var r := Trim(s);
      && IsTrimmed(r)
      && exists k :: 0 <= k <= |s| - |r| && r == s[k..k + |r|] &&
           AllTrimmable(s[..k]) && AllTrimmable(s[k + |r|..])
  {
    var l := TrimLeft(s);
    var k := |s| - |l|;
    assert AllTrimmable(s[..k]) && l == s[k..] && (l == [] || !IsTrimmable(l[0])) by {
      TrimLeftSpec(s);
    }
    var r := TrimRight(l);
    assert IsTrimmed(r) && r == l[..|r|] && AllTrimmable(l[|r|..]) by {
      TrimRightSpec(l);
      if r != [] {
        assert r[0] == l[0];
      }
    }
    SliceOfSlice(s, k, l, r);
    assert 0 <= k <= |s| - |r| && r == s[k..k + |r|] && AllTrimmable(s[..k]) && AllTrimmable(s[k + |r|..]);
  }

  /** A prefix of a suffix is a middle slice, and what follows it is the rest of the string. */
  lemma SliceOfSlice(s: string, k: nat, l: string, r: string)
    requires k <= |s| && l == s[k..] && |r| <= |l| && r == l[..|r|]
    ensures r == s[k..k + |r|] && s[k + |r|..] == l[|r|..]
  {
  }

  lemma TrimLeftSkips(a: string, t: string)
    requires AllTrimmable(a)
    requires t == [] || !IsTrimmable(t[0])
    ensures TrimLeft(a + t) == t
    decreases |a|
  {
    if a == [] {
      assert a + t == t;
    } else {
      assert (a + t)[1..] == a[1..] + t;
      TrimLeftSkips(a[1..], t);
    }
  }

  lemma TrimRightSkips(t: string, b: string)
    requires AllTrimmable(b)
    requires t == [] || !IsTrimmable(t[|t| - 1])
    ensures TrimRight(t + b) == t
    decreases |b|
  {
    if b == [] {
      assert t + b == t;
    } else {
      assert (t + b)[..|t + b| - 1] == t + b[..|b| - 1];
      TrimRightSkips(t, b[..|b| - 1]);
    }
  }

  /** trim() removes exactly a whitespace frame around a trimmed middle. */
  lemma TrimFrames(a: string, m: string, b: string)
    requires AllTrimmable(a) && AllTrimmable(b) && IsTrimmed(m)
    ensures Trim(a + m + b) == m
  {
    if m == [] {
      assert a + m + b == (a + b) + [];
      TrimLeftSkips(a + b, []);
    } else {
      assert a + m + b == a + (m + b);
      TrimLeftSkips(a, m + b);
      TrimRightSkips(m, b);
    }
  }

  lemma TrimOfTrimmed(s: string)
    requires IsTrimmed(s)
    ensures Trim(s) == s
  {
    assert [] + s + [] == s;
    TrimFrames([], s, []);
  }

  lemma TrimIdempotent(s: string)
    ensures Trim(Trim(s)) == Trim(s)
  {
    TrimSpec(s);
    TrimOfTrimmed(Trim(s));
  }

  lemma TokenIsTrimmed(s: string)
    requires IsToken(s)
    ensures IsTrimmed(s) && Trim(s) == s
  {
    TrimOfTrimmed(s);
  }

  /** String.startsWith. */
  predicate StartsWith(s: string, prefix: string) {
    |prefix| <= |s| && s[..|prefix|] == prefix
  }

  /** String.contains: `sub` occurs in `s` at some offset. */
  predicate Contains(s: string, sub: string)
    decreases |s|
  {
    StartsWith(s, sub) || (|s| > 0 && Contains(s[1..], sub))
  }

  /** String.indexOf(ch, fromIndex), with `None` for Java's -1. */
  function IndexOfFrom(s: string, c: char, from: nat): (r: Option<nat>)
    ensures r.Some? ==> from <= r.value < |s| && s[r.value] == c
    decreases |s| - from
  {
    if from >= |s| then None
    else if s[from] == c then Some(from)
    else IndexOfFrom(s, c, from + 1)
  }

  /** indexOf skips no occurrence: nothing before the answer (or nothing at all) is `c`. */
  lemma {:induction false} IndexOfFromFirst(s: string, c: char, from: nat)
    ensures forall i :: from <= i < |s| && (IndexOfFrom(s, c, from).None? || i < IndexOfFrom(s, c, from).value) ==> s[i] != c
    decreases |s| - from
  {
    if from < |s| && s[from] != c {
      IndexOfFromFirst(s, c, from + 1);
    }
  }

  /** indexOf finds the first occurrence at or after `from`, whatever it is. */
  lemma {:induction false} IndexOfFromFinds(s: string, c: char, from: nat, i: nat)
    requires from <= i < |s| && s[i] == c
    requires forall j :: from <= j < i ==> s[j] != c
    ensures IndexOfFrom(s, c, from) == Some(i)
    decreases i - from
  {
    if from < i {
      IndexOfFromFinds(s, c, from + 1, i);
    }
  }

  /** Searching a suffix is searching the whole string from further on, shifted back. */
  lemma {:induction false} IndexOfFromShift(s: string, c: char, k: nat, from: nat)
    requires k <= |s|
    ensures IndexOfFrom(s[k..], c, from) ==
      match IndexOfFrom(s, c, k + from)
      case None => None
      case Some(j) => Some(j - k)
    decreases |s| - k - from
  {
    if from < |s[k..]| && s[k..][from] != c {
      IndexOfFromShift(s, c, k, from + 1);
    }
  }

  /** A string with a non-trimmable char somewhere does not trim to "". */
  lemma TrimNonBlank(s: string, i: nat)
    requires i < |s| && !IsTrimmable(s[i])
    ensures Trim(s) != ""
  {
    TrimLeftSpec(s);
    var l := TrimLeft(s);
    assert l != [];
    TrimRightSpec(l);
    assert !IsTrimmable(l[0]);
  }

  /** String.join(sep, pieces). */
  function Join(sep: string, pieces: seq<string>): string
  {
    if |pieces| == 0 then ""
    else if |pieces| == 1 then pieces[0]
    else pieces[0] + sep + Join(sep, pieces[1..])
  }

  lemma JoinTwo(sep: string, a: string, b: string)
    ensures Join(sep, [a, b]) == a + sep + b
  {
    assert [a, b][1..] == [b];
  }

  lemma JoinCons(sep: string, a: string, rest: seq<string>)
    requires |rest| >= 1
    ensures Join(sep, [a] + rest) == a + sep + Join(sep, rest)
  {
    assert ([a] + rest)[1..] == rest;
  }

  /** A join starts with its first piece. */
  lemma JoinHead(sep: string, pieces: seq<string>)
    requires |pieces| >= 1
    ensures |pieces[0]| <= |Join(sep, pieces)| && Join(sep, pieces)[..|pieces[0]|] == pieces[0]
  {
  }

  /** A character that occurs in the string is found by a search from the start. */
  lemma IndexOfFromPresent(s: string, c: char)
    requires c in s
    ensures IndexOfFrom(s, c, 0).Some?
  {
    var i :| 0 <= i < |s| && s[i] == c;
    IndexOfFromFirst(s, c, 0);
  }

  /** The pieces between consecutive occurrences of `d` (every piece kept). */
  function SplitAll(s: string, d: char): (r: seq<string>)
    ensures |r| >= 1
    decreases |s|
  {
    match IndexOfFrom(s, d, 0)
    case None => [s]
    case Some(i) => [s[..i]] + SplitAll(s[i + 1..], d)
  }

  /** There is one more piece than there are separators. */
  lemma {:induction false} SplitAllCount(s: string, d: char)
    ensures |SplitAll(s, d)| == multiset(s)[d] + 1
    decreases |s|
  {
    IndexOfFromFirst(s, d, 0);
    match IndexOfFrom(s, d, 0)
    case None =>
      assert d !in multiset(s);
    case Some(i) =>
      SplitAllCount(s[i + 1..], d);
      CountAtFirst(s, d, i);
  }

  /** Up to and including its first occurrence, a char occurs once. */
  lemma CountAtFirst(s: string, d: char, i: nat)
    requires i < |s| && s[i] == d
    requires forall j :: 0 <= j < i ==> s[j] != d
    ensures multiset(s)[d] == multiset(s[i + 1..])[d] + 1
  {
    assert s == s[..i] + [d] + s[i + 1..];
    assert d !in multiset(s[..i]);
  }

  /** No piece holds a separator. */
  lemma {:induction false} SplitAllPieces(s: string, d: char)
    ensures forall i :: 0 <= i < |SplitAll(s, d)| ==> d !in SplitAll(s, d)[i]
    decreases |s|
  {
    IndexOfFromFirst(s, d, 0);
    match IndexOfFrom(s, d, 0)
    case None =>
    case Some(i) =>
      SplitAllPieces(s[i + 1..], d);
      assert forall j :: 0 <= j < i ==> s[..i][j] == s[j];
  }

  /** Joining the pieces with the separator gives the string back. */
  lemma {:induction false} SplitAllJoins(s: string, d: char)
    ensures Join([d], SplitAll(s, d)) == s
    decreases |s|
  {
    match IndexOfFrom(s, d, 0)
    case None =>
    case Some(i) =>
      var rest := SplitAll(s[i + 1..], d);
      SplitAllJoins(s[i + 1..], d);
      JoinCons([d], s[..i], rest);
      assert s == s[..i] + [d] + s[i + 1..];
  }

  /** One piece more than separators, none holding one, joining back to the string. */
  lemma SplitAllSpec(s: string, d: char)
    ensures |SplitAll(s, d)| == multiset(s)[d] + 1
    ensures forall i :: 0 <= i < |SplitAll(s, d)| ==> d !in SplitAll(s, d)[i]
    ensures Join([d], SplitAll(s, d)) == s
  {
    SplitAllCount(s, d);
    SplitAllPieces(s, d);
    SplitAllJoins(s, d);
  }

  /** Splitting a join of d-free pieces on `d` gives the pieces back. */
  lemma {:induction false} SplitAllJoin(pieces: seq<string>, d: char)
    requires |pieces| >= 1
    requires forall i :: 0 <= i < |pieces| ==> d !in pieces[i]
    ensures SplitAll(Join([d], pieces), d) == pieces
    decreases |pieces|
  {
    if |pieces| == 1 {
      assert SplitAll(pieces[0], d) == [pieces[0]];
    } else {
      var p0, rest := pieces[0], pieces[1..];
      assert Join([d], pieces) == p0 + [d] + Join([d], rest);
      SplitAllCons(p0, Join([d], rest), d);
      SplitAllJoin(rest, d);
      assert pieces == [p0] + rest;
    }
  }

  /** A separator-free head and a separator split off as the first piece. */
  lemma SplitAllCons(a: string, t: string, d: char)
    requires d !in a
    ensures SplitAll(a + [d] + t, d) == [a] + SplitAll(t, d)
  {
    var s := a + [d] + t;
    IndexOfFromFinds(s, d, 0, |a|);
    assert s[..|a|] == a;
    assert s[|a| + 1..] == t;
  }

  /** The separators of a join: one per gap. */
  lemma {:induction false} JoinLast(sep: string, pieces: seq<string>)
    requires |pieces| >= 2
    ensures Join(sep, pieces) == Join(sep, pieces[..|pieces| - 1]) + sep + pieces[|pieces| - 1]
    decreases |pieces|
  {
    var init, last := pieces[..|pieces| - 1], pieces[|pieces| - 1];
    if |pieces| == 2 {
      assert pieces[1..] == [last] && init == [pieces[0]];
    } else {
      var rest := pieces[1..];
      JoinLast(sep, rest);
      assert rest[..|rest| - 1] == init[1..] && rest[|rest| - 1] == last;
      assert init[0] == pieces[0];
      var m := Join(sep, init[1..]);
      assert Join(sep, pieces) == pieces[0] + sep + (m + sep + last);
      assert Join(sep, init) == pieces[0] + sep + m;
    }
  }

  /** Drops the empty strings at the end (String.split with limit 0). */
  function DropTrailingEmpty(r: seq<string>): (t: seq<string>)
    ensures |t| <= |r| && t == r[..|t|]
    ensures t == [] || t[|t| - 1] != ""
    ensures forall i :: |t| <= i < |r| ==> r[i] == ""
  {
    if |r| > 0 && r[|r| - 1] == "" then DropTrailingEmpty(r[..|r| - 1]) else r
  }

  /**
   * String.split(d) for a one-character, non-regex-special separator: no
   * occurrence gives the string itself; otherwise the pieces with the
   * trailing empty ones removed.
   */
  function JavaSplit(s: string, d: char): seq<string>
  {
    if d !in s then [s] else DropTrailingEmpty(SplitAll(s, d))
  }

  /**
   * String.split(d, n) with n > 0: split at the first n-1 occurrences only;
   * the last piece keeps the rest of the string, and nothing is dropped.
   */
  function SplitLimit(s: string, d: char, n: nat): (r: seq<string>)
    requires n >= 1
    ensures 1 <= |r| <= n
    decreases n
  {
    if n == 1 then
      [s]
    else
      match IndexOfFrom(s, d, 0)
      case None => [s]
      case Some(i) => [s[..i]] + SplitLimit(s[i + 1..], d, n - 1)
  }

  /** A limited split has min(n, occurrences + 1) pieces. */
  lemma {:induction false} SplitLimitCount(s: string, d: char, n: nat)
    requires n >= 1
    ensures |SplitLimit(s, d, n)| == if multiset(s)[d] + 1 < n then multiset(s)[d] + 1 else n
    decreases n
  {
    IndexOfFromFirst(s, d, 0);
    var f := IndexOfFrom(s, d, 0);
    if n > 1 && f.None? {
      assert d !in multiset(s);
    } else if n > 1 {
      var i := f.value;
      SplitLimitCount(s[i + 1..], d, n - 1);
      CountAtFirst(s, d, i);
    }
  }

  /** Every piece of a limited split but the last is free of `d`. */
  lemma {:induction false} SplitLimitPieces(s: string, d: char, n: nat)
    requires n >= 1
    ensures forall i :: 0 <= i < |SplitLimit(s, d, n)| - 1 ==> d !in SplitLimit(s, d, n)[i]
    decreases n
  {
    IndexOfFromFirst(s, d, 0);
    var f := IndexOfFrom(s, d, 0);
    if n > 1 && f.Some? {
      var i := f.value;
      SplitLimitPieces(s[i + 1..], d, n - 1);
      assert forall j :: 0 <= j < i ==> s[..i][j] == s[j];
    }
  }

  /** Joining the pieces of a limited split with `d` gives the string back. */
  lemma {:induction false} SplitLimitJoins(s: string, d: char, n: nat)
    requires n >= 1
    ensures Join([d], SplitLimit(s, d, n)) == s
    decreases n
  {
    var f := IndexOfFrom(s, d, 0);
    if n > 1 && f.Some? {
      var i := f.value;
      var rest := SplitLimit(s[i + 1..], d, n - 1);
      SplitLimitJoins(s[i + 1..], d, n - 1);
      JoinCons([d], s[..i], rest);
      assert s == s[..i] + [d] + s[i + 1..];
    }
  }

  /**
   * A limited split has min(n, occurrences + 1) pieces, all but the last
   * free of `d`, and joining them with `d` gives the string back.
   */
  lemma SplitLimitSpec(s: string, d: char, n: nat)
    requires n >= 1
    ensures |SplitLimit(s, d, n)| == if multiset(s)[d] + 1 < n then multiset(s)[d] + 1 else n
    ensures forall i :: 0 <= i < |SplitLimit(s, d, n)| - 1 ==> d !in SplitLimit(s, d, n)[i]
    ensures Join([d], SplitLimit(s, d, n)) == s
  {
    SplitLimitCount(s, d, n);
    SplitLimitPieces(s, d, n);
    SplitLimitJoins(s, d, n);
  }

  /** A limited split of a suffix cuts at the next separator of the whole string. */
  lemma SplitLimitSuffix(s: string, d: char, k: nat, n: nat, e: nat)
    requires k <= |s| && n >= 2
    requires IndexOfFrom(s, d, k) == Some(e)
    ensures SplitLimit(s[k..], d, n) == [s[k..e]] + SplitLimit(s[e + 1..], d, n - 1)
  {
    IndexOfFromShift(s, d, k, 0);
    assert s[k..][..e - k] == s[k..e];
    assert s[k..][e - k + 1..] == s[e + 1..];
  }

  /** A split limited to one piece is the whole string. */
  lemma SplitLimitOne(s: string, d: char)
    ensures SplitLimit(s, d, 1) == [s]
  {
  }

  /** A suffix with no separator left is a single piece. */
  lemma SplitLimitSuffixLast(s: string, d: char, k: nat, n: nat)
    requires k <= |s| && n >= 1
    requires IndexOfFrom(s, d, k).None?
    ensures SplitLimit(s[k..], d, n) == [s[k..]]
  {
    IndexOfFromShift(s, d, k, 0);
  }

  /** A limited split cuts at the first separator and carries on with one piece fewer. */
  lemma SplitLimitStep(a: string, t: string, d: char, n: nat)
    requires d !in a && n >= 2
    ensures SplitLimit(a + [d] + t, d, n) == [a] + SplitLimit(t, d, n - 1)
  {
    var s := a + [d] + t;
    IndexOfFromFinds(s, d, 0, |a|);
    assert s[..|a|] == a;
    assert s[|a| + 1..] == t;
  }

  /** A limited split recovers any n pieces whose first n-1 are d-free. */
  lemma {:induction false} SplitLimitJoin(pieces: seq<string>, d: char)
    requires |pieces| >= 1
    requires forall i :: 0 <= i < |pieces| - 1 ==> d !in pieces[i]
    ensures SplitLimit(Join([d], pieces), d, |pieces|) == pieces
    decreases |pieces|
  {
    if |pieces| > 1 {
      var rest := pieces[1..];
      JoinCons([d], pieces[0], rest);
      assert [pieces[0]] + rest == pieces;
      SplitLimitJoin(rest, d);
      SplitLimitStep(pieces[0], Join([d], rest), d, |pieces|);
    }
  }

  /** A string that does not end in `d` splits into pieces whose last is non-empty. */
  lemma SplitAllLastNonEmpty(s: string, d: char)
    requires s != [] && s[|s| - 1] != d
    ensures SplitAll(s, d)[|SplitAll(s, d)| - 1] != ""
  {
    var r := SplitAll(s, d);
    var last := r[|r| - 1];
    SplitAllJoins(s, d);
    if |r| == 1 {
      assert s == last;
    } else {
      JoinLast([d], r);
      EndsWithSeparator(Join([d], r[..|r| - 1]), d, last);
    }
  }

  /** Text that ends in a separator followed by nothing ends in the separator. */
  lemma EndsWithSeparator(front: string, d: char, last: string)
    ensures last == [] ==> (front + [d] + last)[|front + [d] + last| - 1] == d
  {
  }

  /** On a string not ending in `d`, split(d) drops nothing. */
  lemma JavaSplitKeepsAll(s: string, d: char)
    requires s != [] && s[|s| - 1] != d
    ensures JavaSplit(s, d) == SplitAll(s, d)
  {
    SplitAllLastNonEmpty(s, d);
    if d !in s {
      assert d !in multiset(s);
      SplitAllCount(s, d);
      SplitAllJoins(s, d);
      var r := SplitAll(s, d);
      assert |r| == 1 && Join([d], r) == r[0];
    }
  }

  /** split(d) inverts String.join(d) when no piece contains d and the last is non-empty. */
  lemma JavaSplitJoin(pieces: seq<string>, d: char)
    requires |pieces| >= 1
    requires forall i :: 0 <= i < |pieces| ==> d !in pieces[i]
    requires pieces[|pieces| - 1] != ""
    ensures JavaSplit(Join([d], pieces), d) == pieces
  {
    var s := Join([d], pieces);
    SplitAllJoin(pieces, d);
    SplitAllCount(s, d);
    if |pieces| == 1 {
      assert s == pieces[0];
    } else {
      assert multiset(s)[d] == |pieces| - 1;
      assert d in multiset(s);
    }
  }

  /** Two ways of cutting a string at a separator agree when the heads avoid it. */
  lemma CutUnique(a: string, b: string, c: string, e: string, d: char)
    requires d !in a && d !in c
    requires a + [d] + b == c + [d] + e
    ensures a == c && b == e
  {
    var s := a + [d] + b;
    IndexOfFromFinds(s, d, 0, |a|);
    IndexOfFromFinds(c + [d] + e, d, 0, |c|);
    assert |a| == |c|;
    assert a == s[..|a|] && c == s[..|c|];
    assert b == s[|a| + 1..] && e == s[|c| + 1..];
  }

  /** The ASCII half of Character.toUpperCase. */
  function ToUpperAscii(c: char): char {
    if 'a' <= c <= 'z' then (c as int - 32) as char else c
  }

  /** The ASCII half of Character.toLowerCase. */
  function ToLowerAscii(c: char): char {
    if 'A' <= c <= 'Z' then (c as int + 32) as char else c
  }

  /** The per-character test of String.equalsIgnoreCase. */
  predicate CharEqualsIgnoreCase(a: char, b: char) {
    a == b
    || ToUpperAscii(a) == ToUpperAscii(b)
    || ToLowerAscii(ToUpperAscii(a)) == ToLowerAscii(ToUpperAscii(b))
  }

  /** String.equalsIgnoreCase on a non-null argument. */
  predicate EqualsIgnoreCase(a: string, b: string) {
    |a| == |b| && forall i :: 0 <= i < |a| ==> CharEqualsIgnoreCase(a[i], b[i])
  }

  function UpperAscii(s: string): (r: string)
    ensures |r| == |s|
    ensures forall i :: 0 <= i < |s| ==> r[i] == ToUpperAscii(s[i])
  {
    seq(|s|, i requires 0 <= i < |s| => ToUpperAscii(s[i]))
  }

  lemma CharEqualsIgnoreCaseIffUpper(a: char, b: char)
    ensures CharEqualsIgnoreCase(a, b) <==> ToUpperAscii(a) == ToUpperAscii(b)
  {
  }

  /** equalsIgnoreCase is equality after upper-casing both sides. */
  lemma EqualsIgnoreCaseIffUpper(a: string, b: string)
    ensures EqualsIgnoreCase(a, b) <==> UpperAscii(a) == UpperAscii(b)
  {
    forall i | 0 <= i < |a| && i < |b| {
      CharEqualsIgnoreCaseIffUpper(a[i], b[i]);
    }
    if UpperAscii(a) == UpperAscii(b) {
      assert forall i :: 0 <= i < |a| ==> UpperAscii(a)[i] == UpperAscii(b)[i];
    }
  }

  /** `list.stream().anyMatch(x -> x.equalsIgnoreCase(s))`. */
  function AnyEqualsIgnoreCase(list: seq<string>, s: string): (r: bool)
    ensures r <==> exists i :: 0 <= i < |list| && EqualsIgnoreCase(list[i], s)
  {
    if list == [] then false
    else EqualsIgnoreCase(list[0], s) || AnyEqualsIgnoreCase(list[1..], s)
  }

  /** Against a list of upper-case names, a case-insensitive match is membership of the upper-cased name. */
  lemma AnyEqualsIgnoreCaseUpper(list: seq<string>, s: string)
    requires forall i :: 0 <= i < |list| ==> UpperAscii(list[i]) == list[i]
    ensures AnyEqualsIgnoreCase(list, s) <==> UpperAscii(s) in list
  {
    if AnyEqualsIgnoreCase(list, s) {
      var i :| 0 <= i < |list| && EqualsIgnoreCase(list[i], s);
      EqualsIgnoreCaseIffUpper(list[i], s);
    }
    if UpperAscii(s) in list {
      var i :| 0 <= i < |list| && list[i] == UpperAscii(s);
      EqualsIgnoreCaseIffUpper(list[i], s);
    }
  }
}
