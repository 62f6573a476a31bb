/** The command-line splitter of common/cmdparse.c: tokens separated by blanks, or quoted; cut in place. */
module CommandLine {
  import opened ByteStrings

  predicate Blank(c: char) { c == ' ' || c == '\t' }

  // ---------- What the tokens of a line are ----------

  function SkipBlanks(s: string): (r: string)
    ensures |r| <= |s|
    ensures r != [] ==> !Blank(r[0])
  {
    if s != [] && Blank(s[0]) then SkipBlanks(s[1..]) else s
  }

  /** The characters before the first quote, or before the first blank. */
  function UpTo(s: string, quoted: bool): (n: nat)
    ensures n <= |s|
    ensures forall i | 0 <= i < n :: !Stops(s[i], quoted)
    ensures n < |s| ==> Stops(s[n], quoted)
  {
    if s == [] || Stops(s[0], quoted) then 0 else 1 + UpTo(s[1..], quoted)
  }

  predicate Stops(c: char, quoted: bool) {
    if quoted then c == '"' else Blank(c)
  }

  /** The token that starts a line, and what follows it; the quotes of a quoted token belong to neither. */
  function Token(s: string): (t: string)
    requires s != []
  {
    if s[0] == '"' then s[1..][..UpTo(s[1..], true)] else s[..UpTo(s, false)]
  }

  function After(s: string): (r: string)
    requires s != [] && !Blank(s[0])
    ensures |r| < |s|
  {
    if s[0] == '"' then
      var n := UpTo(s[1..], true);
      if n < |s| - 1 then s[n + 2..] else []
    else s[UpTo(s, false)..]
  }

  function Tokens(s: string): seq<string>
    decreases |s|
  {
    var u := SkipBlanks(s);
    if u == [] then [] else [Token(u)] + Tokens(After(u))
  }

  /** What cmdparse_rest_after_tokens leaves of a line. */
  function Rest(s: string, skip: nat): (r: string)
    decreases skip
  {
    var u := SkipBlanks(s);
    if skip == 0 || u == [] then u else Rest(After(u), skip - 1)
  }

  lemma {:induction false} SkipTwice(s: string)
    ensures SkipBlanks(SkipBlanks(s)) == SkipBlanks(s)
    decreases |s|
  {
    if s != [] && Blank(s[0]) { SkipTwice(s[1..]); }
  }

  /** Tokenizing the remainder gives the tokens that were not skipped. */
  lemma {:induction false} TokensOfRest(s: string, skip: nat)
    ensures Tokens(Rest(s, skip)) == if skip <= |Tokens(s)| then Tokens(s)[skip..] else []
    decreases skip
  {
    var u := SkipBlanks(s);
    if skip == 0 || u == [] {
      TokensOfSkipped(s);
    } else {
      TokensOfRest(After(u), skip - 1);
      DropMore(Token(u), Tokens(After(u)), skip);
    }
  }

  lemma TokensOfSkipped(s: string)
    ensures Tokens(SkipBlanks(s)) == Tokens(s)
    ensures SkipBlanks(s) == [] ==> Tokens(s) == []
  {
    SkipTwice(s);
  }

  lemma DropMore(t: string, ts: seq<string>, skip: nat)
    requires skip > 0
    ensures |[t] + ts| == |ts| + 1
    ensures skip <= |ts| + 1 ==> ([t] + ts)[skip..] == ts[skip - 1..]
  {
  }

  // ---------- Writing tokens so that they are read back ----------

  /** A word that needs no quotes. */
  predicate Plain(t: string) {
    t != [] && t[0] != '"' && forall i | 0 <= i < |t| :: !Blank(t[i])
  }

  function Written(ts: seq<string>): string {
    if ts == [] then [] else (if Plain(ts[0]) then ts[0] else "\"" + ts[0] + "\"") + " " + Written(ts[1..])
  }

  lemma {:induction false} UpToEnd(a: string, b: string, quoted: bool)
    requires forall i | 0 <= i < |a| :: !Stops(a[i], quoted)
    requires b != [] && Stops(b[0], quoted)
    ensures UpTo(a + b, quoted) == |a|
    decreases |a|
  {
    if a != [] {
      UpToEnd(a[1..], b, quoted);
      assert (a + b)[1..] == a[1..] + b;
    } else {
      assert a + b == b;
    }
  }

  /** Any words and phrases without quotes, written out with quotes where needed, are read back. */
  lemma {:induction false} TokensRoundTrip(ts: seq<string>)
    requires forall i | 0 <= i < |ts| :: Plain(ts[i]) || '"' !in ts[i]
    ensures Tokens(Written(ts)) == ts
    decreases |ts|
  {
    if ts != [] {
      TokensRoundTrip(ts[1..]);
      var more := Written(ts[1..]);
      var line := Written(ts);
      if Plain(ts[0]) { PlainFirst(ts[0], more); } else { QuotedFirst(ts[0], more); }
      assert SkipBlanks(line) == line;
      BlankFirst(more);
      HeadTail(ts);
    }
  }

  lemma PlainFirst(t: string, more: string)
    requires Plain(t)
    ensures var line := t + " " + more; !Blank(line[0]) && Token(line) == t && After(line) == " " + more
  {
    Assoc(t, " ", more);
    UpToEnd(t, " " + more, false);
  }

  lemma QuotedFirst(t: string, more: string)
    requires '"' !in t
    ensures var line := "\"" + t + "\"" + " " + more; !Blank(line[0]) && Token(line) == t && After(line) == " " + more
  {
    Assoc("\"" + t + "\"", " ", more);
    QuotedToken(t, " " + more);
  }

  lemma QuotedToken(t: string, more: string)
    requires '"' !in t
    ensures var line := "\"" + t + "\"" + more; !Blank(line[0]) && Token(line) == t && After(line) == more
  {
    var line := "\"" + t + "\"" + more;
    var end := "\"" + more;
    assert line[1..] == t + end;
    UpToEnd(t, end, true);
    assert end[1..] == more;
    assert line[|t| + 2..] == more;
  }

  lemma BlankFirst(more: string)
    ensures Tokens(" " + more) == Tokens(more)
  {
    assert (" " + more)[1..] == more;
  }

  // ---------- What separates tokens ----------

  /** A word ends at a blank or a tab and at nothing else. */
  lemma WordEnds(t: string, c: char, more: string)
    requires t != [] && t[0] != '"' && ' ' !in t && '\t' !in t
    ensures c == ' ' || c == '\t' ==> Tokens(t + [c] + more) == [t] + Tokens(more)
    ensures c != ' ' && c != '\t' ==> Tokens(t + [c] + more) != [] && t + [c] <= Tokens(t + [c] + more)[0]
  {
    var line := t + [c] + more;
    assert SkipBlanks(line) == line by { assert line[0] == t[0] && t[0] in t; }
    Assoc(t, [c], more);
    forall i | 0 <= i < |t| ensures !Stops(t[i], false) { assert t[i] in t; }
    if c == ' ' || c == '\t' {
      UpToEnd(t, [c] + more, false);
      assert ([c] + more)[1..] == more;
    } else {
      UpToAtLeast(t + [c], more, false);
      assert Token(line) == line[..UpTo(line, false)] && t + [c] == line[..|t| + 1];
    }
  }

  lemma {:induction false} UpToAtLeast(a: string, b: string, quoted: bool)
    requires forall i | 0 <= i < |a| :: !Stops(a[i], quoted)
    ensures UpTo(a + b, quoted) >= |a|
    decreases |a|
  {
    if a != [] {
      UpToAtLeast(a[1..], b, quoted);
      assert (a + b)[1..] == a[1..] + b;
    }
  }

  /** A phrase ends at its closing quote, and the next token may follow at once. */
  lemma PhraseEnds(t: string, more: string)
    requires '"' !in t
    ensures Tokens("\"" + t + "\"" + more) == [t] + Tokens(more)
  {
    QuotedToken(t, more);
    var line := "\"" + t + "\"" + more;
    assert SkipBlanks(line) == line;
  }

  // ---------- Cutting a line in place ----------

  /** From position p on, the line still is what it was; a NUL ends it. */
  ghost predicate Uncut(line: array<char>, p: nat, s: string)
    reads line
  {
    && p <= |s| < line.Length && line[|s|] == '\0' && '\0' !in s
    && forall k {:trigger line[k]} | p <= k < |s| :: line[k] == s[k]
  }

  /** The C string at a position. */
  ghost predicate CStringAt(a: string, start: nat, t: string) {
    && start + |t| < |a| && a[start + |t|] == '\0' && '\0' !in t
    && a[start..start + |t|] == t
  }

  lemma SuffixStep(s: string, q: nat)
    requires q < |s|
    ensures s[q..] != [] && s[q..][0] == s[q] && s[q..][1..] == s[q + 1..]
  {
  }

  method PassBlanks(line: array<char>, p: nat, ghost s: string) returns (q: nat)
    requires Uncut(line, p, s)
    ensures p <= q <= |s| && s[q..] == SkipBlanks(s[p..])
  {
    q := p;
    while line[q] == ' ' || line[q] == '\t'
      invariant p <= q <= |s| && SkipBlanks(s[q..]) == SkipBlanks(s[p..])
      decreases |s| - q
    {
      SuffixStep(s, q);
      q := q + 1;
    }
    if q < |s| { SuffixStep(s, q); }
  }

  method PassUntil(line: array<char>, p: nat, quoted: bool, ghost s: string) returns (q: nat)
    requires Uncut(line, p, s)
    ensures q == p + UpTo(s[p..], quoted)
  {
    q := p;
    while line[q] != '\0' && !Stops(line[q], quoted)
      invariant p <= q <= |s| && q + UpTo(s[q..], quoted) == p + UpTo(s[p..], quoted)
      decreases |s| - q
    {
      SuffixStep(s, q);
      q := q + 1;
    }
    if q < |s| {
      SuffixStep(s, q);
      assert s[q] in s;
    }
  }

  lemma QuotedAt(s: string, p: nat)
    requires p < |s| && s[p] == '"'
    ensures var q := p + 1 + UpTo(s[p + 1..], true);
            q <= |s| && Token(s[p..]) == s[p + 1..q] && After(s[p..]) == if q < |s| then s[q + 1..] else s[q..]
  {
    SuffixStep(s, p);
    var n := UpTo(s[p + 1..], true);
    assert s[p + 1..][..n] == s[p + 1..p + 1 + n];
    if p + 1 + n < |s| { assert s[p..][n + 2..] == s[p + n + 2..]; }
  }

  lemma PlainAt(s: string, p: nat)
    requires p < |s| && s[p] != '"' && !Blank(s[p])
    ensures var q := p + UpTo(s[p..], false);
            && p < q <= |s| && Token(s[p..]) == s[p..q] && After(s[p..]) == s[q..]
            && (q < |s| ==> Tokens(s[q + 1..]) == Tokens(s[q..]))
  {
    SuffixStep(s, p);
    var n := UpTo(s[p..], false);
    assert s[p..][..n] == s[p..p + n] && s[p..][n..] == s[p + n..];
    if p + n < |s| {
      assert s[p..][n] == s[p + n];
      SuffixStep(s, p + n);
    }
  }

  /** A token passed over. */
  method PassToken(line: array<char>, p: nat, ghost s: string) returns (q: nat)
    requires Uncut(line, p, s) && p < |s| && !Blank(s[p])
    ensures q <= |s| && s[q..] == After(s[p..])
  {
    if line[p] == '"' {
      QuotedAt(s, p);
      q := PassUntil(line, p + 1, true, s);
      if line[q] == '"' { q := q + 1; }
    } else {
      PlainAt(s, p);
      q := PassUntil(line, p, false, s);
    }
  }

  /** cmdparse_rest_after_tokens. */
  method RestAfterTokens(line: array<char>, skip: nat, ghost s: string) returns (p: nat)
    requires Uncut(line, 0, s)
    ensures p <= |s| && s[p..] == Rest(s, skip)
  {
    p := 0;
    var i := 0;
    assert s[0..] == s;
    while i < skip
      invariant i <= skip && p <= |s| && Rest(s[p..], skip - i) == Rest(s, skip)
    {
      p := PassBlanks(line, p, s);
      if line[p] == '\0' {
        AtEnd(line, p, s);
        return;
      }
      SuffixStep(s, p);
      p := PassToken(line, p, s);
      i := i + 1;
    }
    p := PassBlanks(line, p, s);
  }

  lemma AtEnd(line: array<char>, p: nat, s: string)
    requires Uncut(line, p, s)
    ensures line[p] == '\0' <==> p == |s|
  {
    if p < |s| { assert s[p] in s; }
  }

  /** A NUL over a delimiter ends the string that starts at from. */
  method CutAt(line: array<char>, q: nat, ghost s: string, ghost from: nat)
    requires Uncut(line, from, s) && from <= q < |s|
    modifies line
    ensures Uncut(line, q + 1, s) && CStringAt(line[..], from, s[from..q])
    ensures forall k | 0 <= k < from :: line[k] == old(line[k])
  {
    line[q] := '\0';
  }

  lemma EndsByItself(line: array<char>, from: nat, s: string)
    requires Uncut(line, from, s)
    ensures CStringAt(line[..], from, s[from..])
  {
  }

  /** A quoted token is cut off at its closing quote, if it has one. */
  method CutQuoted(line: array<char>, p: nat, ghost s: string) returns (next: nat, ghost text: string)
    requires Uncut(line, p, s) && p < |s| && s[p] == '"'
    modifies line
    ensures Uncut(line, next, s) && p < next && text == Token(s[p..]) && s[next..] == After(s[p..])
    ensures CStringAt(line[..], p + 1, text) && (p + 1 + |text| < next || next == |s|)
    ensures forall k | 0 <= k < p :: line[k] == old(line[k])
  {
    QuotedAt(s, p);
    next := PassUntil(line, p + 1, true, s);
    text := s[p + 1..next];
    if line[next] == '"' {
      CutAt(line, next, s, p + 1);
      next := next + 1;
    } else {
      EndsByItself(line, p + 1, s);
    }
  }

  /** Any other token is cut off at the blank behind it, if there is one. */
  method CutPlain(line: array<char>, p: nat, ghost s: string) returns (next: nat, ghost text: string)
    requires Uncut(line, p, s) && p < |s| && s[p] != '"' && !Blank(s[p])
    modifies line
    ensures Uncut(line, next, s) && p < next && text == Token(s[p..]) && Tokens(s[next..]) == Tokens(After(s[p..]))
    ensures CStringAt(line[..], p, text) && (p + |text| < next || next == |s|)
    ensures forall k | 0 <= k < p :: line[k] == old(line[k])
  {
    PlainAt(s, p);
    next := PassUntil(line, p, false, s);
    text := s[p..next];
    AtEnd(line, next, s);
    if line[next] != '\0' {
      CutAt(line, next, s, p);
      next := next + 1;
    } else {
      EndsByItself(line, p, s);
    }
  }

  /** The tokens found so far are C strings in the line, and nothing that is still to be cut touches them. */
  ghost predicate Found(a: string, starts: seq<nat>, texts: seq<string>, p: nat, end: nat) {
    && |starts| == |texts|
    && forall i | 0 <= i < |starts| ::
         CStringAt(a, starts[i], texts[i]) && (starts[i] + |texts[i]| < p || (p == end && starts[i] + |texts[i]| <= end))
  }

  lemma FoundMore(a: string, b: string, starts: seq<nat>, texts: seq<string>, p: nat, q: nat, end: nat, start: nat, text: string)
    requires Found(a, starts, texts, p, end) && p < end && p <= q <= end && |a| == |b|
    requires forall k | 0 <= k < p && k < |a| :: b[k] == a[k]
    requires CStringAt(b, start, text) && (start + |text| < q || (q == end && start + |text| <= end))
    ensures Found(b, starts + [start], texts + [text], q, end)
  {
  }

  /** cmdparse_tokenize: the first tokens of the line, each left as a C string in it. */
  method Tokenize(line: array<char>, maxTokens: int, ghost s: string) returns (starts: seq<nat>, ghost texts: seq<string>)
    requires Uncut(line, 0, s)
    modifies line
    ensures |starts| == |texts| && forall i | 0 <= i < |starts| :: CStringAt(line[..], starts[i], texts[i])
    ensures texts <= Tokens(s)
    ensures |texts| == if maxTokens <= 0 then 0 else if |Tokens(s)| < maxTokens then |Tokens(s)| else maxTokens
  {
    starts, texts := [], [];
    var p := 0;
    assert s[0..] == s;
    while line[p] != '\0' && |starts| < maxTokens
      invariant Uncut(line, p, s) && Found(line[..], starts, texts, p, |s|)
      invariant texts + Tokens(s[p..]) == Tokens(s)
      invariant |starts| > 0 ==> |starts| <= maxTokens
      decreases |s| - p
    {
      AtEnd(line, p, s);
      TokensOfSkipped(s[p..]);
      var from := p;
      p := PassBlanks(line, p, s);
      AtEnd(line, p, s);
      if line[p] == '\0' {
        assert Tokens(s[p..]) == [];
        break;
      }
      SuffixStep(s, p);
      starts, texts, p := CutNext(line, p, s, starts, texts, from);
    }
    AtEnd(line, p, s);
  }

  /** One round of the loop of cmdparse_tokenize, at the start of a token. */
  method CutNext(line: array<char>, p: nat, ghost s: string, starts: seq<nat>, ghost texts: seq<string>, ghost from: nat)
    returns (moreStarts: seq<nat>, ghost moreTexts: seq<string>, next: nat)
    requires Uncut(line, p, s) && p < |s| && !Blank(s[p]) && from <= p && Found(line[..], starts, texts, from, |s|)
    modifies line
    ensures Uncut(line, next, s) && p < next && Found(line[..], moreStarts, moreTexts, next, |s|)
    ensures |moreStarts| == |starts| + 1 && moreTexts + Tokens(s[next..]) == texts + Tokens(s[p..])
  {
    ghost var text;
    SuffixStep(s, p);
    ghost var before := line[..];
    if line[p] == '"' {
      moreStarts := starts + [p + 1];
      next, text := CutQuoted(line, p, s);
    } else {
      moreStarts := starts + [p];
      next, text := CutPlain(line, p, s);
    }
    moreTexts := texts + [text];
    FoundMore(before, line[..], starts, texts, from, next, |s|, moreStarts[|starts|], text);
    Assoc(texts, [text], Tokens(s[next..]));
  }

  /** A line as it is read, cut into at most so many tokens: the first tokens of the text, as C strings in order. */
  method SplitLine(text: string, maxTokens: nat) returns (line: array<char>, starts: seq<nat>)
    requires '\0' !in text
    ensures fresh(line) && |starts| == if |Tokens(text)| < maxTokens then |Tokens(text)| else maxTokens
    ensures forall i | 0 <= i < |starts| :: CStringAt(line[..], starts[i], Tokens(text)[i])
  {
    line := new char[|text| + 1](i requires 0 <= i <= |text| => if i < |text| then text[i] else '\0');
    ghost var texts;
    starts, texts := Tokenize(line, maxTokens, text);
  }
}
