/** The tokenizer shared by the three assemblers (`readToken`).

    The pure functions below describe one call as "skip blanks, line breaks
    and comments; take the longest run of word characters; consume the one
    character that ended it". The class Lexer holds the global state the
    original mutates (`buf`, the stream cursor and the three line counters)
    and its ReadToken is the original character loop, proved to compute Next. */
module Lexer {
  import opened Words

  predicate IsBreak(c: char) { c == '\r' || c == '\n' }
  predicate IsBlank(c: char) { c == ' ' || c == '\t' }
  /** A character that `readToken` appends to `buf`. */
  predicate IsWordChar(c: char) { !IsBreak(c) && !IsBlank(c) && c != '/' }

  /** Position just past the line break at `p`; CR LF is one break. */
  function BreakEnd(s: string, p: nat): (q: nat)
    requires p < |s| && IsBreak(s[p])
    ensures p < q <= |s|
  {
    if s[p] == '\r' && p + 1 < |s| && s[p + 1] == '\n' then p + 2 else p + 1
  }

  /** First line break at or after `p`, or the end of the input. */
  function LineEnd(s: string, p: nat): (q: nat)
    requires p <= |s|
    ensures p <= q <= |s|
    ensures forall i | p <= i < q :: !IsBreak(s[i])
    ensures q < |s| ==> IsBreak(s[q])
    decreases |s| - p
  {
    if p == |s| || IsBreak(s[p]) then p else LineEnd(s, p + 1)
  }

  /** End of the run of word characters starting at `p`. */
  function WordEnd(s: string, p: nat): (q: nat)
    requires p <= |s|
    ensures p <= q <= |s|
    ensures forall i | p <= i < q :: IsWordChar(s[i])
    ensures q < |s| ==> !IsWordChar(s[q])
    decreases |s| - p
  {
    if p == |s| || !IsWordChar(s[p]) then p else WordEnd(s, p + 1)
  }

  /** Where reading resumes after a comment whose text starts at `p`: just
      past the line break that ends it, or the end of the input. */
  function CommentEnd(s: string, p: nat): (q: nat)
    requires p <= |s|
    ensures p <= q <= |s|
  {
    var e := LineEnd(s, p);
    if e == |s| then e else BreakEnd(s, e)
  }

  datatype Cursor = Cursor(pos: nat, line: int)

  /** Where skipping resumes after the separator at `p`: past the whole
      comment for `/`, past the line break (CR LF as one) for CR or LF, and
      past the character itself for a blank. */
  function SeparatorEnd(s: string, p: nat): (q: nat)
    requires p < |s| && !IsWordChar(s[p])
    ensures p < q <= |s|
  {
    if s[p] == '/' then CommentEnd(s, p + 1)
    else if IsBreak(s[p]) then BreakEnd(s, p)
    else p + 1
  }

  /** Skips blanks, line breaks and whole comments from `p`, counting lines,
      up to the first word character or the end of the input. A comment and a
      line break each count one line, including a comment that runs to the end
      of the input. */
  function Skip(s: string, p: nat, line: int): (c: Cursor)
    requires p <= |s|
    ensures p <= c.pos <= |s|
    ensures c.pos < |s| ==> IsWordChar(s[c.pos])
    ensures line <= c.line
    decreases |s| - p
  {
    if p == |s| || IsWordChar(s[p]) then Cursor(p, line)
    else Skip(s, SeparatorEnd(s, p), if IsBlank(s[p]) then line else line + 1)
  }

  /** What one `readToken` call leaves behind: `buf`, the cursor,
      `currentLine` and `currentTokenLine`. */
  datatype Scan = Scan(token: string, pos: nat, line: int, tokenLine: int)

  /** One `readToken` call from cursor `p` with `currentLine == line`.
      A word ended by a blank or by `/` consumes that one character only: the
      text after such a `/` is read by the next call as ordinary input. */
  function Next(s: string, p: nat, line: int): (r: Scan)
    requires p <= |s|
    ensures p <= r.pos <= |s|
    ensures forall i | 0 <= i < |r.token| :: IsWordChar(r.token[i])
    ensures r.token == "" ==> r.pos == |s|
    ensures r.token != "" ==> p < r.pos
    ensures IsByteString(s) ==> IsByteString(r.token)
    ensures p == |s| ==> r == Scan("", p, line, line)
  {
    var c := Skip(s, p, line);
    if c.pos == |s| then Scan("", c.pos, c.line, c.line)
    else
      var e := WordEnd(s, c.pos);
      var tok := s[c.pos..e];
      if e == |s| then Scan(tok, e, c.line, c.line)
      else if IsBreak(s[e]) then Scan(tok, BreakEnd(s, e), c.line + 1, c.line)
      else Scan(tok, e + 1, c.line, c.line)
  }

  /** Number of line breaks in `s[p..q]`, CR, LF and CR LF each counting once. */
  function BreaksIn(s: string, p: nat, q: nat): nat
    requires p <= q <= |s|
    decreases q - p
  {
    if p == q then 0
    else if s[p] == '\r' && p + 1 < q && s[p + 1] == '\n' then 1 + BreaksIn(s, p + 2, q)
    else if IsBreak(s[p]) then 1 + BreaksIn(s, p + 1, q)
    else BreaksIn(s, p + 1, q)
  }

  lemma {:induction false} BreaksInNone(s: string, p: nat, m: nat, q: nat)
    requires p <= m <= q <= |s|
    requires forall i | p <= i < m :: !IsBreak(s[i])
    ensures BreaksIn(s, p, q) == BreaksIn(s, m, q)
    decreases m - p
  {
    if p < m {
      BreaksInNone(s, p + 1, m, q);
    }
  }

  lemma BreaksInOne(s: string, p: nat, q: nat)
    requires p < |s| && IsBreak(s[p]) && BreakEnd(s, p) <= q <= |s|
    ensures BreaksIn(s, p, q) == 1 + BreaksIn(s, BreakEnd(s, p), q)
  {
  }

  /** The breaks inside one separator: none in a blank, one in a line break
      or a comment closed by one, none in a comment open at the end. */
  lemma SeparatorBreaks(s: string, p: nat, q: nat)
    requires p < |s| && !IsWordChar(s[p]) && SeparatorEnd(s, p) <= q <= |s|
    ensures BreaksIn(s, p, q) == BreaksIn(s, SeparatorEnd(s, p), q) +
      (if IsBlank(s[p]) || (s[p] == '/' && LineEnd(s, p + 1) == |s|) then 0 else 1)
  {
    if s[p] == '/' {
      var e := LineEnd(s, p + 1);
      BreaksInNone(s, p, e, q);
      if e < |s| {
        BreaksInOne(s, e, q);
      }
    } else if IsBreak(s[p]) {
      BreaksInOne(s, p, q);
    }
  }

  /** The exact line count of Skip: every break counts once, and one more
      line is counted when a comment runs to the end of the input. */
  lemma {:induction false} SkipCountsLines(s: string, p: nat, line: int)
    requires p <= |s|
    ensures var c := Skip(s, p, line);
      line + BreaksIn(s, p, c.pos) <= c.line <= line + BreaksIn(s, p, c.pos) + 1
    ensures var c := Skip(s, p, line);
      c.pos < |s| || (|s| > 0 && IsBreak(s[|s| - 1])) ==> c.line == line + BreaksIn(s, p, c.pos)
    decreases |s| - p
  {
    if p < |s| && !IsWordChar(s[p]) {
      var q := SeparatorEnd(s, p);
      var c := Skip(s, p, line);
      SeparatorBreaks(s, p, c.pos);
      SkipCountsLines(s, q, if IsBlank(s[p]) then line else line + 1);
    }
  }

  /** Line counting of one `readToken` call: CR, LF and CR LF, on their own or
      ending a comment, each advance `currentLine` by exactly one; the only
      other advance is a comment left open at the end of the input, which is
      impossible when the input ends with a line break. A non-empty token is
      found in the consumed text, and its `currentTokenLine` is the line it
      starts on. */
  lemma {:induction false} NextCountsLines(s: string, p: nat, line: int)
    requires p <= |s|
    ensures var r := Next(s, p, line);
      line + BreaksIn(s, p, r.pos) <= r.line <= line + BreaksIn(s, p, r.pos) + 1
    ensures var r := Next(s, p, line);
      |s| > 0 && IsBreak(s[|s| - 1]) ==> r.line == line + BreaksIn(s, p, r.pos)
    ensures var r := Next(s, p, line);
      r.token != "" ==> exists k :: p <= k && k + |r.token| <= r.pos && s[k..k + |r.token|] == r.token
                                     && r.tokenLine == line + BreaksIn(s, p, k)
  {
    var r := Next(s, p, line);
    var c := Skip(s, p, line);
    SkipCountsLines(s, p, line);
    if c.pos < |s| {
      var e := WordEnd(s, c.pos);
      assert c.line == line + BreaksIn(s, p, c.pos);
      BreaksInNone(s, c.pos, e, r.pos);
      if e < |s| && IsBreak(s[e]) {
        BreaksInOne(s, e, r.pos);
      } else if e < |s| {
        BreaksInNone(s, e, e + 1, r.pos);
      }
      assert BreaksIn(s, p, r.pos) == BreaksIn(s, p, c.pos) + BreaksIn(s, c.pos, r.pos) by {
        BreaksInSplit(s, p, c.pos, r.pos);
      }
      assert s[c.pos..c.pos + |r.token|] == r.token;
    }
  }

  /** Counting is additive at a point that does not split a CR LF pair. */
  lemma {:induction false} BreaksInSplit(s: string, p: nat, m: nat, q: nat)
    requires p <= m <= q <= |s|
    requires 0 < m < |s| ==> !(s[m - 1] == '\r' && s[m] == '\n')
    ensures BreaksIn(s, p, q) == BreaksIn(s, p, m) + BreaksIn(s, m, q)
    decreases m - p
  {
    if p < m {
      if s[p] == '\r' && p + 1 < q && s[p + 1] == '\n' {
        if p + 1 < m {
          BreaksInSplit(s, p + 2, m, q);
        }
      } else {
        BreaksInSplit(s, p + 1, m, q);
      }
    }
  }

  /** The original ends a word at `/` without skipping the comment:
      "a/b" yields the tokens "a" and then "b". */
  lemma SlashEndsWordButNotComment()
    ensures Next("a/b", 0, 1) == Scan("a", 2, 1, 1)
    ensures Next("a/b", 2, 1) == Scan("b", 3, 1, 1)
  {
    assert WordEnd("a/b", 1) == 1;
    assert WordEnd("a/b", 0) == 1;
    assert WordEnd("a/b", 3) == 3;
    assert WordEnd("a/b", 2) == 3;
  }

  /** A call that starts on a word character reads that word. */
  lemma FinishAtWord(s: string, p: nat, line: int, start: nat)
    requires p < |s| && IsWordChar(s[p])
    ensures Finish(s, ReadState(p, line, start, false)) == Next(s, p, line)
  {
    var e := WordEnd(s, p + 1);
    assert WordEnd(s, p) == e;
    var r := if e == |s| then Scan(s[p..e], e, line, line)
      else if IsBreak(s[e]) then Scan(s[p..e], BreakEnd(s, e), line + 1, line)
      else Scan(s[p..e], e + 1, line, line);
    assert Skip(s, p, line) == Cursor(p, line);
    assert Next(s, p, line) == r;
    assert Step(s, ReadState(p, line, start, false)) == ReadState(p + 1, line, p, true);
    FinishInWord(s, p + 1, line, p);
  }

  /** The state of one `readToken` call between two characters: the cursor,
      `currentLine`, and where the word in `buf` started when there is one. */
  datatype ReadState = ReadState(pos: nat, line: int, start: nat, inWord: bool)

  ghost predicate Stops(s: string, st: ReadState)
    requires st.pos <= |s|
  {
    st.pos == |s| || (st.inWord && !IsWordChar(s[st.pos]))
  }

  /** The result of a call that stops in state `st`. */
  ghost function Stopped(s: string, st: ReadState): Scan
    requires st.pos <= |s| && (st.inWord ==> st.start < st.pos) && Stops(s, st)
  {
    var word := if st.inWord then s[st.start..st.pos] else "";
    if st.pos == |s| then Scan(word, st.pos, st.line, st.line)
    else if IsBreak(s[st.pos]) then Scan(word, BreakEnd(s, st.pos), st.line + 1, st.line)
    else Scan(word, st.pos + 1, st.line, st.line)
  }

  /** One turn of the original's loop that does not end the call. */
  ghost function Step(s: string, st: ReadState): (nx: ReadState)
    requires st.pos <= |s| && (st.inWord ==> st.start < st.pos) && !Stops(s, st)
    ensures st.pos < nx.pos <= |s| && (nx.inWord ==> nx.start < nx.pos)
  {
    if IsWordChar(s[st.pos]) then ReadState(st.pos + 1, st.line, if st.inWord then st.start else st.pos, true)
    else ReadState(SeparatorEnd(s, st.pos), if IsBlank(s[st.pos]) then st.line else st.line + 1, st.start, false)
  }

  /** The rest of one `readToken` call from state `st`, one character at a
      time as the original's loop goes; FinishIsNext shows that it agrees
      with the description given by Next. */
  ghost function Finish(s: string, st: ReadState): Scan
    requires st.pos <= |s| && (st.inWord ==> st.start < st.pos)
    decreases |s| - st.pos
  {
    if Stops(s, st) then Stopped(s, st) else Finish(s, Step(s, st))
  }

  lemma {:induction false} FinishInWord(s: string, p: nat, line: int, start: nat)
    requires start < p <= |s|
    requires forall i | start <= i < p :: IsWordChar(s[i])
    ensures var e := WordEnd(s, p);
      Finish(s, ReadState(p, line, start, true)) ==
        if e == |s| then Scan(s[start..e], e, line, line)
        else if IsBreak(s[e]) then Scan(s[start..e], BreakEnd(s, e), line + 1, line)
        else Scan(s[start..e], e + 1, line, line)
    decreases |s| - p
  {
    if p < |s| && IsWordChar(s[p]) {
      FinishInWord(s, p + 1, line, start);
    }
  }

  lemma {:induction false} FinishIsNext(s: string, p: nat, line: int, start: nat)
    requires p <= |s|
    ensures Finish(s, ReadState(p, line, start, false)) == Next(s, p, line)
    decreases |s| - p
  {
    if p < |s| {
      var st := ReadState(p, line, start, false);
      if IsWordChar(s[p]) {
        FinishAtWord(s, p, line, start);
      } else {
        var q, l := SeparatorEnd(s, p), if IsBlank(s[p]) then line else line + 1;
        assert Skip(s, p, line) == Skip(s, q, l);
        assert Finish(s, st) == Finish(s, ReadState(q, l, start, false));
        FinishIsNext(s, q, l, start);
      }
    }
  }

  /** Everything a `readToken` call reads and writes: the cursor,
      `currentLine`, `lastTokenLine`, `currentTokenLine` and `buf`. */
  datatype LexState = LexState(pos: nat, line: int, lastTokenLine: int, tokenLine: int, buf: string)

  const Start := LexState(0, 1, 1, 1, "")

  /** One `readToken` call on input `s`. */
  function Read(s: string, ls: LexState): (r: LexState)
    requires ls.pos <= |s|
    ensures r.pos <= |s| && r.lastTokenLine == ls.tokenLine
    ensures r.buf == "" ==> r.pos == |s|
    ensures IsByteString(s) ==> IsByteString(r.buf)
    ensures Remaining(s, r) <= |s| - ls.pos
  {
    var n := Next(s, ls.pos, ls.line);
    LexState(n.pos, n.line, ls.tokenLine, n.tokenLine, n.token)
  }

  /** Input left to read, counting a token still held in `buf` as one more:
      the measure every section loop of the assemblers decreases. */
  function Remaining(s: string, ls: LexState): nat
    requires ls.pos <= |s|
  {
    |s| - ls.pos + (if ls.buf == "" then 0 else 1)
  }

  class Lexer {
    /** The whole input file; `pos` is the stream cursor. */
    const input: string
    var pos: nat
    var buf: string
    var currentLine: int
    var lastTokenLine: int
    var currentTokenLine: int

    ghost predicate Valid()
      reads this
    {
      pos <= |input|
    }

    ghost function State(): LexState
      reads this
    {
      LexState(pos, currentLine, lastTokenLine, currentTokenLine, buf)
    }

    constructor (input: string)
      ensures Valid() && this.input == input && State() == Start
    {
      this.input := input;
      pos := 0;
      buf := "";
      currentLine, lastTokenLine, currentTokenLine := 1, 1, 1;
    }

    /** `readToken`: reads the next token into `buf`. */
    method ReadToken()
      requires Valid()
      modifies this
      ensures Valid() && State() == Read(input, old(State()))
    {
      ghost var r := Next(input, pos, currentLine);
      ghost var st := ReadState(pos, currentLine, 0, false);
      FinishIsNext(input, pos, currentLine, 0);
      buf := "";
      lastTokenLine := currentTokenLine;
      while pos < |input|
        invariant st.pos == pos <= |input| && st.line == currentLine && lastTokenLine == old(currentTokenLine)
        invariant st.inWord == (buf != "") && (st.inWord ==> st.start < pos && buf == input[st.start..pos])
        invariant Finish(input, st) == r
        decreases |input| - pos
      {
        var stop := Consume(st.start);
        if stop {
          return;
        }
        st := Step(input, st);
      }
      currentTokenLine := currentLine;
    }

    /** One turn of the loop in `readToken`: consumes one character (with
        the rest of its line for a `/`, the LF of a CR LF pair for a break)
        and reports whether that character ended the token. */
    method Consume(ghost start: nat) returns (stop: bool)
      requires pos < |input| && (buf != "" ==> start < pos && buf == input[start..pos])
      modifies this`pos, this`buf, this`currentLine, this`currentTokenLine
      ensures var st := ReadState(old(pos), old(currentLine), start, old(buf) != "");
        if Stops(input, st) then
          stop && Stopped(input, st) == Scan(buf, pos, currentLine, currentTokenLine)
        else
          var nx := Step(input, st);
          !stop && pos == nx.pos && currentLine == nx.line && (buf != "") == nx.inWord &&
          (buf != "" ==> buf == input[nx.start..pos])
    {
      ghost var st := ReadState(pos, currentLine, start, buf != "");
      var ch := input[pos];
      pos := pos + 1;
      stop := false;
      if ch == '/' {
        if |buf| > 0 {
          currentTokenLine := currentLine;
          stop := true;
          assert Stopped(input, st) == Scan(buf, pos, currentLine, currentTokenLine);
        } else {
          SkipComment();
          currentLine := currentLine + 1;
          assert Step(input, st) == ReadState(pos, currentLine, start, false);
        }
      } else if IsBreak(ch) {
        if ch == '\r' && pos < |input| && input[pos] == '\n' {
          pos := pos + 1;
        }
        assert pos == BreakEnd(input, st.pos);
        if |buf| > 0 {
          currentTokenLine := currentLine;
          stop := true;
        }
        currentLine := currentLine + 1;
      } else if IsBlank(ch) {
        if |buf| > 0 {
          currentTokenLine := currentLine;
          stop := true;
        }
      } else {
        assert buf != "" ==> buf + [ch] == input[start..pos];
        buf := buf + [ch];
      }
    }

    /** The inner loop of `readToken` that discards a comment, the `/` already
        read: everything up to and including the line break that ends it. */
    method SkipComment()
      requires pos <= |input|
      modifies this`pos
      ensures pos == CommentEnd(input, old(pos))
    {
      ghost var from := pos;
      while pos < |input| && !IsBreak(input[pos])
        invariant from <= pos <= |input|
        invariant LineEnd(input, pos) == LineEnd(input, from)
        decreases |input| - pos
      {
        pos := pos + 1;
      }
      if pos < |input| {
        var ch := input[pos];
        pos := pos + 1;
        if ch == '\r' && pos < |input| && input[pos] == '\n' {
          pos := pos + 1;
        }
      }
    }
  }
}
