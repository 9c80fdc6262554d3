/** The delimiter searches of merge.c, with pushback and unquoting. */
module Merge {

  // What a search finds ------------------------------------------------------------------

  /** ssearch_for_string1 takes the character b where the delimiter has a. */
  datatype Accept = NoAccept | Accept(a: char, b: char)

  predicate Fits(p: string, acc: Accept, k: nat, ch: char)
    requires k < |p|
  {
    p[k] == ch || (acc.Accept? && k > 0 && p[k] == acc.a && ch == acc.b)
  }

  /** The delimiter stands at the beginning of the text. */
  predicate Matches(p: string, acc: Accept, text: string) {
    |p| <= |text| && forall k :: 0 <= k < |p| ==> Fits(p, acc, k, text[k])
  }

  /** The text begins with a quoted delimiter start, as "\n@@" is for "\n@s]". */
  predicate Quoted(p: string, acc: Accept, text: string) {
    && |p| >= 3 && |text| >= 3 && Fits(p, acc, 0, text[0]) && Fits(p, acc, 1, text[1])
    && text[2] == p[1] && !Fits(p, acc, 2, text[2])
  }

  datatype Outcome = NotFound | Found(before: string, rest: string)

  function Prepend(s: string, o: Outcome): Outcome {
    if o.Found? then Found(s + o.before, o.rest) else NotFound
  }

  /** Reading on from text until the delimiter: what comes before it, unquoted if wanted. */
  function Scan(text: string, p: string, acc: Accept, unquoting: bool): Outcome
    decreases |text|
  {
    if Matches(p, acc, text) then Found("", text[|p|..])
    else if text == "" then NotFound
    else if unquoting && Quoted(p, acc, text) then
      Prepend([p[0]], Scan([p[1]] + text[3..], p, acc, unquoting))
    else Prepend([text[0]], Scan(text[1..], p, acc, unquoting))
  }

  /** The delimiter stands in the text from place i on. */
  predicate OccursAt(p: string, acc: Accept, text: string, i: nat)
  {
    i <= |text| && Matches(p, acc, text[i..])
  }

  /** Without unquoting a search stops at the first occurrence: it fails if there is none, and
      else it passes over exactly the text before it and leaves the text behind it. */
  lemma {:induction false} ScanFindsFirst(text: string, p: string, acc: Accept)
    ensures var r := Scan(text, p, acc, false);
            && (r.NotFound? ==> forall i: nat :: !OccursAt(p, acc, text, i))
            && (r.Found? ==>
                  var i := |r.before|;
                  && i <= |text| && r.before == text[..i] && OccursAt(p, acc, text, i)
                  && i + |p| <= |text| && r.rest == text[i + |p|..]
                  && forall j: nat :: j < i ==> !OccursAt(p, acc, text, j))
    decreases |text|
  {
    assert text[0..] == text;
    if !Matches(p, acc, text) && text != "" {
      ScanFindsFirst(text[1..], p, acc);
      forall j: nat
        ensures OccursAt(p, acc, text, j + 1) <==> OccursAt(p, acc, text[1..], j)
      {
        if j + 1 <= |text| {
          assert text[j + 1..] == text[1..][j..];
        }
      }
      forall j: nat
        ensures OccursAt(p, acc, text, j) ==> j > 0 && OccursAt(p, acc, text[1..], j - 1)
      {
      }
    }
  }

  // Quoting ------------------------------------------------------------------------------

  /** The text with every delimiter start marked by doubling its second character. */
  function Quote(t: string, p: string): string
    requires |p| >= 2
  {
    if |t| < 2 then t
    else if t[0] == p[0] && t[1] == p[1] then [p[0], p[1], p[1]] + Quote(t[2..], p)
    else [t[0]] + Quote(t[1..], p)
  }

  predicate Delimiter(p: string, acc: Accept) {
    && |p| >= 3 && p[0] != p[1] && p[1] != p[2]
    && (acc.Accept? ==> acc.a != p[0] && acc.a != p[1] && (acc.a == p[2] ==> acc.b != p[1]))
  }

  /** A text whose first characters are not a delimiter start is passed over one character. */
  lemma PlainFirst(c: char, u: string, p: string, acc: Accept)
    requires Delimiter(p, acc) && (c == p[0] ==> u == "" || u[0] != p[1])
    ensures Scan([c] + u, p, acc, true) == Prepend([c], Scan(u, p, acc, true))
  {
    var text := [c] + u;
    assert text[1..] == u;
  }

  lemma QuotedFirst(u: string, p: string, acc: Accept)
    requires Delimiter(p, acc)
    ensures Scan([p[0], p[1], p[1]] + u, p, acc, true) == Prepend([p[0], p[1]], Scan(u, p, acc, true))
  {
    var text := [p[0], p[1], p[1]] + u;
    assert text[3..] == u;
    assert text[2] == p[1] && !Fits(p, acc, 2, text[2]);
    assert Quoted(p, acc, text);
    PlainFirst(p[1], u, p, acc);
    PrependTwice([p[0]], [p[1]], Scan(u, p, acc, true));
    assert [p[0]] + [p[1]] == [p[0], p[1]];
  }

  lemma PrependTwice(s: string, t: string, o: Outcome)
    ensures Prepend(s, Prepend(t, o)) == Prepend(s + t, o)
  {
    if o.Found? {
      assert s + (t + o.before) == (s + t) + o.before;
    }
  }

  lemma QuoteFirst(t: string, p: string, more: string)
    requires |p| >= 2 && t != "" && !(|t| >= 2 && t[0] == p[0] && t[1] == p[1]) && |more| > 0
    requires more[0] != p[1]
    ensures var u := Quote(t[1..], p) + more;
            && Quote(t, p) + more == [t[0]] + u && u != "" && (t[0] == p[0] ==> u[0] != p[1])
  {
    hide Quote;
    QuotePlain(t, p);
    ConcatFirst(t[0], Quote(t[1..], p), more);
    if |t| > 1 {
      QuoteHead(t[1..], p);
    }
  }

  lemma ConcatFirst(c: char, s: string, more: string)
    requires more != ""
    ensures ([c] + s) + more == [c] + (s + more) && s + more != ""
    ensures s == "" ==> s + more == more
    ensures s != "" ==> (s + more)[0] == s[0]
  {
  }

  lemma QuotePlain(t: string, p: string)
    requires |p| >= 2 && t != "" && !(|t| >= 2 && t[0] == p[0] && t[1] == p[1])
    ensures Quote(t, p) == [t[0]] + Quote(t[1..], p)
    ensures |t| == 1 ==> Quote(t[1..], p) == ""
  {
    if |t| == 1 {
      assert t[1..] == "" && t == [t[0]];
    }
  }

  lemma QuoteHead(t: string, p: string)
    requires |p| >= 2 && t != ""
    ensures Quote(t, p) != "" && Quote(t, p)[0] == t[0]
  {
  }

  /** Reading a quoted text up to the delimiter d restores the text. */
  lemma {:induction false} UnquoteUpTo(t: string, p: string, acc: Accept, d: string, rest: string)
    requires Delimiter(p, acc) && |d| == |p| && Matches(p, acc, d)
    ensures Scan(Quote(t, p) + d + rest, p, acc, true) == Found(t, rest)
    decreases |t|
  {
    hide Scan;
    var more := d + rest;
    assert Fits(p, acc, 0, d[0]);
    assert Quote(t, p) + d + rest == Quote(t, p) + more;
    if t == "" {
      ScanDelimiter(p, acc, d, rest);
      assert Quote(t, p) + more == more;
    } else if |t| >= 2 && t[0] == p[0] && t[1] == p[1] {
      UnquoteUpTo(t[2..], p, acc, d, rest);
      UnquoteQuoted(t, p, acc, more);
      assert Quote(t[2..], p) + more == Quote(t[2..], p) + d + rest && t[..2] + t[2..] == t;
    } else {
      UnquoteUpTo(t[1..], p, acc, d, rest);
      UnquotePlain(t, p, acc, more);
      assert Quote(t[1..], p) + more == Quote(t[1..], p) + d + rest && t[..1] + t[1..] == t;
    }
  }

  lemma ScanDelimiter(p: string, acc: Accept, d: string, rest: string)
    requires |d| == |p| && Matches(p, acc, d)
    ensures Scan(d + rest, p, acc, true) == Found("", rest)
  {
    assert (d + rest)[|p|..] == rest;
    assert Matches(p, acc, d + rest);
  }

  lemma UnquoteRestores(t: string, p: string, acc: Accept, rest: string)
    requires Delimiter(p, acc)
    ensures Scan(Quote(t, p) + p + rest, p, acc, true) == Found(t, rest)
  {
    hide Scan, Quote;
    UnquoteUpTo(t, p, acc, p, rest);
  }

  /** So does reading up to the other delimiter that is accepted. */
  lemma OtherRestores(t: string, q: string, a: char, b: char, rest: string)
    requires q != "" && Delimiter(q + [a], Accept(a, b))
    ensures Scan(Quote(t, q + [a]) + (q + [b]) + rest, q + [a], Accept(a, b), true) == Found(t, rest)
  {
    hide Scan, Quote;
    UnquoteUpTo(t, q + [a], Accept(a, b), q + [b], rest);
  }

  lemma UnquoteQuoted(t: string, p: string, acc: Accept, more: string)
    requires Delimiter(p, acc) && |t| >= 2 && t[0] == p[0] && t[1] == p[1]
    ensures Scan(Quote(t, p) + more, p, acc, true) == Prepend(t[..2], Scan(Quote(t[2..], p) + more, p, acc, true))
  {
    hide Scan;
    var u := Quote(t[2..], p) + more;
    assert Quote(t, p) + more == [p[0], p[1], p[1]] + u;
    QuotedFirst(u, p, acc);
    assert [p[0], p[1]] == t[..2];
  }

  lemma UnquotePlain(t: string, p: string, acc: Accept, more: string)
    requires Delimiter(p, acc) && t != "" && !(|t| >= 2 && t[0] == p[0] && t[1] == p[1])
    requires more != "" && more[0] != p[1]
    ensures Scan(Quote(t, p) + more, p, acc, true) == Prepend(t[..1], Scan(Quote(t[1..], p) + more, p, acc, true))
  {
    hide Scan;
    var u := Quote(t[1..], p) + more;
    QuoteFirst(t, p, more);
    PlainFirst(t[0], u, p, acc);
    assert [t[0]] == t[..1];
  }

  /** The delimiters of change files. */
  const CHSTART2: string := "\n@s,"
  const CHSTART3: string := "\n@s|"
  const CHSTART4: string := "\n@s]"

  lemma ChangeDelimiters()
    ensures Delimiter(CHSTART2, Accept(',', '|')) && Delimiter(CHSTART3, NoAccept) && Delimiter(CHSTART4, NoAccept)
    ensures NoRestart(CHSTART2, Accept(',', '|')) && NoRestart(CHSTART3, NoAccept)
  {
  }

  /** Without the delimiter's length there is no match. */
  lemma {:induction false} ShortText(text: string, p: string, acc: Accept, unquoting: bool)
    requires |text| < |p|
    ensures Scan(text, p, acc, unquoting).NotFound?
    decreases |text|
  {
    if text != "" {
      if unquoting && Quoted(p, acc, text) {
        ShortText([p[1]] + text[3..], p, acc, unquoting);
      } else {
        ShortText(text[1..], p, acc, unquoting);
      }
    }
  }

  // Reading with pushback ------------------------------------------------------------------

  function Reverse(s: string): (r: string)
    ensures |r| == |s|
  {
    if s == "" then "" else [s[|s| - 1]] + Reverse(s[..|s| - 1])
  }

  lemma BufferEmpty(s: string)
    ensures s == "" ==> Reverse(s) == ""
  {
  }

  lemma ReverseSnoc(s: string, x: char)
    ensures Reverse(s + [x]) == [x] + Reverse(s)
  {
    assert (s + [x])[..|s|] == s;
  }

  datatype Read = Eof | Char(ch: char)

  datatype Check = AtEof | Matched | Mismatch

  /** A file being read, the pushback stack with its top last, and the output. */
  class Source {
    var rest: string
    var buffer: string
    var out: string

    /** The characters that will be read. */
    ghost function Ahead(): string
      reads this
    {
      Reverse(buffer) + rest
    }

    constructor (text: string)
      ensures rest == text && buffer == "" && out == ""
    {
      rest, buffer, out := text, "", "";
    }

    /** mygetc */
    method MyGetc() returns (r: Read)
      modifies this`rest, this`buffer
      ensures r.Eof? <==> old(Ahead()) == ""
      ensures r.Eof? ==> Ahead() == "" && buffer == ""
      ensures r.Char? ==> [r.ch] + Ahead() == old(Ahead())
      ensures |buffer| == if old(|buffer|) == 0 then 0 else old(|buffer|) - 1
    {
      if buffer == "" {
        if rest == "" {
          return Eof;
        }
        r := Char(rest[0]);
        rest := rest[1..];
      } else {
        r := Char(buffer[|buffer| - 1]);
        buffer := buffer[..|buffer| - 1];
      }
    }

    /** myungetc */
    method MyUngetc(ch: char)
      modifies this`buffer
      ensures Ahead() == [ch] + old(Ahead()) && |buffer| == old(|buffer|) + 1
    {
      ReverseSnoc(buffer, ch);
      buffer := buffer + [ch];
    }

    /** The loop for checking, after a first character that fits; text is what began with it. */
    method CheckRest(p: string, unquoting: bool, ghost text: string) returns (r: Check)
      requires p != "" && text == [p[0]] + Ahead() && |buffer| <= |p| - 1
      modifies this`rest, this`buffer
      ensures |buffer| <= |p| - 1
      ensures r.AtEof? ==> |text| < |p|
      ensures r.Matched? ==> Matches(p, NoAccept, text) && Ahead() == text[|p|..] && buffer == ""
      ensures r.Mismatch? ==> !Matches(p, NoAccept, text)
      ensures r.Mismatch? ==>
                Ahead() == if unquoting && Quoted(p, NoAccept, text) then [p[1]] + text[3..] else text[1..]
    {
      ghost var b := |buffer|;
      var s: nat := 1;
      assert text[1..] == Ahead();
      while s < |p|
        invariant 1 <= s <= |p| && s <= |text| && text[..s] == p[..s] && Ahead() == text[s..]
        invariant |buffer| == if b <= s - 1 then 0 else b - (s - 1)
      {
        var c := MyGetc();
        if c.Eof? {
          return AtEof;
        }
        assert text[s] == c.ch && text[s + 1..] == Ahead();
        if p[s] != c.ch {
          var dropped := unquoting && c.ch == p[1] && s == 2;
          if !dropped {
            MyUngetc(c.ch);
          }
          PutBack(p, s);
          MismatchAhead(p, text, s, unquoting);
          return Mismatch;
        }
        OneMoreFits(p, text, s);
        s := s + 1;
      }
      assert text[..|p|] == p;
      return Matched;
    }

    /** The checked characters go back, except the first one. */
    method PutBack(p: string, s: nat)
      requires 1 <= s <= |p|
      modifies this`buffer
      ensures Ahead() == p[1..s] + old(Ahead()) && |buffer| == old(|buffer|) + s - 1
    {
      ghost var ahead := Ahead();
      var cp: nat := s;
      assert p[s..s] + ahead == ahead;
      while cp > 1
        invariant 1 <= cp <= s && Ahead() == p[cp..s] + ahead && |buffer| == old(|buffer|) + s - cp
        decreases cp
      {
        cp := cp - 1;
        MyUngetc(p[cp]);
        assert [p[cp]] + (p[cp + 1..s] + ahead) == p[cp..s] + ahead;
      }
    }

    /** search_for_string1: echo tells whether there is an output. What an earlier search had
        pushed back is forgotten. */
    method SearchForString1(p: string, unquoting: bool, echo: bool) returns (found: bool)
      modifies this
      ensures var r := Scan(old(rest), p, NoAccept, unquoting);
              && (found <==> r.Found?)
              && (found ==> buffer == "" && rest == r.rest && out == old(out) + Shown(echo, r.before))
      ensures p != "" ==> |buffer| <= |p| - 1
    {
      buffer := "";
      ghost var text := rest;
      assert Ahead() == text;
      if p == "" {
        assert text[0..] == text;
        return true;
      }
      ghost var passed := "";
      ghost var out0 := out;
      PrependNothing(Scan(text, p, NoAccept, unquoting));
      ShownMore(out, echo, "", "");
      while true
        invariant Scan(text, p, NoAccept, unquoting) == Prepend(passed, Scan(Ahead(), p, NoAccept, unquoting))
        invariant |buffer| <= |p| - 1 && out == out0 + Shown(echo, passed)
        decreases |Ahead()|
      {
        hide Scan, Prepend, Matches, Quoted, Reverse, Shown;
        ghost var ahead := Ahead();
        var c := MyGetc();
        if c.Eof? {
          ShortText(ahead, p, NoAccept, unquoting);
          PrependFound(passed, "");
          return false;
        }
        assert ahead[1..] == Ahead() && ahead[0] == c.ch;
        if c.ch != p[0] {
          ScanPlain(ahead, p, NoAccept, unquoting);
        } else {
          var check := CheckRest(p, unquoting, ahead);
          match check
          case AtEof =>
            ShortText(ahead, p, NoAccept, unquoting);
            PrependFound(passed, "");
            return false;
          case Matched =>
            ScanMatched(ahead, p, NoAccept, unquoting);
            PrependFound(passed, ahead[|p|..]);
            BufferEmpty(buffer);
            return true;
          case Mismatch =>
            ScanStep(ahead, p, unquoting);
        }
        Echo(echo, c.ch);
        ShownMore(out0, echo, passed, [c.ch]);
        PrependTwice(passed, [c.ch], Scan(Ahead(), p, NoAccept, unquoting));
        passed := passed + [c.ch];
      }
    }

    /** if (out) putc (ch, out) */
    method Echo(echo: bool, ch: char)
      modifies this`out
      ensures out == old(out) + Shown(echo, [ch])
    {
      if echo {
        out := out + [ch];
      }
    }

    /** getc */
    method GetC() returns (r: Read)
      modifies this`rest
      ensures r.Eof? <==> old(rest) == ""
      ensures r.Eof? ==> rest == ""
      ensures r.Char? ==> [r.ch] + rest == old(rest)
    {
      if rest == "" {
        return Eof;
      }
      r := Char(rest[0]);
      rest := rest[1..];
    }

    /** The loop for checking in ssearch_for_string1; c is the last character read, and s tells
        how many characters had fitted before it. */
    method CheckRest2(p: string, acc: Accept, ghost text: string) returns (c: Read, s: nat)
      requires p != "" && text == [p[0]] + rest
      modifies this`rest
      ensures 1 <= s == Agree(p, acc, text, 1) <= |p| && s <= |text|
      ensures s == |p| ==> rest == text[s..] && c == Char(text[s - 1])
      ensures s < |p| ==> text[s..] == Coming(c, rest)
      ensures c.Eof? ==> rest == ""
    {
      s := 1;
      c := Char(p[0]);
      assert text[1..] == rest;
      while s < |p|
        invariant 1 <= s <= |p| && s <= |text| && rest == text[s..] && c == Char(text[s - 1])
        invariant Agree(p, acc, text, 1) == Agree(p, acc, text, s)
      {
        c := GetC();
        if c.Eof? || !Fits(p, acc, s, c.ch) {
          assert text[s..] == Coming(c, rest);
          return;
        }
        assert text[s] == c.ch && text[s + 1..] == rest;
        s := s + 1;
      }
    }

    /** Passing over the beginning of ahead, c being its first character: either the delimiter
        is there, or part of it is output and next is read. */
    method Pass(p: string, acc: Accept, unquoting: bool, echo: bool, c: char, ghost ahead: string)
        returns (done: bool, next: Read, ghost part: string)
      requires p != "" && ahead == [c] + rest
      modifies this`rest, this`out
      ensures done ==> |p| <= |ahead| && rest == ahead[|p|..] && next == Char(ahead[|p| - 1])
      ensures done ==> Skim(ahead, p, acc, unquoting) == Found("", rest) && Fits(p, acc, |p| - 1, ahead[|p| - 1])
      ensures done ==> out == old(out) + Shown(echo, "\0")
      ensures !done ==> Skim(ahead, p, acc, unquoting) == Prepend(part, Skim(Coming(next, rest), p, acc, unquoting))
      ensures !done ==> out == old(out) + Shown(echo, part) && (next.Eof? ==> rest == "")
      ensures !done ==> |Coming(next, rest)| < |ahead| && IsSuffix(Coming(next, rest), ahead)
    {
      hide Skim, Fits, Prepend, Agree, Kept;
      if c == p[0] {
        var s;
        next, s := CheckRest2(p, acc, ahead);
        AgreeLast(p, acc, ahead);
        if s == |p| {
          SkimMatched(ahead, p, acc, unquoting);
          if echo {
            out := out + "\0";
          }
          return true, next, "";
        }
        var keep: nat := if unquoting && next.Char? && next.ch == p[1] && s == 2 then 1 else s;
        part := p[..keep];
        KeptIs(p, ahead, s, next, rest, unquoting);
        SkimMismatch(ahead, p, acc, unquoting);
        if echo {
          out := out + p[..keep];
        }
      } else {
        part := [c];
        SkimPlain(ahead, p, acc, unquoting);
        assert ahead[1..] == rest;
        next := GetC();
        assert Coming(next, rest) == ahead[1..];
        if echo {
          out := out + [c];
        }
      }
      done := false;
    }

    /** ssearch_for_string1 without its output limit: on success it gives the last character
        of the delimiter as read, and ends the output with a NUL. */
    method SSearchForString1(p: string, acc: Accept, unquoting: bool, echo: bool) returns (found: Read)
      modifies this`rest, this`out
      ensures p == "" ==> found == Char('a') && rest == old(rest) && out == old(out)
      ensures p != "" ==>
                var r := Skim(old(rest), p, acc, unquoting);
                && (found.Char? <==> r.Found?)
                && (r.Found? ==> rest == r.rest && out == old(out) + Shown(echo, r.before + "\0"))
      ensures p != "" && found.Char? ==> EndsWith(old(rest), rest, found.ch) && LastOf(p, acc, found.ch)
    {
      hide Fits, Prepend, IsSuffix, EndsWith, Shown, Coming, Skim;
      if p == "" {
        return Char('a');
      }
      ghost var text, out0 := rest, out;
      ghost var passed := "";
      ShownMore(out, echo, "", "");
      PrependNothing(Skim(text, p, acc, unquoting));
      SuffixStart(text);
      var c := GetC();
      ComingIs(c, rest, text);
      while true
        invariant c.Eof? ==> rest == ""
        invariant IsSuffix(Coming(c, rest), text)
        invariant Skim(text, p, acc, unquoting) == Prepend(passed, Skim(Coming(c, rest), p, acc, unquoting))
        invariant out == out0 + Shown(echo, passed)
        decreases |Coming(c, rest)|
      {
        ghost var ahead := Coming(c, rest);
        ComingEof(c, rest);
        if c.Eof? {
          SkimNothing(p, acc, unquoting);
          PrependFound(passed, "");
          return Eof;
        }
        var done;
        ghost var part;
        done, c, part := Pass(p, acc, unquoting, echo, c.ch, ahead);
        if done {
          ShownMore(out0, echo, passed, "\0");
          SuffixEnd(ahead, text, |p|);
          LastFits(p, acc, c.ch);
          PrependFound(passed, ahead[|p|..]);
          return c;
        }
        PrependTwice(passed, part, Skim(Coming(c, rest), p, acc, unquoting));
        ShownMore(out0, echo, passed, part);
        SuffixTrans(Coming(c, rest), ahead, text);
        passed := passed + part;
      }
    }
  }

  // Searching without pushback -----------------------------------------------------------------

  /** How far the text fits, the first s characters being known to. */
  function Agree(p: string, acc: Accept, text: string, s: nat): (r: nat)
    requires s <= |p| && s <= |text|
    ensures s <= r <= |p| && r <= |text|
    decreases |p| - s
  {
    if s < |p| && s < |text| && Fits(p, acc, s, text[s]) then Agree(p, acc, text, s + 1) else s
  }

  /** How much of the delimiter is output after a mismatch at place s. */
  function Kept(p: string, text: string, s: nat, unquoting: bool): (k: nat)
    requires 1 <= s < |p| && s <= |text|
    ensures 1 <= k <= s
  {
    if unquoting && s == 2 && s < |text| && text[s] == p[1] then 1 else s
  }

  /** Reading on without ever going back: after a mismatch the character that did not fit is the
      next one to be looked at. */
  function Skim(text: string, p: string, acc: Accept, unquoting: bool): Outcome
    requires p != ""
    decreases |text|
  {
    if text == "" then NotFound
    else if text[0] != p[0] then Prepend([text[0]], Skim(text[1..], p, acc, unquoting))
    else
      var s := Agree(p, acc, text, 1);
      if s == |p| then Found("", text[s..])
      else Prepend(p[..Kept(p, text, s, unquoting)], Skim(text[s..], p, acc, unquoting))
  }

  lemma SkimNothing(p: string, acc: Accept, unquoting: bool)
    requires p != ""
    ensures Skim("", p, acc, unquoting) == NotFound
  {
  }

  lemma SkimPlain(text: string, p: string, acc: Accept, unquoting: bool)
    requires p != "" && text != "" && text[0] != p[0]
    ensures Skim(text, p, acc, unquoting) == Prepend([text[0]], Skim(text[1..], p, acc, unquoting))
  {
  }

  lemma SkimMatched(text: string, p: string, acc: Accept, unquoting: bool)
    requires p != "" && text != "" && text[0] == p[0] && Agree(p, acc, text, 1) == |p|
    ensures Skim(text, p, acc, unquoting) == Found("", text[|p|..])
  {
  }

  lemma SkimMismatch(text: string, p: string, acc: Accept, unquoting: bool)
    requires p != "" && text != "" && text[0] == p[0] && Agree(p, acc, text, 1) < |p|
    ensures var s := Agree(p, acc, text, 1);
            var part := p[..Kept(p, text, s, unquoting)];
            Skim(text, p, acc, unquoting) == Prepend(part, Skim(text[s..], p, acc, unquoting))
  {
  }

  lemma KeptIs(p: string, text: string, s: nat, next: Read, rest: string, unquoting: bool)
    requires 1 <= s < |p| && s <= |text| && text[s..] == Coming(next, rest) && (next.Eof? ==> rest == "")
    ensures Kept(p, text, s, unquoting) == if unquoting && next.Char? && next.ch == p[1] && s == 2 then 1 else s
  {
    if next.Char? {
      assert text[s] == text[s..][0];
    }
  }

  /** All characters before the place that Agree gives fit, and the one there does not. */
  lemma {:induction false} AgreeMeans(p: string, acc: Accept, text: string, s: nat)
    requires s <= |p| && s <= |text|
    ensures var r := Agree(p, acc, text, s);
            && (forall k :: s <= k < r ==> Fits(p, acc, k, text[k]))
            && (r < |p| && r < |text| ==> !Fits(p, acc, r, text[r]))
    decreases |p| - s
  {
    if s < |p| && s < |text| && Fits(p, acc, s, text[s]) {
      AgreeMeans(p, acc, text, s + 1);
    }
  }

  lemma AgreeLast(p: string, acc: Accept, text: string)
    requires p != "" && text != "" && text[0] == p[0]
    ensures var s := Agree(p, acc, text, 1); s == |p| ==> Fits(p, acc, |p| - 1, text[|p| - 1])
  {
    AgreeMeans(p, acc, text, 1);
  }

  /** For a delimiter whose first character does not recur, nothing is missed that way. */
  lemma {:induction false} SkimIsScan(text: string, p: string, acc: Accept, unquoting: bool)
    requires NoRestart(p, acc)
    ensures Skim(text, p, acc, unquoting) == Scan(text, p, acc, unquoting)
    decreases |text|
  {
    hide Scan, Skim, Matches, Quoted, Prepend;
    if text == "" {
      SkimNothing(p, acc, unquoting);
      ShortText(text, p, acc, unquoting);
    } else if text[0] != p[0] {
      SkimIsScan(text[1..], p, acc, unquoting);
      SkimPlain(text, p, acc, unquoting);
      ScanPlain(text, p, acc, unquoting);
    } else {
      var s := Agree(p, acc, text, 1);
      AgreeMeans(p, acc, text, 1);
      if s == |p| {
        SkimMatched(text, p, acc, unquoting);
        FitsAll(p, acc, text);
        ScanMatched(text, p, acc, unquoting);
      } else {
        SkimIsScan(text[s..], p, acc, unquoting);
        SkimMismatch(text, p, acc, unquoting);
        FittedIsSame(p, acc, text, s);
        var c := if s < |text| then Char(text[s]) else Eof;
        var rest := if s < |text| then text[s + 1..] else "";
        assert Coming(c, rest) == text[s..];
        KeptIs(p, text, s, c, rest, unquoting);
        ScanMismatch(p, acc, text, s, Kept(p, text, s, unquoting), c, rest, unquoting);
      }
    }
  }

  lemma FitsAll(p: string, acc: Accept, text: string)
    requires p != "" && |p| <= |text| && text[0] == p[0] && forall k :: 1 <= k < |p| ==> Fits(p, acc, k, text[k])
    ensures Matches(p, acc, text)
  {
  }

  // The two delimiters of a search -------------------------------------------------------------

  /** The word w stands in the text at place i. */
  predicate StandsAt(w: string, text: string, i: nat) {
    i <= |text| && w <= text[i..]
  }

  lemma OneDelimiter(p: string, text: string, i: nat)
    ensures OccursAt(p, NoAccept, text, i) <==> StandsAt(p, text, i)
  {
    if i <= |text| && Matches(p, NoAccept, text[i..]) {
      forall k | 0 <= k < |p|
        ensures text[i..][k] == p[k]
      {
        assert Fits(p, NoAccept, k, text[i..][k]);
      }
    }
  }

  lemma TwoDelimiters(q: string, a: char, b: char, text: string)
    requires q != "" && a !in q
    ensures Matches(q + [a], Accept(a, b), text) <==> q + [a] <= text || q + [b] <= text
  {
    var p, acc := q + [a], Accept(a, b);
    if Matches(p, acc, text) {
      forall k | 0 <= k < |q|
        ensures text[k] == q[k]
      {
        assert Fits(p, acc, k, text[k]) && p[k] == q[k] && q[k] in q;
      }
      assert Fits(p, acc, |q|, text[|q|]);
    }
  }

  /** Unquoting changes what is passed on, but not where the search ends. */
  lemma {:induction false} UnquotingEndsAlike(text: string, p: string, acc: Accept)
    requires NoRestart(p, acc)
    ensures var r, r1 := Scan(text, p, acc, true), Scan(text, p, acc, false);
            r.Found? == r1.Found? && (r.Found? ==> r.rest == r1.rest)
    decreases |text|
  {
    if !Matches(p, acc, text) && text != "" {
      if Quoted(p, acc, text) {
        UnquotingEndsAlike(text[3..], p, acc);
        PassesQuote(text, p, acc);
      } else {
        UnquotingEndsAlike(text[1..], p, acc);
      }
    }
  }

  lemma PassesQuote(text: string, p: string, acc: Accept)
    requires NoRestart(p, acc) && Quoted(p, acc, text) && !Matches(p, acc, text)
    ensures Scan(text, p, acc, true) == Prepend([p[0]], Prepend([p[1]], Scan(text[3..], p, acc, true)))
    ensures Scan(text, p, acc, false) == Prepend(text[..3], Scan(text[3..], p, acc, false))
  {
    hide Scan, Matches;
    ScanQuoted(text, p, acc);
    var more := [p[1]] + text[3..];
    ScanPlain(more, p, acc, true);
    assert more[1..] == text[3..];
    ScanUnquoted(text, p, acc, false);
    SkipPlain(text[1..], p, acc, false, 2);
    assert text[1..][2..] == text[3..] && [text[0]] + text[1..][..2] == text[..3];
    PrependTwice([text[0]], text[1..][..2], Scan(text[3..], p, acc, false));
  }

  /** In plain words: the search without pushback for q and a, or b in place of a, fails exactly
      when the text has neither of both words. Otherwise it ends behind the first of either, and
      without unquoting the text before it is what was passed. */
  lemma SkimFindsEither(text: string, q: string, a: char, b: char, unquoting: bool)
    requires q != "" && NoRestart(q + [a], Accept(a, b))
    ensures var r := Skim(text, q + [a], Accept(a, b), unquoting);
            && (r.NotFound? <==> forall i: nat :: !StandsAt(q + [a], text, i) && !StandsAt(q + [b], text, i))
            && (r.Found? ==> exists i: nat :: FirstOfEither(text, q, a, b, i) && r.rest == text[i + |q| + 1..])
            && (r.Found? && !unquoting ==> FirstOfEither(text, q, a, b, |r.before|) && r.before == text[..|r.before|])
  {
    hide Skim, Scan, Matches;
    var p, acc := q + [a], Accept(a, b);
    SkimIsScan(text, p, acc, unquoting);
    UnquotingEndsAlike(text, p, acc);
    ScanFindsFirst(text, p, acc);
    LastIsNew(q, a, b);
    forall i: nat
      ensures OccursAt(p, acc, text, i) <==> StandsAt(q + [a], text, i) || StandsAt(q + [b], text, i)
    {
      if i <= |text| {
        TwoDelimiters(q, a, b, text[i..]);
      }
    }
    var r := Scan(text, p, acc, false);
    if r.Found? {
      assert FirstOfEither(text, q, a, b, |r.before|);
    }
  }

  /** The first of both words stands at place i. */
  predicate FirstOfEither(text: string, q: string, a: char, b: char, i: nat) {
    && i + |q| < |text|
    && (StandsAt(q + [a], text, i) || StandsAt(q + [b], text, i))
    && forall j: nat :: j < i ==> !StandsAt(q + [a], text, j) && !StandsAt(q + [b], text, j)
  }

  lemma LastIsNew(q: string, a: char, b: char)
    requires NoRestart(q + [a], Accept(a, b))
    ensures a !in q
  {
    forall k | 0 <= k < |q|
      ensures q[k] != a
    {
      assert (q + [a])[k] == q[k];
    }
  }

  /** Wherever a beginning of the delimiter stands again inside it, it goes on alike. */
  predicate GoesOnAlike(p: string) {
    forall k, s :: 1 <= k < s < |p| && p[k..s] == p[..s - k] ==> p[s] == p[s - k]
  }

  /** Without unquoting and alternatives, the search without pushback finds the first occurrence
      in every text exactly for those delimiters. */
  lemma SkimIsScanIff(p: string)
    requires p != ""
    ensures (forall text :: Skim(text, p, NoAccept, false) == Scan(text, p, NoAccept, false)) <==> GoesOnAlike(p)
  {
    if GoesOnAlike(p) {
      forall text
        ensures Skim(text, p, NoAccept, false) == Scan(text, p, NoAccept, false)
      {
        AlikeFindsFirst(text, p);
      }
    } else {
      var k, s :| 1 <= k < s < |p| && p[k..s] == p[..s - k] && p[s] != p[s - k];
      MissedText(p, k, s);
      assert Skim(p[..k] + p, p, NoAccept, false) != Scan(p[..k] + p, p, NoAccept, false);
    }
  }

  /** An occurrence that begins inside a failed check is missed. */
  lemma MissedText(p: string, k: nat, s: nat)
    requires 1 <= k < s < |p| && p[k..s] == p[..s - k] && p[s] != p[s - k]
    ensures Skim(p[..k] + p, p, NoAccept, false).NotFound?
    ensures Scan(p[..k] + p, p, NoAccept, false).Found?
  {
    hide Scan, Skim, Agree, Kept, Matches;
    var text := p[..k] + p;
    MatchesItself(p);
    RepeatedStart(p, k, s);
    assert OccursAt(p, NoAccept, text, k);
    ScanFindsFirst(text, p, NoAccept);
    AgreeIs(p, text, s);
    SkimMismatch(text, p, NoAccept, false);
    SkimShort(text[s..], p, NoAccept, false);
  }

  lemma OneMoreFits(p: string, text: string, s: nat)
    requires s < |p| && s < |text| && text[..s] == p[..s] && text[s] == p[s]
    ensures text[..s + 1] == p[..s + 1]
  {
    assert text[..s + 1] == text[..s] + [text[s]] && p[..s + 1] == p[..s] + [p[s]];
  }

  lemma MatchesItself(p: string)
    ensures Matches(p, NoAccept, p)
  {
  }

  lemma RepeatedStart(p: string, k: nat, s: nat)
    requires 1 <= k < s < |p| && p[k..s] == p[..s - k]
    ensures var text := p[..k] + p;
            text[k..] == p && text[..s] == p[..s] && text[s] == p[s - k]
  {
    var text := p[..k] + p;
    assert p[..s] == p[..k] + p[k..s];
    assert text[..s] == p[..k] + p[..s - k];
  }

  lemma AgreeIs(p: string, text: string, s: nat)
    requires 1 <= s < |p| && s < |text| && text[..s] == p[..s] && text[s] != p[s]
    ensures Agree(p, NoAccept, text, 1) == s && text[0] == p[0]
  {
    AgreeMeans(p, NoAccept, text, 1);
    forall i | 0 <= i < s
      ensures text[i] == p[i]
    {
      assert text[..s][i] == p[..s][i];
    }
  }

  lemma {:induction false} SkimShort(text: string, p: string, acc: Accept, unquoting: bool)
    requires p != "" && |text| < |p|
    ensures Skim(text, p, acc, unquoting).NotFound?
    decreases |text|
  {
    if text != "" {
      if text[0] != p[0] {
        SkimShort(text[1..], p, acc, unquoting);
      } else {
        SkimShort(text[Agree(p, acc, text, 1)..], p, acc, unquoting);
      }
    }
  }

  lemma {:induction false} AlikeFindsFirst(text: string, p: string)
    requires p != "" && GoesOnAlike(p)
    ensures Skim(text, p, NoAccept, false) == Scan(text, p, NoAccept, false)
    decreases |text|
  {
    hide Scan, Skim, Matches, Prepend, GoesOnAlike;
    if text == "" {
      SkimNothing(p, NoAccept, false);
      ShortText(text, p, NoAccept, false);
    } else if text[0] != p[0] {
      AlikeFindsFirst(text[1..], p);
      SkimPlain(text, p, NoAccept, false);
      ScanPlain(text, p, NoAccept, false);
    } else {
      var s := Agree(p, NoAccept, text, 1);
      AgreeMeans(p, NoAccept, text, 1);
      if s == |p| {
        SkimMatched(text, p, NoAccept, false);
        FitsAll(p, NoAccept, text);
        ScanMatched(text, p, NoAccept, false);
      } else {
        AlikeFindsFirst(text[s..], p);
        SkimMismatch(text, p, NoAccept, false);
        assert text[..s] == p[..s];
        NoneInside(text, p, s);
        SkipNoMatch(text, p, s);
      }
    }
  }

  /** No occurrence begins inside the s characters that fitted. */
  lemma NoneInside(text: string, p: string, s: nat)
    requires GoesOnAlike(p) && 1 <= s < |p| && s <= |text| && text[..s] == p[..s] && (s < |text| ==> text[s] != p[s])
    ensures forall k :: 0 <= k < s ==> !Matches(p, NoAccept, text[k..])
  {
    forall k | 0 <= k < s
      ensures !Matches(p, NoAccept, text[k..])
    {
      if Matches(p, NoAccept, text[k..]) {
        MatchInside(text, p, s, k);
      }
    }
  }

  lemma MatchInside(text: string, p: string, s: nat, k: nat)
    requires 1 <= s < |p| && s <= |text| && text[..s] == p[..s] && k < s && Matches(p, NoAccept, text[k..])
    ensures s < |text| && text[s] == p[s - k]
    ensures k >= 1 ==> p[k..s] == p[..s - k]
    ensures k == 0 ==> text[s] == p[s]
  {
    assert Fits(p, NoAccept, s - k, text[k..][s - k]);
    forall i | 0 <= i < s - k
      ensures p[k..s][i] == p[..s - k][i]
    {
      assert Fits(p, NoAccept, i, text[k..][i]);
      assert text[..s][k + i] == p[..s][k + i];
    }
  }

  /** Text in which no occurrence begins is passed over. */
  lemma {:induction false} SkipNoMatch(text: string, p: string, n: nat)
    requires n <= |text| && forall k :: 0 <= k < n ==> !Matches(p, NoAccept, text[k..])
    ensures Scan(text, p, NoAccept, false) == Prepend(text[..n], Scan(text[n..], p, NoAccept, false))
    decreases n
  {
    hide Matches, Prepend, Scan;
    if n == 0 {
      assert text[0..] == text;
      PrependNothing(Scan(text, p, NoAccept, false));
    } else {
      assert text[0..] == text;
      ScanUnquoted(text, p, NoAccept, false);
      forall k | 0 <= k < n - 1
        ensures !Matches(p, NoAccept, text[1..][k..])
      {
        assert text[1..][k..] == text[k + 1..];
      }
      SkipNoMatch(text[1..], p, n - 1);
      assert text[1..][n - 1..] == text[n..];
      PrependTwice([text[0]], text[1..][..n - 1], Scan(text[n..], p, NoAccept, false));
      assert [text[0]] + text[1..][..n - 1] == text[..n];
    }
  }

  // Output -------------------------------------------------------------------------------------

  /** What reaches the output. */
  function Shown(echo: bool, s: string): string {
    if echo then s else ""
  }

  lemma ShownMore(out: string, echo: bool, s: string, t: string)
    ensures out + Shown(echo, s) + Shown(echo, t) == out + Shown(echo, s + t)
    ensures out + Shown(echo, "") == out
  {
  }

  /** The last character of the delimiter, or the one accepted in its place. */
  predicate LastOf(p: string, acc: Accept, ch: char)
    requires p != ""
  {
    ch == p[|p| - 1] || (acc.Accept? && |p| > 1 && p[|p| - 1] == acc.a && ch == acc.b)
  }

  lemma LastFits(p: string, acc: Accept, ch: char)
    requires p != "" && Fits(p, acc, |p| - 1, ch)
    ensures LastOf(p, acc, ch)
  {
  }

  predicate IsSuffix(s: string, t: string) {
    |s| <= |t| && s == t[|t| - |s|..]
  }

  /** What was read of text, up to rest, ended with ch. */
  predicate EndsWith(text: string, rest: string, ch: char) {
    var n := |text| - |rest|;
    n > 0 && text[n - 1] == ch && text[n..] == rest
  }

  lemma SuffixStart(s: string)
    ensures IsSuffix(s, s)
  {
  }

  lemma SuffixTrans(s: string, t: string, u: string)
    requires IsSuffix(s, t) && IsSuffix(t, u)
    ensures IsSuffix(s, u)
  {
  }

  lemma SuffixEnd(s: string, t: string, n: nat)
    requires IsSuffix(s, t) && 1 <= n <= |s|
    ensures EndsWith(t, s[n..], s[n - 1])
  {
  }

  lemma ScanMatched(text: string, p: string, acc: Accept, unquoting: bool)
    requires Matches(p, acc, text)
    ensures |p| <= |text| && Scan(text, p, acc, unquoting) == Found("", text[|p|..])
    ensures p != "" ==> Fits(p, acc, |p| - 1, text[|p| - 1])
  {
  }

  /** What is still to come when c was read last. */
  function Coming(c: Read, rest: string): string {
    if c.Char? then [c.ch] + rest else rest
  }

  lemma ComingEof(c: Read, rest: string)
    ensures c.Eof? && rest == "" ==> Coming(c, rest) == ""
    ensures c.Char? ==> Coming(c, rest) == [c.ch] + rest
  {
  }

  lemma ComingIs(c: Read, rest: string, text: string)
    requires (c.Eof? ==> rest == "" && text == "") && (c.Char? ==> text == [c.ch] + rest)
    ensures Coming(c, rest) == text
  {
  }

  /** A failed check never hides a beginning of the delimiter. */
  predicate NoRestart(p: string, acc: Accept) {
    && p != "" && (forall k :: 1 <= k < |p| ==> p[k] != p[0])
    && (acc.Accept? ==> acc.b != p[0] && forall k :: 0 <= k < |p| - 1 ==> p[k] != acc.a)
  }

  lemma FittedIsSame(p: string, acc: Accept, text: string, s: nat)
    requires NoRestart(p, acc) && 1 <= s < |p| && s <= |text|
    requires forall k :: 0 <= k < s ==> Fits(p, acc, k, text[k])
    ensures text[..s] == p[..s]
  {
    forall k | 0 <= k < s
      ensures text[..s][k] == p[..s][k]
    {
      assert Fits(p, acc, k, text[k]);
    }
  }

  lemma ScanPlain(text: string, p: string, acc: Accept, unquoting: bool)
    requires p != "" && text != "" && text[0] != p[0]
    ensures Scan(text, p, acc, unquoting) == Prepend([text[0]], Scan(text[1..], p, acc, unquoting))
  {
    assert !Fits(p, acc, 0, text[0]);
  }

  lemma {:induction false} SkipPlain(text: string, p: string, acc: Accept, unquoting: bool, n: nat)
    requires p != "" && n <= |text| && forall k :: 0 <= k < n ==> text[k] != p[0]
    ensures Scan(text, p, acc, unquoting) == Prepend(text[..n], Scan(text[n..], p, acc, unquoting))
    decreases n
  {
    if n == 0 {
      assert text[0..] == text;
      PrependNothing(Scan(text, p, acc, unquoting));
    } else {
      ScanPlain(text, p, acc, unquoting);
      SkipPlain(text[1..], p, acc, unquoting, n - 1);
      assert text[1..][n - 1..] == text[n..];
      PrependTwice([text[0]], text[1..][..n - 1], Scan(text[n..], p, acc, unquoting));
      assert [text[0]] + text[1..][..n - 1] == text[..n];
    }
  }

  /** After a mismatch at place s the search goes on with the character that did not fit. */
  lemma ScanMismatch(p: string, acc: Accept, text: string, s: nat, keep: nat, c: Read, rest: string, unquoting: bool)
    requires NoRestart(p, acc) && 1 <= s < |p| && s <= |text| && text[..s] == p[..s]
    requires text[s..] == Coming(c, rest) && (c.Eof? ==> rest == "") && (c.Char? ==> !Fits(p, acc, s, c.ch))
    requires keep == if unquoting && c.Char? && c.ch == p[1] && s == 2 then 1 else s
    ensures Scan(text, p, acc, unquoting) == Prepend(p[..keep], Scan(Coming(c, rest), p, acc, unquoting))
  {
    hide Scan, Matches, Quoted;
    MismatchFacts(p, acc, text, s, c, rest);
    if unquoting && c.Char? && c.ch == p[1] && s == 2 {
      ScanQuoted(text, p, acc);
      assert text[3..] == text[s..][1..] == rest;
      assert p[..1] == [p[0]];
    } else {
      ScanUnquoted(text, p, acc, unquoting);
      SkipPlain(text[1..], p, acc, unquoting, s - 1);
      assert text[1..][s - 1..] == text[s..];
      PrependTwice([text[0]], text[1..][..s - 1], Scan(text[s..], p, acc, unquoting));
      assert [text[0]] + text[1..][..s - 1] == text[..s];
    }
  }

  lemma MismatchFacts(p: string, acc: Accept, text: string, s: nat, c: Read, rest: string)
    requires NoRestart(p, acc) && 1 <= s < |p| && s <= |text| && text[..s] == p[..s]
    requires text[s..] == Coming(c, rest) && (c.Eof? ==> rest == "") && (c.Char? ==> !Fits(p, acc, s, c.ch))
    ensures !Matches(p, acc, text) && text[0] == p[0] && forall k :: 1 <= k < s ==> text[k] != p[0]
    ensures Quoted(p, acc, text) <==> c.Char? && c.ch == p[1] && s == 2
  {
    forall k | 0 <= k < s
      ensures text[k] == p[k]
    {
      assert text[..s][k] == p[..s][k];
    }
    if c.Char? {
      assert text[s] == text[s..][0] == c.ch;
    }
  }

  lemma ScanQuoted(text: string, p: string, acc: Accept)
    requires Quoted(p, acc, text) && text[0] == p[0] && !Matches(p, acc, text)
    ensures Scan(text, p, acc, true) == Prepend([p[0]], Scan([p[1]] + text[3..], p, acc, true))
  {
  }

  lemma ScanUnquoted(text: string, p: string, acc: Accept, unquoting: bool)
    requires text != "" && !Matches(p, acc, text) && !(unquoting && Quoted(p, acc, text))
    ensures Scan(text, p, acc, unquoting) == Prepend([text[0]], Scan(text[1..], p, acc, unquoting))
  {
  }

  lemma PrependFound(s: string, rest: string)
    ensures Prepend(s, Found("", rest)) == Found(s, rest)
    ensures Prepend(s, NotFound) == NotFound
  {
    assert s + "" == s;
  }

  lemma PrependNothing(o: Outcome)
    ensures Prepend("", o) == o
  {
    if o.Found? {
      assert "" + o.before == o.before;
    }
  }

  /** What lies ahead after a mismatch at place s. */
  lemma MismatchAhead(p: string, text: string, s: nat, unquoting: bool)
    requires 1 <= s < |p| && s < |text| && text[..s] == p[..s] && text[s] != p[s]
    ensures !Matches(p, NoAccept, text)
    ensures unquoting && text[s] == p[1] && s == 2 <==> unquoting && Quoted(p, NoAccept, text)
    ensures s == 2 ==> p[1..s] + text[s + 1..] == [p[1]] + text[3..]
    ensures p[1..s] + ([text[s]] + text[s + 1..]) == text[1..]
  {
    assert !Fits(p, NoAccept, s, text[s]);
    forall k | 0 <= k < s
      ensures text[k] == p[k]
    {
      assert text[..s][k] == p[..s][k];
    }
  }

  lemma ScanStep(text: string, p: string, unquoting: bool)
    requires text != "" && !Matches(p, NoAccept, text)
    ensures var next := if unquoting && Quoted(p, NoAccept, text) then [p[1]] + text[3..] else text[1..];
            Scan(text, p, NoAccept, unquoting) == Prepend([text[0]], Scan(next, p, NoAccept, unquoting))
  {
  }
}
