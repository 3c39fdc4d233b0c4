/** The lexer (Tokenize, html-parser/HTML.cs:17-48). */
module HtmlTokenizer {
  import opened Text

  /** The state of the scan after a prefix of the input: the loop's three variables. */
  datatype Scanner = Scanner(tokens: seq<string>, capturing: bool, captured: string)

  /** One iteration of the loop of Tokenize, on character `c`. */
  function ScanChar(st: Scanner, c: char): (r: Scanner)
    // the lexemes emitted so far are kept; at most one is appended
    ensures |st.tokens| <= |r.tokens| <= |st.tokens| + 1 && r.tokens[..|st.tokens|] == st.tokens
    // only '>' ends a lexeme
    ensures r.capturing <==> c != '>'
  {
    if c == '<' then
      // a lexeme in progress is emitted; a new one starts with the '<'
      Scanner(if st.capturing then st.tokens + [st.captured] else st.tokens, true, "<")
    else if c == '>' then
      // the accumulator, closed by '>', is emitted and kept (it is not cleared)
      Scanner(st.tokens + [st.captured + ">"], false, st.captured + ">")
    else if !st.capturing then
      Scanner(st.tokens, true, [c])
    else
      Scanner(st.tokens, true, st.captured + [c])
  }

  /** The state before the loop: no lexemes, not capturing, an empty accumulator. */
  const Start := Scanner([], false, "")

  /** The state after the loop body has run, from state `st`, over each character of `s` in turn. */
  function Run(st: Scanner, s: string): Scanner
    decreases |s|
  {
    if s == [] then st else Run(ScanChar(st, s[0]), s[1..])
  }

  /** Specification of Tokenize: the lexemes emitted by a scan of `s`; what is left in the accumulator is dropped. */
  function Tokens(s: string): (tokens: seq<string>)
    ensures |tokens| <= |s|
  {
    RunEmitsAtMostOnePerChar(Start, s);
    Run(Start, s).tokens
  }

  /** The scan emits at most one lexeme per character read, and keeps those emitted before. */
  lemma {:induction false} RunEmitsAtMostOnePerChar(st: Scanner, s: string)
    ensures |st.tokens| <= |Run(st, s).tokens| <= |st.tokens| + |s|
    ensures Run(st, s).tokens[..|st.tokens|] == st.tokens
    decreases |s|
  {
    if s != [] {
      var st' := ScanChar(st, s[0]);
      RunEmitsAtMostOnePerChar(st', s[1..]);
      assert Run(st, s).tokens[..|st.tokens|] == Run(st', s[1..]).tokens[..|st'.tokens|][..|st.tokens|];
    }
  }

  lemma {:induction false} RunAppend(st: Scanner, a: string, b: string)
    ensures Run(st, a + b) == Run(Run(st, a), b)
    decreases |a|
  {
    if a == [] {
      assert a + b == b;
    } else {
      assert (a + b)[0] == a[0] && (a + b)[1..] == a[1..] + b;
      RunAppend(ScanChar(st, a[0]), a[1..], b);
    }
  }

  /** Tokenize, as written: one left-to-right pass over the input. */
  method Tokenize(html: string) returns (tokens: seq<string>)
    ensures tokens == Tokens(html)
    ensures forall k :: 0 <= k < |tokens| ==> tokens[k] != []
    ensures html == [] ==> tokens == []
  {
    tokens := [];
    var capturing := false;
    var capturedText := "";
    for i := 0 to |html|
      invariant Scanner(tokens, capturing, capturedText) == Run(Start, html[..i])
    {
      ghost var before := Scanner(tokens, capturing, capturedText);
      var c := html[i];
      if c == '<' {
        if capturing {
          tokens := tokens + [capturedText];
        } else {
          capturing := true;
        }
        capturedText := "";
      } else if c == '>' {
        capturing := false;
        capturedText := capturedText + [c];
        tokens := tokens + [capturedText];
      } else if !capturing {
        capturedText := "";
        capturing := true;
      }
      if capturing {
        capturedText := capturedText + [c];
      }
      assert html[..i + 1] == html[..i] + [c];
      RunAppend(Start, html[..i], [c]);
      assert Scanner(tokens, capturing, capturedText) == ScanChar(before, c);
    }
    assert html[..|html|] == html;
    TokensNonEmpty(html);
  }

  /** The accumulator is not empty while capturing, and no emitted lexeme is empty. */
  ghost predicate NoEmptyLexeme(st: Scanner) {
    (st.capturing ==> st.captured != [])
    && forall k :: 0 <= k < |st.tokens| ==> st.tokens[k] != []
  }

  lemma {:induction false} RunKeepsNoEmptyLexeme(st: Scanner, s: string)
    requires NoEmptyLexeme(st)
    ensures NoEmptyLexeme(Run(st, s))
    decreases |s|
  {
    if s != [] {
      var st' := ScanChar(st, s[0]);
      assert NoEmptyLexeme(st');
      RunKeepsNoEmptyLexeme(st', s[1..]);
    }
  }

  /** Every lexeme Tokenize emits is non-empty. */
  lemma TokensNonEmpty(s: string)
    ensures forall k :: 0 <= k < |Tokens(s)| ==> Tokens(s)[k] != []
  {
    RunKeepsNoEmptyLexeme(Start, s);
  }

  /** Neither '<' nor '>': a character the scan only accumulates. */
  predicate IsPlain(c: char) {
    c != '<' && c != '>'
  }

  predicate AllPlain(s: string) {
    forall k :: 0 <= k < |s| ==> IsPlain(s[k])
  }

  /** While capturing, plain characters only grow the accumulator. */
  lemma {:induction false} RunPlain(st: Scanner, x: string)
    requires st.capturing && AllPlain(x)
    ensures Run(st, x) == st.(captured := st.captured + x)
    decreases |x|
  {
    if x == [] {
      assert st.captured + x == st.captured;
    } else {
      var st' := st.(captured := st.captured + [x[0]]);
      assert ScanChar(st, x[0]) == st';
      RunPlain(st', x[1..]);
      assert st.captured + [x[0]] + x[1..] == st.captured + x;
    }
  }

  /** Outside a lexeme, a run of plain characters starts a text lexeme holding exactly that run. */
  lemma RunText(st: Scanner, x: string)
    requires !st.capturing && x != [] && AllPlain(x)
    ensures Run(st, x) == Scanner(st.tokens, true, x)
  {
    var st' := Scanner(st.tokens, true, [x[0]]);
    assert ScanChar(st, x[0]) == st';
    RunPlain(st', x[1..]);
    assert [x[0]] + x[1..] == x;
  }

  /** The lexeme in progress, if any. */
  function Pending(st: Scanner): seq<string> {
    if st.capturing then [st.captured] else []
  }

  /** A tag `<m>` emits the lexeme in progress, if any, and then the tag itself. */
  lemma RunTag(st: Scanner, m: string)
    requires AllPlain(m)
    ensures Run(st, "<" + m + ">") == Scanner(st.tokens + Pending(st) + ["<" + m + ">"], false, "<" + m + ">")
  {
    var st1 := Scanner(st.tokens + Pending(st), true, "<");
    assert Run(st, "<") == st1 by {
      assert ScanChar(st, '<') == st1;
      assert "<"[1..] == [];
    }
    RunPlain(st1, m);
    var st2 := st1.(captured := "<" + m);
    assert Run(st2, ">") == Scanner(st.tokens + Pending(st) + ["<" + m + ">"], false, "<" + m + ">") by {
      assert ">"[0] == '>' && ">"[1..] == [];
    }
    RunAppend(st1, m, ">");
    RunAppend(st, "<", m + ">");
    assert "<" + (m + ">") == "<" + m + ">";
  }

  /** A tag lexeme: '<', then no '<' or '>', then '>'. */
  predicate IsTagLexeme(t: string) {
    |t| >= 2 && t[0] == '<' && t[|t| - 1] == '>' && AllPlain(t[1..|t| - 1])
  }

  /** A text lexeme: a non-empty run without '<' or '>'. */
  predicate IsTextLexeme(t: string) {
    t != [] && AllPlain(t)
  }

  /** Tag and text lexemes, never two text lexemes in a row. */
  predicate IsLexemeSequence(ls: seq<string>) {
    (forall k :: 0 <= k < |ls| ==> IsTagLexeme(ls[k]) || IsTextLexeme(ls[k]))
    && (forall k :: 0 < k < |ls| ==> IsTagLexeme(ls[k - 1]) || IsTagLexeme(ls[k]))
  }

  /** The scanner state after reading a sequence of lexemes from the start. */
  function ScannedLexemes(ls: seq<string>): Scanner {
    if ls == [] then Start
    else if IsTagLexeme(ls[|ls| - 1]) then Scanner(ls, false, ls[|ls| - 1])
    else Scanner(ls[..|ls| - 1], true, ls[|ls| - 1])
  }

  /** Reading one more lexeme: a tag always, a text lexeme only when no text lexeme is pending. */
  lemma ScanOneLexeme(ls: seq<string>, t: string)
    requires IsTagLexeme(t) || (IsTextLexeme(t) && (ls == [] || IsTagLexeme(ls[|ls| - 1])))
    ensures Run(ScannedLexemes(ls), t) == ScannedLexemes(ls + [t])
  {
    var st := ScannedLexemes(ls);
    assert (ls + [t])[..|ls|] == ls;
    if IsTagLexeme(t) {
      var m := t[1..|t| - 1];
      assert t == "<" + m + ">";
      RunTag(st, m);
      if ls != [] && !IsTagLexeme(ls[|ls| - 1]) {
        assert ls[..|ls| - 1] + [ls[|ls| - 1]] == ls;
      }
    } else {
      RunText(st, t);
    }
  }

  lemma {:induction false} ScanLexemes(ls: seq<string>)
    requires IsLexemeSequence(ls)
    ensures Run(Start, Concat(ls)) == ScannedLexemes(ls)
    decreases |ls|
  {
    if ls != [] {
      var ls', t := ls[..|ls| - 1], ls[|ls| - 1];
      assert ls == ls' + [t];
      assert IsLexemeSequence(ls') && (IsTagLexeme(t) || (IsTextLexeme(t) && (ls' == [] || IsTagLexeme(ls'[|ls'| - 1])))) by {
        if ls' != [] {
          assert ls'[|ls'| - 1] == ls[|ls| - 2];
        }
      }
      assert Run(Start, Concat(ls')) == ScannedLexemes(ls') by {
        ScanLexemes(ls');
      }
      assert Run(Start, Concat(ls)) == Run(ScannedLexemes(ls'), t) by {
        RunAppend(Start, Concat(ls'), t);
      }
      ScanOneLexeme(ls', t);
    }
  }

  /** Tokenizing the concatenation of a lexeme sequence that ends with a tag gives that sequence back. */
  lemma TokenizeConcat(ls: seq<string>)
    requires IsLexemeSequence(ls)
    requires ls == [] || IsTagLexeme(ls[|ls| - 1])
    ensures Tokens(Concat(ls)) == ls
  {
    ScanLexemes(ls);
  }

  /** No '>' is immediately followed by another '>'. */
  predicate NoAdjacentClose(s: string) {
    forall k :: 0 < k < |s| ==> !(s[k - 1] == '>' && s[k] == '>')
  }

  lemma ConcatOne(x: string)
    ensures Concat([x]) == x
  {
    assert [x][..0] == [];
  }

  /** What a state has read: the emitted lexemes and the lexeme in progress, joined. */
  function Read(st: Scanner): string {
    Concat(st.tokens) + Concat(Pending(st))
  }

  /** One character is accounted for, unless it is a '>' arriving while the accumulator holds the previous lexeme. */
  lemma StepAccountsForChar(st: Scanner, c: char)
    requires c == '>' && !st.capturing ==> st.captured == []
    ensures Read(ScanChar(st, c)) == Read(st) + [c]
  {
    var st' := ScanChar(st, c);
    ConcatOne(st.captured);
    ConcatOne(st'.captured);
    if c == '<' {
      if st.capturing {
        assert (st.tokens + [st.captured])[..|st.tokens|] == st.tokens;
      }
    } else if c == '>' {
      assert (st.tokens + [st.captured + ">"])[..|st.tokens|] == st.tokens;
    }
  }

  /**
   * Every character read is accounted for, unless a '>' arrives while the
   * accumulator still holds the previous lexeme (a '>' right after a '>').
   */
  lemma {:induction false} RunAccountsForInput(st: Scanner, s: string)
    requires NoAdjacentClose(s)
    requires !st.capturing && st.captured != [] && s != [] ==> s[0] != '>'
    ensures Read(Run(st, s)) == Read(st) + s
    decreases |s|
  {
    if s == [] {
      assert Read(st) + s == Read(st);
    } else {
      var c := s[0];
      StepAccountsForChar(st, c);
      var st' := ScanChar(st, c);
      assert NoAdjacentClose(s[1..]) by {
        forall k | 0 < k < |s[1..]| ensures !(s[1..][k - 1] == '>' && s[1..][k] == '>') {
          assert s[1..][k - 1] == s[k] && s[1..][k] == s[k + 1];
        }
      }
      assert !st'.capturing && st'.captured != [] && |s| > 1 ==> s[1] != '>' by {
        if !st'.capturing && |s| > 1 {
          assert c == '>';
        }
      }
      RunAccountsForInput(st', s[1..]);
      assert Read(st) + [c] + s[1..] == Read(st) + s;
    }
  }

  /** After a '>' the scan is idle, and the accumulator holds the lexeme just emitted. */
  lemma AfterClose(s: string)
    requires s != [] && s[|s| - 1] == '>'
    ensures !Run(Start, s).capturing
    ensures Tokens(s) != [] && Run(Start, s).captured == Tokens(s)[|Tokens(s)| - 1]
  {
    var p := s[..|s| - 1];
    assert s == p + ">";
    RunAppend(Start, p, ">");
    var q := Run(Start, p);
    assert ">"[0] == '>' && ">"[1..] == [];
    assert Run(q, ">") == Run(ScanChar(q, '>'), []);
  }

  /**
   * Losslessness, as far as the code keeps it: when the input ends with '>'
   * (or is empty) and has no two adjacent '>', the lexemes joined in order
   * are the input.
   */
  lemma TokensLossless(s: string)
    requires NoAdjacentClose(s)
    requires s == [] || s[|s| - 1] == '>'
    ensures Concat(Tokens(s)) == s
  {
    RunAccountsForInput(Start, s);
    assert Read(Start) == "";
    if s != [] {
      AfterClose(s);
      assert Pending(Run(Start, s)) == [];
      assert Read(Run(Start, s)) == Concat(Tokens(s)) + "";
      assert Concat(Tokens(s)) + "" == Concat(Tokens(s));
    }
  }

  /** Text after the last '>' (or a tag that never closes) is dropped: nothing flushes the accumulator. */
  lemma TrailingPlainDropped(s: string, t: string)
    requires AllPlain(t)
    ensures Tokens(s + t) == Tokens(s)
  {
    RunAppend(Start, s, t);
    var st := Run(Start, s);
    if st.capturing {
      RunPlain(st, t);
    } else if t != [] {
      RunText(st, t);
    }
  }

  /** The accumulator keeps the last lexeme: a second '>' emits that lexeme again with '>' appended. */
  lemma RepeatedClose(s: string)
    requires s != [] && s[|s| - 1] == '>'
    ensures Tokens(s) != []
    ensures Tokens(s + ">") == Tokens(s) + [Tokens(s)[|Tokens(s)| - 1] + ">"]
  {
    AfterClose(s);
    AfterClose(s + ">");
    RunAppend(Start, s, ">");
    var q := Run(Start, s);
    assert ">"[0] == '>' && ">"[1..] == [];
    assert Run(q, ">") == Run(ScanChar(q, '>'), []);
  }

  /** Text after the last tag is dropped: "<div>x" gives only "<div>". */
  lemma TrailingTextExample()
    ensures Tokens("<div>x") == ["<div>"]
  {
    assert Tokens("<div>") == ["<div>"] by {
      RunTag(Start, "div");
      assert "<" + "div" + ">" == "<div>";
    }
    TrailingPlainDropped("<div>", "x");
    assert "<div>" + "x" == "<div>x";
  }

  /** An unclosed tag and a bare run of text give no lexeme at all. */
  lemma UnterminatedExamples()
    ensures Tokens("<div") == []
    ensures Tokens("abc") == []
  {
    assert Tokens("<") == [];
    TrailingPlainDropped("<", "div");
    assert "<" + "div" == "<div";
    TrailingPlainDropped("", "abc");
    assert "" + "abc" == "abc";
  }

  /** "<<" emits the lone "<" (which the tree builder cannot classify). */
  lemma DoubleOpenExample()
    ensures Tokens("<<") == ["<"]
  {
    assert "<<"[1..] == "<";
    assert "<"[1..] == [];
  }

  lemma RunCons(st: Scanner, s: string)
    requires s != []
    ensures Run(st, s) == Run(ScanChar(st, s[0]), s[1..])
  {
  }

  /** "<a>>" emits "<a>" and then "<a>>", traced one character at a time. */
  lemma DoubleCloseExample()
    ensures Tokens("<a>>") == ["<a>", "<a>>"]
  {
    var s := "<a>>";
    var q0 := Scanner([], true, "<");
    var q1 := Scanner([], true, "<a");
    var q2 := Scanner(["<a>"], false, "<a>");
    var q3 := Scanner(["<a>", "<a>>"], false, "<a>>");
    assert s[0] == '<' && s[1] == 'a' && s[2] == '>' && s[3] == '>';
    assert "<a" + ">" == "<a>" && "<a>" + ">" == "<a>>";
    assert ScanChar(Start, '<') == q0;
    assert ScanChar(q0, 'a') == q1;
    assert ScanChar(q1, '>') == q2;
    assert ScanChar(q2, '>') == q3;
    RunCons(Start, s);
    RunCons(q0, s[1..]);
    RunCons(q1, s[2..]);
    RunCons(q2, s[3..]);
    assert s[1..][1..] == s[2..] && s[2..][1..] == s[3..] && s[3..][1..] == [];
  }
}
