/** Line-wise whitespace trimming and joining (Minify, html-parser/HTML.cs:7-15). */
module HtmlMinify {
  import opened Text

  /**
   * The characters `String.Trim()` removes: those for which .NET's
   * `Char.IsWhiteSpace` holds (the Unicode White_Space property).
   */
  function IsWhiteSpace(c: char): (b: bool)
    ensures c == ' ' || '\t' <= c <= '\r' ==> b
    // every White_Space character lies in the Basic Multilingual Plane, so
    // trimming never splits a UTF-16 surrogate pair
    ensures b ==> c < '\U{10000}'
  {
    ('\U{9}' <= c <= '\U{D}') || c == ' ' || c == '\U{85}' || c == '\U{A0}' || c == '\U{1680}'
    || ('\U{2000}' <= c <= '\U{200A}') || c == '\U{2028}' || c == '\U{2029}' || c == '\U{202F}'
    || c == '\U{205F}' || c == '\U{3000}'
  }

  /** How many whitespace characters `s` starts with. */
  function LeadingSpace(s: string): (n: nat)
    ensures n <= |s|
    ensures forall k :: 0 <= k < n ==> IsWhiteSpace(s[k])
    ensures n < |s| ==> !IsWhiteSpace(s[n])
  {
    if s != [] && IsWhiteSpace(s[0]) then 1 + LeadingSpace(s[1..]) else 0
  }

  /** How many whitespace characters `s` ends with. */
  function TrailingSpace(s: string): (n: nat)
    ensures n <= |s|
    ensures forall k :: |s| - n <= k < |s| ==> IsWhiteSpace(s[k])
    ensures n < |s| ==> !IsWhiteSpace(s[|s| - n - 1])
  {
    if s != [] && IsWhiteSpace(s[|s| - 1]) then 1 + TrailingSpace(s[..|s| - 1]) else 0
  }

  /** `String.TrimStart()`: `s` from its first non-whitespace character on. */
  function TrimStart(s: string): (r: string)
    ensures |r| <= |s| && r == s[|s| - |r|..]
  {
    s[LeadingSpace(s)..]
  }

  /** `String.TrimEnd()`: `s` up to its last non-whitespace character. */
  function TrimEnd(s: string): (r: string)
    ensures |r| <= |s| && r == s[..|r|]
  {
    s[..|s| - TrailingSpace(s)]
  }

  /** `String.Trim()`: the input with its leading and trailing whitespace cut off. */
  function Trim(s: string): (r: string)
    ensures |r| <= |s|
  {
    TrimEnd(TrimStart(s))
  }

  /** `s` is `lead + r + trail` where `lead` (of length `a`) and `trail` are all whitespace. */
  ghost predicate Surrounds(s: string, a: int, r: string) {
    0 <= a <= |s| - |r| && r == s[a..a + |r|]
    && (forall k :: 0 <= k < a ==> IsWhiteSpace(s[k]))
    && (forall k :: a + |r| <= k < |s| ==> IsWhiteSpace(s[k]))
  }

  /** Cutting whitespace runs of lengths `a` and `m` off the two ends of `s` leaves a middle slice. */
  lemma CutBothEnds(s: string, a: nat, m: nat)
    requires a <= |s| && m <= |s| - a
    requires forall k :: 0 <= k < a ==> IsWhiteSpace(s[k])
    requires forall k :: |s| - a - m <= k < |s| - a ==> IsWhiteSpace(s[a..][k])
    ensures Surrounds(s, a, s[a..][..|s| - a - m])
  {
    var t := s[a..];
    forall k | |s| - m <= k < |s|
      ensures IsWhiteSpace(s[k])
    {
      assert s[k] == t[k - a];
    }
  }

  /** Trim keeps a middle slice of its input; what it cuts on either side is whitespace. */
  lemma TrimSurrounds(s: string)
    ensures Surrounds(s, LeadingSpace(s), Trim(s))
  {
    var a := LeadingSpace(s);
    var t := s[a..];
    CutBothEnds(s, a, TrailingSpace(t));
  }

  /** Trim's result is empty exactly when its input is all whitespace. */
  lemma TrimEmptyIffAllSpace(s: string)
    ensures Trim(s) == [] <==> forall k :: 0 <= k < |s| ==> IsWhiteSpace(s[k])
  {
    var a := LeadingSpace(s);
    var t := s[a..];
    assert forall k :: a <= k < |s| ==> s[k] == t[k - a];
  }

  /**
   * What Trim cuts: only whitespace, on both sides; the result neither starts
   * nor ends with whitespace, and is empty exactly when the input is all
   * whitespace.
   */
  lemma TrimCutsSurroundingSpace(s: string)
    ensures exists a :: Surrounds(s, a, Trim(s))
    ensures var r := Trim(s); r != [] ==> !IsWhiteSpace(r[0]) && !IsWhiteSpace(r[|r| - 1])
    ensures Trim(s) == [] <==> forall k :: 0 <= k < |s| ==> IsWhiteSpace(s[k])
  {
    TrimSurrounds(s);
    TrimEmptyIffAllSpace(s);
    var a := LeadingSpace(s);
    var t := s[a..];
    var m := TrailingSpace(t);
    var r := Trim(s);
    if r != [] {
      assert r[0] == s[a];
      assert r[|r| - 1] == t[|t| - m - 1];
    }
  }

  /** Trimming an already trimmed line changes nothing. */
  lemma TrimIdempotent(s: string)
    ensures Trim(Trim(s)) == Trim(s)
  {
    TrimCutsSurroundingSpace(s);
    TrimOfTrimmed(Trim(s));
  }

  /** Specification of Minify: the trimmed lines, concatenated in order. */
  function JoinTrimmed(lines: seq<string>): (r: string)
    ensures |r| <= |Concat(lines)|
  {
    if lines == [] then "" else JoinTrimmed(lines[..|lines| - 1]) + Trim(lines[|lines| - 1])
  }

  /** Minify joins the trimmed lines of `html` in order; no lines give "". */
  method Minify(html: array<string>) returns (htmlMin: string)
    ensures htmlMin == JoinTrimmed(html[..])
    ensures html.Length == 0 ==> htmlMin == ""
  {
    htmlMin := "";
    for i := 0 to html.Length
      invariant htmlMin == JoinTrimmed(html[..i])
    {
      htmlMin := htmlMin + Trim(html[i]);
      assert html[..i + 1][..i] == html[..i];
    }
    assert html[..html.Length] == html[..];
  }

  /** Minifying two blocks of lines is minifying each and concatenating the results. */
  lemma {:induction false} JoinTrimmedAppend(a: seq<string>, b: seq<string>)
    ensures JoinTrimmed(a + b) == JoinTrimmed(a) + JoinTrimmed(b)
    decreases |b|
  {
    if b == [] {
      assert a + b == a;
    } else {
      var b', last := b[..|b| - 1], b[|b| - 1];
      assert (a + b)[..|a + b| - 1] == a + b' && (a + b)[|a + b| - 1] == last;
      var t := Trim(last);
      assert JoinTrimmed(a + b) == JoinTrimmed(a + b') + t;
      assert JoinTrimmed(b) == JoinTrimmed(b') + t;
      JoinTrimmedAppend(a, b');
      AppendAssoc(JoinTrimmed(a), JoinTrimmed(b'), t);
    }
  }

  /** `s` neither starts nor ends with whitespace. */
  predicate HasNoSurroundingSpace(s: string) {
    s == [] || (!IsWhiteSpace(s[0]) && !IsWhiteSpace(s[|s| - 1]))
  }

  /** Trim leaves a line without surrounding whitespace unchanged. */
  lemma TrimOfTrimmed(s: string)
    requires HasNoSurroundingSpace(s)
    ensures Trim(s) == s
  {
    assert LeadingSpace(s) == 0;
    assert TrimStart(s) == s;
    assert TrailingSpace(s) == 0;
  }

  /** Lines that carry no surrounding whitespace are joined unchanged. */
  lemma {:induction false} JoinTrimmedOfTrimmedLines(lines: seq<string>)
    requires forall k :: 0 <= k < |lines| ==> HasNoSurroundingSpace(lines[k])
    ensures JoinTrimmed(lines) == Concat(lines)
    decreases |lines|
  {
    if lines != [] {
      var init := lines[..|lines| - 1];
      TrimOfTrimmed(lines[|lines| - 1]);
      JoinTrimmedOfTrimmedLines(init);
    }
  }
}
