/** Tag-name extraction (GetTagName, html-parser/HTML.cs:102-104). */
module HtmlTagName {

  /** The three characters GetTagName deletes. */
  predicate IsTagDelimiter(c: char) {
    c == '<' || c == '/' || c == '>'
  }

  /** `s.Replace(ch.ToString(), "")`: every occurrence of `ch` deleted, the rest kept in order. */
  function RemoveAll(s: string, ch: char): (r: string)
    ensures |r| <= |s|
    ensures forall k :: 0 <= k < |r| ==> r[k] != ch
  {
    if s == [] then [] else (if s[0] == ch then [] else [s[0]]) + RemoveAll(s[1..], ch)
  }

  /** GetTagName: the lexeme with every `<`, then every `/`, then every `>` removed. */
  function GetTagName(source: string): (name: string)
    ensures |name| <= |source|
  {
    RemoveAll(RemoveAll(RemoveAll(source, '<'), '/'), '>')
  }

  /** Reference definition: one left-to-right pass keeping every non-delimiter character. */
  function KeepNonDelimiters(s: string): string {
    if s == [] then [] else (if IsTagDelimiter(s[0]) then [] else [s[0]]) + KeepNonDelimiters(s[1..])
  }

  lemma {:induction false} RemoveAllAppend(a: string, b: string, ch: char)
    ensures RemoveAll(a + b, ch) == RemoveAll(a, ch) + RemoveAll(b, ch)
  {
    if a != [] {
      assert (a + b)[0] == a[0] && (a + b)[1..] == a[1..] + b;
      RemoveAllAppend(a[1..], b, ch);
    } else {
      assert a + b == b;
    }
  }

  /**
   * What one Replace keeps: a single character other than `ch`, and a string
   * without `ch` unchanged. With RemoveAllAppend (the deletion works piecewise
   * over a concatenation) this fixes the result: every character other than
   * `ch`, in the order of the input.
   */
  lemma {:induction false} RemoveAllKeepsOthers(s: string, ch: char)
    ensures |s| == 1 ==> RemoveAll(s, ch) == (if s[0] == ch then [] else s)
    ensures (forall k :: 0 <= k < |s| ==> s[k] != ch) ==> RemoveAll(s, ch) == s
  {
    if s != [] {
      RemoveAllKeepsOthers(s[1..], ch);
      if forall k :: 0 <= k < |s| ==> s[k] != ch {
        assert forall k :: 0 <= k < |s[1..]| ==> s[1..][k] == s[k + 1];
        assert s == [s[0]] + s[1..];
      }
    }
  }

  lemma {:induction false} KeepNonDelimitersAppend(a: string, b: string)
    ensures KeepNonDelimiters(a + b) == KeepNonDelimiters(a) + KeepNonDelimiters(b)
  {
    if a != [] {
      assert (a + b)[0] == a[0] && (a + b)[1..] == a[1..] + b;
      KeepNonDelimitersAppend(a[1..], b);
    } else {
      assert a + b == b;
    }
  }

  /** The chain of three Replace calls deletes exactly the delimiters and keeps the order of the rest. */
  lemma {:induction false} GetTagNameKeepsOrder(s: string)
    ensures GetTagName(s) == KeepNonDelimiters(s)
  {
    if s != [] {
      var head := if s[0] == '<' then [] else [s[0]];
      RemoveAllAppend(head, RemoveAll(s[1..], '<'), '/');
      var head2 := RemoveAll(head, '/');
      RemoveAllAppend(head2, RemoveAll(RemoveAll(s[1..], '<'), '/'), '>');
      GetTagNameKeepsOrder(s[1..]);
    }
  }

  /** The filter keeps no delimiter. */
  lemma {:induction false} KeepNonDelimitersDropsAll(s: string)
    ensures forall k :: 0 <= k < |KeepNonDelimiters(s)| ==> !IsTagDelimiter(KeepNonDelimiters(s)[k])
  {
    if s != [] {
      KeepNonDelimitersDropsAll(s[1..]);
    }
  }

  /** A tag name holds no `<`, `/` or `>`. */
  lemma GetTagNameHasNoDelimiters(s: string)
    ensures forall k :: 0 <= k < |GetTagName(s)| ==> !IsTagDelimiter(GetTagName(s)[k])
  {
    GetTagNameKeepsOrder(s);
    KeepNonDelimitersDropsAll(s);
  }

  /** A string without delimiters passes through the filter unchanged. */
  lemma {:induction false} KeepNonDelimitersIdentity(s: string)
    requires forall k :: 0 <= k < |s| ==> !IsTagDelimiter(s[k])
    ensures KeepNonDelimiters(s) == s
  {
    if s != [] {
      KeepNonDelimitersIdentity(s[1..]);
    }
  }

  /** Applying GetTagName twice gives the same name as applying it once. */
  lemma GetTagNameIdempotent(s: string)
    ensures GetTagName(GetTagName(s)) == GetTagName(s)
  {
    var n := GetTagName(s);
    GetTagNameHasNoDelimiters(s);
    GetTagNameKeepsOrder(n);
    KeepNonDelimitersIdentity(n);
  }

  /**
   * An opening lexeme and the matching closing lexeme give the same name, and
   * when the name holds no delimiter both give back exactly that name.
   */
  lemma OpeningAndClosingShareName(n: string)
    ensures GetTagName("<" + n + ">") == GetTagName("</" + n + ">") == KeepNonDelimiters(n)
    ensures (forall k :: 0 <= k < |n| ==> !IsTagDelimiter(n[k])) ==> GetTagName("<" + n + ">") == n
  {
    GetTagNameKeepsOrder("<" + n + ">");
    GetTagNameKeepsOrder("</" + n + ">");
    KeepNonDelimitersAppend("<" + n, ">");
    KeepNonDelimitersAppend("<", n);
    KeepNonDelimitersAppend("</" + n, ">");
    KeepNonDelimitersAppend("</", n);
    assert KeepNonDelimiters("</") == [] by {
      assert "</"[1..] == "/";
    }
    if forall k :: 0 <= k < |n| ==> !IsTagDelimiter(n[k]) {
      KeepNonDelimitersIdentity(n);
    }
  }
}
