/**
 * Well-nested markup through the whole pipeline: Tokenize, then BuildTree
 * (html-parser/HTML.cs:17-100). For markup whose closing tags repeat their
 * opening tags' names, the tokenizer gives back exactly the lexemes of the
 * markup and the tree builder never takes its recovery path: it succeeds,
 * ends with no current parent and creates the nodes in document order, each
 * under the element that encloses it in the markup.
 */
module HtmlPipeline {
  import opened Wrappers
  import opened Dom
  import opened Text
  import opened HtmlTagName
  import opened HtmlTokenizer
  import opened HtmlTreeBuilder

  /** A fragment of a document: a run of text, or an element with its content. */
  datatype Markup = TextRun(text: string) | Elem(name: string, body: seq<Markup>)

  /** The lexemes of a sequence of fragments in document order: `<n>`, the content, `</n>` for an element. */
  function Lexemes(ms: seq<Markup>): seq<string>
    decreases ms
  {
    if ms == [] then []
    else
      var head := match ms[0]
        case TextRun(t) => [t]
        case Elem(n, body) => ["<" + n + ">"] + Lexemes(body) + ["</" + n + ">"];
      head + Lexemes(ms[1..])
  }

  /**
   * Well-nested markup: element names without `<`, `/` or `>`, text runs
   * non-empty and without `<` or `>`, and never two text runs side by side.
   */
  predicate WellFormed(ms: seq<Markup>)
    decreases ms
  {
    ms == [] ||
    (&& (match ms[0]
         case TextRun(t) => t != [] && AllPlain(t) && (|ms| > 1 ==> ms[1].Elem?)
         case Elem(n, body) => PlainName(n) && WellFormed(body))
     && WellFormed(ms[1..]))
  }

  /** The nodes the markup stands for, in document (pre-)order. */
  function Preorder(ms: seq<Markup>): seq<Label>
    decreases ms
  {
    if ms == [] then []
    else
      var head := match ms[0]
        case TextRun(t) => [Label(Text, None, Some(t))]
        case Elem(n, body) => [Label(Element, Some(n), None)] + Preorder(body);
      head + Preorder(ms[1..])
  }

  /**
   * Reference definition of the tree's shape: the enclosing element of each
   * node of `ms`, in document order, when `ms` sits inside the element
   * created `p`-th (none at the top level) and its first node is created
   * `base`-th.
   */
  function Parents(ms: seq<Markup>, p: Option<nat>, base: nat): seq<Option<nat>>
    decreases ms
  {
    if ms == [] then []
    else
      var head := FragmentParents(ms[0], p, base);
      head + Parents(ms[1..], p, base + |head|)
  }

  /** Parents for one fragment: the fragment's own node under `p`, an element's content under the element. */
  function FragmentParents(m: Markup, p: Option<nat>, base: nat): seq<Option<nat>>
    decreases m
  {
    match m
    case TextRun(_) => [p]
    case Elem(_, body) => [p] + Parents(body, Some(base), base + 1)
  }

  /** A single lexeme creates what `Creates` says. */
  lemma CreatedOne(t: string)
    ensures Created([t]) == Creates(t)
  {
    assert [t][..0] == [];
  }

  /** An element's lexemes create the element, then whatever its content creates. */
  lemma CreatedElement(n: string, inner: seq<string>)
    requires PlainName(n)
    ensures Created(["<" + n + ">"] + inner + ["</" + n + ">"]) == [Label(Element, Some(n), None)] + Created(inner)
  {
    var o, c := "<" + n + ">", "</" + n + ">";
    TagLexemes(n);
    CreatedOne(o);
    CreatedOne(c);
    CreatedAppend([o], inner);
    CreatedAppend([o] + inner, [c]);
  }

  /** The lexemes of well-nested markup create exactly its nodes, in document order. */
  lemma {:induction false} CreatedLexemes(ms: seq<Markup>)
    requires WellFormed(ms)
    ensures Created(Lexemes(ms)) == Preorder(ms)
    decreases ms
  {
    if ms != [] {
      var rest := ms[1..];
      CreatedLexemes(rest);
      var head: seq<string>;
      match ms[0] {
        case TextRun(t) =>
          head := [t];
          CreatedOne(t);
        case Elem(n, body) =>
          CreatedLexemes(body);
          head := ["<" + n + ">"] + Lexemes(body) + ["</" + n + ">"];
          CreatedElement(n, Lexemes(body));
      }
      assert Lexemes(ms) == head + Lexemes(rest);
      CreatedAppend(head, Lexemes(rest));
    }
  }

  /** A text run after a prefix that builds: a new text node; the current parent stays. */
  lemma BuildTextStep(pre: seq<string>, t: string)
    requires Build(pre).Success? && t != [] && t[0] != '<'
    ensures Build(pre + [t]).Success?
    ensures var f, g := Build(pre).value, Build(pre + [t]).value;
      && Extends(f, g) && g.current == f.current
      && |g.nodes| == |f.nodes| + 1 && g.nodes[|f.nodes|].parent == f.current
      && (f.current.None? ==> |g.roots| == |f.roots| + 1)
      && (f.current.Some? ==> g.roots == f.roots)
  {
    var f := Build(pre).value;
    BuildSnoc(pre, t);
    AttachLinks(f, t, false);
    StepExtends(f, |pre|, t, Previous(pre + [t], |pre|));
  }

  /** `<n>` after a prefix that builds: a new element named `n` under the current parent becomes the current parent. */
  lemma BuildOpenStep(pre: seq<string>, n: string)
    requires Build(pre).Success? && PlainName(n)
    ensures Build(pre + ["<" + n + ">"]).Success?
    ensures var f, g := Build(pre).value, Build(pre + ["<" + n + ">"]).value;
      && Extends(f, g) && |g.nodes| == |f.nodes| + 1 && g.current == Some(|f.nodes|)
      && g.nodes[|f.nodes|].tagName == Some(n) && g.nodes[|f.nodes|].parent == f.current
      && (f.current.None? ==> |g.roots| == |f.roots| + 1)
      && (f.current.Some? ==> g.roots == f.roots)
  {
    var f, o := Build(pre).value, "<" + n + ">";
    TagLexemes(n);
    BuildSnoc(pre, o);
    AttachLinks(f, o, true);
    StepExtends(f, |pre|, o, Previous(pre + [o], |pre|));
  }

  /** `</n>` while the current parent is an element named `n`: back to that element's parent. */
  lemma BuildCloseStep(pre: seq<string>, n: string)
    requires Build(pre).Success? && PlainName(n)
    requires var f := Build(pre).value; f.current.Some? && f.nodes[f.current.value].tagName == Some(n)
    ensures Build(pre + ["</" + n + ">"]).Success?
    ensures var f, g := Build(pre).value, Build(pre + ["</" + n + ">"]).value;
      g == f.(current := f.nodes[f.current.value].parent)
  {
    var f, c := Build(pre).value, "</" + n + ">";
    TagLexemes(n);
    BuildSnoc(pre, c);
    CloseMoves(f, |pre|, c, Previous(pre + [c], |pre|));
  }

  /** How the lexemes after a prefix split at the first fragment. */
  lemma LexemesSplit(pre: seq<string>, ms: seq<Markup>)
    requires ms != []
    ensures ms[0].TextRun? ==> pre + Lexemes(ms) == pre + [ms[0].text] + Lexemes(ms[1..])
    ensures ms[0].Elem? ==>
      pre + Lexemes(ms) == pre + ["<" + ms[0].name + ">"] + Lexemes(ms[0].body) + ["</" + ms[0].name + ">"] + Lexemes(ms[1..])
  {
  }

  /**
   * Reading well-nested markup after any prefix that builds succeeds, keeps
   * every node made so far, and leaves the current parent where it was; at the
   * top level each fragment adds one root, inside an element none.
   */
  lemma {:induction false} BuildWellNested(pre: seq<string>, ms: seq<Markup>)
    requires Build(pre).Success? && WellFormed(ms)
    ensures Build(pre + Lexemes(ms)).Success?
    ensures var f, g := Build(pre).value, Build(pre + Lexemes(ms)).value;
      && Extends(f, g) && g.current == f.current
      && (f.current.None? ==> |g.roots| == |f.roots| + |ms|)
      && (f.current.Some? ==> g.roots == f.roots)
    decreases ms
  {
    var f := Build(pre).value;
    if ms == [] {
      assert pre + Lexemes(ms) == pre;
    } else {
      var rest := ms[1..];
      var mid: seq<string>;
      match ms[0] {
        case TextRun(t) =>
          mid := pre + [t];
          BuildTextStep(pre, t);
        case Elem(n, body) =>
          var o, c := "<" + n + ">", "</" + n + ">";
          BuildOpenStep(pre, n);
          var f1 := Build(pre + [o]).value;
          BuildWellNested(pre + [o], body);
          var inner := pre + [o] + Lexemes(body);
          var f2 := Build(inner).value;
          ExtendsTrans(f, f1, f2);
          BuildCloseStep(inner, n);
          mid := inner + [c];
          ExtendsTrans(f, f2, Build(mid).value);
      }
      var fm := Build(mid).value;
      BuildWellNested(mid, rest);
      ExtendsTrans(f, fm, Build(mid + Lexemes(rest)).value);
      LexemesSplit(pre, ms);
    }
  }

  /** The nodes of `g` from the `b`-th on are exactly `|ps|` many, with parents `ps`. */
  ghost predicate ParentsFrom(g: Forest, b: nat, ps: seq<Option<nat>>) {
    |g.nodes| == b + |ps| && forall k :: 0 <= k < |ps| ==> g.nodes[b + k].parent == ps[k]
  }

  /**
   * Parent links laid down in two runs: `head` for the nodes from `b` on in
   * `fm`, then `tail` for those added after them in `g`, which extends `fm`.
   */
  lemma ParentsCombine(fm: Forest, g: Forest, b: nat, head: seq<Option<nat>>, tail: seq<Option<nat>>)
    requires ParentsFrom(fm, b, head) && Extends(fm, g) && ParentsFrom(g, |fm.nodes|, tail)
    ensures ParentsFrom(g, b, head + tail)
  {
    forall k | 0 <= k < |head + tail|
      ensures g.nodes[b + k].parent == (head + tail)[k]
    {
      if k < |head| {
        assert g.nodes[b + k].parent == fm.nodes[b + k].parent;
      } else {
        assert b + k == |fm.nodes| + (k - |head|);
      }
    }
  }

  /**
   * The shape of the tree that well-nested markup builds after any prefix that
   * builds: each new node's parent is the element that encloses it in the
   * markup, or the prefix's current parent for the outermost fragments.
   */
  lemma {:induction false} BuildWellNestedParents(pre: seq<string>, ms: seq<Markup>)
    requires Build(pre).Success? && WellFormed(ms)
    ensures Build(pre + Lexemes(ms)).Success?
    ensures var f := Build(pre).value;
      ParentsFrom(Build(pre + Lexemes(ms)).value, |f.nodes|, Parents(ms, f.current, |f.nodes|))
    decreases ms, 2
  {
    var f := Build(pre).value;
    if ms == [] {
      assert pre + Lexemes(ms) == pre;
    } else {
      var mid, head := FirstFragmentParents(pre, ms);
      var rest, b := ms[1..], |f.nodes|;
      var fm := Build(mid).value;
      var tail := Parents(rest, fm.current, |fm.nodes|);
      assert Parents(ms, f.current, b) == head + tail;
      assert Build(mid + Lexemes(rest)).Success? && Extends(fm, Build(mid + Lexemes(rest)).value) by {
        BuildWellNested(mid, rest);
      }
      var g := Build(mid + Lexemes(rest)).value;
      assert ParentsFrom(g, |fm.nodes|, tail) by {
        BuildWellNestedParents(mid, rest);
      }
      ParentsConclude(pre + Lexemes(ms), mid + Lexemes(rest), fm, b, head, tail, Parents(ms, f.current, b));
    }
  }

  /**
   * The first fragment of `ms` after a prefix that builds: its lexemes take
   * the builder from `pre` to `mid`, lay down the parent links `head`, and
   * leave the current parent where it was.
   */
  lemma {:induction false} FirstFragmentParents(pre: seq<string>, ms: seq<Markup>) returns (mid: seq<string>, head: seq<Option<nat>>)
    requires Build(pre).Success? && WellFormed(ms) && ms != []
    ensures pre + Lexemes(ms) == mid + Lexemes(ms[1..]) && WellFormed(ms[1..])
    ensures Build(mid).Success? && Build(mid).value.current == Build(pre).value.current
    ensures ParentsFrom(Build(mid).value, |Build(pre).value.nodes|, head)
    ensures head == FragmentParents(ms[0], Build(pre).value.current, |Build(pre).value.nodes|)
    decreases ms, 1
  {
    var f, b := Build(pre).value, |Build(pre).value.nodes|;
    match ms[0] {
      case TextRun(t) =>
        mid := pre + [t];
        head := [f.current];
        assert Build(mid).Success? && Build(mid).value.current == f.current && ParentsFrom(Build(mid).value, b, head) by {
          BuildTextStep(pre, t);
        }
      case Elem(n, body) =>
        mid := pre + ["<" + n + ">"] + Lexemes(body) + ["</" + n + ">"];
        head := [f.current] + Parents(body, Some(b), b + 1);
        assert Build(mid).Success? && Build(mid).value.current == f.current && ParentsFrom(Build(mid).value, b, head) by {
          ElementParents(pre, n, body);
        }
    }
    assert pre + Lexemes(ms) == mid + Lexemes(ms[1..]) by {
      LexemesSplit(pre, ms);
    }
  }

  /** ParentsCombine, for the forest built from `whole`, which is `split` written another way. */
  lemma ParentsConclude(whole: seq<string>, split: seq<string>, fm: Forest, b: nat,
                        head: seq<Option<nat>>, tail: seq<Option<nat>>, ps: seq<Option<nat>>)
    requires whole == split && Build(split).Success? && ps == head + tail
    requires ParentsFrom(fm, b, head) && Extends(fm, Build(split).value)
    requires ParentsFrom(Build(split).value, |fm.nodes|, tail)
    ensures Build(whole).Success? && ParentsFrom(Build(whole).value, b, ps)
  {
    ParentsCombine(fm, Build(split).value, b, head, tail);
  }

  /**
   * One element after any prefix that builds: the element's node hangs under
   * the prefix's current parent, its content under the element, and the
   * current parent is back where it was.
   */
  lemma {:induction false} ElementParents(pre: seq<string>, n: string, body: seq<Markup>)
    requires Build(pre).Success? && PlainName(n) && WellFormed(body)
    ensures var mid := pre + ["<" + n + ">"] + Lexemes(body) + ["</" + n + ">"];
      && Build(mid).Success?
      && Build(mid).value.current == Build(pre).value.current
      && ParentsFrom(Build(mid).value, |Build(pre).value.nodes|,
                     [Build(pre).value.current] + Parents(body, Some(|Build(pre).value.nodes|), |Build(pre).value.nodes| + 1))
    decreases body, 3
  {
    var f, b := Build(pre).value, |Build(pre).value.nodes|;
    var o, c := "<" + n + ">", "</" + n + ">";
    assert Build(pre + [o]).Success? && Build(pre + [o]).value.current == Some(b)
      && Build(pre + [o]).value.nodes[b].tagName == Some(n) && ParentsFrom(Build(pre + [o]).value, b, [f.current]) by {
      BuildOpenStep(pre, n);
    }
    var f1 := Build(pre + [o]).value;
    var inner := pre + [o] + Lexemes(body);
    var ps := Parents(body, Some(b), b + 1);
    assert Build(inner).Success? && Build(inner).value.current == Some(b) && Extends(f1, Build(inner).value) by {
      BuildWellNested(pre + [o], body);
    }
    assert ParentsFrom(Build(inner).value, |f1.nodes|, ps) by {
      BuildWellNestedParents(pre + [o], body);
    }
    var f2 := Build(inner).value;
    assert f2.nodes[b].tagName == Some(n) && f2.nodes[b].parent == f.current by {
      assert LabelOf(f2.nodes[b]) == LabelOf(f1.nodes[b]);
    }
    assert Build(inner + [c]) == Success(f2.(current := f.current)) by {
      BuildCloseStep(inner, n);
    }
    assert ParentsFrom(f2.(current := f.current), b, [f.current] + ps) by {
      ParentsCombine(f1, f2, b, [f.current], ps);
    }
  }

  /** An element's lexemes, `<n>`, the content, `</n>`, start and end with a tag. */
  lemma ElementLexemes(n: string, inner: seq<string>)
    requires PlainName(n) && IsLexemeSequence(inner)
    ensures var ls := ["<" + n + ">"] + inner + ["</" + n + ">"];
      IsLexemeSequence(ls) && IsTagLexeme(ls[0]) && IsTagLexeme(ls[|ls| - 1])
  {
    var o, c := "<" + n + ">", "</" + n + ">";
    assert IsTagLexeme(o) by {
      assert o[1..|o| - 1] == n;
    }
    assert IsTagLexeme(c) by {
      assert c[1..|c| - 1] == "/" + n;
    }
    LexemeSequenceAppend([o], inner);
    LexemeSequenceAppend([o] + inner, [c]);
  }

  /** The lexemes of well-nested markup alternate tags and text as the tokenizer reads them. */
  lemma {:induction false} LexemesAreLexemes(ms: seq<Markup>)
    requires WellFormed(ms)
    ensures IsLexemeSequence(Lexemes(ms))
    ensures ms != [] && ms[0].Elem? ==> Lexemes(ms) != [] && IsTagLexeme(Lexemes(ms)[0])
    ensures ms != [] && ms[|ms| - 1].Elem? ==> Lexemes(ms) != [] && IsTagLexeme(Lexemes(ms)[|Lexemes(ms)| - 1])
    decreases ms
  {
    if ms != [] {
      var rest := ms[1..];
      LexemesAreLexemes(rest);
      var head: seq<string>;
      match ms[0] {
        case TextRun(t) =>
          head := [t];
        case Elem(n, body) =>
          LexemesAreLexemes(body);
          ElementLexemes(n, Lexemes(body));
          head := ["<" + n + ">"] + Lexemes(body) + ["</" + n + ">"];
      }
      assert Lexemes(ms) == head + Lexemes(rest);
      LexemeSequenceAppend(head, Lexemes(rest));
      if rest != [] && ms[|ms| - 1].Elem? {
        assert ms[|ms| - 1] == rest[|rest| - 1];
      }
    }
  }

  /** Two lexeme sequences joined, where at least one side of the seam is a tag. */
  lemma LexemeSequenceAppend(a: seq<string>, b: seq<string>)
    requires IsLexemeSequence(a) && IsLexemeSequence(b)
    requires a != [] && b != [] ==> IsTagLexeme(a[|a| - 1]) || IsTagLexeme(b[0])
    ensures IsLexemeSequence(a + b)
  {
    var ab := a + b;
    forall k | 0 < k < |ab|
      ensures IsTagLexeme(ab[k - 1]) || IsTagLexeme(ab[k])
    {
      if k < |a| {
        assert ab[k - 1] == a[k - 1] && ab[k] == a[k];
      } else if k == |a| {
        assert ab[k - 1] == a[k - 1] && ab[k] == b[0];
      } else {
        assert ab[k - 1] == b[k - 1 - |a|] && ab[k] == b[k - |a|];
      }
    }
  }

  /**
   * Well-nested markup that ends with an element, written out and parsed:
   * the tokenizer gives back its lexemes, and the tree builder succeeds, ends
   * with no current parent, makes one root per top-level fragment and creates
   * the nodes of the markup in document order, each one the child of the
   * element that encloses it in the markup.
   */
  lemma ParseWellNested(ms: seq<Markup>)
    requires WellFormed(ms) && (ms == [] || ms[|ms| - 1].Elem?)
    ensures Tokens(Concat(Lexemes(ms))) == Lexemes(ms)
    ensures Build(Lexemes(ms)).Success?
    ensures var f := Build(Lexemes(ms)).value;
      && f.current == None && |f.roots| == |ms|
      && |f.nodes| == |Preorder(ms)|
      && (forall k :: 0 <= k < |f.nodes| ==> LabelOf(f.nodes[k]) == Preorder(ms)[k])
      && |Parents(ms, None, 0)| == |f.nodes|
      && (forall k :: 0 <= k < |f.nodes| ==> f.nodes[k].parent == Parents(ms, None, 0)[k])
  {
    var ls := Lexemes(ms);
    assert Tokens(Concat(ls)) == ls by {
      LexemesAreLexemes(ms);
      TokenizeConcat(ls);
    }
    WellNestedNodes(ms);
    WellNestedShape(ms);
  }

  /** The nodes that well-nested markup builds from scratch: those of the markup, in document order. */
  lemma WellNestedNodes(ms: seq<Markup>)
    requires WellFormed(ms)
    ensures Build(Lexemes(ms)).Success?
    ensures var f := Build(Lexemes(ms)).value;
      && |f.nodes| == |Preorder(ms)|
      && (forall k :: 0 <= k < |f.nodes| ==> LabelOf(f.nodes[k]) == Preorder(ms)[k])
  {
    var ls := Lexemes(ms);
    assert Build(ls).Success? by {
      assert Build([]) == Success(Forest([], [], None));
      BuildWellNested([], ms);
      assert [] + ls == ls;
    }
    CreatedLexemes(ms);
    BuildCreatesOnePerLexeme(ls);
  }

  /** The tree that well-nested markup builds from scratch: one root per fragment, each node under its enclosing element. */
  lemma WellNestedShape(ms: seq<Markup>)
    requires WellFormed(ms)
    ensures Build(Lexemes(ms)).Success?
    ensures var f := Build(Lexemes(ms)).value;
      && f.current == None && |f.roots| == |ms|
      && |Parents(ms, None, 0)| == |f.nodes|
      && (forall k :: 0 <= k < |f.nodes| ==> f.nodes[k].parent == Parents(ms, None, 0)[k])
  {
    var ls := Lexemes(ms);
    assert [] + ls == ls;
    assert Build([]) == Success(Forest([], [], None));
    assert Build(ls).Success? && Build(ls).value.current == None && |Build(ls).value.roots| == |ms| by {
      BuildWellNested([], ms);
    }
    assert ParentsFrom(Build(ls).value, 0, Parents(ms, None, 0)) by {
      BuildWellNestedParents([], ms);
    }
  }
}
