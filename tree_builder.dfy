/** The tree builder (BuildTree, html-parser/HTML.cs:50-100). */
module HtmlTreeBuilder {
  import opened Wrappers
  import opened Dom
  import opened HtmlTagName
  import opened Text

  /** What the builder makes of a lexeme (HTML.cs:59-68). */
  datatype TokenClass = Opening | Closing | TextToken

  /** The places where the source reads past the end of a lexeme, which throws in .NET. */
  datatype BuildError =
    | TokenTooShort(index: nat)          // token[0] or token[1] of lexeme `index` (HTML.cs:62-63)
    | PreviousTokenTooShort(index: nat)  // tokens[index - 1][1] (HTML.cs:91)

  /**
   * The class of a lexeme: text unless it starts with '<'; a tag is closing
   * when its second character is '/'. None where the source's indexing fails:
   * for "" and for a lone "<".
   */
  function Classify(token: string): (c: Option<TokenClass>)
    ensures c == None <==> token == [] || token == "<"
    ensures c == Some(TextToken) <==> token != [] && token[0] != '<'
    ensures c == Some(Closing) <==> |token| >= 2 && token[0] == '<' && token[1] == '/'
    ensures c == Some(Opening) <==> |token| >= 2 && token[0] == '<' && token[1] != '/'
  {
    if |token| == 0 then None
    else if token[0] != '<' then Some(TextToken)
    else if |token| == 1 then None
    else if token[1] == '/' then Some(Closing)
    else Some(Opening)
  }

  /**
   * A node of the tree as a value: the DOMElement fields BuildTree writes,
   * with the parent and the children given by their index in creation order.
   */
  datatype Node = Node(nodeType: NodeType, tagName: Option<string>, nodeValue: Option<string>,
                       parent: Option<nat>, children: seq<nat>)

  /** The builder's state: every node created so far, the root list, and the current parent. */
  datatype Forest = Forest(nodes: seq<Node>, roots: seq<nat>, current: Option<nat>)

  predicate Increasing(s: seq<nat>) {
    forall a, b :: 0 <= a < b < |s| ==> s[a] < s[b]
  }

  /**
   * Node `k` is consistent: an element has a name and no value, a text node a
   * value, no name and no children; its children were created after it, in
   * order, and each names it as parent; it sits in its parent's children (or in
   * the root list), and its parent is an element created before it.
   */
  ghost predicate NodeOk(f: Forest, k: nat)
    requires k < |f.nodes|
  {
    var n := f.nodes[k];
    && (n.nodeType == Element <==> n.tagName.Some?)
    && (n.nodeType == Text <==> n.nodeValue.Some?)
    && (n.nodeType == Text ==> n.children == [])
    && Increasing(n.children)
    && (forall j :: 0 <= j < |n.children| ==> k < n.children[j] < |f.nodes| && f.nodes[n.children[j]].parent == Some(k))
    && match n.parent
       case None => k in f.roots
       case Some(p) => p < k && f.nodes[p].nodeType == Element && k in f.nodes[p].children
  }

  /** The invariant BuildTree keeps: every node consistent, the roots in creation order, the current parent an element. */
  ghost predicate WF(f: Forest) {
    && (forall k :: 0 <= k < |f.nodes| ==> NodeOk(f, k))
    && Increasing(f.roots)
    && (forall j :: 0 <= j < |f.roots| ==> f.roots[j] < |f.nodes| && f.nodes[f.roots[j]].parent == None)
    && (f.current.Some? ==> f.current.value < |f.nodes| && f.nodes[f.current.value].nodeType == Element)
  }

  /**
   * An opening or text lexeme (HTML.cs:70-85): a new node, appended to the
   * current parent's children or, with no current parent, to the roots; an
   * opening lexeme's node becomes the current parent.
   */
  function Attach(f: Forest, token: string, opening: bool): (g: Forest)
    requires WF(f)
    ensures |g.nodes| == |f.nodes| + 1 && g.current == (if opening then Some(|f.nodes|) else f.current)
  {
    var n := |f.nodes|;
    var node := if opening then Node(Element, Some(GetTagName(token)), None, f.current, [])
                else Node(Text, None, Some(token), f.current, []);
    var nodes := match f.current
                 case None => f.nodes
                 case Some(c) => f.nodes[c := f.nodes[c].(children := f.nodes[c].children + [n])];
    Forest(nodes + [node], if f.current.None? then f.roots + [n] else f.roots,
           if opening then Some(n) else f.current)
  }

  /** What an opening or text lexeme does to the forest: one new node, linked under the current parent or as a root. */
  lemma AttachLinks(f: Forest, token: string, opening: bool)
    requires WF(f)
    ensures var g, n := Attach(f, token, opening), |f.nodes|;
      // exactly one new node, the last in creation order, with no children
      && |g.nodes| == n + 1 && g.nodes[n].children == []
      // its ParentNode is the current parent (none at the top level)
      && g.nodes[n].parent == f.current
      && (opening ==> g.nodes[n].nodeType == Element && g.nodes[n].tagName == Some(GetTagName(token)))
      && (!opening ==> g.nodes[n].nodeType == Text && g.nodes[n].nodeValue == Some(token))
      // it joins the root list, or the end of the current parent's children
      && (f.current.None? ==> g.roots == f.roots + [n])
      && (f.current.Some? ==> g.roots == f.roots && g.nodes[f.current.value].children == f.nodes[f.current.value].children + [n])
      // an element becomes the current parent; a text node leaves it alone
      && g.current == (if opening then Some(n) else f.current)
      // no earlier node changes, except that the current parent gains the new child
      && (forall k :: 0 <= k < n ==> g.nodes[k].(children := f.nodes[k].children) == f.nodes[k])
      && (forall k :: 0 <= k < n && Some(k) != f.current ==> g.nodes[k] == f.nodes[k])
  {
  }

  lemma AttachKeepsWF(f: Forest, token: string, opening: bool)
    requires WF(f)
    ensures WF(Attach(f, token, opening))
  {
    var g := Attach(f, token, opening);
    var n := |f.nodes|;
    forall k | 0 <= k < |g.nodes|
      ensures NodeOk(g, k)
    {
      if k < n {
        assert NodeOk(f, k);
        assert g.nodes[k].parent == f.nodes[k].parent;
        assert f.current.Some? && k == f.current.value ==> g.nodes[k].children == f.nodes[k].children + [n];
        assert (f.current.None? || k != f.current.value) ==> g.nodes[k].children == f.nodes[k].children;
      }
    }
  }

  /** Moving the current parent to another element (or to none) keeps the invariant. */
  lemma MoveCurrentKeepsWF(f: Forest, c: Option<nat>)
    requires WF(f)
    requires c.Some? ==> c.value < |f.nodes| && f.nodes[c.value].nodeType == Element
    ensures WF(f.(current := c))
  {
    var g := f.(current := c);
    forall k | 0 <= k < |g.nodes|
      ensures NodeOk(g, k)
    {
      assert NodeOk(f, k);
    }
  }

  /** The parent of node `c` (`ParentNode`), or none when `c` is none or a root. */
  function Up(f: Forest, c: Option<nat>): (p: Option<nat>)
    requires WF(f)
    requires c.Some? ==> c.value < |f.nodes|
    ensures p.Some? ==> c.Some? && p.value < c.value && f.nodes[p.value].nodeType == Element
  {
    match c
    case None => None
    case Some(k) => assert NodeOk(f, k); f.nodes[k].parent
  }

  /**
   * The length of `s` in UTF-16 code units, as .NET's `String.Length` counts
   * it: a character outside the Basic Multilingual Plane takes two.
   */
  function Utf16Length(s: string): nat
    decreases |s|
  {
    if s == [] then 0 else (if s[0] >= '\U{10000}' then 2 else 1) + Utf16Length(s[1..])
  }

  /**
   * Whether `s[1] == '/'` in .NET, where `s[1]` is the second UTF-16 code
   * unit: None where that index is out of range (it throws). When the first
   * character lies outside the Basic Multilingual Plane, the second code unit
   * is its low surrogate, which is never '/'.
   */
  function SecondUnitIsSlash(s: string): (r: Option<bool>)
    ensures r.None? <==> Utf16Length(s) < 2
    ensures r == Some(true) <==> |s| >= 2 && s[0] < '\U{10000}' && s[1] == '/'
  {
    if s == [] then None
    else if s[0] >= '\U{10000}' then Some(false)
    else if |s| == 1 then None
    else Some(s[1] == '/')
  }

  /**
   * A closing lexeme (HTML.cs:86-95). With no current parent nothing happens.
   * If the current parent's name is the closer's name, ascend one level.
   * Otherwise, when the current parent has a parent, the previous lexeme is
   * not a closer and the current parent has children, ascend two levels; in
   * every other case nothing happens. Reading the previous lexeme's second
   * UTF-16 code unit fails when it has fewer than two.
   */
  function Close(f: Forest, i: nat, token: string, previous: Option<string>): (r: Result<Forest, BuildError>)
    requires WF(f)
    ensures r.Success? ==> WF(r.value) && r.value.nodes == f.nodes && r.value.roots == f.roots
  {
    match f.current
    case None => Success(f)
    case Some(c) =>
      var open := f.nodes[c];
      assert NodeOk(f, c);
      if open.tagName == Some(GetTagName(token)) then
        MoveCurrentKeepsWF(f, open.parent);
        Success(f.(current := open.parent))
      else if open.parent.None? then Success(f)
      else if previous.None? || SecondUnitIsSlash(previous.value).None? then Failure(PreviousTokenTooShort(i))
      else if !SecondUnitIsSlash(previous.value).value && |open.children| != 0 then
        assert NodeOk(f, open.parent.value);
        MoveCurrentKeepsWF(f, f.nodes[open.parent.value].parent);
        Success(f.(current := f.nodes[open.parent.value].parent))
      else Success(f)
  }

  /**
   * What a closing lexeme does (HTML.cs:86-95): it never descends, and it
   * climbs exactly as the source's three nested conditions say.
   */
  lemma CloseMoves(f: Forest, i: nat, token: string, previous: Option<string>)
    requires WF(f)
    ensures var r, c, name := Close(f, i, token, previous), f.current, Some(GetTagName(token));
      // never descends: it stays, or climbs one or two levels
      && (r.Success? ==> r.value.current in {c, Up(f, c), Up(f, Up(f, c))})
      // with no current parent the closer is ignored
      && (c.None? ==> r == Success(f))
      // a closer that names the current parent closes it: exactly one level up
      && (c.Some? && f.nodes[c.value].tagName == name ==> r == Success(f.(current := Up(f, c))))
      // a mismatch at the top level changes nothing
      && (c.Some? && f.nodes[c.value].tagName != name && Up(f, c).None? ==> r == Success(f))
      // a mismatch under a parent climbs two levels when the current parent has
      // children and the previous lexeme is no closer, and otherwise changes nothing
      && (c.Some? && f.nodes[c.value].tagName != name && Up(f, c).Some? && previous.Some? && Utf16Length(previous.value) >= 2 ==>
            r == Success(if SecondUnitIsSlash(previous.value) == Some(false) && |f.nodes[c.value].children| != 0
                         then f.(current := Up(f, Up(f, c))) else f))
      // the only failure: that mismatch, after a missing lexeme or one of fewer than two UTF-16 code units
      && (r.Failure? <==> c.Some? && f.nodes[c.value].tagName != name && Up(f, c).Some? &&
                          (previous.None? || Utf16Length(previous.value) < 2))
      && (r.Failure? ==> r.error == PreviousTokenTooShort(i))
  {
  }

  /** One iteration of the loop of BuildTree, on lexeme `token` at position `i`. */
  function Step(f: Forest, i: nat, token: string, previous: Option<string>): (r: Result<Forest, BuildError>)
    requires WF(f)
    ensures r.Success? ==> WF(r.value)
  {
    match Classify(token)
    case None => Failure(TokenTooShort(i))
    case Some(Closing) => Close(f, i, token, previous)
    case Some(c) =>
      AttachKeepsWF(f, token, c == Opening);
      Success(Attach(f, token, c == Opening))
  }

  /** The lexeme before position `i`, if there is one. */
  function Previous(tokens: seq<string>, i: nat): Option<string>
    requires i <= |tokens|
  {
    if i == 0 then None else Some(tokens[i - 1])
  }

  /** Specification of BuildTree: the state after the loop has run over all of `tokens`, or where it throws. */
  function Build(tokens: seq<string>): (r: Result<Forest, BuildError>)
    ensures r.Success? ==> WF(r.value)
    decreases |tokens|
  {
    if tokens == [] then Success(Forest([], [], None))
    else
      var i := |tokens| - 1;
      match Build(tokens[..i])
      case Failure(e) => Failure(e)
      case Success(f) => Step(f, i, tokens[i], Previous(tokens, i))
  }

  /** Build on one more lexeme is one more Step. */
  lemma BuildStep(tokens: seq<string>, i: nat)
    requires i < |tokens| && Build(tokens[..i]).Success?
    ensures Build(tokens[..i + 1]) == Step(Build(tokens[..i]).value, i, tokens[i], Previous(tokens, i))
  {
    assert tokens[..i + 1][..i] == tokens[..i];
  }

  /** Once the loop has thrown, the later lexemes do not matter. */
  lemma {:induction false} BuildFailurePersists(tokens: seq<string>, n: nat)
    requires n <= |tokens| && Build(tokens[..n]).Failure?
    ensures Build(tokens) == Build(tokens[..n])
    decreases |tokens|
  {
    if n == |tokens| {
      assert tokens[..n] == tokens;
    } else {
      var i := |tokens| - 1;
      assert tokens[..i][..n] == tokens[..n];
      BuildFailurePersists(tokens[..i], n);
    }
  }

  /** The objects at positions `ix` of `hs`. */
  function Objects(hs: seq<DOMElement>, ix: seq<nat>): (os: seq<DOMElement>)
    requires forall j :: 0 <= j < |ix| ==> ix[j] < |hs|
    ensures |os| == |ix| && forall j :: 0 <= j < |ix| ==> os[j] == hs[ix[j]]
  {
    seq(|ix|, j requires 0 <= j < |ix| => hs[ix[j]])
  }

  /** The heap object `hs[k]` carries exactly the fields of node `k` of the forest. */
  ghost predicate MirrorsNode(hs: seq<DOMElement>, f: Forest, k: nat)
    reads hs
    requires WF(f) && |hs| == |f.nodes| && k < |hs|
  {
    var n := f.nodes[k];
    assert NodeOk(f, k);
    && hs[k].nodeType == n.nodeType
    && hs[k].tagName == n.tagName
    && hs[k].nodeValue == n.nodeValue
    && hs[k].parentNode == (if n.parent.None? then null else hs[n.parent.value])
    && hs[k].children == Objects(hs, n.children)
  }

  /** The distinct heap objects `hs` are, node by node, the forest `f`. */
  ghost predicate Mirrors(hs: seq<DOMElement>, f: Forest)
    reads hs
  {
    && WF(f)
    && |hs| == |f.nodes|
    && (forall a, b :: 0 <= a < b < |hs| ==> hs[a] != hs[b])
    && forall k :: 0 <= k < |hs| ==> MirrorsNode(hs, f, k)
  }

  /**
   * The body of BuildTree for an opening or text lexeme (HTML.cs:70-85): link
   * the new node under `parent` or append it to the roots, set its fields, and
   * descend into it when it is an element.
   */
  method Link(element: DOMElement, parent: DOMElement?, elements: seq<DOMElement>,
              token: string, tagName: string, opening: bool, ghost f: Forest, ghost nodes: seq<DOMElement>)
    returns (parent': DOMElement?, elements': seq<DOMElement>, ghost nodes': seq<DOMElement>)
    requires Mirrors(nodes, f) && element !in nodes
    requires element.children == [] && element.parentNode == null
    requires element.tagName == None && element.nodeValue == None && element.nodeType == Element
    requires parent == (if f.current.None? then null else nodes[f.current.value])
    requires elements == Objects(nodes, f.roots)
    requires tagName == GetTagName(token)
    modifies element, parent
    ensures nodes' == nodes + [element]
    ensures Mirrors(nodes', Attach(f, token, opening))
    ensures elements' == Objects(nodes', Attach(f, token, opening).roots)
    ensures parent' == (if Attach(f, token, opening).current.None? then null
                        else nodes'[Attach(f, token, opening).current.value])
  {
    AttachKeepsWF(f, token, opening);
    AttachLinks(f, token, opening);
    ghost var g := Attach(f, token, opening);
    parent' := parent;
    elements' := elements;
    if parent != null {
      element.parentNode := parent;
      parent.children := parent.children + [element];
    } else {
      elements' := elements + [element];
    }
    if opening {
      element.tagName := Some(tagName);
      element.nodeType := Element;
      parent' := element;
    } else {
      element.nodeType := Text;
      element.nodeValue := Some(token);
    }
    nodes' := nodes + [element];
    forall k | 0 <= k < |nodes'|
      ensures MirrorsNode(nodes', g, k)
    {
      assert NodeOk(g, k);
      if k < |nodes| {
        assert old(MirrorsNode(nodes, f, k));
        assert NodeOk(f, k);
        assert nodes'[k] == nodes[k] != element;
        assert g.nodes[k].(children := f.nodes[k].children) == f.nodes[k];
        assert Objects(nodes', f.nodes[k].children) == Objects(nodes, f.nodes[k].children);
        if f.current.Some? && k == f.current.value {
          assert Objects(nodes', g.nodes[k].children) == Objects(nodes, f.nodes[k].children) + [element];
        }
      }
    }
  }

  /** Only the nodes matter to Mirrors: moving the current parent keeps it. */
  lemma MirrorsSameNodes(hs: seq<DOMElement>, f: Forest, g: Forest)
    requires Mirrors(hs, f) && WF(g) && g.nodes == f.nodes
    ensures Mirrors(hs, g)
  {
    forall k | 0 <= k < |hs|
      ensures MirrorsNode(hs, g, k)
    {
      assert MirrorsNode(hs, f, k);
    }
  }

  /**
   * The body of BuildTree for a closing lexeme (HTML.cs:86-95): the new
   * current parent, or the failure of reading the previous lexeme.
   */
  method Ascend(parent: DOMElement?, tokens: seq<string>, i: nat, tagName: string,
                ghost f: Forest, ghost nodes: seq<DOMElement>) returns (r: Result<DOMElement?, BuildError>)
    requires Mirrors(nodes, f) && i < |tokens|
    requires parent == (if f.current.None? then null else nodes[f.current.value])
    requires tagName == GetTagName(tokens[i])
    ensures Close(f, i, tokens[i], Previous(tokens, i)).Failure? ==>
      r == Failure(Close(f, i, tokens[i], Previous(tokens, i)).error)
    ensures Close(f, i, tokens[i], Previous(tokens, i)).Success? ==>
      var g := Close(f, i, tokens[i], Previous(tokens, i)).value;
      r == Success(if g.current.None? then null else nodes[g.current.value])
  {
    r := Success(parent);
    if parent != null {
      ghost var c := f.current.value;
      assert MirrorsNode(nodes, f, c) && NodeOk(f, c);
      if f.nodes[c].parent.Some? {
        assert MirrorsNode(nodes, f, f.nodes[c].parent.value);
      }
      if parent.tagName == Some(tagName) {
        r := Success(parent.parentNode);
      } else {
        if parent.parentNode != null {
          if i == 0 {
            return Failure(PreviousTokenTooShort(i));
          }
          var slash := SecondUnitIsSlash(tokens[i - 1]);
          if slash.None? {
            return Failure(PreviousTokenTooShort(i));
          }
          if !slash.value && |parent.children| != 0 {
            r := Success(parent.parentNode.parentNode);
          }
        }
      }
    }
  }

  /** Lines 59-68 of BuildTree: the class of a lexeme, or the failure of indexing it. */
  method ElementType(token: string, i: nat) returns (r: Result<TokenClass, BuildError>)
    ensures Classify(token).None? ==> r == Failure(TokenTooShort(i))
    ensures Classify(token).Some? ==> r == Success(Classify(token).value)
  {
    if |token| == 0 {
      return Failure(TokenTooShort(i));
    }
    var elementType := TextToken;
    if token[0] == '<' {
      if |token| < 2 {
        return Failure(TokenTooShort(i));
      }
      if token[1] == '/' {
        elementType := Closing;
      } else {
        elementType := Opening;
      }
    }
    r := Success(elementType);
  }

  /**
   * The loop variables of BuildTree stand for the forest `f`: `nodes` mirror
   * its nodes, `elements` are its roots and `parent` is its current parent.
   */
  ghost predicate Represents(f: Forest, nodes: seq<DOMElement>, elements: seq<DOMElement>, parent: DOMElement?)
    reads nodes
  {
    && Mirrors(nodes, f)
    && elements == Objects(nodes, f.roots)
    && parent == (if f.current.None? then null else nodes[f.current.value])
  }

  /** One iteration of the loop of BuildTree (HTML.cs:55-96), proved against Step. */
  method ProcessToken(tokens: seq<string>, i: nat, parent: DOMElement?, elements: seq<DOMElement>,
                      ghost f: Forest, ghost nodes: seq<DOMElement>)
    returns (r: Result<(DOMElement?, seq<DOMElement>), BuildError>, ghost f': Forest, ghost nodes': seq<DOMElement>)
    requires i < |tokens| && Represents(f, nodes, elements, parent)
    modifies parent
    ensures Step(f, i, tokens[i], Previous(tokens, i)) == if r.Failure? then Failure(r.error) else Success(f')
    ensures r.Success? ==>
      && Represents(f', nodes', r.value.1, r.value.0)
      && (nodes' == nodes || (|nodes'| == |nodes| + 1 && nodes' == nodes + [nodes'[|nodes|]] && fresh(nodes'[|nodes|])))
  {
    var token := tokens[i];
    var element := new DOMElement();
    var tagName := GetTagName(token);
    var classified := ElementType(token, i);
    if classified.Failure? {
      return Failure(classified.error), f, nodes;
    }
    var elementType := classified.value;
    if elementType == Opening || elementType == TextToken {
      AttachKeepsWF(f, token, elementType == Opening);
      var parent', elements';
      parent', elements', nodes' := Link(element, parent, elements, token, tagName, elementType == Opening, f, nodes);
      f' := Attach(f, token, elementType == Opening);
      r := Success((parent', elements'));
    } else {
      var moved := Ascend(parent, tokens, i, tagName, f, nodes);
      if moved.Failure? {
        return Failure(moved.error), f, nodes;
      }
      f' := Close(f, i, token, Previous(tokens, i)).value;
      MirrorsSameNodes(nodes, f, f');
      nodes' := nodes;
      r := Success((moved.value, elements));
    }
  }

  /**
   * BuildTree, as written. On success the returned roots, and the nodes
   * reachable from them (`nodes`, in creation order), are fresh objects that
   * carry exactly the forest Build(tokens); where the source throws, the
   * failure Build(tokens) names.
   */
  method BuildTree(tokens: seq<string>) returns (result: Result<seq<DOMElement>, BuildError>, ghost nodes: seq<DOMElement>)
    ensures Build(tokens).Failure? ==> result == Failure(Build(tokens).error)
    ensures Build(tokens).Success? ==>
      && result.Success?
      && Mirrors(nodes, Build(tokens).value)
      && (forall k :: 0 <= k < |nodes| ==> fresh(nodes[k]))
      && result.value == Objects(nodes, Build(tokens).value.roots)
  {
    var elements: seq<DOMElement> := [];
    var parent: DOMElement? := null;
    nodes := [];
    ghost var f := Forest([], [], None);
    assert tokens[..0] == [];
    for i := 0 to |tokens|
      invariant Build(tokens[..i]) == Success(f)
      invariant Represents(f, nodes, elements, parent)
      invariant forall k :: 0 <= k < |nodes| ==> fresh(nodes[k])
    {
      BuildStep(tokens, i);
      var step;
      ghost var nodes';
      step, f, nodes' := ProcessToken(tokens, i, parent, elements, f, nodes);
      if step.Failure? {
        BuildFailurePersists(tokens, i + 1);
        result := Failure(step.error);
        return;
      }
      assert Build(tokens[..i + 1]) == Success(f);
      forall k | 0 <= k < |nodes'|
        ensures fresh(nodes'[k])
      {
        if k < |nodes| {
          assert nodes'[k] == nodes[k];
        }
      }
      nodes := nodes';
      parent, elements := step.value.0, step.value.1;
    }
    assert tokens[..|tokens|] == tokens;
    result := Success(elements);
  }

  /** The fields a node receives from its lexeme when it is created. */
  datatype Label = Label(nodeType: NodeType, tagName: Option<string>, nodeValue: Option<string>)

  function LabelOf(n: Node): Label {
    Label(n.nodeType, n.tagName, n.nodeValue)
  }

  /** The node a lexeme creates, if any: an element for an opening tag, a text node for text, none for a closer. */
  function Creates(token: string): seq<Label> {
    match Classify(token)
    case Some(Opening) => [Label(Element, Some(GetTagName(token)), None)]
    case Some(TextToken) => [Label(Text, None, Some(token))]
    case _ => []
  }

  /** Reference definition: the nodes a lexeme sequence should create, one per non-closing lexeme, in lexeme order. */
  function Created(tokens: seq<string>): seq<Label> {
    if tokens == [] then [] else Created(tokens[..|tokens| - 1]) + Creates(tokens[|tokens| - 1])
  }

  lemma {:induction false} CreatedAppend(a: seq<string>, b: seq<string>)
    ensures Created(a + b) == Created(a) + Created(b)
    decreases |b|
  {
    if b == [] {
      assert a + b == a;
    } else {
      var b', last := b[..|b| - 1], b[|b| - 1];
      assert (a + b)[..|a + b| - 1] == a + b' && (a + b)[|a + b| - 1] == last;
      var c := Creates(last);
      assert Created(a + b) == Created(a + b') + c;
      assert Created(b) == Created(b') + c;
      CreatedAppend(a, b');
      AppendAssoc(Created(a), Created(b'), c);
    }
  }

  /** Build on a sequence with one more lexeme is one more Step, unless it has already failed. */
  lemma BuildSnoc(tokens: seq<string>, t: string)
    ensures Build(tokens + [t]) ==
      match Build(tokens)
      case Failure(e) => Failure(e)
      case Success(f) => Step(f, |tokens|, t, Previous(tokens + [t], |tokens|))
  {
    assert (tokens + [t])[..|tokens|] == tokens;
  }

  /**
   * BuildTree creates exactly one node per non-closing lexeme and none for a
   * closer, in lexeme order: an element named GetTagName(token) for an opening
   * lexeme, a text node holding the whole lexeme for a text lexeme. It only
   * succeeds when no lexeme is empty or a lone "<".
   */
  lemma {:induction false} BuildCreatesOnePerLexeme(tokens: seq<string>)
    requires Build(tokens).Success?
    ensures |Build(tokens).value.nodes| == |Created(tokens)|
    ensures forall k :: 0 <= k < |Created(tokens)| ==> LabelOf(Build(tokens).value.nodes[k]) == Created(tokens)[k]
    ensures forall k :: 0 <= k < |tokens| ==> tokens[k] != [] && tokens[k] != "<"
    decreases |tokens|
  {
    if tokens != [] {
      var i := |tokens| - 1;
      var t := tokens[i];
      assert tokens == tokens[..i] + [t];
      BuildSnoc(tokens[..i], t);
      var f := Build(tokens[..i]).value;
      BuildCreatesOnePerLexeme(tokens[..i]);
      var g := Build(tokens).value;
      match Classify(t)
      case Some(Closing) =>
      case Some(c) =>
        AttachLinks(f, t, c == Opening);
        forall k | 0 <= k < |f.nodes|
          ensures LabelOf(g.nodes[k]) == LabelOf(f.nodes[k])
        {
          assert g.nodes[k].(children := f.nodes[k].children) == f.nodes[k];
        }
    }
  }

  /** `g` extends `f`: it keeps every node of `f` with the same fields and parent (children may grow). */
  ghost predicate Extends(f: Forest, g: Forest) {
    && |f.nodes| <= |g.nodes|
    && forall k :: 0 <= k < |f.nodes| ==> LabelOf(g.nodes[k]) == LabelOf(f.nodes[k]) && g.nodes[k].parent == f.nodes[k].parent
  }

  /** No step of BuildTree changes a node it has created, other than by adding children. */
  lemma StepExtends(f: Forest, i: nat, token: string, previous: Option<string>)
    requires WF(f) && Step(f, i, token, previous).Success?
    ensures Extends(f, Step(f, i, token, previous).value)
  {
    match Classify(token)
    case Some(Closing) =>
    case Some(c) =>
      var g := Attach(f, token, c == Opening);
      AttachLinks(f, token, c == Opening);
      forall k | 0 <= k < |f.nodes|
        ensures LabelOf(g.nodes[k]) == LabelOf(f.nodes[k]) && g.nodes[k].parent == f.nodes[k].parent
      {
        assert g.nodes[k].(children := f.nodes[k].children) == f.nodes[k];
      }
  }

  /** Extends is transitive. */
  lemma ExtendsTrans(f: Forest, g: Forest, h: Forest)
    requires Extends(f, g) && Extends(g, h)
    ensures Extends(f, h)
  {
  }

  /** A name that GetTagName gives back unchanged: no `<`, `/` or `>` in it. */
  predicate PlainName(n: string) {
    forall k :: 0 <= k < |n| ==> !IsTagDelimiter(n[k])
  }

  /** An element node named `n`, with parent `p` and children `cs`. */
  function ElementNode(n: string, p: Option<nat>, cs: seq<nat>): Node {
    Node(Element, Some(n), None, p, cs)
  }

  /** A text node holding `t`, with parent `p`. */
  function TextNode(t: string, p: Option<nat>): Node {
    Node(Text, None, Some(t), p, [])
  }

  /** `<n>` is an opening lexeme, `</n>` a closer, both named `n`. */
  lemma TagLexemes(n: string)
    requires PlainName(n)
    ensures Classify("<" + n + ">") == Some(Opening) && GetTagName("<" + n + ">") == n
    ensures Classify("</" + n + ">") == Some(Closing) && GetTagName("</" + n + ">") == n
  {
    OpeningAndClosingShareName(n);
    var o := "<" + n + ">";
    assert o[1] == if n == [] then '>' else n[0];
    assert ("</" + n + ">")[1] == '/';
  }

  /** The nodes after an opening or text lexeme, node by node. */
  lemma AttachNodes(f: Forest, token: string, opening: bool, expected: seq<Node>)
    requires WF(f) && |expected| == |f.nodes| + 1
    requires expected[|f.nodes|] == if opening then ElementNode(GetTagName(token), f.current, []) else TextNode(token, f.current)
    requires forall k :: 0 <= k < |f.nodes| && Some(k) != f.current ==> expected[k] == f.nodes[k]
    requires f.current.Some? ==>
      expected[f.current.value] == f.nodes[f.current.value].(children := f.nodes[f.current.value].children + [|f.nodes|])
    ensures Attach(f, token, opening).nodes == expected
  {
    AttachLinks(f, token, opening);
    var g := Attach(f, token, opening);
    forall k | 0 <= k < |expected|
      ensures g.nodes[k] == expected[k]
    {
      if k < |f.nodes| {
        assert g.nodes[k].(children := f.nodes[k].children) == f.nodes[k];
      }
    }
  }

  /** `<a>` alone: one root element, which is the current parent. */
  lemma BuildOpen(a: string)
    requires PlainName(a)
    ensures Build(["<" + a + ">"]) == Success(Forest([ElementNode(a, None, [])], [0], Some(0)))
  {
    TagLexemes(a);
    var f0, t := Forest([], [], None), "<" + a + ">";
    assert Build([t]) == Step(f0, 0, t, None) by {
      assert [t][..0] == [];
    }
    AttachNodes(f0, t, true, [ElementNode(a, None, [])]);
    assert Attach(f0, t, true) == Forest([ElementNode(a, None, [])], [0], Some(0));
  }

  /** One lexeme more, given the state before it and the Step it takes. */
  lemma BuildNext(pre: seq<string>, t: string, f: Forest, g: Forest)
    requires Build(pre) == Success(f)
    requires Step(f, |pre|, t, Previous(pre + [t], |pre|)) == Success(g)
    ensures Build(pre + [t]) == Success(g)
  {
    BuildSnoc(pre, t);
  }

  /** `<a>` then `t`: the text node is the only child of `a`, which stays the current parent. */
  lemma BuildOpenText(a: string, t: string)
    requires PlainName(a) && t != [] && t[0] != '<'
    ensures Build(["<" + a + ">", t]) == Success(Forest([ElementNode(a, None, [1]), TextNode(t, Some(0))], [0], Some(0)))
  {
    var pre := ["<" + a + ">"];
    var f1 := Forest([ElementNode(a, None, [])], [0], Some(0));
    var f2 := Forest([ElementNode(a, None, [1]), TextNode(t, Some(0))], [0], Some(0));
    assert pre + [t] == ["<" + a + ">", t];
    assert Build(pre) == Success(f1) by {
      BuildOpen(a);
    }
    assert Step(f1, 1, t, Some(pre[0])) == Success(f2) by {
      AttachNodes(f1, t, false, f2.nodes);
    }
    BuildNext(pre, t, f1, f2);
  }

  /** `<a><b>`: `b` is the only child of the root `a`, and the current parent. */
  lemma BuildOpenOpen(a: string, b: string)
    requires PlainName(a) && PlainName(b)
    ensures Build(["<" + a + ">", "<" + b + ">"]) ==
      Success(Forest([ElementNode(a, None, [1]), ElementNode(b, Some(0), [])], [0], Some(1)))
  {
    var pre, o := ["<" + a + ">"], "<" + b + ">";
    var f1 := Forest([ElementNode(a, None, [])], [0], Some(0));
    var f2 := Forest([ElementNode(a, None, [1]), ElementNode(b, Some(0), [])], [0], Some(1));
    assert pre + [o] == ["<" + a + ">", o];
    assert Build(pre) == Success(f1) by {
      BuildOpen(a);
    }
    assert Step(f1, 1, o, Some(pre[0])) == Success(f2) by {
      TagLexemes(b);
      AttachNodes(f1, o, true, f2.nodes);
    }
    BuildNext(pre, o, f1, f2);
  }

  /** `<a><b>t`: the chain `a` / `b` / `t`, with `b` the current parent. */
  lemma BuildOpenOpenText(a: string, b: string, t: string)
    requires PlainName(a) && PlainName(b) && t != [] && t[0] != '<'
    ensures Build(["<" + a + ">", "<" + b + ">", t]) ==
      Success(Forest([ElementNode(a, None, [1]), ElementNode(b, Some(0), [2]), TextNode(t, Some(1))], [0], Some(1)))
  {
    var pre := ["<" + a + ">", "<" + b + ">"];
    var f2 := Forest([ElementNode(a, None, [1]), ElementNode(b, Some(0), [])], [0], Some(1));
    var f3 := Forest([ElementNode(a, None, [1]), ElementNode(b, Some(0), [2]), TextNode(t, Some(1))], [0], Some(1));
    assert pre + [t] == ["<" + a + ">", "<" + b + ">", t];
    assert Build(pre) == Success(f2) by {
      BuildOpenOpen(a, b);
    }
    assert Step(f2, 2, t, Some(pre[1])) == Success(f3) by {
      AttachNodes(f2, t, false, f3.nodes);
    }
    BuildNext(pre, t, f2, f3);
  }

  /**
   * A one-character text lexeme before a mismatched closer makes the source
   * throw, as in `<a><b>x</a>`: the recovery rule reads the previous lexeme's
   * second UTF-16 code unit, and a character of the Basic Multilingual Plane
   * has only one.
   */
  lemma MismatchAfterShortText(a: string, b: string, x: char)
    requires PlainName(a) && PlainName(b) && a != b && x != '<' && x < '\U{10000}'
    ensures Build(["<" + a + ">", "<" + b + ">", [x], "</" + a + ">"]) == Failure(PreviousTokenTooShort(3))
  {
    var pre, c := ["<" + a + ">", "<" + b + ">", [x]], "</" + a + ">";
    var f3 := Forest([ElementNode(a, None, [1]), ElementNode(b, Some(0), [2]), TextNode([x], Some(1))], [0], Some(1));
    assert pre + [c] == ["<" + a + ">", "<" + b + ">", [x], c];
    assert Build(pre) == Success(f3) by {
      BuildOpenOpenText(a, b, [x]);
    }
    assert Step(f3, 3, c, Some([x])) == Failure(PreviousTokenTooShort(3)) by {
      TagLexemes(a);
      assert f3.nodes[1].tagName != Some(GetTagName(c)) && f3.nodes[1].parent == Some(0);
    }
    assert Build(pre + [c]) == Failure(PreviousTokenTooShort(3)) by {
      BuildSnoc(pre, c);
      assert Previous(pre + [c], 3) == Some([x]);
    }
  }

  /**
   * A one-character text outside the Basic Multilingual Plane, as in
   * `<a><b>\U{1F600}</a>`, has two UTF-16 code units: the source reads the
   * low surrogate, does not throw, and jumps two levels up.
   */
  lemma MismatchAfterAstralText(a: string, b: string, x: char)
    requires PlainName(a) && PlainName(b) && a != b && x >= '\U{10000}'
    ensures Build(["<" + a + ">", "<" + b + ">", [x], "</" + a + ">"]) ==
      Success(Forest([ElementNode(a, None, [1]), ElementNode(b, Some(0), [2]), TextNode([x], Some(1))], [0], None))
  {
    var pre, c := ["<" + a + ">", "<" + b + ">", [x]], "</" + a + ">";
    var f3 := Forest([ElementNode(a, None, [1]), ElementNode(b, Some(0), [2]), TextNode([x], Some(1))], [0], Some(1));
    assert pre + [c] == ["<" + a + ">", "<" + b + ">", [x], c];
    assert Build(pre) == Success(f3) by {
      BuildOpenOpenText(a, b, [x]);
    }
    assert Step(f3, 3, c, Some([x])) == Success(f3.(current := None)) by {
      TagLexemes(a);
      assert f3.nodes[1].tagName != Some(GetTagName(c)) && f3.nodes[1].parent == Some(0);
      assert f3.nodes[0].parent == None && |f3.nodes[1].children| != 0;
      assert SecondUnitIsSlash([x]) == Some(false);
    }
    BuildNext(pre, c, f3, f3.(current := None));
  }

  /**
   * The recovery rule jumps two levels: after `<a><b>yz</a>` there is no
   * current parent any more, though only `</a>` was seen.
   */
  lemma MismatchClosesBoth(a: string, b: string, t: string)
    requires PlainName(a) && PlainName(b) && a != b
    requires |t| >= 2 && t[0] != '<' && t[1] != '/'
    ensures Build(["<" + a + ">", "<" + b + ">", t, "</" + a + ">"]) ==
      Success(Forest([ElementNode(a, None, [1]), ElementNode(b, Some(0), [2]), TextNode(t, Some(1))], [0], None))
  {
    var pre, c := ["<" + a + ">", "<" + b + ">", t], "</" + a + ">";
    var f3 := Forest([ElementNode(a, None, [1]), ElementNode(b, Some(0), [2]), TextNode(t, Some(1))], [0], Some(1));
    assert pre + [c] == ["<" + a + ">", "<" + b + ">", t, c];
    assert Build(pre) == Success(f3) by {
      BuildOpenOpenText(a, b, t);
    }
    assert Step(f3, 3, c, Some(t)) == Success(f3.(current := None)) by {
      TagLexemes(a);
      assert f3.nodes[1].tagName != Some(GetTagName(c)) && f3.nodes[1].parent == Some(0);
      assert f3.nodes[0].parent == None && |f3.nodes[1].children| != 0;
    }
    BuildNext(pre, c, f3, f3.(current := None));
  }

  /**
   * So in `<a><b>yz</a><p>` the element `p` that follows becomes a second root,
   * outside both `a` and `b`.
   */
  lemma MismatchJumpsTwoLevels(a: string, b: string, t: string, p: string)
    requires PlainName(a) && PlainName(b) && PlainName(p) && a != b
    requires |t| >= 2 && t[0] != '<' && t[1] != '/'
    ensures Build(["<" + a + ">", "<" + b + ">", t, "</" + a + ">", "<" + p + ">"]) ==
      Success(Forest([ElementNode(a, None, [1]), ElementNode(b, Some(0), [2]), TextNode(t, Some(1)), ElementNode(p, None, [])],
                     [0, 3], Some(3)))
  {
    var pre, o := ["<" + a + ">", "<" + b + ">", t, "</" + a + ">"], "<" + p + ">";
    var f4 := Forest([ElementNode(a, None, [1]), ElementNode(b, Some(0), [2]), TextNode(t, Some(1))], [0], None);
    var f5 := Forest([ElementNode(a, None, [1]), ElementNode(b, Some(0), [2]), TextNode(t, Some(1)), ElementNode(p, None, [])],
                     [0, 3], Some(3));
    assert pre + [o] == ["<" + a + ">", "<" + b + ">", t, "</" + a + ">", o];
    assert Build(pre) == Success(f4) by {
      MismatchClosesBoth(a, b, t);
    }
    assert Step(f4, 4, o, Some(pre[3])) == Success(f5) by {
      TagLexemes(p);
      AttachNodes(f4, o, true, f5.nodes);
      assert Attach(f4, o, true).roots == [0] + [3];
      assert Attach(f4, o, true) == f5;
    }
    BuildNext(pre, o, f4, f5);
  }

  /** `<d>x</s>` with `s` not `d`: the closer matches nothing and the element `d` stays open. */
  lemma OpenTextStrayCloser(d: string, x: string, sp: string)
    requires PlainName(d) && PlainName(sp) && d != sp
    requires x != [] && x[0] != '<'
    ensures Build(["<" + d + ">", x, "</" + sp + ">"]) ==
      Success(Forest([ElementNode(d, None, [1]), TextNode(x, Some(0))], [0], Some(0)))
  {
    var pre, c := ["<" + d + ">", x], "</" + sp + ">";
    var f2 := Forest([ElementNode(d, None, [1]), TextNode(x, Some(0))], [0], Some(0));
    assert pre + [c] == ["<" + d + ">", x, c];
    assert Build(pre) == Success(f2) by {
      BuildOpenText(d, x);
    }
    assert Step(f2, 2, c, Some(x)) == Success(f2) by {
      TagLexemes(sp);
      assert f2.nodes[0].tagName != Some(GetTagName(c)) && f2.nodes[0].parent.None?;
    }
    BuildNext(pre, c, f2, f2);
  }

  /** A closer that matches no open element is ignored: `<d>x</s></d>` gives one root `d` holding `x`. */
  lemma SpuriousCloserIgnored(d: string, x: string, sp: string)
    requires PlainName(d) && PlainName(sp) && d != sp
    requires x != [] && x[0] != '<'
    ensures Build(["<" + d + ">", x, "</" + sp + ">", "</" + d + ">"]) ==
      Success(Forest([ElementNode(d, None, [1]), TextNode(x, Some(0))], [0], None))
  {
    var pre, c := ["<" + d + ">", x, "</" + sp + ">"], "</" + d + ">";
    var f3 := Forest([ElementNode(d, None, [1]), TextNode(x, Some(0))], [0], Some(0));
    assert pre + [c] == ["<" + d + ">", x, "</" + sp + ">", c];
    assert Build(pre) == Success(f3) by {
      OpenTextStrayCloser(d, x, sp);
    }
    assert Step(f3, 3, c, Some(pre[2])) == Success(f3.(current := None)) by {
      TagLexemes(d);
      assert f3.nodes[0].tagName == Some(GetTagName(c));
    }
    BuildNext(pre, c, f3, f3.(current := None));
  }

  /**
   * There is no table of void elements: in `<br><div>x</div>` the `div` is a
   * child of `br`, which stays the current parent.
   */
  lemma NoVoidElements(a: string, b: string, x: string)
    requires PlainName(a) && PlainName(b)
    requires x != [] && x[0] != '<'
    ensures Build(["<" + a + ">", "<" + b + ">", x, "</" + b + ">"]) ==
      Success(Forest([ElementNode(a, None, [1]), ElementNode(b, Some(0), [2]), TextNode(x, Some(1))], [0], Some(0)))
  {
    var pre, c := ["<" + a + ">", "<" + b + ">", x], "</" + b + ">";
    var f3 := Forest([ElementNode(a, None, [1]), ElementNode(b, Some(0), [2]), TextNode(x, Some(1))], [0], Some(1));
    assert pre + [c] == ["<" + a + ">", "<" + b + ">", x, c];
    assert Build(pre) == Success(f3) by {
      BuildOpenOpenText(a, b, x);
    }
    assert Step(f3, 3, c, Some(x)) == Success(f3.(current := Some(0))) by {
      TagLexemes(b);
      assert f3.nodes[1].tagName == Some(GetTagName(c));
    }
    BuildNext(pre, c, f3, f3.(current := Some(0)));
  }
}
