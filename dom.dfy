/** The node type of the parser's output (html-parser/DOMElement.cs). */
module Dom {
  import opened Wrappers

  /** The kind of a node; the parser only ever produces these two. */
  datatype NodeType = Element | Text

  /**
   * A node of the built tree. Only the fields the tree builder reads or writes
   * are modelled. A C# string field that is never assigned holds `null`: it is
   * `None` here.
   */
  class DOMElement {
    var children: seq<DOMElement>
    var nodeType: NodeType
    var nodeValue: Option<string>
    var tagName: Option<string>
    var parentNode: DOMElement?

    /** A fresh node: no children, no parent, no name, no value, the default node type. */
    constructor ()
      ensures children == [] && parentNode == null
      ensures tagName == None && nodeValue == None && nodeType == Element
    {
      children := [];
      nodeType := Element;
      nodeValue := None;
      tagName := None;
      parentNode := null;
    }
  }
}
