/** The live tree's nodes, as the reconciler sees them: an id, a kind (the
    `instanceof` tests of src/render.ts), and the parts of a DOM node the
    reconciler reads or writes. */
module Nodes {
  import opened Common

  /** A node's id in the arena. A well-formed tree only asks that a child's
      id is larger than its parent's. */
  type NodeId = nat

  datatype Kind = ElementNode | TextNode | CommentNode

  /** An attribute's namespace and value. Attributes are identified by their
      qualified name. */
  datatype AttrEntry = AttrEntry(namespaceURI: Option<string>, value: string)

  /** `markup` stands for the children a raw `innerHTML` assignment produced,
      which the model does not parse. `inHtmlNamespace` says whether the
      node is an element in the HTML namespace of an HTML document. */
  datatype Node = Node(
    kind: Kind,
    tagName: string,
    data: string,
    children: seq<NodeId>,
    attrs: map<string, AttrEntry>,
    markup: Option<string>,
    inHtmlNamespace: bool)

  /** The attribute name `removeAttribute(name)` removes from `node`: an
      element in the HTML namespace matches the name in ASCII lower case,
      while `setAttributeNS` stores a name as written. */
  function RemovedName(node: Node, name: string): string {
    if node.inHtmlNamespace then ToLower(name) else name
  }

  /** The attribute names a `removeAttribute` call for each of `names`
      removes. */
  function RemovedNames(node: Node, names: set<string>): set<string> {
    set n | n in names :: RemovedName(node, n)
  }

  /** Every attribute of `node` is found by `removeAttribute` under its own
      name: the node is outside the HTML namespace, or its names are in
      lower case. */
  predicate NamesRemovable(node: Node) {
    forall name :: name in node.attrs ==> RemovedName(node, name) == name
  }

  /** Names `removeAttribute` already finds as written are removed as
      written. */
  lemma RemovedNamesAsWritten(node: Node, names: set<string>)
    requires forall n :: n in names ==> RemovedName(node, n) == n
    ensures RemovedNames(node, names) == names
  {
  }

  /** Only the namespace flag decides what `removeAttribute` removes. */
  lemma RemovedNamesSameFlag(a: Node, b: Node, names: set<string>)
    requires a.inHtmlNamespace == b.inHtmlNamespace
    ensures RemovedNames(a, names) == RemovedNames(b, names)
  {
  }

  /** A name with an upper-case letter is never the one `removeAttribute`
      removes from an element in the HTML namespace. */
  lemma UpperCaseNeverRemoved(node: Node, names: set<string>, name: string, i: nat)
    requires node.inHtmlNamespace && i < |name| && 'A' <= name[i] <= 'Z'
    ensures name !in RemovedNames(node, names)
  {
    forall n | n in names ensures RemovedName(node, n) != name {
      if |n| == |name| {
        assert ToLower(n)[i] == LowerChar(n[i]);
      }
    }
  }
}
