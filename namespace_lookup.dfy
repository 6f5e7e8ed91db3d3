/** `Namespace.GetNamespace`: the name of the nearest enclosing block
    namespace declaration of a syntax node, or `Global`. */
module NamespaceLookup {
  import opened Symbols

  /** The kinds of syntax node the lookup distinguishes. A file-scoped
      namespace (`namespace X;`) is a different kind of node from a block
      namespace (`namespace X { ... }`). */
  datatype NodeKind =
    | NamespaceDeclaration(name: string)
    | FileScopedNamespaceDeclaration(name: string)
    | OtherNode

  /** A syntax node with the chain of its parents. */
  datatype SyntaxNode = SyntaxNode(kind: NodeKind, parent: Option<SyntaxNode>)

  /** `Ancestors()`: the kinds of the parent, its parent and so on, innermost
      first; the node itself is not among them. */
  function Ancestors(node: SyntaxNode): seq<NodeKind>
    decreases node
  {
    match node.parent
    case None => []
    case Some(p) => [p.kind] + Ancestors(p)
  }

  /** The name of the first block namespace declaration in `kinds`, or `Global`. */
  function FirstBlockName(kinds: seq<NodeKind>): string
  {
    if kinds == [] then "Global"
    else if kinds[0].NamespaceDeclaration? then kinds[0].name
    else FirstBlockName(kinds[1..])
  }

  function GetNamespace(node: SyntaxNode): string
  {
    FirstBlockName(Ancestors(node))
  }

  /** The result is the name of the nearest block namespace among the ancestors. */
  lemma {:induction false} NearestBlock(kinds: seq<NodeKind>, i: nat)
    requires i < |kinds| && kinds[i].NamespaceDeclaration?
    requires forall j :: 0 <= j < i ==> !kinds[j].NamespaceDeclaration?
    ensures FirstBlockName(kinds) == kinds[i].name
  {
    if i > 0 {
      NearestBlock(kinds[1..], i - 1);
    }
  }

  /** Without a block namespace among the ancestors the result is `Global`;
      file-scoped namespaces and other nodes do not count. */
  lemma {:induction false} NoBlockIsGlobal(kinds: seq<NodeKind>)
    requires forall j :: 0 <= j < |kinds| ==> !kinds[j].NamespaceDeclaration?
    ensures FirstBlockName(kinds) == "Global"
  {
    if kinds != [] {
      NoBlockIsGlobal(kinds[1..]);
    }
  }

  /** `GetNamespace` in terms of the ancestors: the nearest block namespace's
      name when there is one, `Global` otherwise. */
  lemma GetNamespaceNearest(node: SyntaxNode)
    ensures (exists i :: 0 <= i < |Ancestors(node)| && Ancestors(node)[i].NamespaceDeclaration?) ==>
      exists i :: 0 <= i < |Ancestors(node)| && Ancestors(node)[i].NamespaceDeclaration?
        && (forall j :: 0 <= j < i ==> !Ancestors(node)[j].NamespaceDeclaration?)
        && GetNamespace(node) == Ancestors(node)[i].name
    ensures (forall i :: 0 <= i < |Ancestors(node)| ==> !Ancestors(node)[i].NamespaceDeclaration?) ==>
      GetNamespace(node) == "Global"
  {
    var kinds := Ancestors(node);
    if exists i :: 0 <= i < |kinds| && kinds[i].NamespaceDeclaration? {
      var i := FirstIndex(kinds);
      NearestBlock(kinds, i);
    } else {
      NoBlockIsGlobal(kinds);
    }
  }

  /** The least index of a block namespace declaration. */
  lemma {:induction false} FirstIndex(kinds: seq<NodeKind>) returns (i: nat)
    requires exists i :: 0 <= i < |kinds| && kinds[i].NamespaceDeclaration?
    ensures i < |kinds| && kinds[i].NamespaceDeclaration?
    ensures forall j :: 0 <= j < i ==> !kinds[j].NamespaceDeclaration?
  {
    if kinds[0].NamespaceDeclaration? {
      i := 0;
    } else {
      var k :| 0 <= k < |kinds| && kinds[k].NamespaceDeclaration?;
      assert kinds[1..][k - 1] == kinds[k];
      var rest := FirstIndex(kinds[1..]);
      forall j | 0 <= j < rest + 1
        ensures !kinds[j].NamespaceDeclaration?
      {
        if j > 0 {
          assert kinds[j] == kinds[1..][j - 1];
        }
      }
      i := rest + 1;
    }
  }

  /** The node itself is not considered: a block namespace declaration gets
      the name of the namespace around it, not its own. */
  lemma SelfNotConsidered(node: SyntaxNode, kind: NodeKind)
    ensures GetNamespace(SyntaxNode(kind, node.parent)) == GetNamespace(node)
  {
  }

  /** A type in a file-scoped namespace, with no block namespace around it,
      is reported in `Global`. */
  lemma FileScopedIsGlobal(ns: string, root: Option<SyntaxNode>)
    requires forall j :: 0 <= j < |Ancestors(SyntaxNode(OtherNode, root))| ==>
      !Ancestors(SyntaxNode(OtherNode, root))[j].NamespaceDeclaration?
    ensures GetNamespace(SyntaxNode(OtherNode, Some(SyntaxNode(FileScopedNamespaceDeclaration(ns), root)))) == "Global"
  {
    var node := SyntaxNode(OtherNode, Some(SyntaxNode(FileScopedNamespaceDeclaration(ns), root)));
    assert Ancestors(node) == [FileScopedNamespaceDeclaration(ns)] + Ancestors(SyntaxNode(OtherNode, root));
    NoBlockIsGlobal(Ancestors(node));
  }
}
