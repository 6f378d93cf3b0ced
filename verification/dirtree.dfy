/**
 * No space left on device (day 7): a directory tree whose directories carry the
 * total size of everything beneath them, and the depth-first iterator over it.
 *
 * A directory's contents are a hash map from names to nodes; the model keeps them as a
 * sequence of named entries in the map's iteration order, which the source leaves
 * unspecified, so every property below holds whatever that order is.
 */
module DirTree {

  import opened Common

  datatype Node = File(size: nat) | Directory(size: nat, contents: seq<Entry>)
  datatype Entry = Entry(name: string, node: Node)

  /** `Node::size`: the size recorded in the node, whichever kind it is. */
  function Size(n: Node): (r: nat)
    ensures n.File? ==> r == n.size
    ensures n.Directory? ==> r == n.size
  {
    match n
    case File(s) => s
    case Directory(s, _) => s
  }

  /** `Node::is_directory`. */
  predicate IsDirectory(n: Node) {
    n.Directory?
  }

  /** The nodes of a directory's entries, in iteration order (`contents.values()`). */
  function Values(es: seq<Entry>): (r: seq<Node>)
    ensures |r| == |es|
    ensures forall i :: 0 <= i < |es| ==> r[i] == es[i].node
  {
    if |es| == 0 then [] else [es[0].node] + Values(es[1..])
  }

  /** The sum of the recorded sizes of some entries. */
  function SizeSum(es: seq<Entry>): nat {
    if |es| == 0 then 0 else Size(es[0].node) + SizeSum(es[1..])
  }

  /** The directory the parser builds: its size is the sum of its children's sizes. */
  function NewDirectory(contents: seq<Entry>): (r: Node)
    ensures IsDirectory(r) && r.contents == contents
  {
    Directory(SizeSum(contents), contents)
  }

  /** Every directory in the tree records the sum of its children's sizes. */
  predicate Consistent(n: Node) {
    match n
    case File(_) => true
    case Directory(s, es) => s == SizeSum(es) && AllConsistent(es)
  }

  predicate AllConsistent(es: seq<Entry>) {
    |es| == 0 || (Consistent(es[0].node) && AllConsistent(es[1..]))
  }

  /** Reference definition: the total size of the files at or below a node. */
  function FileTotal(n: Node): nat {
    match n
    case File(s) => s
    case Directory(_, es) => FileTotalAll(es)
  }

  function FileTotalAll(es: seq<Entry>): nat {
    if |es| == 0 then 0 else FileTotal(es[0].node) + FileTotalAll(es[1..])
  }

  /** A directory built from consistent children is consistent. */
  lemma NewDirectoryConsistent(contents: seq<Entry>)
    requires AllConsistent(contents)
    ensures Consistent(NewDirectory(contents))
    ensures Size(NewDirectory(contents)) == SizeSum(contents)
  {
  }

  /** In a consistent tree a node's size is the total size of all files below it. */
  lemma {:induction false} SizeIsFileTotal(n: Node)
    requires Consistent(n)
    ensures Size(n) == FileTotal(n)
    decreases n, 1
  {
    match n
    case File(_) =>
    case Directory(_, es) => SizeSumIsFileTotal(es);
  }

  lemma {:induction false} SizeSumIsFileTotal(es: seq<Entry>)
    requires AllConsistent(es)
    ensures SizeSum(es) == FileTotalAll(es)
    decreases es, 0
  {
    if |es| > 0 {
      SizeIsFileTotal(es[0].node);
      SizeSumIsFileTotal(es[1..]);
    }
  }

  /** The number of nodes in a tree, the node itself included. */
  function Count(n: Node): (r: nat)
    ensures r >= 1
  {
    match n
    case File(_) => 1
    case Directory(_, es) => 1 + CountAll(es)
  }

  function CountAll(es: seq<Entry>): nat {
    if |es| == 0 then 0 else Count(es[0].node) + CountAll(es[1..])
  }

  /** The number of nodes in all the trees of a stack. */
  function StackCount(stack: seq<Node>): nat {
    if |stack| == 0 then 0 else StackCount(stack[..|stack| - 1]) + Count(stack[|stack| - 1])
  }

  lemma {:induction false} StackCountAppend(a: seq<Node>, b: seq<Node>)
    ensures StackCount(a + b) == StackCount(a) + StackCount(b)
    decreases |b|
  {
    if |b| > 0 {
      assert (a + b)[..|a + b| - 1] == a + b[..|b| - 1];
      StackCountAppend(a, b[..|b| - 1]);
    } else {
      assert a + b == a;
    }
  }

  lemma {:induction false} StackCountValues(es: seq<Entry>)
    ensures StackCount(Values(es)) == CountAll(es)
    decreases |es|
  {
    if |es| > 0 {
      StackCountValues(es[1..]);
      StackCountAppend([es[0].node], Values(es[1..]));
      assert StackCount([es[0].node]) == StackCount([]) + Count(es[0].node);
    }
  }

  /**
   * `NodeIterator::next`: pop the top of the stack and, when it is a directory, push its
   * children; None once the stack is empty.
   */
  function Next(stack: seq<Node>): (r: (Option<Node>, seq<Node>))
    ensures r.0.None? <==> |stack| == 0
    ensures |stack| > 0 ==> r.0 == Some(stack[|stack| - 1])
    ensures |stack| > 0 ==> StackCount(r.1) + 1 == StackCount(stack)
    ensures |stack| == 0 ==> r.1 == []
  {
    if |stack| == 0 then (None, stack)
    else
      var node := stack[|stack| - 1];
      var rest := stack[..|stack| - 1];
      match node
      case File(_) => (Some(node), rest)
      case Directory(_, es) =>
        StackCountAppend(rest, Values(es));
        StackCountValues(es);
        (Some(node), rest + Values(es))
  }

  /** Everything the iterator yields from a stack until it is exhausted. */
  function Traverse(stack: seq<Node>): seq<Node>
    decreases StackCount(stack)
  {
    var (item, stack') := Next(stack);
    match item
    case None => []
    case Some(node) => [node] + Traverse(stack')
  }

  /** `Node::iter`: the iterator starts with the root alone on the stack. */
  function Iter(root: Node): seq<Node> {
    Traverse([root])
  }

  /** Reference definition: the nodes of a tree in pre-order, the node itself first. */
  function Nodes(n: Node): (r: seq<Node>)
    ensures |r| >= 1 && r[0] == n
  {
    match n
    case File(_) => [n]
    case Directory(_, es) => [n] + NodesAll(es)
  }

  function NodesAll(es: seq<Entry>): seq<Node> {
    if |es| == 0 then [] else Nodes(es[0].node) + NodesAll(es[1..])
  }

  /** The nodes of all the trees on a stack, bottom first. */
  function StackNodes(stack: seq<Node>): seq<Node> {
    if |stack| == 0 then [] else StackNodes(stack[..|stack| - 1]) + Nodes(stack[|stack| - 1])
  }

  lemma {:induction false} StackNodesAppend(a: seq<Node>, b: seq<Node>)
    ensures StackNodes(a + b) == StackNodes(a) + StackNodes(b)
    decreases |b|
  {
    if |b| > 0 {
      assert (a + b)[..|a + b| - 1] == a + b[..|b| - 1];
      StackNodesAppend(a, b[..|b| - 1]);
    } else {
      assert a + b == a;
    }
  }

  lemma {:induction false} StackNodesValues(es: seq<Entry>)
    ensures StackNodes(Values(es)) == NodesAll(es)
    decreases |es|
  {
    if |es| > 0 {
      var x := es[0].node;
      StackNodesValues(es[1..]);
      StackNodesAppend([x], Values(es[1..]));
      StackNodesSingle(x);
      calc {
        StackNodes(Values(es));
        { assert Values(es) == [x] + Values(es[1..]); }
        StackNodes([x] + Values(es[1..]));
        StackNodes([x]) + StackNodes(Values(es[1..]));
        Nodes(x) + NodesAll(es[1..]);
      }
    }
  }

  lemma StackNodesSingle(n: Node)
    ensures StackNodes([n]) == Nodes(n)
  {
    assert [n][..0] == [];
    assert StackNodes([n]) == StackNodes([]) + Nodes(n);
  }

  /** The iterator yields every node of every tree on the stack exactly once. */
  lemma {:induction false} TraverseYieldsEachNodeOnce(stack: seq<Node>)
    ensures multiset(Traverse(stack)) == multiset(StackNodes(stack))
    decreases StackCount(stack)
  {
    if |stack| > 0 {
      var node := stack[|stack| - 1];
      var rest := stack[..|stack| - 1];
      var stack' := Next(stack).1;
      TraverseYieldsEachNodeOnce(stack');
      assert Traverse(stack) == [node] + Traverse(stack');
      match node
      case File(_) =>
        assert stack' == rest;
      case Directory(_, es) =>
        assert stack' == rest + Values(es);
        StackNodesAppend(rest, Values(es));
        StackNodesValues(es);
        assert StackNodes(stack) == StackNodes(rest) + ([node] + NodesAll(es));
    }
  }

  /**
   * Iterating a tree yields the root first, then every node of the tree exactly once
   * more; the number of items is the number of nodes.
   */
  lemma IterVisitsEveryNodeOnce(root: Node)
    ensures |Iter(root)| > 0 && Iter(root)[0] == root
    ensures multiset(Iter(root)) == multiset(Nodes(root))
    ensures |Iter(root)| == Count(root)
  {
    TraverseYieldsEachNodeOnce([root]);
    StackNodesSingle(root);
    assert Next([root]).0 == Some(root);
    assert |Iter(root)| == |multiset(Iter(root))| == |multiset(Nodes(root))| == |Nodes(root)|;
    NodesCount(root);
  }

  lemma {:induction false} NodesCount(n: Node)
    ensures |Nodes(n)| == Count(n)
    decreases n, 1
  {
    match n
    case File(_) =>
    case Directory(_, es) => NodesAllCount(es);
  }

  lemma {:induction false} NodesAllCount(es: seq<Entry>)
    ensures |NodesAll(es)| == CountAll(es)
    decreases es, 0
  {
    if |es| > 0 {
      NodesCount(es[0].node);
      NodesAllCount(es[1..]);
    }
  }

  /** Every node of a consistent tree is itself consistent. */
  lemma {:induction false} NodesConsistent(n: Node, x: Node)
    requires Consistent(n) && x in Nodes(n)
    ensures Consistent(x)
    decreases n, 1
  {
    match n
    case File(_) =>
    case Directory(_, es) =>
      if x != n {
        NodesAllConsistent(es, x);
      }
  }

  lemma {:induction false} NodesAllConsistent(es: seq<Entry>, x: Node)
    requires AllConsistent(es) && x in NodesAll(es)
    ensures Consistent(x)
    decreases es, 0
  {
    if x in Nodes(es[0].node) {
      NodesConsistent(es[0].node, x);
    } else {
      NodesAllConsistent(es[1..], x);
    }
  }

  /**
   * What the puzzle answers rely on: every node the iterator yields from a consistent
   * tree records the total size of the files below it.
   */
  lemma IteratedSizesAreFileTotals(root: Node, x: Node)
    requires Consistent(root) && x in Iter(root)
    ensures Consistent(x) && Size(x) == FileTotal(x)
  {
    IterVisitsEveryNodeOnce(root);
    assert x in multiset(Iter(root));
    NodesConsistent(root, x);
    SizeIsFileTotal(x);
  }

  /** Iterating a file yields just that file. */
  lemma IterFile(s: nat)
    ensures Iter(File(s)) == [File(s)]
  {
    assert Next([File(s)]) == (Some(File(s)), []);
    assert Traverse([]) == [];
  }
}
