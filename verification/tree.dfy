/** The command tree as an explicit node table. In the source each node is an
    entity of the host's entity store with a parent edge; a command node
    carries a `Structure` (its protocol node data), and a handler is a
    separate child entity that carries only an `Executor`. Here the entity
    store is a sequence of nodes addressed by index, each with its parent
    index and its ordered child list. */
module Tree {
  import opened Basics
  import opened Protocol

  /** Handlers are opaque; a node names one by an identifier. */
  type HandlerId = nat

  /** What an entity of the tree carries: a `Structure` or an `Executor`. */
  datatype Payload = Structure(data: NodeData) | Executor(handler: HandlerId)

  datatype Node = Node(payload: Payload, parent: Option<nat>, children: seq<nat>)

  /** The node table and the index of its root, passed as a value instead of
      the source's process-wide root handle. */
  datatype CommandTree = CommandTree(nodes: seq<Node>, root: nat)

  /** The store's minimum promise: the root and every child reference name
      nodes of the table. Cycles are not excluded. */
  predicate ValidIndices(t: CommandTree) {
    && t.root < |t.nodes|
    && forall i, k :: 0 <= i < |t.nodes| && 0 <= k < |t.nodes[i].children| ==>
         t.nodes[i].children[k] < |t.nodes|
  }

  predicate IsStructure(t: CommandTree, n: nat)
    requires n < |t.nodes|
  {
    t.nodes[n].payload.Structure?
  }

  /** The shape every tree built through the registration functions has: the
      root at index 0 is the only Root node; every other node has exactly one
      parent, created before it, that is a command node and lists it as a
      child; child lists hold exactly the nodes naming that parent, in
      creation order. */
  predicate WellFormed(t: CommandTree) {
    && ValidIndices(t)
    && RootFirst(t)
    && ParentsBefore(t)
    && ChildrenPointBack(t)
    && ChildrenInCreationOrder(t)
  }

  predicate RootFirst(t: CommandTree) {
    && |t.nodes| > 0
    && t.root == 0
    && t.nodes[0].payload == Structure(Root)
    && t.nodes[0].parent == None
  }

  predicate ParentsBefore(t: CommandTree) {
    forall i :: 1 <= i < |t.nodes| ==>
      && t.nodes[i].payload != Structure(Root)
      && t.nodes[i].parent.Some?
      && t.nodes[i].parent.value < i
      && IsStructure(t, t.nodes[i].parent.value)
      && i in t.nodes[t.nodes[i].parent.value].children
  }

  predicate ChildrenPointBack(t: CommandTree)
    requires ValidIndices(t)
  {
    forall i, k :: 0 <= i < |t.nodes| && 0 <= k < |t.nodes[i].children| ==>
      t.nodes[t.nodes[i].children[k]].parent == Some(i)
  }

  predicate ChildrenInCreationOrder(t: CommandTree) {
    forall i, k1, k2 :: 0 <= i < |t.nodes| && 0 <= k1 < k2 < |t.nodes[i].children| ==>
      t.nodes[i].children[k1] < t.nodes[i].children[k2]
  }

  /** The table right after module registration: a lone Root node. */
  const Initial: CommandTree := CommandTree([Node(Structure(Root), None, [])], 0)

  lemma InitialIsWellFormed()
    ensures WellFormed(Initial)
  {
  }

  /** Creates an entity with `payload` as the last child of `parent`
      (`add_command` and `add_executor`); returns the tree and the new index. */
  function AddNode(t: CommandTree, payload: Payload, parent: nat): (r: (CommandTree, nat))
    requires parent < |t.nodes|
    ensures r.1 == |t.nodes| && |r.0.nodes| == |t.nodes| + 1 && r.0.root == t.root
    ensures r.0.nodes[r.1] == Node(payload, Some(parent), [])
    ensures r.0.nodes[parent].children == t.nodes[parent].children + [r.1]
    ensures forall i :: 0 <= i < |t.nodes| && i != parent ==> r.0.nodes[i] == t.nodes[i]
    ensures r.0.nodes[parent].payload == t.nodes[parent].payload
    ensures r.0.nodes[parent].parent == t.nodes[parent].parent
  {
    var n := |t.nodes|;
    var p := t.nodes[parent];
    var nodes := t.nodes[parent := p.(children := p.children + [n])] + [Node(payload, Some(parent), [])];
    (CommandTree(nodes, t.root), n)
  }

  /** Adding a non-root node under a command node keeps a tree well formed. */
  lemma AddNodeKeepsWellFormed(t: CommandTree, payload: Payload, parent: nat)
    requires WellFormed(t)
    requires parent < |t.nodes| && IsStructure(t, parent)
    requires payload != Structure(Root)
    ensures WellFormed(AddNode(t, payload, parent).0)
  {
    var t' := AddNode(t, payload, parent).0;
    AddNodeKeepsIndices(t, payload, parent);
    AddNodeKeepsParents(t, payload, parent);
    AddNodeKeepsBackPointers(t, payload, parent);
    AddNodeKeepsOrder(t, payload, parent);
  }

  lemma AddNodeKeepsIndices(t: CommandTree, payload: Payload, parent: nat)
    requires ValidIndices(t) && parent < |t.nodes|
    ensures ValidIndices(AddNode(t, payload, parent).0)
  {
    var (t', n) := AddNode(t, payload, parent);
    forall i, k | 0 <= i < |t'.nodes| && 0 <= k < |t'.nodes[i].children|
      ensures t'.nodes[i].children[k] < |t'.nodes|
    {
      if i != n && k < |t.nodes[i].children| {
        assert t'.nodes[i].children[k] == t.nodes[i].children[k];
      }
    }
  }

  lemma AddNodeKeepsParents(t: CommandTree, payload: Payload, parent: nat)
    requires WellFormed(t) && parent < |t.nodes| && IsStructure(t, parent)
    requires payload != Structure(Root)
    ensures ParentsBefore(AddNode(t, payload, parent).0)
    ensures RootFirst(AddNode(t, payload, parent).0)
  {
    var (t', n) := AddNode(t, payload, parent);
    forall i | 1 <= i < |t'.nodes|
      ensures t'.nodes[i].payload != Structure(Root)
      ensures t'.nodes[i].parent.Some? && t'.nodes[i].parent.value < i
      ensures IsStructure(t', t'.nodes[i].parent.value)
      ensures i in t'.nodes[t'.nodes[i].parent.value].children
    {
      if i < n {
        var p := t.nodes[i].parent.value;
        assert i in t.nodes[p].children;
        assert t'.nodes[p].children == t.nodes[p].children
          || t'.nodes[p].children == t.nodes[p].children + [n];
      } else {
        assert t'.nodes[parent].children == t.nodes[parent].children + [n];
      }
    }
  }

  lemma AddNodeKeepsBackPointers(t: CommandTree, payload: Payload, parent: nat)
    requires WellFormed(t) && parent < |t.nodes|
    ensures ValidIndices(AddNode(t, payload, parent).0)
    ensures ChildrenPointBack(AddNode(t, payload, parent).0)
  {
    var (t', n) := AddNode(t, payload, parent);
    AddNodeKeepsIndices(t, payload, parent);
    forall i, k | 0 <= i < |t'.nodes| && 0 <= k < |t'.nodes[i].children|
      ensures t'.nodes[t'.nodes[i].children[k]].parent == Some(i)
    {
      if i != n && k < |t.nodes[i].children| {
        var c := t.nodes[i].children[k];
        assert t'.nodes[i].children[k] == c;
        assert t.nodes[c].parent == Some(i);
        assert c != parent ==> t'.nodes[c] == t.nodes[c];
      }
    }
  }

  lemma AddNodeKeepsOrder(t: CommandTree, payload: Payload, parent: nat)
    requires ValidIndices(t) && ChildrenInCreationOrder(t) && parent < |t.nodes|
    ensures ChildrenInCreationOrder(AddNode(t, payload, parent).0)
  {
    var (t', n) := AddNode(t, payload, parent);
    forall i, k1, k2 | 0 <= i < |t'.nodes| && 0 <= k1 < k2 < |t'.nodes[i].children|
      ensures t'.nodes[i].children[k1] < t'.nodes[i].children[k2]
    {
      if i == parent {
        var cs := t.nodes[i].children;
        assert t'.nodes[i].children == cs + [n];
        if k2 == |cs| {
          assert cs[k1] < |t.nodes|;
        } else {
          assert t'.nodes[i].children[k1] == cs[k1] && t'.nodes[i].children[k2] == cs[k2];
        }
      }
    }
  }
}
