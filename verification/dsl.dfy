/** The registration DSL: a builder scope that creates command nodes under a
    cursor (`current`), remembering for each node it created the node that
    was current at the time, so that `end` can return there.

    The closures the source passes to `literal_with`/`argument_with`/`cmd_with`
    are arbitrary code that may call the scope's methods; here a closure is
    the list of scope calls it makes, in order (`Op`). A closure that does
    anything else (I/O, touching the store directly) is not modelled. */
module Dsl {
  import opened Basics
  import Protocol
  import opened Tree

  /** The builder's own parser choice. */
  datatype Parser = String | Integer(min: Option<i32>, max: Option<i32>)

  /** Conversion to the protocol parser stored in the node: a string becomes a
      single-word string, an integer keeps its bounds. */
  function ToProtocol(p: Parser): (k: Protocol.ParserKind)
  {
    match p
    case String => Protocol.ParserKind.String(Protocol.SingleWord)
    case Integer(min, max) => Protocol.ParserKind.Integer(min, max)
  }

  /** The conversion loses nothing: distinct builder parsers stay distinct,
      and the result is always a kind the dispatcher implements. */
  lemma ToProtocolInjective(p: Parser, q: Parser)
    ensures ToProtocol(p) == ToProtocol(q) <==> p == q
    ensures ToProtocol(p).String? || ToProtocol(p).Integer?
  {
  }

  /** The client's reading of the protocol's integer bounds: both inclusive,
      an absent bound meaning no limit. */
  predicate ClientAccepts(min: Option<i32>, max: Option<i32>, v: int) {
    (min.None? || min.value <= v) && (max.None? || v <= max.value)
  }

  /** `From<Range<i32>>` as written: the exclusive end of `start..end`
      becomes the (inclusive) maximum. */
  function FromRangeAsWritten(start: i32, end: i32): (p: Parser)
    ensures p == Integer(Some(start), Some(end))
  {
    Integer(Some(start), Some(end))
  }

  /** For every non-empty range, the bounds `FromRangeAsWritten` produces
      admit `end`, a value that lies outside `start..end` because a Rust range
      excludes its end (`0..10` admits 10). */
  lemma RangeEndAdmitted(start: i32, end: i32)
    requires start < end
    ensures var p := FromRangeAsWritten(start, end); ClientAccepts(p.min, p.max, end)
  {
  }

  /** `From<Range<i32>>` with the maximum the range denotes: the last value
      below `end`. An empty range at the bottom of `i32` has no such value and
      keeps `end` itself. */
  function FromRange(start: i32, end: i32): (p: Parser)
    ensures p.Integer? && p.min == Some(start) && p.max.Some?
  {
    Integer(Some(start), Some(if end > I32_MIN then end - 1 else end))
  }

  /** For a non-empty range the bounds admit exactly the range's values. */
  lemma FromRangeAdmitsExactlyRange(start: i32, end: i32, v: int)
    requires start < end
    ensures var p := FromRange(start, end); ClientAccepts(p.min, p.max, v) <==> start <= v < end
  {
  }

  /** `From<RangeFrom<i32>>`: `start..` admits every value from `start` on. */
  function FromRangeFrom(start: i32): (p: Parser)
    ensures p.Integer? && forall v :: ClientAccepts(p.min, p.max, v) <==> start <= v
  {
    Integer(Some(start), None)
  }

  /** One call a closure makes on the scope. `literal(name)` and
      `argument(name, parser)` are the `...With` forms with an empty body. */
  datatype Op =
    | LiteralWith(name: string, body: seq<Op>)
    | ArgumentWith(name: string, parser: Parser, body: seq<Op>)
    | AttachExecutor(handler: HandlerId)
    | End

  /** The builder state: the tree being extended, the cursor, and the map
      from each node created in this scope to the cursor it was created at. */
  datatype Scope = Scope(tree: CommandTree, current: nat, parents: map<nat, nat>)

  /** What every call needs: the cursor and the remembered parents are nodes. */
  predicate Coherent(s: Scope) {
    && s.current < |s.tree.nodes|
    && forall k :: k in s.parents ==> k < |s.tree.nodes| && s.parents[k] < |s.tree.nodes|
  }

  /** `t'` extends `t`: same root, no node removed, existing nodes keep their
      payload and parent, and child lists only grow at the end. */
  predicate Extends(t: CommandTree, t': CommandTree) {
    && t'.root == t.root
    && |t.nodes| <= |t'.nodes|
    && forall i :: 0 <= i < |t.nodes| ==>
         && t'.nodes[i].payload == t.nodes[i].payload
         && t'.nodes[i].parent == t.nodes[i].parent
         && t.nodes[i].children <= t'.nodes[i].children
  }

  /** `CommandScope::new`: the cursor at the root, nothing remembered. */
  function NewScope(t: CommandTree): Scope
  {
    Scope(t, t.root, map[])
  }

  /** `end`: back to the remembered parent, or stay when there is none. */
  function EndScope(s: Scope): (r: Scope)
    requires Coherent(s)
    ensures Coherent(r) && r.tree == s.tree && r.parents == s.parents
  {
    if s.current in s.parents then s.(current := s.parents[s.current]) else s
  }

  /** Number of nodes a list of calls creates. */
  function Added(ops: seq<Op>): nat
    decreases ops
  {
    if ops == [] then 0 else AddedBy(ops[0]) + Added(ops[1..])
  }

  function AddedBy(op: Op): nat
    decreases op
  {
    match op
    case LiteralWith(_, body) => 1 + Added(body)
    case ArgumentWith(_, _, body) => 1 + Added(body)
    case AttachExecutor(_) => 1
    case End => 0
  }

  /** A closure body that never calls `end` itself, at any depth. */
  predicate NoEnd(ops: seq<Op>)
    decreases ops
  {
    ops == [] || (NoEndIn(ops[0]) && NoEnd(ops[1..]))
  }

  predicate NoEndIn(op: Op)
    decreases op
  {
    match op
    case LiteralWith(_, body) => NoEnd(body)
    case ArgumentWith(_, _, body) => NoEnd(body)
    case AttachExecutor(_) => true
    case End => false
  }

  /** Runs a closure body: its calls in order. */
  function RunOps(s: Scope, ops: seq<Op>): (r: Scope)
    requires Coherent(s)
    ensures Coherent(r) && Extends(s.tree, r.tree)
    ensures |r.tree.nodes| == |s.tree.nodes| + Added(ops)
    ensures forall k :: k in s.parents ==> k in r.parents && r.parents[k] == s.parents[k]
    decreases ops, 0
  {
    if ops == [] then s else RunOps(RunOp(s, ops[0]), ops[1..])
  }

  /** One scope call. `literal_with`/`argument_with` create the node under the
      cursor, remember the cursor for it, move into it, run the closure and
      then `end`; `executor` creates an executor node under the cursor and
      leaves the cursor where it is. */
  function RunOp(s: Scope, op: Op): (r: Scope)
    requires Coherent(s)
    ensures Coherent(r) && Extends(s.tree, r.tree)
    ensures |r.tree.nodes| == |s.tree.nodes| + AddedBy(op)
    ensures forall k :: k in s.parents ==> k in r.parents && r.parents[k] == s.parents[k]
    decreases op, 0
  {
    match op
    case LiteralWith(name, body) =>
      Enter(s, Protocol.Literal(name), body)
    case ArgumentWith(name, parser, body) =>
      Enter(s, Protocol.Argument(name, ToProtocol(parser)), body)
    case AttachExecutor(h) =>
      s.(tree := AddNode(s.tree, Executor(h), s.current).0)
    case End => EndScope(s)
  }

  /** The common part of `literal_with` and `argument_with`. */
  function Enter(s: Scope, data: Protocol.NodeData, body: seq<Op>): (r: Scope)
    requires Coherent(s)
    ensures Coherent(r) && Extends(s.tree, r.tree)
    ensures |r.tree.nodes| == |s.tree.nodes| + 1 + Added(body)
    ensures forall k :: k in s.parents ==> k in r.parents && r.parents[k] == s.parents[k]
    decreases body, 1
  {
    var (t', e) := AddNode(s.tree, Structure(data), s.current);
    var inner := Scope(t', e, s.parents[e := s.current]);
    EndScope(RunOps(inner, body))
  }

  /** `cmd_with`: a fresh scope at the root, then `literal_with(name, f)`. */
  function CmdWith(t: CommandTree, name: string, body: seq<Op>): (r: CommandTree)
    requires t.root < |t.nodes|
    ensures Extends(t, r) && |r.nodes| == |t.nodes| + 1 + Added(body)
  {
    RunOp(NewScope(t), LiteralWith(name, body)).tree
  }

  /** `cmd`: `cmd_with` with an empty closure. */
  function Cmd(t: CommandTree, name: string): (r: CommandTree)
    requires t.root < |t.nodes|
  {
    CmdWith(t, name, [])
  }

  // ---------------------------------------------------------------------
  // Properties.

  /** The scope's own bookkeeping matches the tree: the cursor is a command
      node, and each remembered parent is the tree parent of a node the scope
      created (never the root). */
  predicate ScopeInv(s: Scope) {
    && WellFormed(s.tree)
    && s.current < |s.tree.nodes|
    && IsStructure(s.tree, s.current)
    && forall k :: k in s.parents ==>
         0 < k < |s.tree.nodes| && s.tree.nodes[k].parent == Some(s.parents[k])
  }

  lemma ScopeInvIsCoherent(s: Scope)
    requires ScopeInv(s)
    ensures Coherent(s)
  {
  }

  lemma NewScopeInv(t: CommandTree)
    requires WellFormed(t)
    ensures ScopeInv(NewScope(t))
  {
  }

  /** `end` moves to the tree parent of the node the cursor is on, and is a
      no-op at the root. */
  lemma EndReturnsToParent(s: Scope)
    requires ScopeInv(s)
    ensures s.current == s.tree.root ==> EndScope(s) == s
    ensures s.current in s.parents ==> Some(EndScope(s).current) == s.tree.nodes[s.current].parent
    ensures ScopeInv(EndScope(s))
  {
  }

  /** Every call keeps the tree well formed and the scope's bookkeeping true. */
  lemma {:induction false} RunOpsKeepsInv(s: Scope, ops: seq<Op>)
    requires ScopeInv(s)
    ensures ScopeInv(RunOps(s, ops))
    decreases ops, 0
  {
    if ops != [] {
      RunOpKeepsInv(s, ops[0]);
      RunOpsKeepsInv(RunOp(s, ops[0]), ops[1..]);
    }
  }

  lemma {:induction false} RunOpKeepsInv(s: Scope, op: Op)
    requires ScopeInv(s)
    ensures ScopeInv(RunOp(s, op))
    decreases op, 0
  {
    match op
    case LiteralWith(name, body) =>
      EnterKeepsInv(s, Protocol.Literal(name), body);
    case ArgumentWith(name, parser, body) =>
      EnterKeepsInv(s, Protocol.Argument(name, ToProtocol(parser)), body);
    case AttachExecutor(h) =>
      AddNodeKeepsWellFormed(s.tree, Executor(h), s.current);
      var r := RunOp(s, op);
      forall k | k in r.parents
        ensures 0 < k < |r.tree.nodes| && r.tree.nodes[k].parent == Some(r.parents[k])
      {
        assert r.tree.nodes[k].parent == s.tree.nodes[k].parent;
      }
    case End =>
      EndReturnsToParent(s);
  }

  lemma {:induction false} EnterKeepsInv(s: Scope, data: Protocol.NodeData, body: seq<Op>)
    requires ScopeInv(s) && data != Protocol.Root
    ensures ScopeInv(Enter(s, data, body))
    decreases body, 1
  {
    var (t', e) := AddNode(s.tree, Structure(data), s.current);
    var inner := Scope(t', e, s.parents[e := s.current]);
    EnteredScopeInv(s, data);
    RunOpsKeepsInv(inner, body);
    EndReturnsToParent(RunOps(inner, body));
  }

  /** The scope just inside a new node, before its closure runs. */
  lemma EnteredScopeInv(s: Scope, data: Protocol.NodeData)
    requires ScopeInv(s) && data != Protocol.Root
    ensures var (t', e) := AddNode(s.tree, Structure(data), s.current);
      ScopeInv(Scope(t', e, s.parents[e := s.current]))
  {
    AddNodeKeepsWellFormed(s.tree, Structure(data), s.current);
    EnteredParents(s, data);
  }

  /** Just inside the new node, every remembered parent is still the tree
      parent of its node, the new node's included. */
  lemma EnteredParents(s: Scope, data: Protocol.NodeData)
    requires ScopeInv(s)
    ensures var t' := AddNode(s.tree, Structure(data), s.current).0; var e := |s.tree.nodes|;
      forall k :: k in s.parents[e := s.current] ==>
        0 < k < |t'.nodes| && t'.nodes[k].parent == Some(s.parents[e := s.current][k])
  {
    var (t', e) := AddNode(s.tree, Structure(data), s.current);
    forall k | k in s.parents[e := s.current]
      ensures 0 < k < |t'.nodes| && t'.nodes[k].parent == Some(s.parents[e := s.current][k])
    {
      if k != e {
        assert t'.nodes[k].parent == s.tree.nodes[k].parent;
      }
    }
  }

  /** A closure body that does not call `end` leaves the cursor where it
      found it: every `..._with` returns to its starting node. */
  lemma {:induction false} NoEndRestoresCursor(s: Scope, ops: seq<Op>)
    requires Coherent(s) && NoEnd(ops)
    ensures RunOps(s, ops).current == s.current
    decreases ops, 0
  {
    if ops != [] {
      NoEndOpRestoresCursor(s, ops[0]);
      NoEndRestoresCursor(RunOp(s, ops[0]), ops[1..]);
    }
  }

  lemma {:induction false} NoEndOpRestoresCursor(s: Scope, op: Op)
    requires Coherent(s) && NoEndIn(op)
    ensures RunOp(s, op).current == s.current
    decreases op, 0
  {
    match op
    case LiteralWith(name, body) =>
      EnterRestoresCursor(s, Protocol.Literal(name), body);
    case ArgumentWith(name, parser, body) =>
      EnterRestoresCursor(s, Protocol.Argument(name, ToProtocol(parser)), body);
    case AttachExecutor(h) =>
  }

  /** Scope balance for `literal_with` / `argument_with`: whenever the
      closure leaves the cursor on the node just created, however it got
      there (`end` calls included), the cursor comes back to where it was. */
  lemma EnterReturnsToCursor(s: Scope, data: Protocol.NodeData, body: seq<Op>)
    requires Coherent(s)
    requires RunOps(Scope(AddNode(s.tree, Structure(data), s.current).0, |s.tree.nodes|,
                          s.parents[|s.tree.nodes| := s.current]), body).current == |s.tree.nodes|
    ensures Enter(s, data, body).current == s.current
  {
  }

  lemma {:induction false} EnterRestoresCursor(s: Scope, data: Protocol.NodeData, body: seq<Op>)
    requires Coherent(s) && NoEnd(body)
    ensures Enter(s, data, body).current == s.current
    decreases body, 1
  {
    var (t', e) := AddNode(s.tree, Structure(data), s.current);
    var inner := Scope(t', e, s.parents[e := s.current]);
    NoEndRestoresCursor(inner, body);
  }

  /** A body without `end` adds nodes only below the node it starts at: the
      starting node's own child list gains only the nodes the body's
      top-level calls create, and no other pre-existing node changes. */
  lemma {:induction false} NoEndTouchesOnlyCursor(s: Scope, ops: seq<Op>, i: nat)
    requires Coherent(s) && NoEnd(ops)
    requires i < |s.tree.nodes| && i != s.current
    ensures RunOps(s, ops).tree.nodes[i] == s.tree.nodes[i]
    decreases ops, 0
  {
    if ops != [] {
      NoEndOpRestoresCursor(s, ops[0]);
      NoEndOpTouchesOnlyCursor(s, ops[0], i);
      NoEndTouchesOnlyCursor(RunOp(s, ops[0]), ops[1..], i);
    }
  }

  lemma {:induction false} NoEndOpTouchesOnlyCursor(s: Scope, op: Op, i: nat)
    requires Coherent(s) && NoEndIn(op)
    requires i < |s.tree.nodes| && i != s.current
    ensures RunOp(s, op).tree.nodes[i] == s.tree.nodes[i]
    decreases op, 0
  {
    match op
    case LiteralWith(name, body) =>
      EnterTouchesOnlyCursor(s, Protocol.Literal(name), body, i);
    case ArgumentWith(name, parser, body) =>
      EnterTouchesOnlyCursor(s, Protocol.Argument(name, ToProtocol(parser)), body, i);
    case AttachExecutor(h) =>
  }

  lemma {:induction false} EnterTouchesOnlyCursor(s: Scope, data: Protocol.NodeData, body: seq<Op>, i: nat)
    requires Coherent(s) && NoEnd(body)
    requires i < |s.tree.nodes| && i != s.current
    ensures Enter(s, data, body).tree.nodes[i] == s.tree.nodes[i]
    decreases body, 1
  {
    var (t', e) := AddNode(s.tree, Structure(data), s.current);
    var inner := Scope(t', e, s.parents[e := s.current]);
    NoEndTouchesOnlyCursor(inner, body, i);
  }

  /** `literal_with` / `argument_with` create their node as the last child of
      the cursor, carrying the given data, and remember the cursor as its
      parent, whatever the closure does. */
  lemma EnterCreatesChild(s: Scope, data: Protocol.NodeData, body: seq<Op>)
    requires Coherent(s)
    ensures var r := Enter(s, data, body); var e := |s.tree.nodes|;
      && r.tree.nodes[e].payload == Structure(data)
      && r.tree.nodes[e].parent == Some(s.current)
      && s.tree.nodes[s.current].children + [e] <= r.tree.nodes[s.current].children
    ensures |s.tree.nodes| in Enter(s, data, body).parents
    ensures Enter(s, data, body).parents[|s.tree.nodes|] == s.current
  {
    var (t', e) := AddNode(s.tree, Structure(data), s.current);
    var inner := Scope(t', e, s.parents[e := s.current]);
    var r := RunOps(inner, body);
    assert Extends(t', r.tree);
  }

  /** When the closure never calls `end`, the cursor's child list gains
      exactly the created node. */
  lemma EnterWithoutEndAddsOneChild(s: Scope, data: Protocol.NodeData, body: seq<Op>)
    requires Coherent(s) && NoEnd(body)
    ensures Enter(s, data, body).tree.nodes[s.current].children
      == s.tree.nodes[s.current].children + [|s.tree.nodes|]
  {
    var (t', e) := AddNode(s.tree, Structure(data), s.current);
    var inner := Scope(t', e, s.parents[e := s.current]);
    NoEndTouchesOnlyCursor(inner, body, s.current);
  }

  /** `cmd_with(name, f)` on a well-formed tree adds a top-level literal
      `name` as the root's newest child and keeps the tree well formed; when
      `f` never calls `end`, nothing else is attached to the root. */
  lemma CmdWithAddsTopLevelCommand(t: CommandTree, name: string, body: seq<Op>)
    requires WellFormed(t)
    ensures var r := CmdWith(t, name, body); var e := |t.nodes|;
      && WellFormed(r)
      && r.nodes[e].payload == Structure(Protocol.Literal(name))
      && r.nodes[e].parent == Some(t.root)
      && t.nodes[t.root].children + [e] <= r.nodes[t.root].children
      && (NoEnd(body) ==> r.nodes[t.root].children == t.nodes[t.root].children + [e])
  {
    var s := NewScope(t);
    NewScopeInv(t);
    RunOpKeepsInv(s, LiteralWith(name, body));
    assert CmdWith(t, name, body) == Enter(s, Protocol.Literal(name), body).tree;
    EnterCreatesChild(s, Protocol.Literal(name), body);
    if NoEnd(body) {
      EnterWithoutEndAddsOneChild(s, Protocol.Literal(name), body);
    }
  }

  /** `cmd(name)` adds exactly one node: a childless literal under the root. */
  lemma CmdAddsLeaf(t: CommandTree, name: string)
    requires WellFormed(t)
    ensures var r := Cmd(t, name); var e := |t.nodes|;
      && |r.nodes| == e + 1
      && r.nodes[e] == Node(Structure(Protocol.Literal(name)), Some(t.root), [])
      && r.nodes[t.root].children == t.nodes[t.root].children + [e]
  {
    CmdWithAddsTopLevelCommand(t, name, []);
    var (t', e) := AddNode(t, Structure(Protocol.Literal(name)), t.root);
    var inner := Scope(t', e, map[e := t.root]);
    assert RunOps(inner, []) == inner;
    assert Enter(NewScope(t), Protocol.Literal(name), []) == EndScope(inner);
    assert Cmd(t, name) == t';
  }

  /** Two successive `executor` calls on one scope attach two executor
      nodes under the cursor, in call order: the second does not replace the
      first, and the cursor and remembered parents stay put. */
  lemma TwoExecutorsAttachBoth(s: Scope, h1: HandlerId, h2: HandlerId)
    requires Coherent(s)
    ensures RunOp(RunOp(s, AttachExecutor(h1)), AttachExecutor(h2)).current == s.current
    ensures RunOp(RunOp(s, AttachExecutor(h1)), AttachExecutor(h2)).parents == s.parents
    ensures |RunOp(RunOp(s, AttachExecutor(h1)), AttachExecutor(h2)).tree.nodes| == |s.tree.nodes| + 2
    ensures RunOp(RunOp(s, AttachExecutor(h1)), AttachExecutor(h2)).tree.nodes[s.current].children
      == s.tree.nodes[s.current].children + [|s.tree.nodes|, |s.tree.nodes| + 1]
    ensures RunOp(RunOp(s, AttachExecutor(h1)), AttachExecutor(h2)).tree.nodes[|s.tree.nodes|]
      == Node(Executor(h1), Some(s.current), [])
    ensures RunOp(RunOp(s, AttachExecutor(h1)), AttachExecutor(h2)).tree.nodes[|s.tree.nodes| + 1]
      == Node(Executor(h2), Some(s.current), [])
  {
    TwoNodesUnderOneParent(s.tree, Executor(h1), Executor(h2), s.current);
  }

  /** `literal(name).executor(h)`: `literal` has already returned to the
      cursor, so the executor is attached beside the literal, under the
      cursor, not under the literal. */
  lemma ExecutorAfterLiteralAttachesToCursor(s: Scope, name: string, h: HandlerId)
    requires Coherent(s)
    ensures var r := RunOp(RunOp(s, LiteralWith(name, [])), AttachExecutor(h));
      && r.current == s.current
      && r.tree == AddNode(AddNode(s.tree, Structure(Protocol.Literal(name)), s.current).0, Executor(h), s.current).0
  {
    var (t', e) := AddNode(s.tree, Structure(Protocol.Literal(name)), s.current);
    LeafLiteralReturns(s, name);
  }

  /** A closure made of one `argument_with` call: the argument node is
      created under the cursor, its own closure runs inside it, and the
      cursor comes back to the parent remembered for it. */
  lemma LoneArgumentWith(s: Scope, name: string, p: Parser, body: seq<Op>)
    requires Coherent(s)
    ensures RunOps(s, [ArgumentWith(name, p, body)]) ==
      EndScope(RunOps(Scope(AddNode(s.tree, Structure(Protocol.Argument(name, ToProtocol(p))), s.current).0,
                            |s.tree.nodes|, s.parents[|s.tree.nodes| := s.current]), body))
  {
    assert [ArgumentWith(name, p, body)][1..] == [];
    assert RunOps(s, [ArgumentWith(name, p, body)]) == RunOp(s, ArgumentWith(name, p, body));
  }

  /** `executor(h)` adds one executor node as the cursor's last child; the
      cursor, the remembered parents and every other node stay as they were. */
  lemma ExecutorStays(s: Scope, h: HandlerId)
    requires Coherent(s)
    ensures RunOp(s, AttachExecutor(h)).current == s.current
    ensures RunOp(s, AttachExecutor(h)).parents == s.parents
    ensures |RunOp(s, AttachExecutor(h)).tree.nodes| == |s.tree.nodes| + 1
    ensures RunOp(s, AttachExecutor(h)).tree.nodes[|s.tree.nodes|] == Node(Executor(h), Some(s.current), [])
    ensures RunOp(s, AttachExecutor(h)).tree.nodes[s.current].children
      == s.tree.nodes[s.current].children + [|s.tree.nodes|]
    ensures forall i :: 0 <= i < |s.tree.nodes| && i != s.current ==>
      RunOp(s, AttachExecutor(h)).tree.nodes[i] == s.tree.nodes[i]
  {
  }

  /** `literal(name)` adds a leaf under the cursor and leaves the cursor in
      place. */
  lemma LeafLiteralReturns(s: Scope, name: string)
    requires Coherent(s)
    ensures var (t', e) := AddNode(s.tree, Structure(Protocol.Literal(name)), s.current);
      RunOp(s, LiteralWith(name, [])) == Scope(t', s.current, s.parents[e := s.current])
  {
    var (t', e) := AddNode(s.tree, Structure(Protocol.Literal(name)), s.current);
    var inner := Scope(t', e, s.parents[e := s.current]);
    assert RunOps(inner, []) == inner;
  }

  /** Two nodes added one after the other under the same parent: the
      parent's child list gains both, in order, and each records it. */
  lemma TwoNodesUnderOneParent(t: CommandTree, p1: Payload, p2: Payload, c: nat)
    requires c < |t.nodes|
    ensures var t2 := AddNode(AddNode(t, p1, c).0, p2, c).0; var n := |t.nodes|;
      && |t2.nodes| == n + 2
      && t2.nodes[c].children == t.nodes[c].children + [n, n + 1]
      && t2.nodes[n] == Node(p1, Some(c), [])
      && t2.nodes[n + 1] == Node(p2, Some(c), [])
  {
    var n := |t.nodes|;
    assert (t.nodes[c].children + [n]) + [n + 1] == t.nodes[c].children + [n, n + 1];
  }
}
