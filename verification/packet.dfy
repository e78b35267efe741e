/** `get_command_packet`: the command tree flattened into the client's
    command-tree packet.

    The serializer keeps a stack of (depth, entry index, node) frames,
    starting with the root at entry 0 and depth 0. It pops the top frame;
    if its depth is 64 or more it stops at once (the source logs "depth
    exceeded" and breaks out of the loop, abandoning every frame still on
    the stack); otherwise, for each child of the node in order that carries
    a `Structure`, it appends an entry (the child's node data, executable,
    no children, no redirect), appends that entry's index to the popped
    entry's child list, and pushes a frame for the child one level deeper.
    Executor children carry no `Structure` and are not emitted. The root
    entry is the only one marked not executable; every other entry is
    marked executable whether or not it has a handler.

    Besides the packet, the model keeps for each entry the tree node it was
    made from (`origin`) and the entry whose child list holds it (`from`);
    the source has both only transiently, in its stack frames. */
module Packet {
  import opened Basics
  import opened Protocol
  import opened Tree

  /** Depth at which the serializer gives up. */
  const MAX_DEPTH: nat := 64

  datatype Frame = Frame(depth: nat, ptr: nat, node: nat)

  datatype Walk = Walk(commands: seq<ProtoNode>, origin: seq<nat>, from: seq<nat>, stack: seq<Frame>)

  /** Indices are in range: what each step needs to be defined. */
  predicate Shape(t: CommandTree, w: Walk) {
    && ValidIndices(t)
    && |w.origin| == |w.commands| == |w.from|
    && (forall i :: 0 <= i < |w.origin| ==> w.origin[i] < |t.nodes|)
    && (forall k :: 0 <= k < |w.stack| ==> w.stack[k].ptr < |w.commands| && w.stack[k].node < |t.nodes|)
  }

  /** The largest number of children any node has. */
  function MaxFanout(nodes: seq<Node>): (m: nat)
    ensures forall i :: 0 <= i < |nodes| ==> |nodes[i].children| <= m
  {
    if |nodes| == 0 then 0
    else
      var rest := MaxFanout(nodes[1..]);
      assert forall i :: 1 <= i < |nodes| ==> nodes[i] == nodes[1..][i - 1];
      if |nodes[0].children| > rest then |nodes[0].children| else rest
  }

  /** Termination measure of one frame: a frame at depth `d` below the limit
      can be replaced by at most `fan` frames at depth `d + 1`. */
  function Budget(d: nat, fan: nat): (b: nat)
    ensures b >= 1
    decreases MAX_DEPTH - d
  {
    if d >= MAX_DEPTH then 1 else 1 + Times(fan, Budget(d + 1, fan))
  }

  /** `k * b`, by repeated addition, so that the measure stays linear. */
  function Times(k: nat, b: nat): nat
  {
    if k == 0 then 0 else b + Times(k - 1, b)
  }

  lemma {:induction false} TimesMonotone(a: nat, c: nat, b: nat)
    requires a <= c
    ensures Times(a, b) <= Times(c, b)
    decreases c
  {
    if a < c {
      TimesMonotone(a, c - 1, b);
    }
  }

  function Weight(stack: seq<Frame>, fan: nat): nat
  {
    if |stack| == 0 then 0 else Weight(stack[..|stack| - 1], fan) + Budget(stack[|stack| - 1].depth, fan)
  }

  /** Unfolds one frame off the top of a stack's weight. */
  lemma WeightPop(stack: seq<Frame>, fan: nat)
    requires |stack| > 0
    ensures Weight(stack, fan) == Weight(stack[..|stack| - 1], fan) + Budget(stack[|stack| - 1].depth, fan)
  {
  }

  /** Unfolds one level of the budget below the depth limit. */
  lemma BudgetStep(d: nat, fan: nat)
    requires d < MAX_DEPTH
    ensures Budget(d, fan) == 1 + Times(fan, Budget(d + 1, fan))
  {
  }

  /** A stack whose frames from position `n` on all have depth `d` weighs its
      first `n` frames plus one budget per further frame. */
  lemma {:induction false} WeightOfPushed(stack: seq<Frame>, n: nat, d: nat, fan: nat)
    requires n <= |stack|
    requires forall k :: n <= k < |stack| ==> stack[k].depth == d
    ensures Weight(stack, fan) == Weight(stack[..n], fan) + Times(|stack| - n, Budget(d, fan))
    decreases |stack|
  {
    if |stack| > n {
      var s' := stack[..|stack| - 1];
      assert s'[..n] == stack[..n];
      WeightOfPushed(s', n, d, fan);
    } else {
      assert stack[..n] == stack;
    }
  }

  /** The nodes among `cs` the serializer emits: those carrying a `Structure`. */
  function StructureChildren(t: CommandTree, cs: seq<nat>): (r: seq<nat>)
    requires forall k :: 0 <= k < |cs| ==> cs[k] < |t.nodes|
    ensures |r| <= |cs|
    ensures forall k :: 0 <= k < |r| ==> r[k] in cs && IsStructure(t, r[k])
  {
    if |cs| == 0 then []
    else (if IsStructure(t, cs[0]) then [cs[0]] else []) + StructureChildren(t, cs[1..])
  }

  /** The nodes a list of entries was made from. */
  function Origins(origin: seq<nat>, ids: seq<nat>): (r: seq<nat>)
    requires forall k :: 0 <= k < |ids| ==> ids[k] < |origin|
    ensures |r| == |ids|
  {
    seq(|ids|, k requires 0 <= k < |ids| => origin[ids[k]])
  }

  /** The entry indices of the frames on a stack, bottom first. */
  function Ptrs(stack: seq<Frame>): (r: seq<nat>)
    ensures |r| == |stack|
  {
    seq(|stack|, k requires 0 <= k < |stack| => stack[k].ptr)
  }

  /** One child of the popped frame's node: emitted when it is a command node. */
  function EmitChild(t: CommandTree, w: Walk, f: Frame, c: nat): (r: Walk)
    requires Shape(t, w) && f.ptr < |w.commands| && c < |t.nodes|
    ensures Shape(t, r) && |w.commands| <= |r.commands|
    ensures r.stack == w.stack || r.stack == w.stack + [Frame(f.depth + 1, |w.commands|, c)]
  {
    match t.nodes[c].payload
    case Executor(_) => w
    case Structure(data) =>
      var ptr := |w.commands|;
      var p := w.commands[f.ptr];
      Walk(w.commands[f.ptr := p.(children := p.children + [ptr])] + [ProtoNode(data, true, [], None)],
           w.origin + [c], w.from + [f.ptr], w.stack + [Frame(f.depth + 1, ptr, c)])
  }

  /** The `each_child` loop over the popped frame's node. */
  function EachChild(t: CommandTree, w: Walk, f: Frame, cs: seq<nat>): (r: Walk)
    requires Shape(t, w) && f.ptr < |w.commands|
    requires forall k :: 0 <= k < |cs| ==> cs[k] < |t.nodes|
    ensures Shape(t, r) && |w.commands| <= |r.commands|
    ensures |w.stack| <= |r.stack| <= |w.stack| + |cs| && r.stack[..|w.stack|] == w.stack
    ensures forall k :: |w.stack| <= k < |r.stack| ==> r.stack[k].depth == f.depth + 1
    decreases |cs|
  {
    if |cs| == 0 then w
    else EachChild(t, EmitChild(t, w, f, cs[0]), f, cs[1..])
  }

  /** Replacing the top frame, below the depth limit, by at most `fan`
      frames one level deeper lowers the measure. */
  lemma ReplaceTopLowersWeight(before: seq<Frame>, after: seq<Frame>, fan: nat)
    requires |before| > 0 && before[|before| - 1].depth < MAX_DEPTH
    requires |before| - 1 <= |after| <= |before| - 1 + fan
    requires after[..|before| - 1] == before[..|before| - 1]
    requires forall k :: |before| - 1 <= k < |after| ==> after[k].depth == before[|before| - 1].depth + 1
    ensures Weight(after, fan) < Weight(before, fan)
  {
    PushedWeight(before, after, fan);
    assert Weight(after, fan) == Weight(before[..|before| - 1], fan)
      + Times(|after| - (|before| - 1), Budget(before[|before| - 1].depth + 1, fan));
    PoppedWeight(before, fan);
    assert Weight(before, fan) == Weight(before[..|before| - 1], fan)
      + 1 + Times(fan, Budget(before[|before| - 1].depth + 1, fan));
    TimesMonotone(|after| - (|before| - 1), fan, Budget(before[|before| - 1].depth + 1, fan));
    SumBelow(Weight(after, fan), Weight(before, fan), Weight(before[..|before| - 1], fan),
             Times(|after| - (|before| - 1), Budget(before[|before| - 1].depth + 1, fan)),
             Times(fan, Budget(before[|before| - 1].depth + 1, fan)));
  }

  lemma SumBelow(lhs: int, rhs: int, common: int, x: int, y: int)
    requires lhs == common + x && rhs == common + 1 + y && x <= y
    ensures lhs < rhs
  {
  }

  /** The stack after the replacement weighs the frames below the old top
      plus one budget per new frame. */
  lemma PushedWeight(before: seq<Frame>, after: seq<Frame>, fan: nat)
    requires |before| > 0 && |before| - 1 <= |after|
    requires after[..|before| - 1] == before[..|before| - 1]
    requires forall k :: |before| - 1 <= k < |after| ==> after[k].depth == before[|before| - 1].depth + 1
    ensures var n := |before| - 1;
      Weight(after, fan) == Weight(before[..n], fan) + Times(|after| - n, Budget(before[n].depth + 1, fan))
  {
    var n := |before| - 1;
    WeightOfPushed(after, n, before[n].depth + 1, fan);
  }

  /** The stack before the replacement weighs the frames below its top plus
      the top frame's budget, unfolded one level. */
  lemma PoppedWeight(before: seq<Frame>, fan: nat)
    requires |before| > 0 && before[|before| - 1].depth < MAX_DEPTH
    ensures Weight(before, fan) == Weight(before[..|before| - 1], fan)
      + 1 + Times(fan, Budget(before[|before| - 1].depth + 1, fan))
  {
    WeightPop(before, fan);
    BudgetStep(before[|before| - 1].depth, fan);
    SumStep(Weight(before, fan), Weight(before[..|before| - 1], fan),
            Budget(before[|before| - 1].depth, fan), Times(fan, Budget(before[|before| - 1].depth + 1, fan)));
  }

  lemma SumStep(total: int, below: int, top: int, rest: int)
    requires total == below + top && top == 1 + rest
    ensures total == below + 1 + rest
  {
  }

  /** The `while let Some(..) = stack.pop()` loop. A frame at the depth limit
      ends the walk; it and every frame below it stay on the stack,
      unexpanded. */
  function Run(t: CommandTree, w: Walk, fan: nat): (r: Walk)
    requires Shape(t, w)
    requires forall i :: 0 <= i < |t.nodes| ==> |t.nodes[i].children| <= fan
    ensures Shape(t, r) && |w.commands| <= |r.commands|
    ensures Stopped(r)
    decreases Weight(w.stack, fan)
  {
    if |w.stack| == 0 then w
    else
      var top := w.stack[|w.stack| - 1];
      if top.depth >= MAX_DEPTH then w
      else
        PopKeepsShape(t, w);
        var next := EachChild(t, w.(stack := w.stack[..|w.stack| - 1]), top, t.nodes[top.node].children);
        ExpandLowersWeight(t, w, fan);
        Run(t, next, fan)
  }

  lemma PopKeepsShape(t: CommandTree, w: Walk)
    requires Shape(t, w) && |w.stack| > 0
    ensures Shape(t, w.(stack := w.stack[..|w.stack| - 1]))
  {
  }

  /** The loop has ended: the stack is empty or its top frame is at the
      depth limit. */
  predicate Stopped(w: Walk) {
    |w.stack| == 0 || w.stack[|w.stack| - 1].depth >= MAX_DEPTH
  }

  /** Before the loop: the root entry alone, and the root's frame. */
  function Start(t: CommandTree): Walk
  {
    Walk([ProtoNode(Root, false, [], None)], [t.root], [0], [Frame(0, 0, t.root)])
  }

  /** The whole walk. */
  function Serialize(t: CommandTree): (r: Walk)
    requires ValidIndices(t)
    ensures Shape(t, r) && Links(t, r) && |r.commands| >= 1
  {
    StartKeepsInv(t);
    Run(t, Start(t), MaxFanout(t.nodes))
  }

  /** `get_command_packet`: the entries, with the root at index 0. */
  function GetCommandPacket(t: CommandTree): (p: CommandTreePacket)
    requires ValidIndices(t)
  {
    CommandTreePacket(Serialize(t).commands, 0)
  }

  // ---------------------------------------------------------------------
  // What the walk keeps true.

  predicate FromBefore(w: Walk) {
    forall i :: 1 <= i < |w.from| ==> w.from[i] < i
  }

  /** Number of child links from the root entry down to entry `i`. */
  function EntryDepth(from: seq<nat>, i: nat): nat
    requires i < |from| && forall j :: 1 <= j < |from| ==> from[j] < j
    decreases i
  {
    if i == 0 then 0 else 1 + EntryDepth(from, from[i])
  }

  /** The root entry comes first and is the only one not executable; every
      other entry copies the node data of the command node it was made from;
      no entry redirects. */
  predicate Entries(t: CommandTree, w: Walk)
    requires Shape(t, w)
  {
    && |w.commands| >= 1
    && w.commands[0].data == Root
    && !w.commands[0].executable
    && w.origin[0] == t.root
    && (forall i :: 0 <= i < |w.commands| ==> w.commands[i].redirect == None)
    && (forall i :: 1 <= i < |w.commands| ==> EntryCopies(t, w, i))
  }

  predicate EntryCopies(t: CommandTree, w: Walk, i: nat)
    requires Shape(t, w) && i < |w.commands|
  {
    && IsStructure(t, w.origin[i])
    && w.commands[i].data == t.nodes[w.origin[i]].payload.data
    && w.commands[i].executable
  }

  /** Child lists point forward; every entry but the root is listed by the
      entry `from` names, which was made from its tree parent, and by no
      other entry. */
  predicate Links(t: CommandTree, w: Walk)
    requires Shape(t, w)
  {
    && FromBefore(w)
    && (forall i :: 1 <= i < |w.commands| ==> i in w.commands[w.from[i]].children)
    && (forall i :: 1 <= i < |w.commands| ==> w.origin[i] in t.nodes[w.origin[w.from[i]]].children)
    && (forall j, k :: 0 <= j < |w.commands| && 0 <= k < |w.commands[j].children| ==>
          j < w.commands[j].children[k] < |w.commands| && w.from[w.commands[j].children[k]] == j)
  }

  /** Frames name distinct, increasing entries that have no children yet, at
      the entry's own depth. */
  predicate StackOk(t: CommandTree, w: Walk)
    requires Shape(t, w) && FromBefore(w)
  {
    && (forall k1, k2 :: 0 <= k1 < k2 < |w.stack| ==> w.stack[k1].ptr < w.stack[k2].ptr)
    && (forall k :: 0 <= k < |w.stack| ==> FrameOk(w, w.stack[k]))
  }

  predicate FrameOk(w: Walk, f: Frame)
    requires |w.origin| == |w.commands| == |w.from| && FromBefore(w)
  {
    && f.ptr < |w.commands|
    && f.node == w.origin[f.ptr]
    && w.commands[f.ptr].children == []
    && f.depth == EntryDepth(w.from, f.ptr)
  }

  /** Every entry other than `open` that has no frame on the stack has been
      expanded: its children are the entries of the command-node children of
      its node, in order. */
  predicate Expanded(t: CommandTree, w: Walk, open: int)
    requires Shape(t, w) && Links(t, w)
  {
    forall i :: 0 <= i < |w.commands| && i != open && i !in Ptrs(w.stack) ==> ExpandedAt(t, w, i)
  }

  predicate ExpandedAt(t: CommandTree, w: Walk, i: nat)
    requires Shape(t, w) && Links(t, w) && i < |w.commands|
  {
    Origins(w.origin, w.commands[i].children) == StructureChildren(t, t.nodes[w.origin[i]].children)
  }

  predicate Inv(t: CommandTree, w: Walk, open: int) {
    && Shape(t, w)
    && Entries(t, w)
    && Links(t, w)
    && StackOk(t, w)
    && Expanded(t, w, open)
  }

  /** The frame being expanded: its entry is off the stack. */
  predicate OpenFrame(t: CommandTree, w: Walk, f: Frame)
    requires Shape(t, w) && FromBefore(w)
  {
    && f.ptr < |w.commands|
    && f.ptr !in Ptrs(w.stack)
    && f.node == w.origin[f.ptr]
    && f.depth == EntryDepth(w.from, f.ptr)
  }

  lemma {:induction false} EntryDepthExtend(from: seq<nat>, x: nat, i: nat)
    requires forall j :: 1 <= j < |from| ==> from[j] < j
    requires x < |from| && i < |from|
    ensures EntryDepth(from + [x], i) == EntryDepth(from, i)
    decreases i
  {
    if i > 0 {
      EntryDepthExtend(from, x, from[i]);
    }
  }

  /** What emitting a command-node child changes, entry by entry. */
  lemma EmitFacts(t: CommandTree, w: Walk, f: Frame, c: nat)
    requires Shape(t, w) && f.ptr < |w.commands| && c < |t.nodes| && IsStructure(t, c)
    ensures var r := EmitChild(t, w, f, c); var n := |w.commands|;
      && |r.commands| == n + 1
      && r.origin == w.origin + [c]
      && r.from == w.from + [f.ptr]
      && r.stack == w.stack + [Frame(f.depth + 1, n, c)]
      && r.commands[n] == ProtoNode(t.nodes[c].payload.data, true, [], None)
      && r.commands[f.ptr] == w.commands[f.ptr].(children := w.commands[f.ptr].children + [n])
      && (forall i :: 0 <= i < n && i != f.ptr ==> r.commands[i] == w.commands[i])
  {
  }

  lemma EmitKeepsEntries(t: CommandTree, w: Walk, f: Frame, c: nat)
    requires Shape(t, w) && Entries(t, w) && f.ptr < |w.commands| && c < |t.nodes| && IsStructure(t, c)
    ensures Entries(t, EmitChild(t, w, f, c))
  {
    EmitFacts(t, w, f, c);
    var r := EmitChild(t, w, f, c);
    forall i | 1 <= i < |r.commands| ensures EntryCopies(t, r, i) {
      if i < |w.commands| {
        assert EntryCopies(t, w, i);
      }
    }
  }

  lemma EmitKeepsLinks(t: CommandTree, w: Walk, f: Frame, c: nat)
    requires Shape(t, w) && Links(t, w) && FromBefore(w) && OpenFrame(t, w, f)
    requires c in t.nodes[f.node].children && IsStructure(t, c)
    ensures Links(t, EmitChild(t, w, f, c))
  {
    EmitFacts(t, w, f, c);
    EmitKeepsParentLinks(t, w, f, c);
    EmitKeepsChildLinks(t, w, f, c);
  }

  /** After emitting, every entry but the root is still listed by its `from`
      entry, which was made from its tree parent. */
  lemma EmitKeepsParentLinks(t: CommandTree, w: Walk, f: Frame, c: nat)
    requires Shape(t, w) && Links(t, w) && FromBefore(w) && OpenFrame(t, w, f)
    requires c in t.nodes[f.node].children && IsStructure(t, c)
    ensures var r := EmitChild(t, w, f, c);
      forall i :: 1 <= i < |r.commands| ==>
        && i in r.commands[r.from[i]].children
        && r.origin[i] in t.nodes[r.origin[r.from[i]]].children
  {
    EmitFacts(t, w, f, c);
    var r := EmitChild(t, w, f, c);
    var n := |w.commands|;
    forall i | 1 <= i < |r.commands|
      ensures i in r.commands[r.from[i]].children
      ensures r.origin[i] in t.nodes[r.origin[r.from[i]]].children
    {
      if i < n {
        var j := w.from[i];
        assert i in w.commands[j].children;
        assert w.commands[j].children <= r.commands[j].children;
      }
    }
  }

  /** After emitting, child lists still point forward, to entries whose
      `from` names the listing entry. */
  lemma EmitKeepsChildLinks(t: CommandTree, w: Walk, f: Frame, c: nat)
    requires Shape(t, w) && Links(t, w) && FromBefore(w) && OpenFrame(t, w, f)
    requires c < |t.nodes| && IsStructure(t, c)
    ensures var r := EmitChild(t, w, f, c);
      forall j, k :: 0 <= j < |r.commands| && 0 <= k < |r.commands[j].children| ==>
        j < r.commands[j].children[k] < |r.commands| && r.from[r.commands[j].children[k]] == j
  {
    EmitFacts(t, w, f, c);
    var r := EmitChild(t, w, f, c);
    var n := |w.commands|;
    forall j, k | 0 <= j < |r.commands| && 0 <= k < |r.commands[j].children|
      ensures j < r.commands[j].children[k] < |r.commands| && r.from[r.commands[j].children[k]] == j
    {
      if j < n && k < |w.commands[j].children| {
        assert r.commands[j].children[k] == w.commands[j].children[k];
      }
    }
  }

  lemma EmitKeepsStack(t: CommandTree, w: Walk, f: Frame, c: nat)
    requires Shape(t, w) && FromBefore(w) && StackOk(t, w) && OpenFrame(t, w, f)
    requires c < |t.nodes| && IsStructure(t, c)
    ensures FromBefore(EmitChild(t, w, f, c))
    ensures StackOk(t, EmitChild(t, w, f, c))
  {
    EmitFacts(t, w, f, c);
    var r := EmitChild(t, w, f, c);
    EntryDepthExtend(w.from, f.ptr, f.ptr);
    forall k | 0 <= k < |w.stack| ensures FrameOk(r, r.stack[k]) {
      EmitKeepsFrame(t, w, f, c, k);
    }
  }

  lemma EmitKeepsFrame(t: CommandTree, w: Walk, f: Frame, c: nat, k: nat)
    requires Shape(t, w) && FromBefore(w) && StackOk(t, w) && OpenFrame(t, w, f)
    requires c < |t.nodes| && IsStructure(t, c) && k < |w.stack|
    ensures FromBefore(EmitChild(t, w, f, c))
    ensures FrameOk(EmitChild(t, w, f, c), w.stack[k])
  {
    EmitFacts(t, w, f, c);
    var g := w.stack[k];
    assert FrameOk(w, g);
    assert g.ptr != f.ptr by { assert Ptrs(w.stack)[k] == g.ptr; }
    EntryDepthExtend(w.from, f.ptr, g.ptr);
  }

  lemma EmitKeepsOpen(t: CommandTree, w: Walk, f: Frame, c: nat)
    requires Shape(t, w) && FromBefore(w) && OpenFrame(t, w, f)
    requires c < |t.nodes| && IsStructure(t, c)
    ensures FromBefore(EmitChild(t, w, f, c))
    ensures OpenFrame(t, EmitChild(t, w, f, c), f)
  {
    EmitFacts(t, w, f, c);
    var r := EmitChild(t, w, f, c);
    assert Ptrs(r.stack) == Ptrs(w.stack) + [|w.commands|];
    EntryDepthExtend(w.from, f.ptr, f.ptr);
  }

  lemma EmitKeepsExpanded(t: CommandTree, w: Walk, f: Frame, c: nat)
    requires Shape(t, w) && Links(t, w) && Expanded(t, w, f.ptr) && OpenFrame(t, w, f)
    requires c in t.nodes[f.node].children && IsStructure(t, c)
    ensures Links(t, EmitChild(t, w, f, c))
    ensures Expanded(t, EmitChild(t, w, f, c), f.ptr)
    ensures var r := EmitChild(t, w, f, c);
      Origins(r.origin, r.commands[f.ptr].children)
        == Origins(w.origin, w.commands[f.ptr].children) + StructureChildren(t, [c])
  {
    EmitFacts(t, w, f, c);
    EmitKeepsLinks(t, w, f, c);
    var r := EmitChild(t, w, f, c);
    var n := |w.commands|;
    assert Ptrs(r.stack) == Ptrs(w.stack) + [n];
    forall i | 0 <= i < |r.commands| && i != f.ptr && i !in Ptrs(r.stack) ensures ExpandedAt(t, r, i) {
      assert i < n;
      assert ExpandedAt(t, w, i);
      assert Origins(r.origin, r.commands[i].children) == Origins(w.origin, w.commands[i].children);
    }
    assert StructureChildren(t, [c]) == [c];
  }

  /** Emitting one child keeps the invariant and extends the open entry's
      child list by that child when it is a command node. */
  lemma EmitKeepsInv(t: CommandTree, w: Walk, f: Frame, c: nat)
    requires Inv(t, w, f.ptr) && OpenFrame(t, w, f) && c in t.nodes[f.node].children
    ensures var r := EmitChild(t, w, f, c);
      && Inv(t, r, f.ptr) && OpenFrame(t, r, f)
      && Origins(r.origin, r.commands[f.ptr].children)
           == Origins(w.origin, w.commands[f.ptr].children) + StructureChildren(t, [c])
  {
    if IsStructure(t, c) {
      EmitKeepsEntries(t, w, f, c);
      EmitKeepsLinks(t, w, f, c);
      EmitKeepsStack(t, w, f, c);
      EmitKeepsOpen(t, w, f, c);
      EmitKeepsExpanded(t, w, f, c);
    } else {
      assert StructureChildren(t, [c]) == [];
      assert Origins(w.origin, w.commands[f.ptr].children) + [] == Origins(w.origin, w.commands[f.ptr].children);
    }
  }

  lemma {:induction false} EachChildKeepsInv(t: CommandTree, w: Walk, f: Frame, cs: seq<nat>)
    requires Inv(t, w, f.ptr) && OpenFrame(t, w, f)
    requires forall k :: 0 <= k < |cs| ==> cs[k] in t.nodes[f.node].children
    ensures Inv(t, EachChild(t, w, f, cs), f.ptr) && OpenFrame(t, EachChild(t, w, f, cs), f)
    decreases |cs|
  {
    if |cs| > 0 {
      EmitKeepsInv(t, w, f, cs[0]);
      EachChildKeepsInv(t, EmitChild(t, w, f, cs[0]), f, cs[1..]);
    }
  }

  /** The popped entry's child list stays within the entry table. */
  predicate KidsInRange(w: Walk, p: nat) {
    && p < |w.commands|
    && |w.origin| == |w.commands|
    && forall k :: 0 <= k < |w.commands[p].children| ==> w.commands[p].children[k] < |w.commands|
  }

  lemma EmitOrigins(t: CommandTree, w: Walk, f: Frame, c: nat)
    requires Shape(t, w) && KidsInRange(w, f.ptr) && c < |t.nodes|
    ensures var r := EmitChild(t, w, f, c);
      && KidsInRange(r, f.ptr)
      && Origins(r.origin, r.commands[f.ptr].children)
           == Origins(w.origin, w.commands[f.ptr].children) + StructureChildren(t, [c])
  {
    var a := Origins(w.origin, w.commands[f.ptr].children);
    if IsStructure(t, c) {
      EmitFacts(t, w, f, c);
      assert StructureChildren(t, [c]) == [c];
    } else {
      assert StructureChildren(t, [c]) == [];
      assert a + [] == a;
    }
  }

  lemma StructureChildrenSplit(t: CommandTree, cs: seq<nat>)
    requires |cs| > 0 && forall k :: 0 <= k < |cs| ==> cs[k] < |t.nodes|
    ensures StructureChildren(t, cs) == StructureChildren(t, [cs[0]]) + StructureChildren(t, cs[1..])
  {
    assert [cs[0]][1..] == [];
  }

  lemma AppendAssoc(a: seq<nat>, b: seq<nat>, c: seq<nat>)
    ensures (a + b) + c == a + (b + c)
  {
  }

  /** Expanding a node appends to the popped entry's child list one entry per
      command-node child, in order. */
  lemma {:induction false} EachChildEmitsInOrder(t: CommandTree, w: Walk, f: Frame, cs: seq<nat>)
    requires Shape(t, w) && KidsInRange(w, f.ptr)
    requires forall k :: 0 <= k < |cs| ==> cs[k] < |t.nodes|
    ensures var r := EachChild(t, w, f, cs);
      && KidsInRange(r, f.ptr)
      && Origins(r.origin, r.commands[f.ptr].children)
           == Origins(w.origin, w.commands[f.ptr].children) + StructureChildren(t, cs)
    decreases |cs|
  {
    var a := Origins(w.origin, w.commands[f.ptr].children);
    if |cs| == 0 {
      assert a + [] == a;
    } else {
      var w1 := EmitChild(t, w, f, cs[0]);
      EmitOrigins(t, w, f, cs[0]);
      EachChildEmitsInOrder(t, w1, f, cs[1..]);
      var b := StructureChildren(t, [cs[0]]);
      var c := StructureChildren(t, cs[1..]);
      var r := EachChild(t, w1, f, cs[1..]);
      assert r == EachChild(t, w, f, cs);
      assert Origins(w1.origin, w1.commands[f.ptr].children) == a + b;
      assert Origins(r.origin, r.commands[f.ptr].children) == (a + b) + c;
      StructureChildrenSplit(t, cs);
      AppendAssoc(a, b, c);
    }
  }

  /** Popping the top frame opens its entry. */
  lemma PopOpensTop(t: CommandTree, w: Walk)
    requires Inv(t, w, -1) && |w.stack| > 0
    ensures var f := w.stack[|w.stack| - 1]; var popped := w.(stack := w.stack[..|w.stack| - 1]);
      && Inv(t, popped, f.ptr) && OpenFrame(t, popped, f)
      && w.commands[f.ptr].children == []
  {
    var m := |w.stack| - 1;
    var f := w.stack[m];
    var popped := w.(stack := w.stack[..m]);
    assert FrameOk(w, f);
    assert Ptrs(popped.stack) == Ptrs(w.stack)[..m];
    assert f.ptr !in Ptrs(popped.stack) by {
      forall k | 0 <= k < m ensures Ptrs(popped.stack)[k] != f.ptr {
        assert w.stack[k].ptr < w.stack[m].ptr;
      }
    }
    PopKeepsEntries(t, w);
    PopLeavesOthersExpanded(t, w);
  }

  lemma PopKeepsEntries(t: CommandTree, w: Walk)
    requires Inv(t, w, -1) && |w.stack| > 0
    ensures var popped := w.(stack := w.stack[..|w.stack| - 1]);
      Shape(t, popped) && Entries(t, popped) && Links(t, popped) && StackOk(t, popped)
  {
    var popped := w.(stack := w.stack[..|w.stack| - 1]);
    forall i | 1 <= i < |popped.commands| ensures EntryCopies(t, popped, i) {
      assert EntryCopies(t, w, i);
    }
  }

  lemma PopLeavesOthersExpanded(t: CommandTree, w: Walk)
    requires Inv(t, w, -1) && |w.stack| > 0
    ensures var popped := w.(stack := w.stack[..|w.stack| - 1]);
      Shape(t, popped) && Links(t, popped) && Expanded(t, popped, w.stack[|w.stack| - 1].ptr)
  {
    var m := |w.stack| - 1;
    var popped := w.(stack := w.stack[..m]);
    assert Ptrs(w.stack) == Ptrs(popped.stack) + [w.stack[m].ptr];
    forall i | 0 <= i < |popped.commands| && i != w.stack[m].ptr && i !in Ptrs(popped.stack)
      ensures ExpandedAt(t, popped, i)
    {
      assert ExpandedAt(t, w, i);
    }
  }

  /** Expanding the top frame closes its entry again. */
  lemma ExpandKeepsInv(t: CommandTree, w: Walk)
    requires Inv(t, w, -1) && |w.stack| > 0
    ensures var f := w.stack[|w.stack| - 1];
      Inv(t, EachChild(t, w.(stack := w.stack[..|w.stack| - 1]), f, t.nodes[f.node].children), -1)
  {
    PopOpensTop(t, w);
    ExpandOpenFrame(t, w.(stack := w.stack[..|w.stack| - 1]), w.stack[|w.stack| - 1]);
  }

  /** Emitting every child of the open frame's node expands its entry. */
  lemma ExpandOpenFrame(t: CommandTree, w: Walk, f: Frame)
    requires Inv(t, w, f.ptr) && OpenFrame(t, w, f) && w.commands[f.ptr].children == []
    ensures Inv(t, EachChild(t, w, f, t.nodes[f.node].children), -1)
  {
    EachChildKeepsInv(t, w, f, t.nodes[f.node].children);
    EmptyEntryGetsAllChildren(t, w, f, t.nodes[f.node].children);
    CloseOpenEntry(t, EachChild(t, w, f, t.nodes[f.node].children), f.ptr);
  }

  lemma EmptyEntryGetsAllChildren(t: CommandTree, w: Walk, f: Frame, cs: seq<nat>)
    requires Shape(t, w) && KidsInRange(w, f.ptr) && w.commands[f.ptr].children == []
    requires forall k :: 0 <= k < |cs| ==> cs[k] < |t.nodes|
    ensures var r := EachChild(t, w, f, cs);
      KidsInRange(r, f.ptr) && Origins(r.origin, r.commands[f.ptr].children) == StructureChildren(t, cs)
  {
    EachChildEmitsInOrder(t, w, f, cs);
    assert Origins(w.origin, w.commands[f.ptr].children) == [];
    assert [] + StructureChildren(t, cs) == StructureChildren(t, cs);
  }

  /** Once the open entry is expanded, no entry is left open. */
  lemma CloseOpenEntry(t: CommandTree, w: Walk, p: nat)
    requires Inv(t, w, p) && p < |w.commands| && ExpandedAt(t, w, p)
    ensures Inv(t, w, -1)
  {
  }

  lemma {:induction false} RunKeepsInv(t: CommandTree, w: Walk, fan: nat)
    requires Inv(t, w, -1)
    requires forall i :: 0 <= i < |t.nodes| ==> |t.nodes[i].children| <= fan
    ensures Inv(t, Run(t, w, fan), -1)
    decreases Weight(w.stack, fan)
  {
    if |w.stack| > 0 && w.stack[|w.stack| - 1].depth < MAX_DEPTH {
      var f := w.stack[|w.stack| - 1];
      var next := EachChild(t, w.(stack := w.stack[..|w.stack| - 1]), f, t.nodes[f.node].children);
      ExpandKeepsInv(t, w);
      RunStep(t, w, fan);
      RunKeepsInv(t, next, fan);
    }
  }

  /** One round of the loop: the walk continues from the expanded top frame,
      with a smaller weight. */
  lemma RunStep(t: CommandTree, w: Walk, fan: nat)
    requires Shape(t, w) && |w.stack| > 0 && w.stack[|w.stack| - 1].depth < MAX_DEPTH
    requires forall i :: 0 <= i < |t.nodes| ==> |t.nodes[i].children| <= fan
    ensures var f := w.stack[|w.stack| - 1];
      var next := EachChild(t, w.(stack := w.stack[..|w.stack| - 1]), f, t.nodes[f.node].children);
      && Shape(t, next)
      && Weight(next.stack, fan) < Weight(w.stack, fan)
      && Run(t, w, fan) == Run(t, next, fan)
  {
    ExpandLowersWeight(t, w, fan);
  }

  /** Expanding the top frame lowers the weight of the stack. */
  lemma ExpandLowersWeight(t: CommandTree, w: Walk, fan: nat)
    requires Shape(t, w) && |w.stack| > 0 && w.stack[|w.stack| - 1].depth < MAX_DEPTH
    requires forall i :: 0 <= i < |t.nodes| ==> |t.nodes[i].children| <= fan
    ensures var f := w.stack[|w.stack| - 1];
      var next := EachChild(t, w.(stack := w.stack[..|w.stack| - 1]), f, t.nodes[f.node].children);
      Weight(next.stack, fan) < Weight(w.stack, fan)
  {
    var n := |w.stack| - 1;
    var f := w.stack[n];
    var popped := w.(stack := w.stack[..n]);
    var cs := t.nodes[f.node].children;
    var next := EachChild(t, popped, f, cs);
    assert |cs| <= fan;
    assert next.stack[..n] == w.stack[..n];
    ReplaceTopLowersWeight(w.stack, next.stack, fan);
  }

  lemma SerializeKeepsInv(t: CommandTree)
    requires ValidIndices(t)
    ensures Inv(t, Serialize(t), -1)
  {
    StartKeepsInv(t);
  }

  lemma StartKeepsInv(t: CommandTree)
    requires ValidIndices(t)
    ensures Inv(t, Run(t, Start(t), MaxFanout(t.nodes)), -1)
  {
    var w := Start(t);
    assert Ptrs(w.stack) == [0];
    assert FrameOk(w, w.stack[0]);
    assert Inv(t, w, -1);
    RunKeepsInv(t, w, MaxFanout(t.nodes));
  }

  // ---------------------------------------------------------------------
  // How deep entries lie.

  /** No entry lies more than 64 child links below the root entry. */
  predicate DepthBounded(w: Walk)
    requires |w.from| == |w.commands| && FromBefore(w)
  {
    forall i :: 0 <= i < |w.from| ==> EntryDepth(w.from, i) <= MAX_DEPTH
  }

  lemma EmitKeepsDepthBounded(t: CommandTree, w: Walk, f: Frame, c: nat)
    requires Shape(t, w) && FromBefore(w) && DepthBounded(w) && c < |t.nodes|
    requires f.ptr < |w.commands| && EntryDepth(w.from, f.ptr) < MAX_DEPTH
    ensures var r := EmitChild(t, w, f, c);
      && FromBefore(r) && DepthBounded(r) && EntryDepth(r.from, f.ptr) == EntryDepth(w.from, f.ptr)
  {
    if IsStructure(t, c) {
      EmitFacts(t, w, f, c);
      var r := EmitChild(t, w, f, c);
      EntryDepthExtend(w.from, f.ptr, f.ptr);
      forall i | 0 <= i < |r.from| ensures EntryDepth(r.from, i) <= MAX_DEPTH {
        if i < |w.from| {
          EntryDepthExtend(w.from, f.ptr, i);
        } else {
          EntryDepthExtend(w.from, f.ptr, f.ptr);
        }
      }
    }
  }

  lemma {:induction false} EachChildKeepsDepthBounded(t: CommandTree, w: Walk, f: Frame, cs: seq<nat>)
    requires Shape(t, w) && FromBefore(w) && DepthBounded(w)
    requires forall k :: 0 <= k < |cs| ==> cs[k] < |t.nodes|
    requires f.ptr < |w.commands| && EntryDepth(w.from, f.ptr) < MAX_DEPTH
    ensures var r := EachChild(t, w, f, cs); FromBefore(r) && DepthBounded(r)
    decreases |cs|
  {
    if |cs| > 0 {
      EmitKeepsDepthBounded(t, w, f, cs[0]);
      EachChildKeepsDepthBounded(t, EmitChild(t, w, f, cs[0]), f, cs[1..]);
    }
  }

  lemma {:induction false} RunKeepsDepthBounded(t: CommandTree, w: Walk, fan: nat)
    requires Inv(t, w, -1) && DepthBounded(w)
    requires forall i :: 0 <= i < |t.nodes| ==> |t.nodes[i].children| <= fan
    ensures var r := Run(t, w, fan); FromBefore(r) && DepthBounded(r)
    decreases Weight(w.stack, fan)
  {
    if |w.stack| > 0 && w.stack[|w.stack| - 1].depth < MAX_DEPTH {
      var f := w.stack[|w.stack| - 1];
      var popped := w.(stack := w.stack[..|w.stack| - 1]);
      var next := EachChild(t, popped, f, t.nodes[f.node].children);
      assert FrameOk(w, f);
      EachChildKeepsDepthBounded(t, popped, f, t.nodes[f.node].children);
      ExpandKeepsInv(t, w);
      RunStep(t, w, fan);
      RunKeepsDepthBounded(t, next, fan);
    }
  }

  /** The walk never creates an entry deeper than the limit. */
  lemma SerializeIsDepthBounded(t: CommandTree)
    requires ValidIndices(t)
    ensures var w := Serialize(t); |w.from| == |w.commands| && FromBefore(w) && DepthBounded(w)
  {
    var w := Start(t);
    assert Ptrs(w.stack) == [0];
    assert FrameOk(w, w.stack[0]);
    assert Inv(t, w, -1);
    RunKeepsDepthBounded(t, w, MaxFanout(t.nodes));
  }

  // ---------------------------------------------------------------------
  // The packet.

  /** The root entry is at index 0 and is the only entry not marked
      executable; every other entry carries the node data of a command node
      of the tree (never an executor); no entry redirects. */
  lemma PacketEntries(t: CommandTree)
    requires ValidIndices(t)
    ensures var p := GetCommandPacket(t); var w := Serialize(t);
      && p.rootIndex == 0 && p.commands == w.commands && |p.commands| >= 1
      && p.commands[0] == ProtoNode(Root, false, p.commands[0].children, None)
      && (forall i :: 0 <= i < |p.commands| ==> p.commands[i].redirect == None)
      && (forall i :: 1 <= i < |p.commands| ==> p.commands[i].executable)
      && (forall i :: 1 <= i < |p.commands| ==>
            IsStructure(t, w.origin[i]) && p.commands[i].data == t.nodes[w.origin[i]].payload.data)
  {
    SerializeKeepsInv(t);
    var w := Serialize(t);
    forall i | 1 <= i < |w.commands|
      ensures w.commands[i].executable
      ensures IsStructure(t, w.origin[i]) && w.commands[i].data == t.nodes[w.origin[i]].payload.data
    {
      assert EntryCopies(t, w, i);
    }
  }

  /** The entries form a tree rooted at entry 0: child indices point
      forward, and each other entry is listed by exactly one entry, the one
      made from its tree parent. */
  lemma PacketIsTree(t: CommandTree)
    requires ValidIndices(t)
    ensures var w := Serialize(t);
      && (forall j, k :: 0 <= j < |w.commands| && 0 <= k < |w.commands[j].children| ==>
            j < w.commands[j].children[k] < |w.commands|)
      && (forall i :: 1 <= i < |w.commands| ==>
            w.from[i] < i && i in w.commands[w.from[i]].children
            && w.origin[i] in t.nodes[w.origin[w.from[i]]].children)
      && (forall i, j :: 0 <= j < |w.commands| && i in w.commands[j].children ==> j == w.from[i])
  {
    SerializeKeepsInv(t);
  }

  /** Each entry is either expanded, its children being the entries of its
      node's command-node children in the tree's order, or was left on the
      stack with no children; the latter happens only when the walk stopped
      at a frame 64 links below the root. */
  lemma PacketFaithful(t: CommandTree)
    requires ValidIndices(t)
    ensures var w := Serialize(t);
      && (forall i :: 0 <= i < |w.commands| && i !in Ptrs(w.stack) ==>
            Origins(w.origin, w.commands[i].children) == StructureChildren(t, t.nodes[w.origin[i]].children))
      && (forall i :: 0 <= i < |w.commands| && i in Ptrs(w.stack) ==> w.commands[i].children == [])
      && (|w.stack| == 0 || EntryDepth(w.from, w.stack[|w.stack| - 1].ptr) >= MAX_DEPTH)
  {
    SerializeKeepsInv(t);
    var w := Serialize(t);
    forall i | 0 <= i < |w.commands| && i !in Ptrs(w.stack)
      ensures Origins(w.origin, w.commands[i].children) == StructureChildren(t, t.nodes[w.origin[i]].children)
    {
      assert ExpandedAt(t, w, i);
    }
    forall i | 0 <= i < |w.commands| && i in Ptrs(w.stack) ensures w.commands[i].children == [] {
      var k :| 0 <= k < |w.stack| && Ptrs(w.stack)[k] == i;
      assert FrameOk(w, w.stack[k]);
    }
    if |w.stack| > 0 {
      assert FrameOk(w, w.stack[|w.stack| - 1]);
    }
  }

  /** When no entry lies 64 links below the root, the walk expands every
      entry: the packet lists every command-node child of every emitted
      node. */
  lemma ShallowPacketIsComplete(t: CommandTree)
    requires ValidIndices(t)
    requires var w := Serialize(t); forall i :: 0 <= i < |w.commands| ==> EntryDepth(w.from, i) < MAX_DEPTH
    ensures var w := Serialize(t);
      forall i :: 0 <= i < |w.commands| ==>
        Origins(w.origin, w.commands[i].children) == StructureChildren(t, t.nodes[w.origin[i]].children)
  {
    PacketFaithful(t);
    var w := Serialize(t);
    assert Ptrs(w.stack) == [];
  }

  // ---------------------------------------------------------------------
  // Siblings get consecutive indices.

  /** Each entry's children are a run of consecutive indices. */
  predicate Consecutive(w: Walk) {
    forall j, k :: 0 <= j < |w.commands| && 0 <= k < |w.commands[j].children| ==>
      w.commands[j].children[k] == w.commands[j].children[0] + k
  }

  /** The entry being expanded: its last child, if any, is the newest entry. */
  predicate LastIsNewest(w: Walk, p: nat)
    requires p < |w.commands|
  {
    var cs := w.commands[p].children;
    |cs| == 0 || cs[|cs| - 1] == |w.commands| - 1
  }

  lemma EmitKeepsConsecutive(t: CommandTree, w: Walk, f: Frame, c: nat)
    requires Shape(t, w) && f.ptr < |w.commands| && c < |t.nodes|
    requires Consecutive(w) && LastIsNewest(w, f.ptr)
    ensures Consecutive(EmitChild(t, w, f, c)) && LastIsNewest(EmitChild(t, w, f, c), f.ptr)
  {
    if IsStructure(t, c) {
      var r := EmitChild(t, w, f, c);
      var n := |w.commands|;
      var old_ := w.commands[f.ptr].children;
      assert r.commands[f.ptr].children == old_ + [n];
      assert |old_| > 0 ==> n == old_[0] + |old_| by {
        if |old_| > 0 {
          assert old_[|old_| - 1] == old_[0] + (|old_| - 1);
        }
      }
      forall j, k | 0 <= j < |r.commands| && 0 <= k < |r.commands[j].children|
        ensures r.commands[j].children[k] == r.commands[j].children[0] + k
      {
        if j != f.ptr && j < n {
          assert r.commands[j] == w.commands[j];
        }
      }
    }
  }

  lemma {:induction false} EachChildKeepsConsecutive(t: CommandTree, w: Walk, f: Frame, cs: seq<nat>)
    requires Shape(t, w) && f.ptr < |w.commands|
    requires forall k :: 0 <= k < |cs| ==> cs[k] < |t.nodes|
    requires Consecutive(w) && LastIsNewest(w, f.ptr)
    ensures Consecutive(EachChild(t, w, f, cs))
    decreases |cs|
  {
    if |cs| > 0 {
      EmitKeepsConsecutive(t, w, f, cs[0]);
      EachChildKeepsConsecutive(t, EmitChild(t, w, f, cs[0]), f, cs[1..]);
    }
  }

  lemma {:induction false} RunKeepsConsecutive(t: CommandTree, w: Walk, fan: nat)
    requires Inv(t, w, -1) && Consecutive(w)
    requires forall i :: 0 <= i < |t.nodes| ==> |t.nodes[i].children| <= fan
    ensures Consecutive(Run(t, w, fan))
    decreases Weight(w.stack, fan)
  {
    if |w.stack| > 0 && w.stack[|w.stack| - 1].depth < MAX_DEPTH {
      var f := w.stack[|w.stack| - 1];
      var popped := w.(stack := w.stack[..|w.stack| - 1]);
      PopOpensTop(t, w);
      EachChildKeepsConsecutive(t, popped, f, t.nodes[f.node].children);
      ExpandKeepsInv(t, w);
      RunStep(t, w, fan);
      RunKeepsConsecutive(t, EachChild(t, popped, f, t.nodes[f.node].children), fan);
    }
  }

  /** Each entry's children receive consecutive indices, in the order the
      tree lists the command-node children they are made from. */
  lemma SiblingsAreConsecutive(t: CommandTree)
    requires ValidIndices(t)
    ensures var w := Serialize(t);
      && (forall j, k :: 0 <= j < |w.commands| && 0 <= k < |w.commands[j].children| ==>
            w.commands[j].children[k] == w.commands[j].children[0] + k)
      && (forall j :: 0 <= j < |w.commands| && j !in Ptrs(w.stack) ==>
            Origins(w.origin, w.commands[j].children) == StructureChildren(t, t.nodes[w.origin[j]].children))
  {
    var w := Start(t);
    assert Ptrs(w.stack) == [0];
    assert FrameOk(w, w.stack[0]);
    assert Inv(t, w, -1);
    RunKeepsConsecutive(t, w, MaxFanout(t.nodes));
    PacketFaithful(t);
  }

  // ---------------------------------------------------------------------
  // A chain of literals.

  /** The root with one literal per name below it, each literal the only
      child of the one before. */
  function Chain(names: seq<string>): (t: CommandTree)
    ensures IsChain(t, names)
  {
    CommandTree(seq(|names| + 1, i requires 0 <= i <= |names| => ChainNode(names, i)), 0)
  }

  function ChainNode(names: seq<string>, i: nat): (n: Node)
    requires i <= |names|
  {
    Node(if i == 0 then Structure(Root) else Structure(Literal(names[i - 1])),
         if i == 0 then None else Some(i - 1),
         if i < |names| then [i + 1] else [])
  }

  /** `t` is the chain of `names`, node by node. A node is looked up by
      naming `ChainNode(names, i)`, so that following a child link does not
      unfold the next node by itself. */
  predicate IsChain(t: CommandTree, names: seq<string>) {
    && |t.nodes| == |names| + 1 && t.root == 0 && ValidIndices(t)
    && forall i {:trigger ChainNode(names, i)} :: 0 <= i < |t.nodes| ==> t.nodes[i] == ChainNode(names, i)
  }

  lemma ChainIsWellFormed(t: CommandTree, names: seq<string>)
    requires IsChain(t, names)
    ensures WellFormed(t)
  {
    assert t.nodes[0] == ChainNode(names, 0);
    ChainParentsBefore(t, names);
    ChainChildrenPointBack(t, names);
    assert ChildrenInCreationOrder(t) by {
      forall i | 0 <= i < |t.nodes| ensures |t.nodes[i].children| <= 1 {
        assert t.nodes[i] == ChainNode(names, i);
      }
    }
  }

  lemma ChainParentsBefore(t: CommandTree, names: seq<string>)
    requires IsChain(t, names)
    ensures ParentsBefore(t)
  {
    forall i | 1 <= i < |t.nodes|
      ensures t.nodes[i].payload != Structure(Root) && t.nodes[i].parent == Some(i - 1)
      ensures IsStructure(t, t.nodes[i].parent.value) && i in t.nodes[t.nodes[i].parent.value].children
    {
      assert t.nodes[i] == ChainNode(names, i);
      assert t.nodes[i - 1] == ChainNode(names, i - 1);
    }
  }

  lemma ChainChildrenPointBack(t: CommandTree, names: seq<string>)
    requires IsChain(t, names)
    ensures ChildrenPointBack(t)
  {
    forall i, k | 0 <= i < |t.nodes| && 0 <= k < |t.nodes[i].children|
      ensures t.nodes[t.nodes[i].children[k]].parent == Some(i)
    {
      assert t.nodes[i] == ChainNode(names, i);
      assert t.nodes[i + 1] == ChainNode(names, i + 1);
    }
  }

  /** Every entry of a chain's packet has at most one child. */
  lemma ChainEntryFanout(t: CommandTree, names: seq<string>, j: nat)
    requires IsChain(t, names) && j < |Serialize(t).commands|
    ensures |Serialize(t).commands[j].children| <= 1
  {
    PacketFaithful(t);
    var w := Serialize(t);
    if j !in Ptrs(w.stack) {
      assert |Origins(w.origin, w.commands[j].children)| == |w.commands[j].children|;
      assert t.nodes[w.origin[j]] == ChainNode(names, w.origin[j]);
    }
  }

  /** Entry `i` of a chain's packet is made from node `i` and is listed by
      entry `i - 1`. */
  lemma {:induction false} ChainEntry(t: CommandTree, names: seq<string>, i: nat)
    requires IsChain(t, names) && i < |Serialize(t).commands|
    ensures var w := Serialize(t); w.origin[i] == i && (i > 0 ==> w.from[i] == i - 1)
    decreases i
  {
    var w := Serialize(t);
    if i > 0 {
      var j := w.from[i];
      ChainEntry(t, names, j);
      if j < i - 1 {
        ChainEntry(t, names, j + 1);
        ChainSingleChild(t, names, j, j + 1, i);
        assert false;
      }
      assert w.origin[i] in t.nodes[j].children;
      assert t.nodes[j] == ChainNode(names, j);
    } else {
      RootEntry(t);
    }
  }

  /** Entry `i` of a chain's packet lies `i` links below the root. */
  lemma {:induction false} ChainDepth(t: CommandTree, names: seq<string>, i: nat)
    requires IsChain(t, names) && i < |Serialize(t).commands|
    ensures EntryDepth(Serialize(t).from, i) == i
  {
    if i > 0 {
      ChainEntry(t, names, i);
      ChainDepth(t, names, i - 1);
    }
  }

  /** No entry of a chain's packet lists two different entries. */
  lemma ChainSingleChild(t: CommandTree, names: seq<string>, j: nat, a: nat, b: nat)
    requires IsChain(t, names)
    requires var w := Serialize(t);
      && 1 <= a < |w.commands| && 1 <= b < |w.commands| && w.from[a] == j && w.from[b] == j
    ensures a == b
  {
    var w := Serialize(t);
    assert a in w.commands[j].children && b in w.commands[j].children;
    ChainEntryFanout(t, names, j);
  }

  /** The first entry is made from the root. */
  lemma RootEntry(t: CommandTree)
    requires ValidIndices(t)
    ensures Serialize(t).origin[0] == t.root
  {
    SerializeKeepsInv(t);
  }

  /** The packet of a chain of literals lists the root and then the first
      64 literals, each the only child of the entry before; deeper literals
      are cut off. With 0, 1, 2 and 65 names this is what the serializer's
      own tests expect. */
  lemma ChainPacket(names: seq<string>)
    ensures var p := GetCommandPacket(Chain(names));
      var n := if |names| < MAX_DEPTH then |names| else MAX_DEPTH;
      && |p.commands| == n + 1
      && p.rootIndex == 0 && p.commands[0].data == Root
      && (forall i :: 1 <= i <= n ==>
            p.commands[i].data == Literal(names[i - 1]) && p.commands[i - 1].children == [i])
      && p.commands[n].children == []
  {
    var t := Chain(names);

    PacketEntries(t);
    ChainLength(t, names);
    var w := Serialize(t);
    forall i | 1 <= i < |w.commands|
      ensures w.commands[i].data == Literal(names[i - 1]) && w.commands[i - 1].children == [i]
    {
      ChainLink(t, names, i);
    }
    LastEntryIsLeaf(t);
  }

  /** Entry `i` of a chain's packet is the `i`-th literal and the only child
      of entry `i - 1`. */
  lemma ChainLink(t: CommandTree, names: seq<string>, i: nat)
    requires IsChain(t, names) && 1 <= i < |Serialize(t).commands|
    ensures var w := Serialize(t);
      i <= |names| && w.commands[i].data == Literal(names[i - 1]) && w.commands[i - 1].children == [i]
  {
    PacketEntries(t);
    ChainEntry(t, names, i);
    ChainEntryFanout(t, names, i - 1);
    assert t.nodes[i] == ChainNode(names, i);
  }

  /** A chain's packet has one entry per node down to depth 64. */
  lemma ChainLength(t: CommandTree, names: seq<string>)
    requires IsChain(t, names)
    ensures |Serialize(t).commands| == (if |names| < MAX_DEPTH then |names| else MAX_DEPTH) + 1
  {
    PacketFaithful(t);
    SerializeIsDepthBounded(t);
    LastEntryIsLeaf(t);
    var w := Serialize(t);
    var last := |w.commands| - 1;
    ChainEntry(t, names, last);
    ChainDepth(t, names, last);
    if |w.stack| > 0 {
      ChainDepth(t, names, w.stack[|w.stack| - 1].ptr);
    } else if last < |names| {
      assert Ptrs(w.stack) == [];
      ChainInnerEntryHasChild(t, names, last);
    }
  }

  /** An expanded entry made from a literal that has a successor has one
      child. */
  lemma ChainInnerEntryHasChild(t: CommandTree, names: seq<string>, i: nat)
    requires IsChain(t, names)
    requires var w := Serialize(t);
      i < |w.commands| && i < |names| && i !in Ptrs(w.stack)
    requires Serialize(t).origin[i] == i
    ensures |Serialize(t).commands[i].children| == 1
  {
    PacketFaithful(t);
    var w := Serialize(t);
    assert t.nodes[i] == ChainNode(names, i);
    assert t.nodes[i + 1] == ChainNode(names, i + 1);
    assert StructureChildren(t, [i + 1]) == [i + 1];
  }

  /** The last entry of any packet has no children. */
  lemma LastEntryIsLeaf(t: CommandTree)
    requires ValidIndices(t)
    ensures var w := Serialize(t); w.commands[|w.commands| - 1].children == []
  {
    PacketIsTree(t);
    var w := Serialize(t);
    var last := |w.commands| - 1;
    var cs := w.commands[last].children;
    if |cs| > 0 {
      FirstChildAfter(t, last);
    }
  }

  lemma FirstChildAfter(t: CommandTree, j: nat)
    requires ValidIndices(t)
    requires var w := Serialize(t); j < |w.commands| && |w.commands[j].children| > 0
    ensures var w := Serialize(t); j < w.commands[j].children[0] < |w.commands|
  {
    PacketIsTree(t);
  }
}
