/** The dispatcher (`execute`), modelled as written.

    The input is cut into tokens at ASCII whitespace and the walk starts at
    the root with an empty argument store. Each round takes ONE token (and
    fails with "command not found" if none is left), collects the current
    node's children (at most 64) and scans them in order:
    - an executor child is invoked at once with the bindings so far;
    - a Root child is an error;
    - a literal child whose name equals the token ignoring ASCII case becomes
      the current node and ends the scan;
    - an argument child whose parser reads the token binds the value under
      the argument's name and the scan goes on with the SAME token (the
      current node does not change); one whose parser refuses it is skipped;
      an argument with a parser the dispatcher does not implement is an error.
    A token no child consumes is dropped, and the next round starts at the
    same node. */
module Execute {
  import opened Basics
  import opened Protocol
  import opened Tree
  import opened Context
  import opened Json
  import opened Tokens

  /** Capacity of the buffer the children of a node are collected into. */
  const MAX_CHILDREN: nat := 64

  datatype FloatWidth = Single | DoubleWidth

  /** Whether the JSON reader accepts a token as an `f32` / `f64`. Floating
      point is not modelled; the dispatcher is parameterised by this oracle. */
  type FloatReader = (FloatWidth, string) -> bool

  datatype ExecError =
    | CommandNotFound
    | RootAsChild
    | UnimplementedParser
      /** The panic of collecting more than 64 children. */
    | TooManyChildren
      /** The panic of a 65th argument binding. */
    | ContextFull
      /** The error a handler itself returns. */
    | HandlerFailed(message: string)

  /** A handler call: which executor, with which bindings. */
  datatype Invocation = Invocation(handler: HandlerId, context: CommandContext)

  /** What one argument's parser does with a token. */
  datatype ArgRead = Bind(value: Value) | Skip | Unimplemented

  function ReadArgument(parser: ParserKind, token: string, readsFloat: FloatReader): ArgRead
  {
    match parser
    case Bool => (match ReadBool(token) case Some(b) => Bind(Value.Bool(b)) case None => Skip)
    case Float(_, _) => if readsFloat(Single, token) then Bind(F32(token)) else Skip
    case Double(_, _) => if readsFloat(DoubleWidth, token) then Bind(F64(token)) else Skip
    case Integer(_, _) => (match ReadI32(token) case Some(v) => Bind(I32(v)) case None => Skip)
    case Long(_, _) => (match ReadI64(token) case Some(v) => Bind(I64(v)) case None => Skip)
    case String(_) => Bind(Str(token))
    case Other(_) => Unimplemented
  }

  /** Outcome of scanning a node's children with one token. */
  datatype Scan =
    | Fire(handler: HandlerId, ctx: CommandContext)
    | Descend(child: nat, ctx: CommandContext)
    | Exhausted(ctx: CommandContext)
    | Failed(error: ExecError)

  predicate ChildrenIn(t: CommandTree, cs: seq<nat>) {
    forall k :: 0 <= k < |cs| ==> cs[k] < |t.nodes|
  }

  /** The inner `for child in children` loop. */
  function ScanChildren(t: CommandTree, cs: seq<nat>, token: string, ctx: CommandContext,
                        readsFloat: FloatReader): Scan
    requires ChildrenIn(t, cs) && Valid(ctx)
    decreases |cs|
  {
    if |cs| == 0 then Exhausted(ctx)
    else
      match t.nodes[cs[0]].payload
      case Executor(h) => Fire(h, ctx)
      case Structure(Root) => Failed(RootAsChild)
      case Structure(Literal(name)) =>
        if EqIgnoreAsciiCase(name, token) then Descend(cs[0], ctx)
        else ScanChildren(t, cs[1..], token, ctx, readsFloat)
      case Structure(Argument(name, parser)) =>
        match ReadArgument(parser, token, readsFloat)
        case Skip => ScanChildren(t, cs[1..], token, ctx, readsFloat)
        case Unimplemented => Failed(UnimplementedParser)
        case Bind(v) =>
          match Push(ctx, name, v)
          case None => Failed(ContextFull)
          case Some(ctx') => ScanChildren(t, cs[1..], token, ctx', readsFloat)
  }

  /** The outer `loop`: one token per round, starting at node `on`. */
  function Run(t: CommandTree, on: nat, tokens: seq<string>, ctx: CommandContext,
               readsFloat: FloatReader): (r: Result<Invocation, ExecError>)
    requires ValidIndices(t) && on < |t.nodes| && Valid(ctx)
    ensures r.Ok? ==> |tokens| > 0 && Valid(r.value.context)
    ensures r.Ok? ==> KeepsPrefix(ctx, r.value.context)
    decreases |tokens|
  {
    if |tokens| == 0 then Err(CommandNotFound)
    else
      var cs := t.nodes[on].children;
      if |cs| > MAX_CHILDREN then Err(TooManyChildren)
      else
        ScanFacts(t, cs, tokens[0], ctx, readsFloat);
        match ScanChildren(t, cs, tokens[0], ctx, readsFloat)
        case Fire(h, c) => Ok(Invocation(h, c))
        case Descend(n, c) => Run(t, n, tokens[1..], c, readsFloat)
        case Exhausted(c) => Run(t, on, tokens[1..], c, readsFloat)
        case Failed(e) => Err(e)
  }

  /** `execute` up to the handler call: tokenise, then walk from the root. */
  function Dispatch(t: CommandTree, input: string, readsFloat: FloatReader): Result<Invocation, ExecError>
    requires ValidIndices(t)
  {
    Run(t, t.root, SplitAsciiWhitespace(input), Empty, readsFloat)
  }

  /** `execute`: the invoked handler's own result is returned as is. A
      handler is an opaque function of its bindings: None for success, or
      an error message. */
  function ExecuteCommand(t: CommandTree, input: string, readsFloat: FloatReader,
                          handlers: (HandlerId, CommandContext) -> Option<string>): (r: Result<(), ExecError>)
    requires ValidIndices(t)
    ensures r.Ok? ==> Dispatch(t, input, readsFloat).Ok?
    ensures r.Ok? || r.error.HandlerFailed? ==> |SplitAsciiWhitespace(input)| > 0
    ensures Dispatch(t, input, readsFloat).Err? ==> r == Err(Dispatch(t, input, readsFloat).error)
    ensures Dispatch(t, input, readsFloat).Ok? ==>
      (r.Ok? <==> handlers(Dispatch(t, input, readsFloat).value.handler,
                           Dispatch(t, input, readsFloat).value.context).None?)
    ensures Dispatch(t, input, readsFloat).Ok? && r.Err? ==>
      r.error == HandlerFailed(handlers(Dispatch(t, input, readsFloat).value.handler,
                                        Dispatch(t, input, readsFloat).value.context).value)
  {
    match Dispatch(t, input, readsFloat)
    case Err(e) => Err(e)
    case Ok(inv) =>
      match handlers(inv.handler, inv.context)
      case None => Ok(())
      case Some(message) => Err(HandlerFailed(message))
  }

  // ---------------------------------------------------------------------
  // A reference description of one scan, and its agreement with the loop.

  /** A child that settles the scan for `token` when reached: an executor,
      a Root, a literal equal to the token, or an unimplemented argument. */
  predicate Decisive(t: CommandTree, c: nat, token: string, readsFloat: FloatReader)
    requires c < |t.nodes|
  {
    match t.nodes[c].payload
    case Executor(_) => true
    case Structure(Root) => true
    case Structure(Literal(name)) => EqIgnoreAsciiCase(name, token)
    case Structure(Argument(_, parser)) => ReadArgument(parser, token, readsFloat).Unimplemented?
  }

  /** Position of the first decisive child, or |cs| when there is none. */
  function FirstDecisive(t: CommandTree, cs: seq<nat>, token: string, readsFloat: FloatReader): (j: nat)
    requires ChildrenIn(t, cs)
    ensures j <= |cs|
    ensures forall m :: 0 <= m < j ==> !Decisive(t, cs[m], token, readsFloat)
    ensures j < |cs| ==> Decisive(t, cs[j], token, readsFloat)
    decreases |cs|
  {
    if |cs| == 0 || Decisive(t, cs[0], token, readsFloat) then 0
    else 1 + FirstDecisive(t, cs[1..], token, readsFloat)
  }

  /** The bindings the argument children among `cs` read from `token`. */
  function Accepted(t: CommandTree, cs: seq<nat>, token: string, readsFloat: FloatReader): seq<Binding>
    requires ChildrenIn(t, cs)
    decreases |cs|
  {
    if |cs| == 0 then []
    else BindingOf(t, cs[0], token, readsFloat) + Accepted(t, cs[1..], token, readsFloat)
  }

  /** The binding one child contributes for `token`: one for an argument
      whose parser reads it, none otherwise. */
  function BindingOf(t: CommandTree, c: nat, token: string, readsFloat: FloatReader): (bs: seq<Binding>)
    requires c < |t.nodes|
    ensures |bs| <= 1
    ensures forall b :: b in bs ==> ArgumentReads(t, c, token, b, readsFloat)
  {
    match t.nodes[c].payload
    case Structure(Argument(name, parser)) =>
      (match ReadArgument(parser, token, readsFloat) case Bind(v) => [Binding(name, v)] case _ => [])
    case _ => []
  }

  /** How the decisive child `c` (or the end of the list) settles a scan. */
  function Settle(t: CommandTree, cs: seq<nat>, j: nat, ctx: CommandContext): (r: Scan)
    requires ChildrenIn(t, cs) && j <= |cs|
    ensures !r.Failed? ==> r.ctx == ctx
    ensures r.Exhausted? <==> j == |cs|
  {
    if j == |cs| then Exhausted(ctx)
    else
      match t.nodes[cs[j]].payload
      case Executor(h) => Fire(h, ctx)
      case Structure(Root) => Failed(RootAsChild)
      case Structure(Literal(_)) => Descend(cs[j], ctx)
      case Structure(Argument(_, _)) => Failed(UnimplementedParser)
  }

  /** One scan, described declaratively: the children before the first
      decisive one contribute their bindings in order; then that child (if
      any) decides the outcome. */
  function ScanSpec(t: CommandTree, cs: seq<nat>, token: string, ctx: CommandContext,
                    readsFloat: FloatReader): Scan
    requires ChildrenIn(t, cs) && Valid(ctx)
  {
    var j := FirstDecisive(t, cs, token, readsFloat);
    var bs := Accepted(t, cs[..j], token, readsFloat);
    if |ctx.names| + |bs| > CAPACITY then Failed(ContextFull)
    else Settle(t, cs, j, PushAll(ctx, bs).value)
  }

  lemma AcceptedStep(t: CommandTree, cs: seq<nat>, j: nat, token: string, readsFloat: FloatReader)
    requires ChildrenIn(t, cs) && 0 < j <= |cs|
    ensures Accepted(t, cs[..j], token, readsFloat)
      == BindingOf(t, cs[0], token, readsFloat) + Accepted(t, cs[1..][..j - 1], token, readsFloat)
  {
    assert cs[..j][1..] == cs[1..][..j - 1];
    assert cs[..j][0] == cs[0];
  }

  /** Past a child that does not settle the scan, the reference description
      continues with the rest of the children and that child's binding. */
  lemma SpecStep(t: CommandTree, cs: seq<nat>, token: string, ctx: CommandContext, readsFloat: FloatReader)
    requires ChildrenIn(t, cs) && Valid(ctx)
    requires |cs| > 0 && !Decisive(t, cs[0], token, readsFloat)
    ensures var here := BindingOf(t, cs[0], token, readsFloat);
      ScanSpec(t, cs, token, ctx, readsFloat) ==
        if |here| == 0 then ScanSpec(t, cs[1..], token, ctx, readsFloat)
        else if |ctx.names| >= CAPACITY then Failed(ContextFull)
        else ScanSpec(t, cs[1..], token, Push(ctx, here[0].name, here[0].value).value, readsFloat)
  {
    var rest := cs[1..];
    var j := FirstDecisive(t, cs, token, readsFloat);
    var j' := FirstDecisive(t, rest, token, readsFloat);
    assert j == 1 + j';
    AcceptedStep(t, cs, j, token, readsFloat);
    var here := BindingOf(t, cs[0], token, readsFloat);
    var bs' := Accepted(t, rest[..j'], token, readsFloat);
    assert Accepted(t, cs[..j], token, readsFloat) == here + bs';
    assert j < |cs| ==> cs[j] == rest[j'];
    forall x: CommandContext ensures Settle(t, cs, j, x) == Settle(t, rest, j', x) { }
    if |here| == 0 {
      assert here + bs' == bs';
    } else if |ctx.names| < CAPACITY {
      var bs := here + bs';
      assert bs[0] == here[0] && bs[1..] == bs';
      var ctx1 := Push(ctx, here[0].name, here[0].value).value;
      assert PushAll(ctx, bs) == PushAll(ctx1, bs');
    }
  }

  /** The scan loop computes exactly the reference description. */
  lemma {:induction false} ScanMatchesSpec(t: CommandTree, cs: seq<nat>, token: string,
                                           ctx: CommandContext, readsFloat: FloatReader)
    requires ChildrenIn(t, cs) && Valid(ctx)
    ensures ScanChildren(t, cs, token, ctx, readsFloat) == ScanSpec(t, cs, token, ctx, readsFloat)
    decreases |cs|
  {
    if |cs| > 0 && !Decisive(t, cs[0], token, readsFloat) {
      SpecStep(t, cs, token, ctx, readsFloat);
      var here := BindingOf(t, cs[0], token, readsFloat);
      if |here| == 0 {
        ScanMatchesSpec(t, cs[1..], token, ctx, readsFloat);
      } else if |ctx.names| < CAPACITY {
        ScanMatchesSpec(t, cs[1..], token, Push(ctx, here[0].name, here[0].value).value, readsFloat);
      }
    } else if |cs| > 0 {
      assert cs[..0] == [];
    }
  }

  /** A scan only appends bindings; it fires an executor child and descends
      into a literal child only. */
  lemma ScanFacts(t: CommandTree, cs: seq<nat>, token: string, ctx: CommandContext,
                  readsFloat: FloatReader)
    requires ChildrenIn(t, cs) && Valid(ctx)
    ensures match ScanChildren(t, cs, token, ctx, readsFloat)
      case Failed(_) => true
      case Fire(h, c) => KeepsPrefix(ctx, c) && exists k :: 0 <= k < |cs| && t.nodes[cs[k]].payload == Executor(h)
      case Descend(n, c) => KeepsPrefix(ctx, c) && n in cs && IsLiteralNode(t, n)
      case Exhausted(c) => KeepsPrefix(ctx, c)
  {
    ScanMatchesSpec(t, cs, token, ctx, readsFloat);
    var j := FirstDecisive(t, cs, token, readsFloat);
    var bs := Accepted(t, cs[..j], token, readsFloat);
    if |ctx.names| + |bs| <= CAPACITY {
      var c := PushAll(ctx, bs).value;
      assert c.names[..|ctx.names|] == ctx.names;
    }
  }

  predicate IsLiteralNode(t: CommandTree, n: nat) {
    n < |t.nodes| && t.nodes[n].payload.Structure? && t.nodes[n].payload.data.Literal?
  }

  /** `c` extends `ctx` by appended bindings only. */
  predicate KeepsPrefix(ctx: CommandContext, c: CommandContext) {
    && Valid(c)
    && |ctx.names| <= |c.names|
    && c.names[..|ctx.names|] == ctx.names
    && c.data[..|ctx.names|] == ctx.data
  }

  // ---------------------------------------------------------------------
  // Properties of a whole dispatch.

  /** Blank input (no tokens) never reaches a handler. */
  lemma BlankInputFails(t: CommandTree, input: string, readsFloat: FloatReader)
    requires ValidIndices(t)
    requires forall i :: 0 <= i < |input| ==> IsAsciiWhitespace(input[i])
    ensures Dispatch(t, input, readsFloat) == Err(CommandNotFound)
  {
    BlankInputHasNoTokens(input);
  }

  /** A node with more than 64 children makes any round at it panic. */
  lemma TooManyChildrenFails(t: CommandTree, on: nat, tokens: seq<string>, ctx: CommandContext,
                             readsFloat: FloatReader)
    requires ValidIndices(t) && on < |t.nodes| && Valid(ctx)
    requires |t.nodes[on].children| > MAX_CHILDREN && |tokens| > 0
    ensures Run(t, on, tokens, ctx, readsFloat) == Err(TooManyChildren)
  {
  }

  /** A token that no child of the current node settles is consumed without
      moving: the arguments that read it bind it (all of them, in order) and
      the next token is tried at the same node. With no such argument the
      token is simply dropped. */
  lemma UnsettledTokenStaysAtNode(t: CommandTree, on: nat, token: string, rest: seq<string>,
                                  ctx: CommandContext, readsFloat: FloatReader)
    requires ValidIndices(t) && on < |t.nodes| && Valid(ctx)
    requires |t.nodes[on].children| <= MAX_CHILDREN
    requires forall k :: 0 <= k < |t.nodes[on].children| ==>
      !Decisive(t, t.nodes[on].children[k], token, readsFloat)
    requires |ctx.names| + |Accepted(t, t.nodes[on].children, token, readsFloat)| <= CAPACITY
    ensures Run(t, on, [token] + rest, ctx, readsFloat) ==
      Run(t, on, rest, PushAll(ctx, Accepted(t, t.nodes[on].children, token, readsFloat)).value, readsFloat)
  {
    ScanExhausts(t, t.nodes[on].children, token, ctx, readsFloat);
    RunAfterScan(t, on, token, rest, ctx, readsFloat,
                 ScanChildren(t, t.nodes[on].children, token, ctx, readsFloat));
  }

  /** With no settling child, the scan binds every reading argument in turn. */
  lemma ScanExhausts(t: CommandTree, cs: seq<nat>, token: string, ctx: CommandContext,
                     readsFloat: FloatReader)
    requires ChildrenIn(t, cs) && Valid(ctx)
    requires forall k :: 0 <= k < |cs| ==> !Decisive(t, cs[k], token, readsFloat)
    requires |ctx.names| + |Accepted(t, cs, token, readsFloat)| <= CAPACITY
    ensures ScanChildren(t, cs, token, ctx, readsFloat)
      == Exhausted(PushAll(ctx, Accepted(t, cs, token, readsFloat)).value)
  {
    ScanMatchesSpec(t, cs, token, ctx, readsFloat);
    assert FirstDecisive(t, cs, token, readsFloat) == |cs|;
    assert cs[..|cs|] == cs;
  }

  /** One round of the outer loop, given how the scan of its token ended. */
  lemma RunAfterScan(t: CommandTree, on: nat, token: string, rest: seq<string>,
                     ctx: CommandContext, readsFloat: FloatReader, scan: Scan)
    requires ValidIndices(t) && on < |t.nodes| && Valid(ctx)
    requires |t.nodes[on].children| <= MAX_CHILDREN
    requires scan == ScanChildren(t, t.nodes[on].children, token, ctx, readsFloat)
    ensures scan.Exhausted? && Valid(scan.ctx) ==>
      Run(t, on, [token] + rest, ctx, readsFloat) == Run(t, on, rest, scan.ctx, readsFloat)
    ensures scan.Descend? && scan.child < |t.nodes| && Valid(scan.ctx) ==>
      Run(t, on, [token] + rest, ctx, readsFloat) == Run(t, scan.child, rest, scan.ctx, readsFloat)
    ensures scan.Fire? ==> Run(t, on, [token] + rest, ctx, readsFloat) == Ok(Invocation(scan.handler, scan.ctx))
  {
    assert ([token] + rest)[1..] == rest;
  }

  /** A literal child matching the token ignoring ASCII case, with no earlier
      sibling settling the scan, becomes the current node; later siblings are
      not examined. Arguments before it have bound the token. */
  lemma MatchingLiteralDescends(t: CommandTree, on: nat, k: nat, token: string, rest: seq<string>,
                                ctx: CommandContext, readsFloat: FloatReader)
    requires ValidIndices(t) && on < |t.nodes| && Valid(ctx)
    requires |t.nodes[on].children| <= MAX_CHILDREN && k < |t.nodes[on].children|
    requires forall m :: 0 <= m < k ==> !Decisive(t, t.nodes[on].children[m], token, readsFloat)
    requires IsLiteralNode(t, t.nodes[on].children[k])
    requires EqIgnoreAsciiCase(t.nodes[t.nodes[on].children[k]].payload.data.name, token)
    requires |ctx.names| + |Accepted(t, t.nodes[on].children[..k], token, readsFloat)| <= CAPACITY
    ensures Run(t, on, [token] + rest, ctx, readsFloat) ==
      Run(t, t.nodes[on].children[k], rest,
          PushAll(ctx, Accepted(t, t.nodes[on].children[..k], token, readsFloat)).value, readsFloat)
  {
    var cs := t.nodes[on].children;
    ScanMatchesSpec(t, cs, token, ctx, readsFloat);
    assert FirstDecisive(t, cs, token, readsFloat) == k;
    RunAfterScan(t, on, token, rest, ctx, readsFloat, ScanChildren(t, cs, token, ctx, readsFloat));
  }

  /** The first settling child being an executor, that executor is invoked
      with the bindings accumulated so far, whatever tokens remain. */
  lemma ExecutorChildFires(t: CommandTree, on: nat, k: nat, token: string, rest: seq<string>,
                           ctx: CommandContext, readsFloat: FloatReader)
    requires ValidIndices(t) && on < |t.nodes| && Valid(ctx)
    requires |t.nodes[on].children| <= MAX_CHILDREN && k < |t.nodes[on].children|
    requires forall m :: 0 <= m < k ==> !Decisive(t, t.nodes[on].children[m], token, readsFloat)
    requires t.nodes[t.nodes[on].children[k]].payload.Executor?
    requires |ctx.names| + |Accepted(t, t.nodes[on].children[..k], token, readsFloat)| <= CAPACITY
    ensures Run(t, on, [token] + rest, ctx, readsFloat) ==
      Ok(Invocation(t.nodes[t.nodes[on].children[k]].payload.handler,
                    PushAll(ctx, Accepted(t, t.nodes[on].children[..k], token, readsFloat)).value))
  {
    var cs := t.nodes[on].children;
    ScanMatchesSpec(t, cs, token, ctx, readsFloat);
    assert FirstDecisive(t, cs, token, readsFloat) == k;
  }

  /** At a node without children every round drops its token, so the input
      runs out: "command not found", whatever the remaining tokens. */
  lemma {:induction false} ChildlessNodeFails(t: CommandTree, on: nat, tokens: seq<string>,
                                              ctx: CommandContext, readsFloat: FloatReader)
    requires ValidIndices(t) && on < |t.nodes| && Valid(ctx) && t.nodes[on].children == []
    ensures Run(t, on, tokens, ctx, readsFloat) == Err(CommandNotFound)
    decreases |tokens|
  {
    if |tokens| > 0 {
      ChildlessNodeFails(t, on, tokens[1..], ctx, readsFloat);
    }
  }

  ghost predicate HasExecutorChild(t: CommandTree, n: nat, h: HandlerId)
    requires ValidIndices(t)
  {
    n < |t.nodes| &&
    exists k :: 0 <= k < |t.nodes[n].children| && t.nodes[t.nodes[n].children[k]].payload == Executor(h)
  }

  /** Handler `h` hangs directly under `n`, which is the start node or a literal. */
  ghost predicate FiresUnder(t: CommandTree, start: nat, n: nat, h: HandlerId)
    requires ValidIndices(t)
  {
    (n == start || IsLiteralNode(t, n)) && HasExecutorChild(t, n, h)
  }

  /** Arguments never become the current node, so the handler a dispatch
      invokes is an executor child of the starting node or of a literal. */
  lemma {:induction false} RunFiresUnderStartOrLiteral(t: CommandTree, on: nat, tokens: seq<string>,
                                                       ctx: CommandContext, readsFloat: FloatReader)
    requires ValidIndices(t) && on < |t.nodes| && Valid(ctx)
    requires Run(t, on, tokens, ctx, readsFloat).Ok?
    ensures exists n :: FiresUnder(t, on, n, Run(t, on, tokens, ctx, readsFloat).value.handler)
    decreases |tokens|
  {
    var cs := t.nodes[on].children;
    ScanFacts(t, cs, tokens[0], ctx, readsFloat);
    match ScanChildren(t, cs, tokens[0], ctx, readsFloat)
    case Fire(h, c) =>
      assert FiresUnder(t, on, on, h);
    case Descend(n, c) =>
      RunFiresUnderStartOrLiteral(t, n, tokens[1..], c, readsFloat);
      var h := Run(t, n, tokens[1..], c, readsFloat).value.handler;
      var m :| FiresUnder(t, n, m, h);
      assert FiresUnder(t, on, m, h);
    case Exhausted(c) =>
      RunFiresUnderStartOrLiteral(t, on, tokens[1..], c, readsFloat);
  }

  /** A successful dispatch invokes an executor attached directly under the
      root or under a literal node; one attached under an argument node is
      never reached. */
  lemma DispatchFiresUnderRootOrLiteral(t: CommandTree, input: string, readsFloat: FloatReader)
    requires ValidIndices(t)
    requires Dispatch(t, input, readsFloat).Ok?
    ensures exists n :: FiresUnder(t, t.root, n, Dispatch(t, input, readsFloat).value.handler)
    ensures |SplitAsciiWhitespace(input)| > 0
  {
    RunFiresUnderStartOrLiteral(t, t.root, SplitAsciiWhitespace(input), Empty, readsFloat);
  }

  /** A successful `execute` ran an executor: the handler of an executor
      node directly under the root or under a literal, and that handler
      reported success for the bindings the walk collected. */
  lemma ExecuteSucceedsThroughExecutor(t: CommandTree, input: string, readsFloat: FloatReader,
                                       handlers: (HandlerId, CommandContext) -> Option<string>)
    requires ValidIndices(t)
    requires ExecuteCommand(t, input, readsFloat, handlers).Ok?
    ensures Dispatch(t, input, readsFloat).Ok?
    ensures exists n :: FiresUnder(t, t.root, n, Dispatch(t, input, readsFloat).value.handler)
    ensures handlers(Dispatch(t, input, readsFloat).value.handler,
                     Dispatch(t, input, readsFloat).value.context).None?
  {
    DispatchFiresUnderRootOrLiteral(t, input, readsFloat);
  }

  /** Node `n` is an argument named `b.name` whose parser reads `token` as `b.value`. */
  predicate ArgumentReads(t: CommandTree, n: nat, token: string, b: Binding, readsFloat: FloatReader) {
    && n < |t.nodes|
    && t.nodes[n].payload.Structure?
    && t.nodes[n].payload.data.Argument?
    && t.nodes[n].payload.data.name == b.name
    && ReadArgument(t.nodes[n].payload.data.parser, token, readsFloat) == Bind(b.value)
  }

  /** Some argument node read `b` from some token of `all`. */
  ghost predicate ReadFrom(t: CommandTree, all: seq<string>, b: Binding, readsFloat: FloatReader) {
    exists n, tok :: tok in all && ArgumentReads(t, n, tok, b, readsFloat)
  }

  /** Every binding of `ctx` was read by some argument node from some token of `all`. */
  ghost predicate Justified(t: CommandTree, all: seq<string>, ctx: CommandContext, readsFloat: FloatReader) {
    && Valid(ctx)
    && forall i :: 0 <= i < |ctx.names| ==> ReadFrom(t, all, Binding(ctx.names[i], ctx.data[i]), readsFloat)
  }

  /** Each binding a scan accepts was read from the token by one of the children. */
  lemma {:induction false} AcceptedAreReads(t: CommandTree, cs: seq<nat>, token: string, readsFloat: FloatReader)
    requires ChildrenIn(t, cs)
    ensures forall b :: b in Accepted(t, cs, token, readsFloat) ==>
      exists k :: 0 <= k < |cs| && ArgumentReads(t, cs[k], token, b, readsFloat)
    decreases |cs|
  {
    if |cs| > 0 {
      AcceptedAreReads(t, cs[1..], token, readsFloat);
      var here := BindingOf(t, cs[0], token, readsFloat);
      var tail := Accepted(t, cs[1..], token, readsFloat);
      forall b | b in here + tail
        ensures exists k :: 0 <= k < |cs| && ArgumentReads(t, cs[k], token, b, readsFloat)
      {
        if b in here {
          assert ArgumentReads(t, cs[0], token, b, readsFloat);
        } else {
          var k :| 0 <= k < |cs[1..]| && ArgumentReads(t, cs[1..][k], token, b, readsFloat);
          assert cs[1..][k] == cs[k + 1];
        }
      }
    }
  }

  lemma PushAllKeepsJustified(t: CommandTree, all: seq<string>, ctx: CommandContext, bs: seq<Binding>,
                              readsFloat: FloatReader)
    requires Justified(t, all, ctx, readsFloat) && |ctx.names| + |bs| <= CAPACITY
    requires forall b :: b in bs ==> ReadFrom(t, all, b, readsFloat)
    ensures Justified(t, all, PushAll(ctx, bs).value, readsFloat)
  {
    var c := PushAll(ctx, bs).value;
    var n0 := |ctx.names|;
    forall i | 0 <= i < |c.names|
      ensures ReadFrom(t, all, Binding(c.names[i], c.data[i]), readsFloat)
    {
      if i < n0 {
        assert c.names[..n0][i] == c.names[i] && c.data[..n0][i] == c.data[i];
      } else {
        assert Binding(c.names[i], c.data[i]) == bs[i - n0];
      }
    }
  }

  /** One scan keeps every binding justified, given its token is an input token. */
  lemma ScanKeepsJustified(t: CommandTree, all: seq<string>, cs: seq<nat>, token: string,
                           ctx: CommandContext, readsFloat: FloatReader)
    requires ChildrenIn(t, cs) && Justified(t, all, ctx, readsFloat) && token in all
    ensures !ScanChildren(t, cs, token, ctx, readsFloat).Failed? ==>
      Justified(t, all, ScanChildren(t, cs, token, ctx, readsFloat).ctx, readsFloat)
  {
    ScanMatchesSpec(t, cs, token, ctx, readsFloat);
    var j := FirstDecisive(t, cs, token, readsFloat);
    var pre := cs[..j];
    var bs := Accepted(t, pre, token, readsFloat);
    if |ctx.names| + |bs| <= CAPACITY {
      AcceptedAreReads(t, pre, token, readsFloat);
      forall b | b in bs ensures ReadFrom(t, all, b, readsFloat) {
        var k :| 0 <= k < |pre| && ArgumentReads(t, pre[k], token, b, readsFloat);
      }
      PushAllKeepsJustified(t, all, ctx, bs, readsFloat);
    }
  }

  lemma {:induction false} RunKeepsJustified(t: CommandTree, all: seq<string>, on: nat, tokens: seq<string>,
                                             ctx: CommandContext, readsFloat: FloatReader)
    requires ValidIndices(t) && on < |t.nodes| && Justified(t, all, ctx, readsFloat)
    requires forall m :: 0 <= m < |tokens| ==> tokens[m] in all
    requires Run(t, on, tokens, ctx, readsFloat).Ok?
    ensures Justified(t, all, Run(t, on, tokens, ctx, readsFloat).value.context, readsFloat)
    decreases |tokens|
  {
    var cs := t.nodes[on].children;
    ScanFacts(t, cs, tokens[0], ctx, readsFloat);
    ScanKeepsJustified(t, all, cs, tokens[0], ctx, readsFloat);
    assert tokens[1..] == tokens[1..];
    match ScanChildren(t, cs, tokens[0], ctx, readsFloat)
    case Fire(h, c) =>
    case Descend(n, c) =>
      RunKeepsJustified(t, all, n, tokens[1..], c, readsFloat);
    case Exhausted(c) =>
      RunKeepsJustified(t, all, on, tokens[1..], c, readsFloat);
  }

  /** A handler only ever sees bindings that some argument node of the tree
      read, under its own name, from some token of the input. */
  lemma DispatchBindsOnlyReadArguments(t: CommandTree, input: string, readsFloat: FloatReader)
    requires ValidIndices(t)
    requires Dispatch(t, input, readsFloat).Ok?
    ensures var c := Dispatch(t, input, readsFloat).value.context;
      forall i :: 0 <= i < |c.names| ==>
        ReadFrom(t, SplitAsciiWhitespace(input), Binding(c.names[i], c.data[i]), readsFloat)
  {
    var all := SplitAsciiWhitespace(input);
    RunKeepsJustified(t, all, t.root, all, Empty, readsFloat);
    var c := Dispatch(t, input, readsFloat).value.context;
    assert Justified(t, all, c, readsFloat);
  }

  // ---------------------------------------------------------------------
  // What each parser kind does with a token.

  /** A string argument always accepts the token and binds it verbatim. */
  lemma StringArgumentBindsToken(arg: StringArg, token: string, readsFloat: FloatReader)
    ensures ReadArgument(String(arg), token, readsFloat) == Bind(Str(token))
  {
  }

  predicate BindsInteger(r: ArgRead, v: int) { r.Bind? && r.value.I32? && r.value.i == v }

  predicate BindsLong(r: ArgRead, v: int) { r.Bind? && r.value.I64? && r.value.l == v }

  /** An integer argument binds exactly the canonical JSON spelling of an
      `i32`, ignoring its declared bounds; anything else is skipped. */
  lemma IntegerArgumentReadsCanonical(min: Option<i32>, max: Option<i32>, token: string, v: int,
                                      readsFloat: FloatReader)
    ensures BindsInteger(ReadArgument(Integer(min, max), token, readsFloat), v) <==>
      I32_MIN <= v <= I32_MAX && token == ShowInt(v)
    ensures ReadArgument(Integer(min, max), token, readsFloat).Skip? <==> ReadI32(token).None?
  {
    ReadI32Canonical(token, v);
  }

  /** A long argument binds exactly the canonical JSON spelling of an `i64`. */
  lemma LongArgumentReadsCanonical(min: Option<i64>, max: Option<i64>, token: string, v: int,
                                   readsFloat: FloatReader)
    ensures BindsLong(ReadArgument(Long(min, max), token, readsFloat), v) <==>
      I64_MIN <= v <= I64_MAX && token == ShowInt(v)
    ensures ReadArgument(Long(min, max), token, readsFloat).Skip? <==> ReadI64(token).None?
  {
    ReadI64Canonical(token, v);
  }

  /** A boolean argument binds exactly `true` and `false`. */
  lemma BoolArgumentReadsLiterals(token: string, b: bool, readsFloat: FloatReader)
    ensures ReadArgument(ParserKind.Bool, token, readsFloat) == Bind(Value.Bool(b)) <==> token == ShowBool(b)
    ensures ReadArgument(ParserKind.Bool, token, readsFloat).Skip? <==> token != "true" && token != "false"
  {
    ReadBoolCanonical(token, b);
  }

  /** Declared bounds play no part in reading a token. */
  lemma BoundsAreIgnored(p: ParserKind, q: ParserKind, token: string, readsFloat: FloatReader)
    requires (p.Integer? && q.Integer?) || (p.Long? && q.Long?) || (p.Float? && q.Float?) || (p.Double? && q.Double?)
    ensures ReadArgument(p, token, readsFloat) == ReadArgument(q, token, readsFloat)
  {
  }
}
