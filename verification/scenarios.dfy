/** Commands registered through the builder and then dispatched, as the
    repository's own tests do it. Each tree is built from the initial table
    (a lone root) so its node indices are known. */
module Scenarios {
  import opened Basics
  import opened Protocol
  import opened Tree
  import opened Context
  import opened Tokens
  import opened Execute
  import Dsl

  // ---------------------------------------------------------------------
  // `/gamemode <mode> [player]`, with a handler under each argument.

  const ModeArg: NodeData := Argument("mode", ParserKind.String(SingleWord))
  const PlayerArg: NodeData := Argument("player", ParserKind.String(SingleWord))

  const PlayerBody: seq<Dsl.Op> := [Dsl.AttachExecutor(2)]
  const ModeBody: seq<Dsl.Op> := [Dsl.AttachExecutor(1), Dsl.ArgumentWith("player", Dsl.String, PlayerBody)]
  const Gamemode: seq<Dsl.Op> := [Dsl.ArgumentWith("mode", Dsl.String, ModeBody)]

  const GamemodeTree: CommandTree := Dsl.CmdWith(Initial, "gamemode", Gamemode)

  /** The builder's intermediate trees, one node more at each step, and the
      parents it remembers. */
  const G1: CommandTree := AddNode(Initial, Structure(Literal("gamemode")), 0).0
  const G2: CommandTree := AddNode(G1, Structure(ModeArg), 1).0
  const G3: CommandTree := AddNode(G2, Executor(1), 2).0
  const G4: CommandTree := AddNode(G3, Structure(PlayerArg), 2).0
  const G5: CommandTree := AddNode(G4, Executor(2), 4).0
  const P1: map<nat, nat> := map[1 := 0]
  const P2: map<nat, nat> := P1[2 := 1]
  const P4: map<nat, nat> := P2[4 := 2]

  lemma PlayerStep()
    ensures Dsl.RunOps(Dsl.Scope(G4, 4, P4), PlayerBody) == Dsl.Scope(G5, 4, P4)
  {
  }

  lemma ModeTailStep()
    ensures Dsl.RunOps(Dsl.Scope(G3, 2, P2), ModeBody[1..]) == Dsl.Scope(G5, 2, P4)
  {
    PlayerStep();
  }

  lemma ModeStep()
    ensures Dsl.RunOps(Dsl.Scope(G2, 2, P2), ModeBody) == Dsl.Scope(G5, 2, P4)
  {
    ModeTailStep();
  }

  lemma GamemodeStep()
    ensures Dsl.RunOps(Dsl.Scope(G1, 1, P1), Gamemode) == Dsl.Scope(G5, 1, P4)
  {
    ModeStep();
    Dsl.LoneArgumentWith(Dsl.Scope(G1, 1, P1), "mode", Dsl.String, ModeBody);
  }

  lemma GamemodeIsG5()
    ensures GamemodeTree == G5
  {
    GamemodeStep();
    var s0 := Dsl.NewScope(Initial);
    assert s0.parents[1 := 0] == P1;
    assert AddNode(Initial, Structure(Literal("gamemode")), 0) == (G1, 1);
    assert Dsl.Enter(s0, Literal("gamemode"), Gamemode) == Dsl.EndScope(Dsl.Scope(G5, 1, P4));
  }

  const GRoot: Node := Node(Structure(Root), None, [1])
  const GLiteral: Node := Node(Structure(Literal("gamemode")), Some(0), [2])
  const GMode: Node := Node(Structure(ModeArg), Some(1), [3, 4])
  const GPlayer: Node := Node(Structure(PlayerArg), Some(2), [5])

  lemma G3Nodes()
    ensures |G3.nodes| == 4
    ensures G3.nodes[0] == GRoot && G3.nodes[1] == GLiteral
    ensures G3.nodes[2] == GMode.(children := [3]) && G3.nodes[3] == Node(Executor(1), Some(2), [])
  {
    assert Initial.nodes[0].children + [1] == [1];
    assert G1.nodes[1].children + [2] == [2];
    assert G2.nodes[2].children + [3] == [3];
  }

  lemma G5Nodes()
    ensures |G5.nodes| == 6
    ensures G5.nodes[0] == GRoot && G5.nodes[1] == GLiteral && G5.nodes[2] == GMode
    ensures G5.nodes[3] == Node(Executor(1), Some(2), [])
    ensures G5.nodes[4] == GPlayer && G5.nodes[5] == Node(Executor(2), Some(4), [])
  {
    G3Nodes();
    assert G3.nodes[2].children + [4] == [3, 4];
    assert G4.nodes[4].children + [5] == [5];
  }

  /** The builder lays out the gamemode command as the test intends: each
      handler is a child of its argument node, the player argument a child of
      the mode argument. */
  lemma GamemodeBuilds()
    ensures GamemodeTree.root == 0
    ensures GamemodeTree.nodes == [GRoot, GLiteral, GMode, Node(Executor(1), Some(2), []),
                                   GPlayer, Node(Executor(2), Some(4), [])]
  {
    GamemodeIsG5();
    G5Nodes();
  }

  /** No input reaches either gamemode handler: both hang under argument
      nodes, which never become the current node. The test's
      `gamemode creative` therefore ends in an error, not in a call. */
  lemma GamemodeNeverDispatches(input: string, readsFloat: FloatReader)
    ensures ValidIndices(GamemodeTree)
    ensures Dispatch(GamemodeTree, input, readsFloat).Err?
  {
    GamemodeBuilds();
    var t := GamemodeTree;
    if Dispatch(t, input, readsFloat).Ok? {
      DispatchFiresUnderRootOrLiteral(t, input, readsFloat);
    }
  }

  /** What dispatch needs to know of the gamemode tree. */
  predicate GamemodeShaped(t: CommandTree) {
    && ValidIndices(t) && t.root == 0 && |t.nodes| == 6
    && t.nodes[0] == GRoot && t.nodes[1] == GLiteral && t.nodes[2] == GMode
  }

  lemma GamemodeShape()
    ensures GamemodeShaped(GamemodeTree)
  {
    GamemodeBuilds();
  }

  /** Splitting two words joined by a space gives them back. */
  lemma SplitTwoWords(a: string, b: string)
    requires IsWord(a) && IsWord(b)
    ensures SplitAsciiWhitespace(a + " " + b) == [a, b]
  {
    SplitJoinRoundTrip([a, b]);
    assert JoinWithSpaces([a, b]) == a + " " + b;
  }

  /** `gamemode creative`: the literal is entered, the mode argument binds
      `creative` but the cursor stays on the literal, and the input runs
      out. */
  lemma GamemodeCreative(readsFloat: FloatReader)
    ensures ValidIndices(GamemodeTree)
    ensures Run(GamemodeTree, 1, ["creative"], Empty, readsFloat)
         == Run(GamemodeTree, 1, [], CommandContext(["mode"], [Str("creative")], [Str("creative")]), readsFloat)
    ensures Dispatch(GamemodeTree, "gamemode creative", readsFloat) == Err(CommandNotFound)
  {
    GamemodeShape();
    GamemodeCreativeOn(GamemodeTree, readsFloat);
  }

  lemma GamemodeCreativeOn(t: CommandTree, readsFloat: FloatReader)
    requires GamemodeShaped(t)
    ensures Run(t, 1, ["creative"], Empty, readsFloat)
         == Run(t, 1, [], CommandContext(["mode"], [Str("creative")], [Str("creative")]), readsFloat)
    ensures Dispatch(t, "gamemode creative", readsFloat) == Err(CommandNotFound)
  {
    GamemodeCreativeBinds(t, readsFloat);
    GamemodeEnters(t, ["creative"], readsFloat);
    SplitGamemodeCreative();
  }

  lemma SplitGamemodeCreative()
    ensures SplitAsciiWhitespace("gamemode creative") == ["gamemode", "creative"]
  {
    assert IsWord("gamemode") && IsWord("creative");
    SplitTwoWords("gamemode", "creative");
    assert "gamemode" + " " + "creative" == "gamemode creative" by {
      var j := "gamemode" + " " + "creative";
      assert |j| == 17;
      assert forall i :: 0 <= i < 17 ==> j[i] == "gamemode creative"[i];
    }
  }

  /** The first token `gamemode` enters the literal with no bindings. */
  lemma GamemodeEnters(t: CommandTree, rest: seq<string>, readsFloat: FloatReader)
    requires GamemodeShaped(t)
    ensures Run(t, 0, ["gamemode"] + rest, Empty, readsFloat) == Run(t, 1, rest, Empty, readsFloat)
  {
    MatchingLiteralDescends(t, 0, 0, "gamemode", rest, Empty, readsFloat);
    assert t.nodes[0].children[..0] == [];
  }

  lemma GamemodeCreativeBinds(t: CommandTree, readsFloat: FloatReader)
    requires GamemodeShaped(t)
    ensures Run(t, 1, ["creative"], Empty, readsFloat)
         == Run(t, 1, [], CommandContext(["mode"], [Str("creative")], [Str("creative")]), readsFloat)
  {
    assert ["creative"][1..] == [];
    UnsettledTokenStaysAtNode(t, 1, "creative", [], Empty, readsFloat);
    assert Accepted(t, [2], "creative", readsFloat) == [Binding("mode", Str("creative"))];
  }

  // ---------------------------------------------------------------------
  // `cmd_with("test", |scope| scope.literal("example").executor(h))`.

  const ExampleOps: seq<Dsl.Op> := [Dsl.LiteralWith("example", []), Dsl.AttachExecutor(0)]

  const ExampleTree: CommandTree := Dsl.CmdWith(Initial, "test", ExampleOps)

  const E1: CommandTree := AddNode(Initial, Structure(Literal("test")), 0).0
  const E2: CommandTree := AddNode(E1, Structure(Literal("example")), 1).0
  const E3: CommandTree := AddNode(E2, Executor(0), 1).0
  const Q1: map<nat, nat> := map[1 := 0]
  const Q2: map<nat, nat> := Q1[2 := 1]

  lemma ExampleStep()
    ensures Dsl.RunOps(Dsl.Scope(E1, 1, Q1), ExampleOps) == Dsl.Scope(E3, 1, Q2)
  {
    var s1 := Dsl.Scope(E1, 1, Q1);
    assert Dsl.Enter(s1, Literal("example"), []) == Dsl.EndScope(Dsl.Scope(E2, 2, Q2));
    assert Dsl.RunOps(Dsl.Scope(E2, 1, Q2), ExampleOps[1..]) == Dsl.Scope(E3, 1, Q2);
  }

  /** The handler is attached to `test`, next to `example`, not below it. */
  lemma ExampleBuilds()
    ensures ExampleTree.root == 0
    ensures ExampleTree.nodes == [
      Node(Structure(Root), None, [1]),
      Node(Structure(Literal("test")), Some(0), [2, 3]),
      Node(Structure(Literal("example")), Some(1), []),
      Node(Executor(0), Some(1), [])]
  {
    ExampleStep();
    var s0 := Dsl.NewScope(Initial);
    assert s0.parents[1 := 0] == Q1;
    assert Dsl.Enter(s0, Literal("test"), ExampleOps) == Dsl.EndScope(Dsl.Scope(E3, 1, Q2));
    assert ExampleTree == E3;
    assert Initial.nodes[0].children + [1] == [1];
    assert E1.nodes[1].children + [2] == [2];
    assert E2.nodes[1].children + [3] == [2, 3];
  }

  /** What dispatch needs to know of the example tree. */
  predicate ExampleShaped(t: CommandTree) {
    && ValidIndices(t) && t.root == 0 && |t.nodes| == 4
    && t.nodes[0].children == [1] && t.nodes[1].children == [2, 3]
    && t.nodes[1].payload == Structure(Literal("test"))
    && t.nodes[2] == Node(Structure(Literal("example")), Some(1), [])
    && t.nodes[3].payload == Executor(0)
  }

  lemma ExampleShape()
    ensures ExampleShaped(ExampleTree)
  {
    ExampleBuilds();
  }

  /** The first token `test` enters the `test` literal with no bindings. */
  lemma ExampleEntersTest(t: CommandTree, rest: seq<string>, readsFloat: FloatReader)
    requires ExampleShaped(t)
    ensures Run(t, 0, ["test"] + rest, Empty, readsFloat) == Run(t, 1, rest, Empty, readsFloat)
  {
    MatchingLiteralDescends(t, 0, 0, "test", rest, Empty, readsFloat);
    assert t.nodes[0].children[..0] == [];
  }

  /** `test <word>` runs the handler, with no bindings, for every word other
      than `example` (in any letter case). */
  lemma TestThenOtherWordRunsHandler(w: string, readsFloat: FloatReader)
    requires IsWord(w) && !EqIgnoreAsciiCase("example", w)
    ensures ValidIndices(ExampleTree)
    ensures Dispatch(ExampleTree, "test " + w, readsFloat) == Ok(Invocation(0, Empty))
  {
    ExampleShape();
    TestThenOtherWordOn(ExampleTree, w, readsFloat);
  }

  lemma TestThenOtherWordOn(t: CommandTree, w: string, readsFloat: FloatReader)
    requires ExampleShaped(t)
    requires IsWord(w) && !EqIgnoreAsciiCase("example", w)
    ensures Dispatch(t, "test " + w, readsFloat) == Ok(Invocation(0, Empty))
  {
    assert IsWord("test");
    SplitTwoWords("test", w);
    assert "test" + " " + w == "test " + w;
    assert ["test", w] == ["test"] + [w];
    ExampleEntersTest(t, [w], readsFloat);
    OtherWordFires(t, w, readsFloat);
  }

  /** At `test`, a word other than `example` passes the literal and reaches
      the handler. */
  lemma OtherWordFires(t: CommandTree, w: string, readsFloat: FloatReader)
    requires ExampleShaped(t)
    requires !EqIgnoreAsciiCase("example", w)
    ensures Run(t, 1, [w], Empty, readsFloat) == Ok(Invocation(0, Empty))
  {
    ExecutorChildFires(t, 1, 1, w, [], Empty, readsFloat);
    assert t.nodes[1].children[..1] == [2];
    assert Accepted(t, [2], w, readsFloat) == [];
    assert [w] + [] == [w];
  }

  /** `test` alone never runs the handler: the input runs out on the literal. */
  lemma TestAloneFails(readsFloat: FloatReader)
    ensures ValidIndices(ExampleTree)
    ensures Dispatch(ExampleTree, "test", readsFloat) == Err(CommandNotFound)
  {
    ExampleShape();
    assert IsWord("test");
    SplitJoinRoundTrip(["test"]);
    ExampleEntersTest(ExampleTree, [], readsFloat);
    assert ["test"] + [] == ["test"];
  }

  /** `test example` never runs the handler, and neither does any longer
      input starting with those two tokens: after `example` there is
      nothing to descend into. */
  lemma TestExampleFails(more: seq<string>, readsFloat: FloatReader)
    ensures ValidIndices(ExampleTree)
    ensures Dispatch(ExampleTree, "test example", readsFloat) == Err(CommandNotFound)
    ensures Run(ExampleTree, 0, ["test", "example"] + more, Empty, readsFloat) == Err(CommandNotFound)
  {
    ExampleShape();
    TestExampleFailsOn(ExampleTree, more, readsFloat);
    TestExampleFailsOn(ExampleTree, [], readsFloat);
    SplitTestExample();
  }

  lemma TestExampleFailsOn(t: CommandTree, more: seq<string>, readsFloat: FloatReader)
    requires ExampleShaped(t)
    ensures Run(t, 0, ["test", "example"] + more, Empty, readsFloat) == Err(CommandNotFound)
  {
    assert ["test", "example"] + more == ["test"] + (["example"] + more);
    ExampleEntersTest(t, ["example"] + more, readsFloat);
    ExampleIsADeadEnd(t, more, readsFloat);
  }

  lemma SplitTestExample()
    ensures SplitAsciiWhitespace("test example") == ["test", "example"] + []
  {
    assert IsWord("test") && IsWord("example");
    SplitTwoWords("test", "example");
    assert "test" + " " + "example" == "test example" by {
      var j := "test" + " " + "example";
      assert |j| == 12;
      assert forall i :: 0 <= i < 12 ==> j[i] == "test example"[i];
    }
    assert ["test", "example"] + [] == ["test", "example"];
  }

  lemma ExampleIsADeadEnd(t: CommandTree, more: seq<string>, readsFloat: FloatReader)
    requires ExampleShaped(t)
    ensures Run(t, 1, ["example"] + more, Empty, readsFloat) == Err(CommandNotFound)
  {
    MatchingLiteralDescends(t, 1, 0, "example", more, Empty, readsFloat);
    assert t.nodes[1].children[..0] == [];
    ChildlessNodeFails(t, 2, more, Empty, readsFloat);
  }
}
