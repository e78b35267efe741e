# hyperion-command in Dafny

A model of the command engine of the `hyperion-command` crate, with proofs about it. The crate has three parts:

- **The registration DSL.** A builder scope walks a cursor over the command tree. `cmd_with`, `literal_with`, `argument_with`, `executor` and `end` create literal, argument and executor nodes as children of the cursor.
- **The dispatcher (`execute`).** It splits the raw command into tokens at ASCII whitespace. It walks the tree from the root one token per round and binds argument values into a `CommandContext`. It calls the first executor it reaches.
- **The serializer (`get_command_packet`).** It flattens the tree into the client's command-tree packet, using a depth-limited stack walk.

The host's entity store is modelled as a node table: a sequence of nodes with a payload, a parent index and an ordered child list.

Each module corresponds to one part of the code:

- `basics.dfy`: Rust's `Option`/`Result`, the integer widths, and the ASCII helpers of `str`.
- `protocol.dfy`: the protocol's node data and packet shape.
- `json.dfy`: how the JSON reader reads a token as a boolean or an integer.
- `tokens.dfy`: `split_ascii_whitespace`.
- `context.dfy`: `CommandContext`.
- `tree.dfy`: the node table, plus `add_command` and `add_executor`.
- `dsl.dfy`: the builder.
- `execute.dfy`: the dispatcher.
- `packet.dfy`: the serializer.
- `scenarios.dfy`: the repository's own example commands, built with the DSL and then dispatched.

## Where the model follows the code over the repository's own test

The integration test (crates/hyperion-command/tests/commands.rs:25-46 and 91-107) expects the dispatcher to bind an argument and then *descend into it*. It expects `gamemode creative` to reach the executor registered under the `mode` argument, and `time set 6000` the one under `value`. The dispatcher in `execute.rs` does something else, and the model does what that code does:

- **Arguments never become the current node.** An argument that reads the token binds it, and the scan goes on with the same token over the later siblings.
- **Children are tried strictly in order.** A literal wins only if no earlier sibling settles the scan first.
- **Handlers run only while a token is left.** An executor child is invoked as soon as the scan reaches it, whatever the token is. Running out of tokens is always "command not found".
- **A token that no child settles is dropped.** The next token is tried at the same node.

Consequences that the model proves:

- A handler hung under an argument node is unreachable (`Execute.DispatchFiresUnderRootOrLiteral`).
- In the repository's integration test, `/gamemode <mode> [player]` can never dispatch, so its `gamemode creative` call ends in an error (`Scenarios.GamemodeNeverDispatches`).
- Two successive `executor` calls on one scope attach two executor nodes; the second does not replace the first (`Dsl.TwoExecutorsAttachBoth`). `executor` returns nothing (dsl.rs:130), so the test's `.executor(..).argument(..)` chains are read as successive calls on the same scope.

`execute.rs` calls `context.push(name, ptr)` with two arguments, while `lib.rs` declares `push(name, bump, data)`. The model's `Push` appends the value under the name, which is what both forms intend.

## Model

| member | source | states |
|---|---|---|
| Basics.EqIgnoreAsciiCaseEquivalence | crates/hyperion-command/src/lib.rs:83 | Name comparison ignoring ASCII case is reflexive, symmetric and transitive. So "first matching name" means the same thing whichever side is the query. |
| Basics.AsciiLowerAgreement | crates/hyperion-command/src/execute.rs:48 | Two characters match ignoring ASCII case exactly when they are equal or are the two cases of one ASCII letter. |
| Context.Push | crates/hyperion-command/src/lib.rs:64-73 | A push succeeds exactly when fewer than 64 bindings are stored (otherwise the source's `unwrap` panics). On success it appends the name and value, with the debug copy in lockstep. |
| Context.PushAll | crates/hyperion-command/src/execute.rs:53-96 | Pushing a list succeeds exactly when the total stays within 64. It keeps the old bindings as a prefix and appends the new ones in order. |
| Context.FirstMatchFrom | crates/hyperion-command/src/lib.rs:79-84 | Finds the first index whose name matches ignoring ASCII case. A None result means no name from the start position on matches. |
| Context.Get | crates/hyperion-command/src/lib.rs:75-90 | `get` fails with ArgumentNotFound exactly when no stored name matches ignoring ASCII case. Otherwise it returns the value at the first match. |
| Context.GetAfterPush | crates/hyperion-command/src/lib.rs:64-90 | After a push, a lookup finds an older matching binding if there is one (later duplicates are shadowed). Otherwise it finds the new binding if its name matches, else it fails. |
| Context.FirstMatchAfterAppend | crates/hyperion-command/src/lib.rs:79-84 | Searching a name list extended by one name gives the shorter list's answer. If there is none, it gives the new index when the new name matches. |
| Context.DebugListsPushesInOrder | crates/hyperion-command/src/lib.rs:49-61 | The debug map lists exactly the pushed (name, value) pairs, in insertion order. |
| Tokens.SplitAsciiWhitespace | crates/hyperion-command/src/execute.rs:9 | Every token is non-empty and free of ASCII whitespace, and there are no tokens exactly when the input is blank. Where tokens start and end is pinned down by `Tokens.LeadingWhitespaceSkipped` and `Tokens.SplitWordThen`, which together fix the split of every input. |
| Tokens.SplitKeepsContent | crates/hyperion-command/src/execute.rs:9 | The tokens, concatenated, are the input's non-whitespace characters in order. Splitting loses only whitespace. |
| Tokens.SplitJoinRoundTrip | crates/hyperion-command/src/execute.rs:9 | Splitting words joined by single spaces gives back the same words. |
| Tokens.SplitAfterWord | crates/hyperion-command/src/execute.rs:9 | A word followed by any one ASCII whitespace character (space, tab, line break, form feed) splits off as the first token, and the separator is dropped. |
| Tokens.SplitWordThen | crates/hyperion-command/src/execute.rs:9 | Tokens are maximal runs: a word that ends the input or is followed by ASCII whitespace splits off whole as the first token, and splitting goes on with the rest. |
| Tokens.LeadingWhitespaceSkipped | crates/hyperion-command/src/execute.rs:9 | Any run of leading ASCII whitespace, of any kind and length, is skipped. Runs of separators therefore never produce empty or extra tokens. |
| Tokens.BlankInputHasNoTokens | crates/hyperion-command/src/execute.rs:9 | Empty or all-whitespace input yields no tokens. |
| Json.IntegerTokenCanonical | crates/hyperion-command/src/execute.rs:79-92 | A token reads as integer `v` exactly when it is `v`'s canonical JSON spelling: no plus sign, no leading zeros, no `-0`. |
| Json.IntegerTokenIsCanonical | crates/hyperion-command/src/execute.rs:79-92 | Any token that reads as an integer is that integer's canonical spelling. |
| Json.CanonicalIsIntegerToken | crates/hyperion-command/src/execute.rs:79-92 | The canonical spelling of every integer reads back as that integer. |
| Json.ShowNatIsCanonical | crates/hyperion-command/src/execute.rs:79-92 | The decimal spelling of a natural number is a well-formed digit string (no leading zero) whose value is that number. |
| Json.ReadI32Canonical | crates/hyperion-command/src/execute.rs:79-85 | Reading an `i32` accepts exactly the canonical spellings of 32-bit values and binds that value. Out-of-range values are refused, never wrapped. |
| Json.ReadI64Canonical | crates/hyperion-command/src/execute.rs:86-92 | Reading an `i64` accepts exactly the canonical spellings of 64-bit values. |
| Json.ReadBoolCanonical | crates/hyperion-command/src/execute.rs:58-64 | Reading a boolean accepts exactly `true` and `false`, case-sensitively. |
| Json.ShowNatOfValue | crates/hyperion-command/src/execute.rs:79-92 | A well-formed unsigned digit string is the canonical spelling of its own value. |
| Tree.AddNode | crates/hyperion-command/src/dsl.rs:42-52 | `add_command` and `add_executor` create a fresh node with the given payload and parent. It becomes the parent's last child, and no other node changes. |
| Tree.InitialIsWellFormed | crates/hyperion-command/src/lib.rs:111-120 | The table after module registration, a lone root, is well formed. |
| Tree.AddNodeKeepsWellFormed | crates/hyperion-command/src/dsl.rs:42-52 | Adding a non-root node under a command node keeps the tree well formed. That means one root first, parents created before their children, back links, and child lists in creation order. |
| Tree.AddNodeKeepsIndices | crates/hyperion-command/src/dsl.rs:42-52 | Adding a node keeps every child reference inside the table. |
| Tree.AddNodeKeepsParents | crates/hyperion-command/src/dsl.rs:42-52 | Adding a node keeps every non-root node below an earlier command-node parent that lists it. |
| Tree.AddNodeKeepsBackPointers | crates/hyperion-command/src/dsl.rs:42-52 | Adding a node keeps every listed child pointing back at its parent. |
| Tree.AddNodeKeepsOrder | crates/hyperion-command/src/dsl.rs:42-52 | Adding a node keeps every child list in creation order. |
| Dsl.ToProtocolInjective | crates/hyperion-command/src/dsl.rs:30-37 | Converting a builder parser to a protocol parser loses nothing. The result is always a string or integer parser, which the dispatcher implements. |
| Dsl.FromRangeAsWritten | crates/hyperion-command/src/dsl.rs:12-19 | `From<Range<i32>>` as written: an integer parser whose minimum is the range start and whose maximum is the range's exclusive end. |
| Dsl.RangeEndAdmitted | crates/hyperion-command/src/dsl.rs:12-19 | For every non-empty range `start..end`, the bounds written admit `end`, which the range excludes (`0..10` admits 10). |
| Dsl.FromRange | crates/hyperion-command/src/dsl.rs:12-19 | Corrected conversion: an integer parser with the range start as its minimum and a maximum set. What the bounds admit is stated by `Dsl.FromRangeAdmitsExactlyRange`. |
| Dsl.FromRangeAdmitsExactlyRange | crates/hyperion-command/src/dsl.rs:12-19 | For a non-empty range, the corrected bounds admit a value exactly when it lies in `start..end`. |
| Dsl.FromRangeFrom | crates/hyperion-command/src/dsl.rs:21-28 | `From<RangeFrom<i32>>`: the bounds admit a value exactly when it is at least the start. |
| Dsl.EndScope | crates/hyperion-command/src/dsl.rs:135-140 | `end` changes only the cursor. |
| Dsl.RunOps | crates/hyperion-command/src/dsl.rs:84-132 | A closure body only extends the tree and adds exactly the nodes its calls create. Remembered parents are never forgotten or changed. |
| Dsl.RunOp | crates/hyperion-command/src/dsl.rs:84-132 | One scope call extends the tree by the nodes it creates and keeps the remembered parents. |
| Dsl.Enter | crates/hyperion-command/src/dsl.rs:84-127 | `literal_with`/`argument_with` extend the tree by one node plus the closure's nodes. |
| Dsl.CmdWith | crates/hyperion-command/src/dsl.rs:55-61 | `cmd_with` extends the tree by one node plus the closure's nodes. |
| Dsl.NewScopeInv | crates/hyperion-command/src/dsl.rs:75-81 | A new scope on a well-formed tree starts on a command node (the root) and remembers nothing. |
| Dsl.ScopeInvIsCoherent | crates/hyperion-command/src/dsl.rs:68-72 | A scope whose bookkeeping matches its tree has a cursor and remembered parents that all lie inside the tree. |
| Dsl.EndReturnsToParent | crates/hyperion-command/src/dsl.rs:135-140 | `end` moves the cursor to the tree parent of the node it is on, and does nothing at the root. |
| Dsl.RunOpsKeepsInv | crates/hyperion-command/src/dsl.rs:84-140 | Any sequence of scope calls keeps the tree well formed. It also keeps the cursor on a command node and each remembered parent equal to the node's tree parent. |
| Dsl.RunOpKeepsInv | crates/hyperion-command/src/dsl.rs:84-140 | Each single scope call keeps the same invariant. |
| Dsl.EnterKeepsInv | crates/hyperion-command/src/dsl.rs:84-127 | `literal_with`/`argument_with` keep the same invariant. |
| Dsl.EnteredScopeInv | crates/hyperion-command/src/dsl.rs:88-91 | Just inside the new node, before its closure runs, the invariant holds. |
| Dsl.NoEndRestoresCursor | crates/hyperion-command/src/dsl.rs:84-127 | A closure body that never calls `end` leaves the cursor where it started. |
| Dsl.NoEndOpRestoresCursor | crates/hyperion-command/src/dsl.rs:84-132 | A call other than `end` (at any depth) leaves the cursor where it was. |
| Dsl.EnterRestoresCursor | crates/hyperion-command/src/dsl.rs:84-127 | `..._with` with an `end`-free closure returns the cursor to its starting node. |
| Dsl.EnterReturnsToCursor | crates/hyperion-command/src/dsl.rs:84-140 | Scope balance for any closure: if the closure leaves the cursor on the node just created (however it moved, `end` calls included), `literal_with`/`argument_with` return the cursor to where it was. |
| Dsl.NoEndTouchesOnlyCursor | crates/hyperion-command/src/dsl.rs:84-132 | An `end`-free closure body changes no pre-existing node other than the cursor's. |
| Dsl.NoEndOpTouchesOnlyCursor | crates/hyperion-command/src/dsl.rs:84-132 | One `end`-free call changes no pre-existing node other than the cursor's. |
| Dsl.EnterTouchesOnlyCursor | crates/hyperion-command/src/dsl.rs:84-127 | `..._with` with an `end`-free closure changes no pre-existing node other than the cursor's. |
| Dsl.EnterCreatesChild | crates/hyperion-command/src/dsl.rs:84-127 | `literal_with`/`argument_with` create their node with the given data, as a child of the cursor appended to its child list, and remember the cursor as the node's parent, whatever the closure does. |
| Dsl.EnterWithoutEndAddsOneChild | crates/hyperion-command/src/dsl.rs:84-127 | With an `end`-free closure, the cursor's child list gains exactly the new node. |
| Dsl.CmdWithAddsTopLevelCommand | crates/hyperion-command/src/dsl.rs:55-61 | `cmd_with(name, f)` keeps the tree well formed and adds literal `name` as the root's newest child. With an `end`-free `f`, nothing else goes under the root. |
| Dsl.CmdAddsLeaf | crates/hyperion-command/src/dsl.rs:63-65 | `cmd(name)` adds exactly one node: a childless literal appended under the root. |
| Dsl.TwoExecutorsAttachBoth | crates/hyperion-command/src/dsl.rs:130-132 | Two successive `executor` calls add exactly two nodes. The first is an executor for the first handler and the second one for the second, both parented to the cursor. The cursor's child list gains them in call order, so the second does not replace the first. The cursor and the remembered parents are unchanged. |
| Dsl.ExecutorAfterLiteralAttachesToCursor | crates/hyperion-command/src/dsl.rs:100-132 | In `literal(x).executor(h)` the executor goes next to the literal, under the cursor, not below the literal. |
| Dsl.ExecutorStays | crates/hyperion-command/src/dsl.rs:130-132 | `executor` adds exactly one node: an executor for the handler, parented to the cursor and appended to the cursor's child list. The cursor, the remembered parents and every other node are unchanged. |
| Dsl.LeafLiteralReturns | crates/hyperion-command/src/dsl.rs:100-102 | `literal(name)` adds a leaf under the cursor and leaves the cursor where it was. |
| Dsl.TwoNodesUnderOneParent | crates/hyperion-command/src/dsl.rs:42-52 | Two additions under one parent append both new nodes to its child list in order. |
| Execute.Run | crates/hyperion-command/src/execute.rs:15-142 | The loop: success needs at least one token left. The bindings handed to the handler extend the starting ones. |
| Execute.ExecuteCommand | crates/hyperion-command/src/execute.rs:8-38 | `execute` returns the dispatch error when dispatch fails. Otherwise it succeeds exactly when the invoked handler reports success for the collected bindings, and it returns `HandlerFailed` with the handler's message when it does not. Blank input never reaches a handler. |
| Execute.ExecuteSucceedsThroughExecutor | crates/hyperion-command/src/execute.rs:8-142 | A successful `execute` ran a handler hung on an executor node directly under the root or under a literal, and that handler reported success. |
| Execute.FirstDecisive | crates/hyperion-command/src/execute.rs:30-141 | Finds the first child that settles a scan: an executor, a Root, a literal equal to the token, or an unimplemented parser. |
| Execute.BindingOf | crates/hyperion-command/src/execute.rs:53-96 | A child contributes at most one binding, and only an argument that reads the token does. |
| Execute.Settle | crates/hyperion-command/src/execute.rs:33-52 | The settling child decides the outcome without adding bindings. The scan runs out exactly when there is no settling child. |
| Execute.SpecStep | crates/hyperion-command/src/execute.rs:30-141 | Past a child that does not settle the scan, the reference description continues with the rest, after that child's binding (or fails when the store is full). |
| Execute.ScanMatchesSpec | crates/hyperion-command/src/execute.rs:30-141 | The child loop equals the reference description. Bindings of the children before the first settling child are pushed in order, then that child decides. |
| Execute.ScanFacts | crates/hyperion-command/src/execute.rs:30-141 | A scan only appends bindings. It fires only an executor child and descends only into a literal child. |
| Execute.BlankInputFails | crates/hyperion-command/src/execute.rs:19-21 | Blank input fails with "command not found". |
| Execute.TooManyChildrenFails | crates/hyperion-command/src/execute.rs:24-28 | A round at a node with more than 64 children panics. |
| Execute.UnsettledTokenStaysAtNode | crates/hyperion-command/src/execute.rs:53-96 | When no child settles the scan, every reading argument binds the token in order, and the walk stays at the same node for the next token. |
| Execute.ScanExhausts | crates/hyperion-command/src/execute.rs:30-141 | With no settling child, the scan ends exhausted with every reading argument's binding pushed. |
| Execute.MatchingLiteralDescends | crates/hyperion-command/src/execute.rs:47-52 | A literal equal to the token (ignoring ASCII case), with no earlier settling sibling, becomes the current node. Earlier reading arguments have bound the token. |
| Execute.ExecutorChildFires | crates/hyperion-command/src/execute.rs:33-38 | An executor child reached by the scan is invoked at once, with the bindings so far and whatever tokens remain. |
| Execute.ChildlessNodeFails | crates/hyperion-command/src/execute.rs:15-30 | At a childless node every token is dropped, and dispatch fails with "command not found". |
| Execute.RunFiresUnderStartOrLiteral | crates/hyperion-command/src/execute.rs:15-142 | The handler of a successful walk is an executor child of the start node or of a literal. |
| Execute.DispatchFiresUnderRootOrLiteral | crates/hyperion-command/src/execute.rs:8-142 | A successful dispatch invokes an executor directly under the root or under a literal, never one under an argument. |
| Execute.AcceptedAreReads | crates/hyperion-command/src/execute.rs:53-96 | Every binding a scan accepts was read from the token by one of the children. |
| Execute.PushAllKeepsJustified | crates/hyperion-command/src/execute.rs:53-96 | Pushing bindings that were each read from an input token keeps every stored binding justified. |
| Execute.ScanKeepsJustified | crates/hyperion-command/src/execute.rs:30-141 | One scan keeps every binding justified by an input token. |
| Execute.RunKeepsJustified | crates/hyperion-command/src/execute.rs:15-142 | The whole walk keeps every binding justified by an input token. |
| Execute.DispatchBindsOnlyReadArguments | crates/hyperion-command/src/execute.rs:8-142 | A handler only sees bindings that an argument node of the tree read from an input token, under its own name. |
| Execute.StringArgumentBindsToken | crates/hyperion-command/src/execute.rs:93-96 | A string argument binds the token verbatim. |
| Execute.IntegerArgumentReadsCanonical | crates/hyperion-command/src/execute.rs:79-85 | An integer argument binds exactly the canonical spelling of an `i32`, ignoring its bounds, and skips anything else. |
| Execute.LongArgumentReadsCanonical | crates/hyperion-command/src/execute.rs:86-92 | A long argument binds exactly the canonical spelling of an `i64` and skips anything else. |
| Execute.BoolArgumentReadsLiterals | crates/hyperion-command/src/execute.rs:58-64 | A boolean argument binds exactly `true`/`false` and skips anything else. |
| Execute.BoundsAreIgnored | crates/hyperion-command/src/execute.rs:65-92 | Declared numeric bounds play no part in reading a token. |
| Packet.EmitChild | crates/hyperion-command/src/lib.rs:228-248 | Emitting one child keeps the walk consistent and never removes entries. The stack either stays as it was or gains exactly one frame, one level deeper, for the entry just added. |
| Packet.EachChild | crates/hyperion-command/src/lib.rs:228-248 | Expanding a node pushes at most one frame per child, one level deeper, above the untouched stack. |
| Packet.Run | crates/hyperion-command/src/lib.rs:217-249 | The loop terminates on every table, cyclic ones included, and ends with an empty stack or a top frame at depth 64. |
| Packet.ReplaceTopLowersWeight | crates/hyperion-command/src/lib.rs:217-249 | Replacing the top frame, below depth 64, by at most fan-out frames one level deeper strictly lowers the termination measure. |
| Packet.Serialize | crates/hyperion-command/src/lib.rs:192-255 | The finished walk is consistent: entry origins, child indices and parent links all stay in range, and the root entry is present. |
| Packet.EmitKeepsInv | crates/hyperion-command/src/lib.rs:228-248 | Emitting a child keeps the walk's invariant: entries copy their nodes, links are consistent, frames are sound, and every other entry is expanded. |
| Packet.EachChildKeepsInv | crates/hyperion-command/src/lib.rs:228-248 | Emitting each child in turn keeps the invariant. |
| Packet.EachChildEmitsInOrder | crates/hyperion-command/src/lib.rs:228-248 | Expanding a node appends to the popped entry one child entry per command-node child, in the tree's order. |
| Packet.PopOpensTop | crates/hyperion-command/src/lib.rs:217-222 | Popping a frame leaves its entry childless and open, with every other entry still sound. |
| Packet.ExpandKeepsInv | crates/hyperion-command/src/lib.rs:217-249 | One pop-and-expand round keeps the invariant with no entry left open. |
| Packet.RunKeepsInv | crates/hyperion-command/src/lib.rs:217-249 | The whole loop keeps the invariant. |
| Packet.SerializeKeepsInv | crates/hyperion-command/src/lib.rs:202-249 | The finished walk satisfies the invariant. |
| Packet.StartKeepsInv | crates/hyperion-command/src/lib.rs:204-215 | The initial state (root entry emitted, one frame for the root at depth 0) satisfies the invariant, and so does the loop run from there. |
| Packet.ExpandLowersWeight | crates/hyperion-command/src/lib.rs:217-249 | One round below depth 64 strictly lowers the termination measure, whatever the tree's shape (cycles included). |
| Packet.EachChildKeepsDepthBounded | crates/hyperion-command/src/lib.rs:228-248 | Expanding an entry above depth 64 keeps every entry within 64 links of the root entry. |
| Packet.RunKeepsDepthBounded | crates/hyperion-command/src/lib.rs:217-249 | The loop keeps every entry within 64 links of the root entry, each entry's parent being an earlier entry. |
| Packet.SerializeIsDepthBounded | crates/hyperion-command/src/lib.rs:223-226 | No entry lies more than 64 child links below the root entry. |
| Packet.PacketEntries | crates/hyperion-command/src/lib.rs:210-254 | Entry 0 is the root, not executable, and the root index is 0. Every other entry is executable and copies the data of a command node, never an executor. No entry redirects. |
| Packet.PacketIsTree | crates/hyperion-command/src/lib.rs:228-246 | Child indices point forward. Each non-root entry is listed by exactly one entry, the one made from its tree parent. |
| Packet.SiblingsAreConsecutive | crates/hyperion-command/src/lib.rs:228-246 | Every entry's children have consecutive indices. For every expanded entry they are made from its node's command-node children in the tree's order. |
| Packet.RunKeepsConsecutive | crates/hyperion-command/src/lib.rs:217-249 | The loop keeps every child list a run of consecutive indices. |
| Packet.EachChildKeepsConsecutive | crates/hyperion-command/src/lib.rs:228-248 | Expanding an entry whose last child (if any) is the newest entry keeps child lists consecutive. |
| Packet.PacketFaithful | crates/hyperion-command/src/lib.rs:217-249 | Every entry is expanded, its children being its node's command-node children in order, unless it was left on the stack, childless. That happens only when the walk stopped 64 links deep. |
| Packet.ShallowPacketIsComplete | crates/hyperion-command/src/lib.rs:217-249 | When no entry is 64 links deep, the packet lists every command-node child of every emitted node. |
| Packet.LastEntryIsLeaf | crates/hyperion-command/src/lib.rs:228-246 | The last entry of any packet has no children. |
| Packet.ChainEntryFanout | crates/hyperion-command/src/lib.rs:342-364 | In a chain's packet, no entry has more than one child. |
| Packet.ChainIsWellFormed | crates/hyperion-command/src/lib.rs:342-359 | A chain of literals, each the only child of the one before, is a well-formed tree. |
| Packet.ChainLink | crates/hyperion-command/src/lib.rs:301-339 | Entry `i` of a chain's packet is the `i`-th literal and the only child of entry `i - 1`. |
| Packet.ChainLength | crates/hyperion-command/src/lib.rs:342-364 | A chain's packet has one entry per node down to depth 64, and no more. |
| Packet.ChainPacket | crates/hyperion-command/src/lib.rs:262-364 | For a chain of n literals the packet has min(n, 64) + 1 entries: the root, then the literals in order, each the only child of the entry before. This covers the serializer's four tests (0, 1, 2 and 65 names). |
| Scenarios.GamemodeBuilds | crates/hyperion-command/tests/commands.rs:25-46 | The builder lays out `/gamemode <mode> [player]` as the test intends: each handler under its argument, the player argument under the mode argument. |
| Scenarios.GamemodeNeverDispatches | crates/hyperion-command/tests/commands.rs:91-94 | No input at all reaches a gamemode handler. |
| Scenarios.GamemodeEnters | crates/hyperion-command/tests/commands.rs:91-94 | The token `gamemode` (in any letter case) moves the walk from the root to the `gamemode` literal. |
| Scenarios.GamemodeCreativeBinds | crates/hyperion-command/tests/commands.rs:91-94 | At the `gamemode` literal, the token `creative` is bound as `mode`, and the walk stays on the literal. |
| Scenarios.GamemodeCreative | crates/hyperion-command/tests/commands.rs:91-93 | `gamemode creative` binds `mode = creative`, stays on the literal and fails with "command not found". |
| Scenarios.ExampleBuilds | crates/hyperion-command/src/dsl.rs:157-163 | `cmd_with("test", literal("example").executor(h))` puts the handler next to `example`, under `test`. |
| Scenarios.ExampleEntersTest | crates/hyperion-command/src/dsl.rs:157-163 | The token `test` moves the walk from the root to the `test` literal. |
| Scenarios.OtherWordFires | crates/hyperion-command/src/dsl.rs:157-163 | At `test`, any token other than `example` reaches the executor sibling and runs the handler. |
| Scenarios.TestThenOtherWordRunsHandler | crates/hyperion-command/src/dsl.rs:157-163 | In that tree, `test <w>` runs the handler with no bindings for every word `w` other than `example` (in any letter case). |
| Scenarios.TestAloneFails | crates/hyperion-command/src/dsl.rs:157-163 | `test` alone fails with "command not found". |
| Scenarios.TestExampleFails | crates/hyperion-command/src/dsl.rs:157-163 | `test example`, and any longer input starting with those tokens, fails: `example` is a dead end. |
| Scenarios.ExampleIsADeadEnd | crates/hyperion-command/src/dsl.rs:157-163 | Once the walk is on `example`, a childless literal, every remaining token is dropped and dispatch fails. |

## Left out

- Floating-point parsing: `f32`/`f64` arguments are read through a caller-supplied oracle (`FloatReader`), and the bound value keeps the token text. Rounding is not modelled.
- The type check of `get::<T>`: the source reinterprets the stored value as `T` without checking. The model returns the tagged value, and `DeserializationError` is declared but never produced, as in the source.
- The entity store, `OnceCell` root handle, bump arena and `extend_lifetime`: the store is a node table passed as a value, the root is its index, and values are owned.
- An entity with neither `Structure` nor `Executor` (the source's `get` would panic on it): every node carries exactly one payload by construction.
- `i32::try_from(ptr).unwrap()` in the serializer: entry indices are unbounded naturals. The panic past 2^31 entries is not modelled.
- `VarInt` framing and the wire encoding of the packet belong to the protocol layer.
- The `suggestion` field of argument nodes (always `None` here).
- `print_command_tree`, `Help` and the module registration other than the initial root: these are logging and unused components.
- Handlers: an opaque function of the bindings returning success or a message. Closures passed to the builder are modelled as the list of scope calls they make.
- The order in which the entity store yields children is taken to be creation order.
- In the serializer tests of `lib.rs`, `world.entity()` creates a test-local root that the serializer never looks at. `Packet.ChainPacket` states what those tests mean: the chain hangs under the serializer's root.
- The `tp` and `time set` commands of the integration test: the `gamemode` scenario already exhibits the same behaviour. `time set` also uses `literal` with a closure argument, which the DSL does not offer.
- Packet.Run: the depth-64 stop is modelled, but the log message it prints is not.
- Execute.Run: the panics (more than 64 children, a 65th binding) are modelled as the errors `TooManyChildren` and `ContextFull`.

## Findings

| source | as written | input that shows it | evidently intended | confidence | as-written member | corrected member |
|---|---|---|---|---|---|---|
| crates/hyperion-command/src/dsl.rs:12-19 | `From<Range<i32>>` sets `max: Some(value.end)`. The range's end is exclusive, but the protocol's maximum is inclusive. | `0..10` gives bounds that admit 10 | `max` is the last value in the range, `end - 1` | high; not executed | Dsl.FromRangeAsWritten, Dsl.RangeEndAdmitted | Dsl.FromRange, Dsl.FromRangeAdmitsExactlyRange |
