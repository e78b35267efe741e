/** The argument store a dispatch fills and a handler reads: names, values and
    debug views appended in lockstep, at most 64 of each. The source keeps the
    values type-erased in an arena; here they are one tagged value type. */
module Context {
  import opened Basics

  /** Fixed capacity of each of the three parallel vectors. */
  const CAPACITY: nat := 64

  /** A bound argument value. Floating-point values keep the token they were
      read from: rounding to `f32`/`f64` is not modelled. */
  datatype Value =
    | Bool(b: bool)
    | I32(i: i32)
    | I64(l: i64)
    | F32(ftext: string)
    | F64(dtext: string)
    | Str(s: string)

  /** One (name, value) pair as it is pushed and as the debug view lists it. */
  datatype Binding = Binding(name: string, value: Value)

  /** `names[i]` is bound to `data[i]`; `dbg[i]` is the debug view of the same
      value (the source allocates it as a second copy). */
  datatype CommandContext = CommandContext(names: seq<string>, data: seq<Value>, dbg: seq<Value>)

  datatype ContextError =
    | ArgumentNotFound(name: string)
      /** Declared by the source but never produced by `get`. */
    | DeserializationError(name: string)

  predicate Valid(c: CommandContext) {
    && |c.names| == |c.data| == |c.dbg| <= CAPACITY
    && forall i :: 0 <= i < |c.dbg| ==> c.dbg[i] == c.data[i]
  }

  const Empty: CommandContext := CommandContext([], [], [])

  /** Appends one binding. None stands for the panic of the source's `unwrap`
      on a full vector: a 65th push fails, it does not truncate. */
  function Push(c: CommandContext, name: string, v: Value): (r: Option<CommandContext>)
    requires Valid(c)
    ensures r.Some? <==> |c.names| < CAPACITY
    ensures r.Some? ==> Valid(r.value)
    ensures r.Some? ==> r.value.names == c.names + [name] && r.value.data == c.data + [v]
  {
    if |c.names| >= CAPACITY then None
    else Some(CommandContext(c.names + [name], c.data + [v], c.dbg + [v]))
  }

  /** Pushes a list of bindings in order; None when some push overflows. */
  function PushAll(c: CommandContext, bs: seq<Binding>): (r: Option<CommandContext>)
    requires Valid(c)
    ensures r.Some? <==> |c.names| + |bs| <= CAPACITY
    ensures r.Some? ==> Valid(r.value) && |r.value.names| == |c.names| + |bs|
    ensures r.Some? ==> forall i :: |c.names| <= i < |r.value.names| ==>
      Binding(r.value.names[i], r.value.data[i]) == bs[i - |c.names|]
    ensures r.Some? ==> r.value.names[..|c.names|] == c.names && r.value.data[..|c.names|] == c.data
    decreases |bs|
  {
    if |bs| == 0 then Some(c)
    else match Push(c, bs[0].name, bs[0].value)
      case None => None
      case Some(c1) =>
        var r := PushAll(c1, bs[1..]);
        assert r.Some? ==> r.value.names[..|c.names|] == c.names && r.value.data[..|c.names|] == c.data by {
          if r.Some? {
            assert r.value.names[..|c.names|] == r.value.names[..|c1.names|][..|c.names|];
            assert r.value.data[..|c.names|] == r.value.data[..|c1.names|][..|c.names|];
          }
        }
        r
  }

  /** Index of the first stored name equal to `name` ignoring ASCII case,
      searching from `from`. */
  function FirstMatchFrom(names: seq<string>, name: string, from: nat): (r: Option<nat>)
    requires from <= |names|
    ensures r.Some? ==> from <= r.value < |names| && EqIgnoreAsciiCase(names[r.value], name)
    ensures r.Some? ==> forall j :: from <= j < r.value ==> !EqIgnoreAsciiCase(names[j], name)
    ensures r.None? ==> forall j :: from <= j < |names| ==> !EqIgnoreAsciiCase(names[j], name)
    decreases |names| - from
  {
    if from == |names| then None
    else if EqIgnoreAsciiCase(names[from], name) then Some(from)
    else FirstMatchFrom(names, name, from + 1)
  }

  /** Index `i` holds the first name matching `name` ignoring ASCII case. */
  predicate FirstMatchAt(c: CommandContext, name: string, i: int)
    requires Valid(c)
  {
    && 0 <= i < |c.names|
    && EqIgnoreAsciiCase(c.names[i], name)
    && forall j :: 0 <= j < i ==> !EqIgnoreAsciiCase(c.names[j], name)
  }

  /** `CommandContext::get`: the value at the first name matching ignoring
      ASCII case. The source then reinterprets it as the type the handler
      asks for without checking; here the tagged value itself is returned. */
  function Get(c: CommandContext, name: string): (r: Result<Value, ContextError>)
    requires Valid(c)
    ensures r.Err? <==> forall j :: 0 <= j < |c.names| ==> !EqIgnoreAsciiCase(c.names[j], name)
    ensures r.Err? ==> r.error == ArgumentNotFound(name)
    ensures r.Ok? ==> exists i :: FirstMatchAt(c, name, i) && r.value == c.data[i]
  {
    match FirstMatchFrom(c.names, name, 0)
    case Some(i) => Ok(c.data[i])
    case None => Err(ArgumentNotFound(name))
  }

  /** The debug view: (name, value) pairs, pairing `names[i]` with `dbg[i]`. */
  function DebugEntries(c: CommandContext): (entries: seq<Binding>)
    requires Valid(c)
  {
    seq(|c.names|, i requires 0 <= i < |c.names| => Binding(c.names[i], c.dbg[i]))
  }

  /** A lookup after a push sees the older binding when one matches (later
      duplicates are shadowed), else the new one when its name matches. */
  lemma GetAfterPush(c: CommandContext, name: string, v: Value, query: string)
    requires Valid(c) && |c.names| < CAPACITY
    ensures Get(Push(c, name, v).value, query) ==
      if Get(c, query).Ok? then Get(c, query)
      else if EqIgnoreAsciiCase(name, query) then Ok(v)
      else Err(ArgumentNotFound(query))
  {
    FirstMatchAfterAppend(c.names, name, query, 0);
  }

  /** Searching a list with one name appended finds what the shorter list
      gives, else the appended name when it matches. */
  lemma {:induction false} FirstMatchAfterAppend(names: seq<string>, name: string, query: string, from: nat)
    requires from <= |names|
    ensures FirstMatchFrom(names + [name], query, from) ==
      if FirstMatchFrom(names, query, from).Some? then FirstMatchFrom(names, query, from)
      else if EqIgnoreAsciiCase(name, query) then Some(|names|)
      else None
    decreases |names| - from
  {
    var longer := names + [name];
    if from < |names| {
      assert longer[from] == names[from];
      FirstMatchAfterAppend(names, name, query, from + 1);
    } else {
      assert longer[from] == name;
    }
  }

  /** The debug view lists exactly the pushed bindings, in insertion order. */
  lemma DebugListsPushesInOrder(c: CommandContext, bs: seq<Binding>)
    requires Valid(c) && |c.names| + |bs| <= CAPACITY
    ensures DebugEntries(PushAll(c, bs).value) == DebugEntries(c) + bs
  {
    var c' := PushAll(c, bs).value;
    var n := |c.names|;
    var d, want := DebugEntries(c'), DebugEntries(c) + bs;
    forall i | 0 <= i < |d| ensures d[i] == want[i] {
      if i < n {
        assert c'.names[..n][i] == c'.names[i];
        assert c'.data[..n][i] == c'.data[i];
      }
    }
  }
}
