/** The parts of the client protocol's command-tree vocabulary that the engine
    stores in its nodes and emits in the command-tree packet. Only the shape is
    modelled; the wire encoding (VarInt framing) belongs to the protocol layer. */
module Protocol {
  import opened Basics

  /** How a string argument is read by the client. */
  datatype StringArg = SingleWord | QuotablePhrase | GreedyPhrase

  /** The protocol parsers the dispatcher does not implement. Their own
      parameters (entity selectors, registries, ...) are not modelled: the
      dispatcher refuses all of them alike. */
  datatype OtherParser =
    | Entity | GameProfile | BlockPos | ColumnPos | Vec3 | Vec2 | BlockState
    | BlockPredicate | ItemStack | ItemPredicate | Color | Component | Message
    | NbtCompoundTag | NbtTag | NbtPath | Objective | ObjectiveCriteria | Operation
    | Particle | Angle | Rotation | ScoreboardSlot | ScoreHolder | Swizzle | Team
    | ItemSlot | ResourceLocation | Function | EntityAnchor | IntRange | FloatRange
    | Dimension | GameMode | Time | ResourceOrTag | ResourceOrTagKey | Resource
    | ResourceKey | TemplateMirror | TemplateRotation | Uuid

  /** A protocol argument parser. Bounds are hints for the client only; the
      dispatcher never compares a parsed value with them. Floating-point bounds
      are kept as reals because only their presence is ever inspected. */
  datatype ParserKind =
    | Bool
    | Float(fmin: Option<real>, fmax: Option<real>)
    | Double(dmin: Option<real>, dmax: Option<real>)
    | Integer(imin: Option<i32>, imax: Option<i32>)
    | Long(lmin: Option<i64>, lmax: Option<i64>)
    | String(arg: StringArg)
    | Other(other: OtherParser)

  /** What a command node is: the root, a fixed keyword, or a typed argument. */
  datatype NodeData =
    | Root
    | Literal(name: string)
    | Argument(name: string, parser: ParserKind)

  /** One entry of the command-tree packet; `children` are indices into the
      same packet's entry list. */
  datatype ProtoNode = ProtoNode(
    data: NodeData,
    executable: bool,
    children: seq<nat>,
    redirect: Option<nat>)

  datatype CommandTreePacket = CommandTreePacket(commands: seq<ProtoNode>, rootIndex: nat)
}
