/** The instruction set of the virtual machine: one descriptor per opcode, the
    lookup `InstructionSet[x]` by bytecode id or by mnemonic, and the
    stack-effect resolver of `OpCode#stack_difference`. */
module OpCodes {
  import opened Wrappers

  /** Operand kinds of the table (`:int`, `:literal`, ...). */
  datatype ArgKind = IntArg | LiteralArg | LocalArg | BlockLocalArg | FieldArg
                   | PrimitiveArg | IpArg | DepthArg | CacheArg

  /** `OpCode#flow`: a missing `:flow` key reads as `:sequential`. */
  datatype Flow = SequentialFlow | SendFlow | GotoFlow | ReturnFlow | RaiseFlow

  datatype VmFlag = CheckInterrupts | Terminator

  /** The opcode mnemonics (Ruby symbols such as `:push_int`); `Other` is any
      symbol that names no opcode. */
  datatype Symbol =
    | Noop
    | PushNil
    | PushTrue
    | PushFalse
    | PushInt
    | PushContext
    | PushLiteral
    | PushSelf
    | Goto
    | GotoIfFalse
    | GotoIfTrue
    | GotoIfDefined
    | Ret
    | Halt
    | SwapStack
    | DupTop
    | Pop
    | SetLocal
    | PushLocal
    | PushException
    | MakeArray
    | SetIvar
    | PushIvar
    | PushConst
    | SetConst
    | SetConstAt
    | FindConst
    | AttachMethod
    | AddMethod
    | OpenClass
    | OpenClassUnder
    | OpenModule
    | OpenModuleUnder
    | ShiftTuple
    | CastTuple
    | SendMethod
    | SendStack
    | SendStackWithBlock
    | SendStackWithSplat
    | SendSuperStackWithBlock
    | SendSuperStackWithSplat
    | PushBlock
    | ClearException
    | CastArray
    | RaiseExc
    | PushCpathTop
    | PassedArg
    | StringAppend
    | StringDup
    | PushMyField
    | StoreMyField
    | OpenMetaclass
    | PushLocalDepth
    | SetLocalDepth
    | LocateMethod
    | KindOf
    | InstanceOf
    | SetCallFlags
    | YieldDebugger
    | IsFixnum
    | IsSymbol
    | IsNil
    | Class
    | Equal
    | SetLiteral
    | PassedBlockarg
    | CreateBlock
    | CastForSingleBlockArg
    | CastForMultiBlockArg
    | CheckSerial
    | MetaPushNeg1
    | MetaPush0
    | MetaPush1
    | MetaPush2
    | MetaSendOpPlus
    | MetaSendOpMinus
    | MetaSendOpEqual
    | MetaSendOpLt
    | MetaSendOpGt
    | MetaSendOpTequal
    | MetaSendOpNequal
    | MetaSendCall
    | PushScope
    | AddScope
    | Rotate
    | ShiftArray
    | Other(name: string)
  {
    /** The symbol's text, as the Ruby source spells it. */
    function Text(): string {
      match this
      case Noop => "noop"
      case PushNil => "push_nil"
      case PushTrue => "push_true"
      case PushFalse => "push_false"
      case PushInt => "push_int"
      case PushContext => "push_context"
      case PushLiteral => "push_literal"
      case PushSelf => "push_self"
      case Goto => "goto"
      case GotoIfFalse => "goto_if_false"
      case GotoIfTrue => "goto_if_true"
      case GotoIfDefined => "goto_if_defined"
      case Ret => "ret"
      case Halt => "halt"
      case SwapStack => "swap_stack"
      case DupTop => "dup_top"
      case Pop => "pop"
      case SetLocal => "set_local"
      case PushLocal => "push_local"
      case PushException => "push_exception"
      case MakeArray => "make_array"
      case SetIvar => "set_ivar"
      case PushIvar => "push_ivar"
      case PushConst => "push_const"
      case SetConst => "set_const"
      case SetConstAt => "set_const_at"
      case FindConst => "find_const"
      case AttachMethod => "attach_method"
      case AddMethod => "add_method"
      case OpenClass => "open_class"
      case OpenClassUnder => "open_class_under"
      case OpenModule => "open_module"
      case OpenModuleUnder => "open_module_under"
      case ShiftTuple => "shift_tuple"
      case CastTuple => "cast_tuple"
      case SendMethod => "send_method"
      case SendStack => "send_stack"
      case SendStackWithBlock => "send_stack_with_block"
      case SendStackWithSplat => "send_stack_with_splat"
      case SendSuperStackWithBlock => "send_super_stack_with_block"
      case SendSuperStackWithSplat => "send_super_stack_with_splat"
      case PushBlock => "push_block"
      case ClearException => "clear_exception"
      case CastArray => "cast_array"
      case RaiseExc => "raise_exc"
      case PushCpathTop => "push_cpath_top"
      case PassedArg => "passed_arg"
      case StringAppend => "string_append"
      case StringDup => "string_dup"
      case PushMyField => "push_my_field"
      case StoreMyField => "store_my_field"
      case OpenMetaclass => "open_metaclass"
      case PushLocalDepth => "push_local_depth"
      case SetLocalDepth => "set_local_depth"
      case LocateMethod => "locate_method"
      case KindOf => "kind_of"
      case InstanceOf => "instance_of"
      case SetCallFlags => "set_call_flags"
      case YieldDebugger => "yield_debugger"
      case IsFixnum => "is_fixnum"
      case IsSymbol => "is_symbol"
      case IsNil => "is_nil"
      case Class => "class"
      case Equal => "equal"
      case SetLiteral => "set_literal"
      case PassedBlockarg => "passed_blockarg"
      case CreateBlock => "create_block"
      case CastForSingleBlockArg => "cast_for_single_block_arg"
      case CastForMultiBlockArg => "cast_for_multi_block_arg"
      case CheckSerial => "check_serial"
      case MetaPushNeg1 => "meta_push_neg_1"
      case MetaPush0 => "meta_push_0"
      case MetaPush1 => "meta_push_1"
      case MetaPush2 => "meta_push_2"
      case MetaSendOpPlus => "meta_send_op_plus"
      case MetaSendOpMinus => "meta_send_op_minus"
      case MetaSendOpEqual => "meta_send_op_equal"
      case MetaSendOpLt => "meta_send_op_lt"
      case MetaSendOpGt => "meta_send_op_gt"
      case MetaSendOpTequal => "meta_send_op_tequal"
      case MetaSendOpNequal => "meta_send_op_nequal"
      case MetaSendCall => "meta_send_call"
      case PushScope => "push_scope"
      case AddScope => "add_scope"
      case Rotate => "rotate"
      case ShiftArray => "shift_array"
      case Other(name) => name
    }
  }

  /** One table entry. `consumed` and `produced` are the raw stack codes of the
      table: a non-negative count, or a negative three-digit code
      `-[multiplier][operand][constant]`. */
  datatype OpCode = Op(mnemonic: Symbol, args: seq<ArgKind>, consumed: int, produced: int,
                       flow: Flow, flags: set<VmFlag>)
  {
    function ArgCount(): nat {
      |args|
    }

    /** Width in instruction-sequence slots: the opcode plus its operands. */
    function Size(): nat {
      |args| + 1
    }

    function Width(): nat {
      |args| + 1
    }

    predicate IsTerminator() {
      Terminator in flags
    }

    predicate ChecksInterrupts() {
      CheckInterrupts in flags
    }
  }

  /** The number of opcodes in `InstructionSet::OpCodes`. */
  const OpCodeCount: int := 86

  /** `InstructionSet::OpCodes`, written in blocks of ten entries. */
  const Block0: seq<OpCode> := [
    Op(Noop, [], 0, 0, SequentialFlow, {}),
    Op(PushNil, [], 0, 1, SequentialFlow, {}),
    Op(PushTrue, [], 0, 1, SequentialFlow, {}),
    Op(PushFalse, [], 0, 1, SequentialFlow, {}),
    Op(PushInt, [IntArg], 0, 1, SequentialFlow, {}),
    Op(PushContext, [], 0, 1, SequentialFlow, {}),
    Op(PushLiteral, [LiteralArg], 0, 1, SequentialFlow, {}),
    Op(PushSelf, [], 0, 1, SequentialFlow, {}),
    Op(Goto, [IpArg], 0, 0, GotoFlow, {}),
    Op(GotoIfFalse, [IpArg], 1, 0, GotoFlow, {})
  ]

  const Block1: seq<OpCode> := [
    Op(GotoIfTrue, [IpArg], 1, 0, GotoFlow, {}),
    Op(GotoIfDefined, [IpArg], 1, 0, GotoFlow, {}),
    Op(Ret, [], 0, 0, ReturnFlow, {Terminator}),
    Op(Halt, [], 0, 0, ReturnFlow, {Terminator}),
    Op(SwapStack, [], 1, 1, SequentialFlow, {}),
    Op(DupTop, [], 0, 1, SequentialFlow, {}),
    Op(Pop, [], 1, 0, SequentialFlow, {}),
    Op(SetLocal, [LocalArg], 1, 1, SequentialFlow, {}),
    Op(PushLocal, [LocalArg], 0, 1, SequentialFlow, {}),
    Op(PushException, [], 0, 1, SequentialFlow, {})
  ]

  const Block2: seq<OpCode> := [
    Op(MakeArray, [IntArg], -110, 1, SequentialFlow, {}),
    Op(SetIvar, [LiteralArg], 1, 1, SequentialFlow, {}),
    Op(PushIvar, [LiteralArg], 0, 1, SequentialFlow, {}),
    Op(PushConst, [LiteralArg], 0, 1, SequentialFlow, {}),
    Op(SetConst, [LiteralArg], 1, 1, SequentialFlow, {}),
    Op(SetConstAt, [LiteralArg], 2, 0, SequentialFlow, {}),
    Op(FindConst, [LiteralArg], 1, 1, SequentialFlow, {}),
    Op(AttachMethod, [LiteralArg], 2, 1, SequentialFlow, {CheckInterrupts}),
    Op(AddMethod, [LiteralArg], 2, 1, SequentialFlow, {CheckInterrupts}),
    Op(OpenClass, [LiteralArg], 1, 1, SequentialFlow, {CheckInterrupts})
  ]

  const Block3: seq<OpCode> := [
    Op(OpenClassUnder, [LiteralArg], 2, 1, SequentialFlow, {CheckInterrupts}),
    Op(OpenModule, [LiteralArg], 0, 1, SequentialFlow, {CheckInterrupts}),
    Op(OpenModuleUnder, [LiteralArg], 1, 1, SequentialFlow, {CheckInterrupts}),
    Op(ShiftTuple, [], 1, 2, SequentialFlow, {}),
    Op(CastTuple, [], 1, 1, SequentialFlow, {}),
    Op(SendMethod, [LiteralArg], 1, 1, SendFlow, {CheckInterrupts}),
    Op(SendStack, [LiteralArg, IntArg], -121, 1, SendFlow, {CheckInterrupts}),
    Op(SendStackWithBlock, [LiteralArg, IntArg], -122, 1, SendFlow, {CheckInterrupts}),
    Op(SendStackWithSplat, [LiteralArg, IntArg], -123, 1, SendFlow, {CheckInterrupts}),
    Op(SendSuperStackWithBlock, [LiteralArg, IntArg], -121, 1, SendFlow, {CheckInterrupts})
  ]

  const Block4: seq<OpCode> := [
    Op(SendSuperStackWithSplat, [LiteralArg, IntArg], -122, 1, SendFlow, {}),
    Op(PushBlock, [], 0, 1, SequentialFlow, {}),
    Op(ClearException, [], 0, 0, SequentialFlow, {}),
    Op(CastArray, [], 1, 1, SequentialFlow, {}),
    Op(RaiseExc, [], 0, 0, RaiseFlow, {Terminator}),
    Op(PushCpathTop, [], 0, 1, SequentialFlow, {}),
    Op(PassedArg, [IntArg], 0, 1, SequentialFlow, {}),
    Op(StringAppend, [], 2, 1, SequentialFlow, {}),
    Op(StringDup, [], 1, 1, SequentialFlow, {}),
    Op(PushMyField, [FieldArg], 0, 1, SequentialFlow, {})
  ]

  const Block5: seq<OpCode> := [
    Op(StoreMyField, [FieldArg], 1, 1, SequentialFlow, {}),
    Op(OpenMetaclass, [], 1, 1, SequentialFlow, {}),
    Op(PushLocalDepth, [DepthArg, BlockLocalArg], 0, 1, SequentialFlow, {}),
    Op(SetLocalDepth, [DepthArg, BlockLocalArg], 1, 1, SequentialFlow, {}),
    Op(LocateMethod, [], 3, 1, SequentialFlow, {}),
    Op(KindOf, [], 2, 1, SequentialFlow, {}),
    Op(InstanceOf, [], 2, 1, SequentialFlow, {}),
    Op(SetCallFlags, [IntArg], 0, 0, SequentialFlow, {}),
    Op(YieldDebugger, [], 0, 0, SequentialFlow, {CheckInterrupts}),
    Op(IsFixnum, [], 1, 1, SequentialFlow, {})
  ]

  const Block6: seq<OpCode> := [
    Op(IsSymbol, [], 1, 1, SequentialFlow, {}),
    Op(IsNil, [], 1, 1, SequentialFlow, {}),
    Op(Class, [], 1, 1, SequentialFlow, {}),
    Op(Equal, [], 2, 1, SequentialFlow, {}),
    Op(SetLiteral, [LiteralArg], 0, 0, SequentialFlow, {}),
    Op(PassedBlockarg, [IntArg], 0, 1, SequentialFlow, {}),
    Op(CreateBlock, [LiteralArg], 0, 1, SequentialFlow, {}),
    Op(CastForSingleBlockArg, [], 1, 1, SequentialFlow, {}),
    Op(CastForMultiBlockArg, [], 1, 1, SequentialFlow, {}),
    Op(CheckSerial, [LiteralArg, IntArg], 1, 1, SequentialFlow, {})
  ]

  const Block7: seq<OpCode> := [
    Op(MetaPushNeg1, [], 0, 1, SequentialFlow, {}),
    Op(MetaPush0, [], 0, 1, SequentialFlow, {}),
    Op(MetaPush1, [], 0, 1, SequentialFlow, {}),
    Op(MetaPush2, [], 0, 1, SequentialFlow, {}),
    Op(MetaSendOpPlus, [], 2, 1, SendFlow, {CheckInterrupts}),
    Op(MetaSendOpMinus, [], 2, 1, SendFlow, {CheckInterrupts}),
    Op(MetaSendOpEqual, [], 2, 1, SendFlow, {CheckInterrupts}),
    Op(MetaSendOpLt, [], 2, 1, SendFlow, {CheckInterrupts}),
    Op(MetaSendOpGt, [], 2, 1, SendFlow, {CheckInterrupts}),
    Op(MetaSendOpTequal, [], 2, 1, SendFlow, {CheckInterrupts})
  ]

  const Block8: seq<OpCode> := [
    Op(MetaSendOpNequal, [], 2, 1, SendFlow, {CheckInterrupts}),
    Op(MetaSendCall, [IntArg], -111, 1, SendFlow, {}),
    Op(PushScope, [], 0, 1, SequentialFlow, {}),
    Op(AddScope, [], 1, 0, SequentialFlow, {}),
    Op(Rotate, [IntArg], 0, 0, SequentialFlow, {}),
    Op(ShiftArray, [], 1, 2, SequentialFlow, {})
  ]
  /** Entry `i` of `InstructionSet::OpCodes`: the opcode whose bytecode is `i`. */
  function Entry(i: nat): OpCode
    requires i < OpCodeCount
  {
    if i < 10 then Block0[i]
    else if i < 20 then Block1[i - 10]
    else if i < 30 then Block2[i - 20]
    else if i < 40 then Block3[i - 30]
    else if i < 50 then Block4[i - 40]
    else if i < 60 then Block5[i - 50]
    else if i < 70 then Block6[i - 60]
    else if i < 80 then Block7[i - 70]
    else Block8[i - 80]
  }

  /** `InstructionSet::OpCodes`: the position of an entry is its bytecode. */
  const Table: seq<OpCode> := seq(OpCodeCount, i requires 0 <= i < OpCodeCount => Entry(i))

  /** The id of `noop`, the opcode a zero slot decodes to. */
  const NoopId: nat := 0

  /** How `InstructionSet.[]` names an opcode: a Fixnum id or a mnemonic symbol. */
  datatype OpRef = Id(id: int) | Mnemonic(sym: Symbol)

  datatype Error =
    | InvalidOpCode(ref: OpRef)
    | ArgumentError
    | UnresolvedStackOperand(operand: nat)
    | BoundsExceeded(index: int)

  /** The last index below `n` whose entry in `ops` is named `name`. The
      source builds its mnemonic hash by inserting entries in table order, so
      a later entry with the same mnemonic would win. */
  function LastIndexNamed(ops: seq<OpCode>, name: Symbol, n: nat): (r: Option<nat>)
    requires n <= |ops|
    ensures r.Some? ==> r.value < n && ops[r.value].mnemonic == name
    ensures r.Some? ==> forall j :: r.value < j < n ==> ops[j].mnemonic != name
    ensures r.None? ==> forall j :: 0 <= j < n ==> ops[j].mnemonic != name
  {
    if n == 0 then None
    else if ops[n - 1].mnemonic == name then Some(n - 1)
    else LastIndexNamed(ops, name, n - 1)
  }

  /** `InstructionSet[op]` over the instruction set `ops` (`Table` in the VM):
      the bytecode of the entry, or `InvalidOpCode`. A Fixnum indexes the Ruby
      array `OpCodes`, so a negative id counts from the end and an id outside
      `-|ops| .. |ops|-1` yields nil; a mnemonic goes through the hash. */
  function Resolve(ops: seq<OpCode>, ref: OpRef): (r: Result<nat, Error>)
    ensures r.Ok? ==> r.value < |ops|
    ensures r.Err? ==> r.error == InvalidOpCode(ref)
    ensures ref.Id? ==> (r.Ok? <==> -|ops| <= ref.id < |ops|)
    ensures ref.Id? && 0 <= ref.id < |ops| ==> r == Ok(ref.id)
    ensures ref.Id? && -|ops| <= ref.id < 0 ==> r == Ok(|ops| + ref.id)
    ensures ref.Mnemonic? ==>
              (r.Ok? <==> exists i :: 0 <= i < |ops| && ops[i].mnemonic == ref.sym)
    ensures ref.Mnemonic? && r.Ok? ==>
              ops[r.value].mnemonic == ref.sym
              && forall j :: r.value < j < |ops| ==> ops[j].mnemonic != ref.sym
  {
    match ref
    case Id(id) =>
      if 0 <= id < |ops| then Ok(id)
      else if -|ops| <= id < 0 then Ok(|ops| + id)
      else Err(InvalidOpCode(ref))
    case Mnemonic(name) =>
      match LastIndexNamed(ops, name, |ops|)
      case Some(i) => Ok(i)
      case None => Err(InvalidOpCode(ref))
  }

  /** The bytecode of each mnemonic, written out as a reverse table; `-1`
      for a symbol that names no opcode. */
  function Position(s: Symbol): int {
    match s
    case Noop => 0
    case PushNil => 1
    case PushTrue => 2
    case PushFalse => 3
    case PushInt => 4
    case PushContext => 5
    case PushLiteral => 6
    case PushSelf => 7
    case Goto => 8
    case GotoIfFalse => 9
    case GotoIfTrue => 10
    case GotoIfDefined => 11
    case Ret => 12
    case Halt => 13
    case SwapStack => 14
    case DupTop => 15
    case Pop => 16
    case SetLocal => 17
    case PushLocal => 18
    case PushException => 19
    case MakeArray => 20
    case SetIvar => 21
    case PushIvar => 22
    case PushConst => 23
    case SetConst => 24
    case SetConstAt => 25
    case FindConst => 26
    case AttachMethod => 27
    case AddMethod => 28
    case OpenClass => 29
    case OpenClassUnder => 30
    case OpenModule => 31
    case OpenModuleUnder => 32
    case ShiftTuple => 33
    case CastTuple => 34
    case SendMethod => 35
    case SendStack => 36
    case SendStackWithBlock => 37
    case SendStackWithSplat => 38
    case SendSuperStackWithBlock => 39
    case SendSuperStackWithSplat => 40
    case PushBlock => 41
    case ClearException => 42
    case CastArray => 43
    case RaiseExc => 44
    case PushCpathTop => 45
    case PassedArg => 46
    case StringAppend => 47
    case StringDup => 48
    case PushMyField => 49
    case StoreMyField => 50
    case OpenMetaclass => 51
    case PushLocalDepth => 52
    case SetLocalDepth => 53
    case LocateMethod => 54
    case KindOf => 55
    case InstanceOf => 56
    case SetCallFlags => 57
    case YieldDebugger => 58
    case IsFixnum => 59
    case IsSymbol => 60
    case IsNil => 61
    case Class => 62
    case Equal => 63
    case SetLiteral => 64
    case PassedBlockarg => 65
    case CreateBlock => 66
    case CastForSingleBlockArg => 67
    case CastForMultiBlockArg => 68
    case CheckSerial => 69
    case MetaPushNeg1 => 70
    case MetaPush0 => 71
    case MetaPush1 => 72
    case MetaPush2 => 73
    case MetaSendOpPlus => 74
    case MetaSendOpMinus => 75
    case MetaSendOpEqual => 76
    case MetaSendOpLt => 77
    case MetaSendOpGt => 78
    case MetaSendOpTequal => 79
    case MetaSendOpNequal => 80
    case MetaSendCall => 81
    case PushScope => 82
    case AddScope => 83
    case Rotate => 84
    case ShiftArray => 85
    case Other(_) => -1
  }

  /** A stack formula reads an operand the opcode has: its selector digit is
      between 1 and the operand count. */
  predicate FormulaResolvable(op: OpCode) {
    op.consumed < 0 ==> 1 <= ((-op.consumed) % 100) / 10 <= op.ArgCount()
  }

  /** Each entry of the table sits at the position of its mnemonic and has
      a resolvable stack-effect formula; checked two entries at a time. */
  lemma {:induction false} EntryWellFormed(i: nat)
    requires i < OpCodeCount
    ensures Position(Entry(i).mnemonic) == i
    ensures FormulaResolvable(Entry(i))
  {
    if i < 10 { BlockWellFormed0(i); }
    else if i < 20 { BlockWellFormed1(i); }
    else if i < 30 { BlockWellFormed2(i); }
    else if i < 40 { BlockWellFormed3(i); }
    else if i < 50 { BlockWellFormed4(i); }
    else if i < 60 { BlockWellFormed5(i); }
    else if i < 70 { BlockWellFormed6(i); }
    else if i < 80 { BlockWellFormed7(i); }
    else { BlockWellFormed8(i); }
  }

  lemma {:induction false} BlockWellFormed0(i: nat)
    requires i < 10
    ensures Position(Block0[i].mnemonic) == i && FormulaResolvable(Block0[i])
  {
    if i < 2 { PairWellFormed0(i); }
    else if i < 4 { PairWellFormed2(i); }
    else if i < 6 { PairWellFormed4(i); }
    else if i < 8 { PairWellFormed6(i); }
    else { PairWellFormed8(i); }
  }

  lemma {:induction false} PairWellFormed0(i: nat)
    requires i < 2
    ensures Position(Block0[i].mnemonic) == i && FormulaResolvable(Block0[i])
  {
    if i == 0 {} else {}
  }

  lemma {:induction false} PairWellFormed2(i: nat)
    requires 2 <= i < 4
    ensures Position(Block0[i].mnemonic) == i && FormulaResolvable(Block0[i])
  {
    if i == 2 {} else {}
  }

  lemma {:induction false} PairWellFormed4(i: nat)
    requires 4 <= i < 6
    ensures Position(Block0[i].mnemonic) == i && FormulaResolvable(Block0[i])
  {
    if i == 4 {} else {}
  }

  lemma {:induction false} PairWellFormed6(i: nat)
    requires 6 <= i < 8
    ensures Position(Block0[i].mnemonic) == i && FormulaResolvable(Block0[i])
  {
    if i == 6 {} else {}
  }

  lemma {:induction false} PairWellFormed8(i: nat)
    requires 8 <= i < 10
    ensures Position(Block0[i].mnemonic) == i && FormulaResolvable(Block0[i])
  {
    if i == 8 {} else {}
  }

  lemma {:induction false} BlockWellFormed1(i: nat)
    requires 10 <= i < 20
    ensures Position(Block1[i - 10].mnemonic) == i && FormulaResolvable(Block1[i - 10])
  {
    if i < 12 { PairWellFormed10(i); }
    else if i < 14 { PairWellFormed12(i); }
    else if i < 16 { PairWellFormed14(i); }
    else if i < 18 { PairWellFormed16(i); }
    else { PairWellFormed18(i); }
  }

  lemma {:induction false} PairWellFormed10(i: nat)
    requires 10 <= i < 12
    ensures Position(Block1[i - 10].mnemonic) == i && FormulaResolvable(Block1[i - 10])
  {
    if i == 10 {} else {}
  }

  lemma {:induction false} PairWellFormed12(i: nat)
    requires 12 <= i < 14
    ensures Position(Block1[i - 10].mnemonic) == i && FormulaResolvable(Block1[i - 10])
  {
    if i == 12 {} else {}
  }

  lemma {:induction false} PairWellFormed14(i: nat)
    requires 14 <= i < 16
    ensures Position(Block1[i - 10].mnemonic) == i && FormulaResolvable(Block1[i - 10])
  {
    if i == 14 {} else {}
  }

  lemma {:induction false} PairWellFormed16(i: nat)
    requires 16 <= i < 18
    ensures Position(Block1[i - 10].mnemonic) == i && FormulaResolvable(Block1[i - 10])
  {
    if i == 16 {} else {}
  }

  lemma {:induction false} PairWellFormed18(i: nat)
    requires 18 <= i < 20
    ensures Position(Block1[i - 10].mnemonic) == i && FormulaResolvable(Block1[i - 10])
  {
    if i == 18 {} else {}
  }

  lemma {:induction false} BlockWellFormed2(i: nat)
    requires 20 <= i < 30
    ensures Position(Block2[i - 20].mnemonic) == i && FormulaResolvable(Block2[i - 20])
  {
    if i < 22 { PairWellFormed20(i); }
    else if i < 24 { PairWellFormed22(i); }
    else if i < 26 { PairWellFormed24(i); }
    else if i < 28 { PairWellFormed26(i); }
    else { PairWellFormed28(i); }
  }

  lemma {:induction false} PairWellFormed20(i: nat)
    requires 20 <= i < 22
    ensures Position(Block2[i - 20].mnemonic) == i && FormulaResolvable(Block2[i - 20])
  {
    if i == 20 {} else {}
  }

  lemma {:induction false} PairWellFormed22(i: nat)
    requires 22 <= i < 24
    ensures Position(Block2[i - 20].mnemonic) == i && FormulaResolvable(Block2[i - 20])
  {
    if i == 22 {} else {}
  }

  lemma {:induction false} PairWellFormed24(i: nat)
    requires 24 <= i < 26
    ensures Position(Block2[i - 20].mnemonic) == i && FormulaResolvable(Block2[i - 20])
  {
    if i == 24 {} else {}
  }

  lemma {:induction false} PairWellFormed26(i: nat)
    requires 26 <= i < 28
    ensures Position(Block2[i - 20].mnemonic) == i && FormulaResolvable(Block2[i - 20])
  {
    if i == 26 {} else {}
  }

  lemma {:induction false} PairWellFormed28(i: nat)
    requires 28 <= i < 30
    ensures Position(Block2[i - 20].mnemonic) == i && FormulaResolvable(Block2[i - 20])
  {
    if i == 28 {} else {}
  }

  lemma {:induction false} BlockWellFormed3(i: nat)
    requires 30 <= i < 40
    ensures Position(Block3[i - 30].mnemonic) == i && FormulaResolvable(Block3[i - 30])
  {
    if i < 32 { PairWellFormed30(i); }
    else if i < 34 { PairWellFormed32(i); }
    else if i < 36 { PairWellFormed34(i); }
    else if i < 38 { PairWellFormed36(i); }
    else { PairWellFormed38(i); }
  }

  lemma {:induction false} PairWellFormed30(i: nat)
    requires 30 <= i < 32
    ensures Position(Block3[i - 30].mnemonic) == i && FormulaResolvable(Block3[i - 30])
  {
    if i == 30 {} else {}
  }

  lemma {:induction false} PairWellFormed32(i: nat)
    requires 32 <= i < 34
    ensures Position(Block3[i - 30].mnemonic) == i && FormulaResolvable(Block3[i - 30])
  {
    if i == 32 {} else {}
  }

  lemma {:induction false} PairWellFormed34(i: nat)
    requires 34 <= i < 36
    ensures Position(Block3[i - 30].mnemonic) == i && FormulaResolvable(Block3[i - 30])
  {
    if i == 34 {} else {}
  }

  lemma {:induction false} PairWellFormed36(i: nat)
    requires 36 <= i < 38
    ensures Position(Block3[i - 30].mnemonic) == i && FormulaResolvable(Block3[i - 30])
  {
    if i == 36 {} else {}
  }

  lemma {:induction false} PairWellFormed38(i: nat)
    requires 38 <= i < 40
    ensures Position(Block3[i - 30].mnemonic) == i && FormulaResolvable(Block3[i - 30])
  {
    if i == 38 {} else {}
  }

  lemma {:induction false} BlockWellFormed4(i: nat)
    requires 40 <= i < 50
    ensures Position(Block4[i - 40].mnemonic) == i && FormulaResolvable(Block4[i - 40])
  {
    if i < 42 { PairWellFormed40(i); }
    else if i < 44 { PairWellFormed42(i); }
    else if i < 46 { PairWellFormed44(i); }
    else if i < 48 { PairWellFormed46(i); }
    else { PairWellFormed48(i); }
  }

  lemma {:induction false} PairWellFormed40(i: nat)
    requires 40 <= i < 42
    ensures Position(Block4[i - 40].mnemonic) == i && FormulaResolvable(Block4[i - 40])
  {
    if i == 40 {} else {}
  }

  lemma {:induction false} PairWellFormed42(i: nat)
    requires 42 <= i < 44
    ensures Position(Block4[i - 40].mnemonic) == i && FormulaResolvable(Block4[i - 40])
  {
    if i == 42 {} else {}
  }

  lemma {:induction false} PairWellFormed44(i: nat)
    requires 44 <= i < 46
    ensures Position(Block4[i - 40].mnemonic) == i && FormulaResolvable(Block4[i - 40])
  {
    if i == 44 {} else {}
  }

  lemma {:induction false} PairWellFormed46(i: nat)
    requires 46 <= i < 48
    ensures Position(Block4[i - 40].mnemonic) == i && FormulaResolvable(Block4[i - 40])
  {
    if i == 46 {} else {}
  }

  lemma {:induction false} PairWellFormed48(i: nat)
    requires 48 <= i < 50
    ensures Position(Block4[i - 40].mnemonic) == i && FormulaResolvable(Block4[i - 40])
  {
    if i == 48 {} else {}
  }

  lemma {:induction false} BlockWellFormed5(i: nat)
    requires 50 <= i < 60
    ensures Position(Block5[i - 50].mnemonic) == i && FormulaResolvable(Block5[i - 50])
  {
    if i < 52 { PairWellFormed50(i); }
    else if i < 54 { PairWellFormed52(i); }
    else if i < 56 { PairWellFormed54(i); }
    else if i < 58 { PairWellFormed56(i); }
    else { PairWellFormed58(i); }
  }

  lemma {:induction false} PairWellFormed50(i: nat)
    requires 50 <= i < 52
    ensures Position(Block5[i - 50].mnemonic) == i && FormulaResolvable(Block5[i - 50])
  {
    if i == 50 {} else {}
  }

  lemma {:induction false} PairWellFormed52(i: nat)
    requires 52 <= i < 54
    ensures Position(Block5[i - 50].mnemonic) == i && FormulaResolvable(Block5[i - 50])
  {
    if i == 52 {} else {}
  }

  lemma {:induction false} PairWellFormed54(i: nat)
    requires 54 <= i < 56
    ensures Position(Block5[i - 50].mnemonic) == i && FormulaResolvable(Block5[i - 50])
  {
    if i == 54 {} else {}
  }

  lemma {:induction false} PairWellFormed56(i: nat)
    requires 56 <= i < 58
    ensures Position(Block5[i - 50].mnemonic) == i && FormulaResolvable(Block5[i - 50])
  {
    if i == 56 {} else {}
  }

  lemma {:induction false} PairWellFormed58(i: nat)
    requires 58 <= i < 60
    ensures Position(Block5[i - 50].mnemonic) == i && FormulaResolvable(Block5[i - 50])
  {
    if i == 58 {} else {}
  }

  lemma {:induction false} BlockWellFormed6(i: nat)
    requires 60 <= i < 70
    ensures Position(Block6[i - 60].mnemonic) == i && FormulaResolvable(Block6[i - 60])
  {
    if i < 62 { PairWellFormed60(i); }
    else if i < 64 { PairWellFormed62(i); }
    else if i < 66 { PairWellFormed64(i); }
    else if i < 68 { PairWellFormed66(i); }
    else { PairWellFormed68(i); }
  }

  lemma {:induction false} PairWellFormed60(i: nat)
    requires 60 <= i < 62
    ensures Position(Block6[i - 60].mnemonic) == i && FormulaResolvable(Block6[i - 60])
  {
    if i == 60 {} else {}
  }

  lemma {:induction false} PairWellFormed62(i: nat)
    requires 62 <= i < 64
    ensures Position(Block6[i - 60].mnemonic) == i && FormulaResolvable(Block6[i - 60])
  {
    if i == 62 {} else {}
  }

  lemma {:induction false} PairWellFormed64(i: nat)
    requires 64 <= i < 66
    ensures Position(Block6[i - 60].mnemonic) == i && FormulaResolvable(Block6[i - 60])
  {
    if i == 64 {} else {}
  }

  lemma {:induction false} PairWellFormed66(i: nat)
    requires 66 <= i < 68
    ensures Position(Block6[i - 60].mnemonic) == i && FormulaResolvable(Block6[i - 60])
  {
    if i == 66 {} else {}
  }

  lemma {:induction false} PairWellFormed68(i: nat)
    requires 68 <= i < 70
    ensures Position(Block6[i - 60].mnemonic) == i && FormulaResolvable(Block6[i - 60])
  {
    if i == 68 {} else {}
  }

  lemma {:induction false} BlockWellFormed7(i: nat)
    requires 70 <= i < 80
    ensures Position(Block7[i - 70].mnemonic) == i && FormulaResolvable(Block7[i - 70])
  {
    if i < 72 { PairWellFormed70(i); }
    else if i < 74 { PairWellFormed72(i); }
    else if i < 76 { PairWellFormed74(i); }
    else if i < 78 { PairWellFormed76(i); }
    else { PairWellFormed78(i); }
  }

  lemma {:induction false} PairWellFormed70(i: nat)
    requires 70 <= i < 72
    ensures Position(Block7[i - 70].mnemonic) == i && FormulaResolvable(Block7[i - 70])
  {
    if i == 70 {} else {}
  }

  lemma {:induction false} PairWellFormed72(i: nat)
    requires 72 <= i < 74
    ensures Position(Block7[i - 70].mnemonic) == i && FormulaResolvable(Block7[i - 70])
  {
    if i == 72 {} else {}
  }

  lemma {:induction false} PairWellFormed74(i: nat)
    requires 74 <= i < 76
    ensures Position(Block7[i - 70].mnemonic) == i && FormulaResolvable(Block7[i - 70])
  {
    if i == 74 {} else {}
  }

  lemma {:induction false} PairWellFormed76(i: nat)
    requires 76 <= i < 78
    ensures Position(Block7[i - 70].mnemonic) == i && FormulaResolvable(Block7[i - 70])
  {
    if i == 76 {} else {}
  }

  lemma {:induction false} PairWellFormed78(i: nat)
    requires 78 <= i < 80
    ensures Position(Block7[i - 70].mnemonic) == i && FormulaResolvable(Block7[i - 70])
  {
    if i == 78 {} else {}
  }

  lemma {:induction false} BlockWellFormed8(i: nat)
    requires 80 <= i < 86
    ensures Position(Block8[i - 80].mnemonic) == i && FormulaResolvable(Block8[i - 80])
  {
    if i < 82 { PairWellFormed80(i); }
    else if i < 84 { PairWellFormed82(i); }
    else { PairWellFormed84(i); }
  }

  lemma {:induction false} PairWellFormed80(i: nat)
    requires 80 <= i < 82
    ensures Position(Block8[i - 80].mnemonic) == i && FormulaResolvable(Block8[i - 80])
  {
    if i == 80 {} else {}
  }

  lemma {:induction false} PairWellFormed82(i: nat)
    requires 82 <= i < 84
    ensures Position(Block8[i - 80].mnemonic) == i && FormulaResolvable(Block8[i - 80])
  {
    if i == 82 {} else {}
  }

  lemma {:induction false} PairWellFormed84(i: nat)
    requires 84 <= i < 86
    ensures Position(Block8[i - 80].mnemonic) == i && FormulaResolvable(Block8[i - 80])
  {
    if i == 84 {} else {}
  }

  /** Mnemonics are pairwise distinct. */
  lemma {:induction false} MnemonicsDistinct(i: nat, j: nat)
    requires i < OpCodeCount && j < OpCodeCount && i != j
    ensures Entry(i).mnemonic != Entry(j).mnemonic
  {
    EntryWellFormed(i);
    EntryWellFormed(j);
  }

  /** `InstructionSet[mnemonic]` returns the entry whose position is the
      opcode's bytecode, the same entry `InstructionSet[id]` returns. */
  lemma {:induction false} MnemonicLookupIsPosition(i: nat)
    requires i < OpCodeCount
    ensures Resolve(Table, Mnemonic(Entry(i).mnemonic)) == Ok(i)
    ensures Resolve(Table, Id(i)) == Ok(i)
  {
    var r := Resolve(Table, Mnemonic(Entry(i).mnemonic));
    assert Table[i] == Entry(i);
    assert r.Ok?;
    assert Table[r.value] == Entry(r.value);
    if r.value != i {
      MnemonicsDistinct(i, r.value);
    }
  }

  /** The properties of an instruction set the encoder and decoder rely on:
      bytecode 0 is an operand-less `noop`, and every stack formula reads an
      operand its opcode has. */
  predicate WellFormed(ops: seq<OpCode>) {
    |ops| > 0 && ops[NoopId].mnemonic == Noop && ops[NoopId].args == []
    && forall i :: 0 <= i < |ops| ==> FormulaResolvable(ops[i])
  }

  /** The VM's instruction set is well formed. */
  lemma {:induction false} TableWellFormed()
    ensures |Table| == OpCodeCount
    ensures WellFormed(Table)
  {
    forall i | 0 <= i < |Table| ensures FormulaResolvable(Table[i]) {
      EntryWellFormed(i);
    }
  }

  /** A decoded stack code: the explicit form of the table's integer codes. */
  datatype StackCode = Fixed(count: nat) | Scaled(multiplier: nat, operand: nat, constant: nat)

  /** Splits a raw code the way `stack_difference` does: for `c < 0`,
      multiplier `|c|/100`, operand `(|c|%100)/10`, constant `|c|%10`. */
  function DecodeStackCode(code: int): StackCode {
    if code >= 0 then Fixed(code)
    else
      var c := -code;
      Scaled(c / 100, (c % 100) / 10, (c % 100) % 10)
  }

  /** The raw code a `StackCode` is written as in the table. */
  function EncodeStackCode(sc: StackCode): int {
    match sc
    case Fixed(n) => n
    case Scaled(m, a, k) => -(100 * m + 10 * a + k)
  }

  /** The table's code scheme is faithful: every formula with a one-digit
      operand selector and constant, other than the all-zero one, is recovered
      from its code, and so is every fixed count. */
  lemma {:induction false} StackCodeRoundTrip(sc: StackCode)
    requires sc.Scaled? ==> sc.operand < 10 && sc.constant < 10
    requires sc.Scaled? ==> sc.multiplier + sc.operand + sc.constant > 0
    ensures DecodeStackCode(EncodeStackCode(sc)) == sc
  {
    if sc.Scaled? {
      var c := 100 * sc.multiplier + 10 * sc.operand + sc.constant;
      assert c > 0;
      assert c / 100 == sc.multiplier;
      assert c % 100 == 10 * sc.operand + sc.constant;
    }
  }

  /** `OpCode#stack_difference(inst)`: produced minus consumed, where a
      formula code reads `inst[operand]`. `inst[0]` is the opcode itself and an
      index past the operands reads nil; both make the multiplication fail. */
  function StackDifference(op: OpCode, operands: seq<int>): (r: Result<int, Error>)
    ensures op.consumed >= 0 ==> r == Ok(op.produced - op.consumed)
    ensures op.consumed < 0 ==>
              var c := -op.consumed;
              var a := (c % 100) / 10;
              (r.Ok? <==> 1 <= a <= |operands|)
              && (r.Ok? ==> r.value == op.produced - ((c / 100) * operands[a - 1] + c % 10))
  {
    match DecodeStackCode(op.consumed)
    case Fixed(n) => Ok(op.produced - n)
    case Scaled(m, a, k) =>
      if 1 <= a <= |operands| then Ok(op.produced - (m * operands[a - 1] + k))
      else Err(UnresolvedStackOperand(a))
  }

  /** A resolvable formula never fails for a correctly sized operand list. */
  lemma {:induction false} FormulaResolves(op: OpCode, operands: seq<int>)
    requires FormulaResolvable(op) && |operands| == op.ArgCount()
    ensures StackDifference(op, operands).Ok?
  {
  }

  /** Worked case: `send_stack` (code -121) consumes its count operand plus the
      receiver and pushes one result. */
  lemma {:induction false} SendStackEffect(literal: int, count: int)
    ensures Entry(36).mnemonic == SendStack && Entry(36).ArgCount() == 2
    ensures StackDifference(Entry(36), [literal, count]) == Ok(1 - (count + 1))
  {
  }
}
