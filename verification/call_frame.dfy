/** `CallFrame`, the activation record of one method or block: an operand
    stack of `stack_size` slots with a stack pointer, and a bounded stack of
    unwind records for the exception handlers in force. The stack pointer
    `js.stack` is kept as an index into the slots, so -1 is the empty
    stack. Each operation returns the frame's new state; an access the C++
    code would make outside the slot array is an error here. */
module CallFrames {
  import opened Wrappers
  import opened Objects

  /** One handler record: where to jump, the stack depth to restore, and
      the `UnwindType` code (the enumeration lives in unwind_info.hpp,
      which is not part of this model). */
  datatype UnwindInfo = UnwindInfo(targetIp: int, stackDepth: int, kind: nat)

  datatype Frame = Frame(
    isBlock: bool,
    ip: int,
    nativeIp: int,
    stk: seq<Obj>,
    sp: int,
    unwinds: seq<UnwindInfo>)

  datatype FrameError =
    | StackOverflow   // a push past the last slot
    | StackUnderflow  // a pop, top or clear below the first slot
    | OutOfFrame      // a read outside the slot array
    | TooManyUnwinds  // push_unwind with every record in use
    | NoUnwinds       // pop_unwind with no record

  /** The stack pointer is inside the slots or just below them. */
  predicate Valid(f: Frame) {
    -1 <= f.sp < |f.stk|
  }

  /** The operand stack the frame holds, bottom first. */
  function Live(f: Frame): (r: seq<Obj>)
    requires Valid(f)
    ensures |r| == f.sp + 1
  {
    f.stk[..f.sp + 1]
  }

  /** `prepare(stack)`: not a block, ip 0, no unwind record, `stack` nil
      slots and an empty operand stack. */
  function Prepare(stack: nat): (r: Frame)
    ensures Valid(r) && Live(r) == [] && |r.stk| == stack
    ensures forall i :: 0 <= i < stack ==> r.stk[i] == Nil
    ensures r.unwinds == [] && r.ip == 0 && !r.isBlock
  {
    Frame(false, 0, 0, Nils(stack), -1, [])
  }

  /** `calculate_sp`: the index of the top slot, -1 when empty. */
  function CalculateSp(f: Frame): (r: int)
    requires Valid(f)
    ensures r == |Live(f)| - 1
  {
    f.sp
  }

  /** `push`: writes the slot above the top. The check of the protected
      build is made in its corrected form (see `PushAsWritten`): every
      slot can be used. */
  function Push(f: Frame, value: Obj): (r: Result<Frame, FrameError>)
    requires Valid(f)
    ensures r.Ok? <==> f.sp + 1 < |f.stk|
    ensures r.Err? ==> r.error == StackOverflow
    ensures r.Ok? ==> Valid(r.value) && Live(r.value) == Live(f) + [value]
    ensures r.Ok? ==> r.value.unwinds == f.unwinds && |r.value.stk| == |f.stk|
  {
    if f.sp + 1 >= |f.stk| then Err(StackOverflow)
    else
      var g := f.(stk := f.stk[f.sp + 1 := value], sp := f.sp + 1);
      assert Live(g) == Live(f) + [value];
      Ok(g)
  }

  /** `push` with the EXTRA_STACK_PROTECTION assertion as written: after
      the increment the pointer must stay strictly below `stack_top`, the
      last slot. */
  function PushAsWritten(f: Frame, value: Obj): (r: Result<Frame, FrameError>)
    requires Valid(f)
    ensures r.Ok? <==> f.sp + 1 < |f.stk| - 1
  {
    if !(f.sp + 1 < |f.stk| - 1) then Err(StackOverflow)
    else Ok(f.(stk := f.stk[f.sp + 1 := value], sp := f.sp + 1))
  }

  /** A method whose deepest point is one value gets one slot, and the
      protected `push` refuses that one push; the corrected check takes
      it. */
  lemma {:induction false} PushAsWrittenRejectsLastSlot(value: Obj)
    ensures PushAsWritten(Prepare(1), value).Err?
    ensures Push(Prepare(1), value).Ok? && Live(Push(Prepare(1), value).value) == [value]
  {
  }

  /** In general the protected `push` refuses exactly the push that fills
      the frame. */
  lemma {:induction false} PushAsWrittenDiffers(f: Frame, value: Obj)
    requires Valid(f)
    ensures PushAsWritten(f, value).Ok? ==> PushAsWritten(f, value) == Push(f, value)
    ensures PushAsWritten(f, value).Err? && Push(f, value).Ok? <==> f.sp + 2 == |f.stk|
  {
  }

  /** `pop`: the top value and the frame without it. */
  datatype Popped = Popped(frame: Frame, value: Obj)

  function Pop(f: Frame): (r: Result<Popped, FrameError>)
    requires Valid(f)
    ensures r.Ok? <==> |Live(f)| > 0
    ensures r.Err? ==> r.error == StackUnderflow
    ensures r.Ok? ==> Valid(r.value.frame) && Live(r.value.frame) + [r.value.value] == Live(f)
    ensures r.Ok? ==> r.value.frame.unwinds == f.unwinds && |r.value.frame.stk| == |f.stk|
  {
    if f.sp < 0 then Err(StackUnderflow)
    else
      var g := f.(sp := f.sp - 1);
      assert Live(g) + [f.stk[f.sp]] == Live(f);
      Ok(Popped(g, f.stk[f.sp]))
  }

  /** `top`: the value on top, without removing it. */
  function Top(f: Frame): (r: Result<Obj, FrameError>)
    requires Valid(f)
    ensures r.Ok? <==> |Live(f)| > 0
    ensures r.Ok? ==> r.value == Live(f)[|Live(f)| - 1]
  {
    if f.sp < 0 then Err(StackUnderflow) else Ok(f.stk[f.sp])
  }

  /** `stack_back(position)`: the value `position` below the top. */
  function StackBack(f: Frame, position: nat): (r: Result<Obj, FrameError>)
    requires Valid(f)
    ensures r.Ok? <==> position < |Live(f)|
    ensures r.Ok? ==> r.value == Live(f)[|Live(f)| - 1 - position]
  {
    if f.sp - position < 0 then Err(OutOfFrame) else Ok(f.stk[f.sp - position])
  }

  /** `clear_stack(amount)`: drops `amount` values. The protected build
      refuses to go below the empty stack. */
  function ClearStack(f: Frame, amount: nat): (r: Result<Frame, FrameError>)
    requires Valid(f)
    ensures r.Ok? <==> amount <= |Live(f)|
    ensures r.Ok? ==> Valid(r.value) && Live(r.value) == Live(f)[..|Live(f)| - amount]
    ensures r.Ok? ==> r.value.stk == f.stk && r.value.unwinds == f.unwinds
  {
    if f.sp - amount < -1 then Err(StackUnderflow) else Ok(f.(sp := f.sp - amount))
  }

  /** Popping what was pushed gives the value back and the operand stack
      as it was. */
  lemma {:induction false} PopAfterPush(f: Frame, value: Obj)
    requires Valid(f) && Push(f, value).Ok?
    ensures Pop(Push(f, value).value).Ok?
    ensures Pop(Push(f, value).value).value.value == value
    ensures Live(Pop(Push(f, value).value).value.frame) == Live(f)
  {
    var g := Push(f, value).value;
    var p := Pop(g).value;
    assert Live(p.frame) + [p.value] == Live(f) + [value];
    assert Live(p.frame) == (Live(p.frame) + [p.value])[..|Live(f)|];
  }

  /** Popping `n` values one at a time and clearing `n` at once leave the
      same operand stack. */
  function PopMany(f: Frame, n: nat): (r: Result<Frame, FrameError>)
    requires Valid(f)
    ensures r.Ok? ==> Valid(r.value)
    decreases n
  {
    if n == 0 then Ok(f)
    else match Pop(f)
      case Err(e) => Err(e)
      case Ok(p) => PopMany(p.frame, n - 1)
  }

  lemma {:induction false} ClearIsRepeatedPop(f: Frame, n: nat)
    requires Valid(f)
    ensures PopMany(f, n).Ok? <==> ClearStack(f, n).Ok?
    ensures PopMany(f, n).Ok? ==> Live(PopMany(f, n).value) == Live(ClearStack(f, n).value)
    decreases n
  {
    if n > 0 && Pop(f).Ok? {
      var p := Pop(f).value;
      ClearIsRepeatedPop(p.frame, n - 1);
      if PopMany(p.frame, n - 1).Ok? {
        calc {
          Live(PopMany(f, n).value);
          Live(ClearStack(p.frame, n - 1).value);
          Live(p.frame)[..|Live(p.frame)| - (n - 1)];
          { assert Live(p.frame) == Live(f)[..|Live(f)| - 1]; }
          Live(f)[..|Live(f)| - n];
        }
      }
    }
  }

  /** `push_unwind(target_ip, type)`: records a handler with the current
      stack pointer, when one of the `maxUnwinds` records is free
      (`kMaxUnwindInfos`, whose value unwind_info.hpp fixes). */
  function PushUnwind(f: Frame, targetIp: int, kind: nat, maxUnwinds: nat): (r: Result<Frame, FrameError>)
    requires Valid(f)
    ensures r.Ok? <==> |f.unwinds| < maxUnwinds
    ensures r.Err? ==> r.error == TooManyUnwinds
    ensures r.Ok? ==> r.value.unwinds == f.unwinds + [UnwindInfo(targetIp, CalculateSp(f), kind)]
    ensures r.Ok? ==> Valid(r.value) && Live(r.value) == Live(f)
  {
    if |f.unwinds| >= maxUnwinds then Err(TooManyUnwinds)
    else Ok(f.(unwinds := f.unwinds + [UnwindInfo(targetIp, f.sp, kind)]))
  }

  datatype Unwound = Unwound(frame: Frame, info: UnwindInfo)

  /** `pop_unwind`: the most recent handler record. */
  function PopUnwind(f: Frame): (r: Result<Unwound, FrameError>)
    ensures r.Ok? <==> |f.unwinds| > 0
    ensures r.Err? ==> r.error == NoUnwinds
    ensures r.Ok? ==> r.value.frame.unwinds + [r.value.info] == f.unwinds
    ensures r.Ok? ==> r.value.frame.stk == f.stk && r.value.frame.sp == f.sp
  {
    if |f.unwinds| == 0 then Err(NoUnwinds)
    else
      var n := |f.unwinds| - 1;
      assert f.unwinds[..n] + [f.unwinds[n]] == f.unwinds;
      Ok(Unwound(f.(unwinds := f.unwinds[..n]), f.unwinds[n]))
  }

  /** `has_unwinds_p`. */
  function HasUnwinds(f: Frame): (r: bool)
    ensures r <==> PopUnwind(f).Ok?
  {
    |f.unwinds| > 0
  }

  /** Handler records come back last in, first out, with the stack depth
      they were pushed at. */
  lemma {:induction false} UnwindsAreLifo(f: Frame, targetIp: int, kind: nat, maxUnwinds: nat)
    requires Valid(f) && PushUnwind(f, targetIp, kind, maxUnwinds).Ok?
    ensures HasUnwinds(PushUnwind(f, targetIp, kind, maxUnwinds).value)
    ensures PopUnwind(PushUnwind(f, targetIp, kind, maxUnwinds).value)
      == Ok(Unwound(f, UnwindInfo(targetIp, |Live(f)| - 1, kind)))
  {
    var g := PushUnwind(f, targetIp, kind, maxUnwinds).value;
    assert g.unwinds[..|g.unwinds| - 1] == f.unwinds;
  }

  /** A freshly prepared frame has no handler and an empty stack, so
      `pop_unwind`, `pop` and `top` all fail on it. */
  lemma {:induction false} PreparedFrameIsEmpty(stack: nat)
    ensures !HasUnwinds(Prepare(stack))
    ensures PopUnwind(Prepare(stack)) == Err(NoUnwinds)
    ensures Pop(Prepare(stack)) == Err(StackUnderflow)
    ensures CalculateSp(Prepare(stack)) == -1
  {
  }
}
