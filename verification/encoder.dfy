/** `InstructionSequence` and its `Encoder`: turning a list of symbolic
    instructions into integer slots (recording the deepest stack reached),
    decoding slots back into instructions while tolerating trailing junk, and
    replacing one instruction in place. Every operation takes the instruction
    set `ops` it works against (`OpCodes.Table` in the VM). Sequences are
    values here: an operation that writes slots returns the new slots. */
module Encoder {
  import opened Wrappers
  import opened OpCodes
  import Fixnums

  /** An element of an encoder input stream: a bare opcode reference, or an
      array `[op, operand, ...]`. */
  datatype Inst = Bare(op: OpRef) | Full(op: OpRef, operands: seq<int>)

  /** The operands an element supplies; a bare reference supplies none. */
  function Operands(inst: Inst): seq<int> {
    if inst.Full? then inst.operands else []
  }

  /** `ele.size` in `encode_stream`: an array counts all its elements, anything
      else one slot. */
  function ElementSize(inst: Inst): nat {
    match inst
    case Bare(_) => 1
    case Full(_, xs) => |xs| + 1
  }

  /** The number of slots `encode_stream` allocates (a left fold, as `inject`). */
  function TotalSize(insts: seq<Inst>): nat {
    if insts == [] then 0
    else TotalSize(insts[..|insts| - 1]) + ElementSize(insts[|insts| - 1])
  }

  /** An instruction that encodes: its bytecode, operands and stack effect. */
  datatype Encoded = Encoded(id: nat, operands: seq<int>, effect: int)

  /** `Encoder#encode` for one element, with a bare reference held to the same
      operand-count check as an array (`EncodeAsWritten` is the source's
      behaviour). Fails with `InvalidOpCode` for an unknown opcode and with
      `ArgumentError` when the operand count differs from the descriptor's. */
  function Encode(ops: seq<OpCode>, inst: Inst): (r: Result<Encoded, Error>)
    ensures Resolve(ops, inst.op).Err? ==> r == Err(InvalidOpCode(inst.op))
    ensures Resolve(ops, inst.op).Ok?
            && |Operands(inst)| != ops[Resolve(ops, inst.op).value].ArgCount() ==>
              r == Err(ArgumentError)
    ensures WellFormed(ops) && Resolve(ops, inst.op).Ok? ==>
              (r.Ok? <==> |Operands(inst)| == ops[Resolve(ops, inst.op).value].ArgCount())
    ensures r.Ok? ==>
              Resolve(ops, inst.op) == Ok(r.value.id)
              && r.value.operands == Operands(inst)
              && |Operands(inst)| == ops[r.value.id].ArgCount()
              && StackDifference(ops[r.value.id], Operands(inst)) == Ok(r.value.effect)
  {
    var id :- Resolve(ops, inst.op);
    if |Operands(inst)| != ops[id].ArgCount() then Err(ArgumentError)
    else
      var effect :- StackDifference(ops[id], Operands(inst));
      Ok(Encoded(id, Operands(inst), effect))
  }

  /** `stack_difference(inst)` when `inst` is a bare reference: a formula
      code reads `inst[operand]` from the reference itself. On a Fixnum that
      is `Fixnum#[]`, one bit of the bytecode, so the formula counts its
      multiplier zero times or once; a Symbol has no such reader and the
      call fails. */
  function BareStackDifference(op: OpCode, ref: OpRef): (r: Result<int, Error>)
    ensures op.consumed >= 0 ==> r == StackDifference(op, [])
    ensures op.consumed < 0 ==> (r.Ok? <==> ref.Id?)
    ensures op.consumed < 0 && r.Ok? ==>
              var sc := DecodeStackCode(op.consumed);
              op.produced - (sc.multiplier + sc.constant) <= r.value <= op.produced - sc.constant
    ensures op.consumed < 0 && ref.Id? ==>
              var sc := DecodeStackCode(op.consumed);
              0 <= ref.id < Fixnums.Pow2(sc.operand) ==> r == Ok(op.produced - sc.constant)
  {
    match DecodeStackCode(op.consumed)
    case Fixed(n) => Ok(op.produced - n)
    case Scaled(m, a, k) =>
      if ref.Id? then
        var bit := Fixnums.BitReference(ref.id, a);
        assert m * bit == if bit == 0 then 0 else m;
        Ok(op.produced - (m * bit + k))
      else Err(UnresolvedStackOperand(a))
  }

  /** `Encoder#encode` as written: a bare reference skips the operand-count
      check and is written as its bytecode alone. */
  function EncodeAsWritten(ops: seq<OpCode>, inst: Inst): (r: Result<Encoded, Error>)
    ensures inst.Full? ==> r == Encode(ops, inst)
    ensures inst.Bare? ==> (r.Ok? <==> Resolve(ops, inst.op).Ok?
                                       && BareStackDifference(ops[Resolve(ops, inst.op).value], inst.op).Ok?)
    ensures inst.Bare? && r.Ok? ==>
              r.value.operands == [] && Resolve(ops, inst.op) == Ok(r.value.id)
              && BareStackDifference(ops[r.value.id], inst.op) == Ok(r.value.effect)
  {
    match inst
    case Full(_, _) => Encode(ops, inst)
    case Bare(op) =>
      var id :- Resolve(ops, op);
      var effect :- BareStackDifference(ops[id], op);
      Ok(Encoded(id, [], effect))
  }

  /** Which `encode` a stream goes through: `AsWritten` is the source's,
      `Checked` holds bare references to the operand-count check too. */
  datatype Mode = Checked | AsWritten

  /** One element encoded in the given mode. Either way a success keeps the
      element's operands and the opcode its reference resolves to. */
  function EncodeIn(mode: Mode, ops: seq<OpCode>, inst: Inst): (r: Result<Encoded, Error>)
    ensures r.Ok? ==> r.value.operands == Operands(inst) && Resolve(ops, inst.op) == Ok(r.value.id)
    ensures inst.Full? ==> r == Encode(ops, inst)
  {
    if mode.Checked? then Encode(ops, inst) else EncodeAsWritten(ops, inst)
  }

  predicate AllEncodable(mode: Mode, ops: seq<OpCode>, insts: seq<Inst>) {
    forall i :: 0 <= i < |insts| ==> EncodeIn(mode, ops, insts[i]).Ok?
  }

  /** The encoding of each element of an encodable list. */
  function Encodings(mode: Mode, ops: seq<OpCode>, insts: seq<Inst>): (r: seq<Encoded>)
    requires AllEncodable(mode, ops, insts)
    ensures |r| == |insts|
  {
    seq(|insts|, i requires 0 <= i < |insts| => EncodeIn(mode, ops, insts[i]).value)
  }

  /** An encoding the decoder reads back whole: a bytecode of `ops` followed
      by exactly as many operands as that opcode takes. */
  predicate Fits(ops: seq<OpCode>, e: Encoded) {
    e.id < |ops| && |e.operands| == ops[e.id].ArgCount()
  }

  predicate AllFit(ops: seq<OpCode>, es: seq<Encoded>) {
    forall i :: 0 <= i < |es| ==> Fits(ops, es[i])
  }

  lemma {:induction false} EncodingsFit(ops: seq<OpCode>, insts: seq<Inst>)
    requires AllEncodable(Checked, ops, insts)
    ensures AllFit(ops, Encodings(Checked, ops, insts))
  {
    var es := Encodings(Checked, ops, insts);
    forall i | 0 <= i < |es| ensures Fits(ops, es[i]) {
      assert es[i] == Encode(ops, insts[i]).value;
    }
  }

  /** The slots of one encoding: its bytecode, then its operands. */
  function Chunk(e: Encoded): seq<int> {
    [e.id] + e.operands
  }

  /** Reference layout: the chunks laid end to end (a left fold). */
  function Layout(es: seq<Encoded>): seq<int> {
    if es == [] then [] else Layout(es[..|es| - 1]) + Chunk(es[|es| - 1])
  }

  /** The stack effect of each encoding, in order. */
  function Effects(es: seq<Encoded>): (r: seq<int>)
    ensures |r| == |es|
  {
    seq(|es|, i requires 0 <= i < |es| => es[i].effect)
  }

  function Sum(xs: seq<int>): int {
    if xs == [] then 0 else Sum(xs[..|xs| - 1]) + xs[|xs| - 1]
  }

  /** The stack depth after the first `k` instructions. */
  function DepthAfter(effects: seq<int>, k: nat): int
    requires k <= |effects|
  {
    Sum(effects[..k])
  }

  /** `m` is the largest running stack depth over all prefixes of `effects`,
      the empty prefix (depth 0) included. */
  predicate IsPeakDepth(m: int, effects: seq<int>) {
    (forall k :: 0 <= k <= |effects| ==> DepthAfter(effects, k) <= m)
    && (m == 0 || exists k :: 0 < k <= |effects| && DepthAfter(effects, k) == m)
  }

  /** `InstructionSequence`: the slots and the recorded stack depth. */
  datatype Iseq = Iseq(slots: seq<int>, stackDepth: int)

  /** Encodings of a prefix are the prefix of the encodings. */
  lemma {:induction false} EncodingsPrefix(mode: Mode, ops: seq<OpCode>, insts: seq<Inst>, n: nat)
    requires n <= |insts| && AllEncodable(mode, ops, insts[..n])
    ensures n < |insts| && EncodeIn(mode, ops, insts[n]).Ok? ==>
              AllEncodable(mode, ops, insts[..n + 1])
              && Encodings(mode, ops, insts[..n + 1]) == Encodings(mode, ops, insts[..n]) + [EncodeIn(mode, ops, insts[n]).value]
  {
    if n < |insts| && EncodeIn(mode, ops, insts[n]).Ok? {
      var p := insts[..n + 1];
      assert AllEncodable(mode, ops, p) by {
        forall j | 0 <= j < |p| ensures EncodeIn(mode, ops, p[j]).Ok? {
          if j < n { assert p[j] == insts[..n][j]; }
        }
      }
      var a := Encodings(mode, ops, p);
      var b := Encodings(mode, ops, insts[..n]) + [EncodeIn(mode, ops, insts[n]).value];
      forall j | 0 <= j < |a| ensures a[j] == b[j] {
        if j < n { assert p[j] == insts[..n][j]; }
      }
    }
  }

  lemma {:induction false} LayoutSize(mode: Mode, ops: seq<OpCode>, insts: seq<Inst>)
    requires AllEncodable(mode, ops, insts)
    ensures |Layout(Encodings(mode, ops, insts))| == TotalSize(insts)
  {
    if insts != [] {
      var n := |insts| - 1;
      var init := insts[..n];
      assert AllEncodable(mode, ops, init) by {
        forall j | 0 <= j < n ensures EncodeIn(mode, ops, init[j]).Ok? {
          assert init[j] == insts[j];
        }
      }
      EncodingsPrefix(mode, ops, insts, n);
      assert insts[..n + 1] == insts;
      LayoutSize(mode, ops, init);
      var es := Encodings(mode, ops, insts);
      assert es[..|es| - 1] == Encodings(mode, ops, init);
    }
  }

  lemma {:induction false} PeakStep(m: int, effects: seq<int>, e: int)
    requires IsPeakDepth(m, effects)
    ensures var d := Sum(effects) + e;
            IsPeakDepth(if d > m then d else m, effects + [e])
  {
    var es := effects + [e];
    assert es[..|es| - 1] == effects;
    assert DepthAfter(es, |es|) == Sum(effects) + e by {
      assert es[..|es|] == es;
    }
    forall k | 0 <= k <= |effects|
      ensures DepthAfter(es, k) == DepthAfter(effects, k)
    {
      assert es[..k] == effects[..k];
    }
    assert DepthAfter(effects, |effects|) == Sum(effects) by {
      assert effects[..|effects|] == effects;
    }
  }

  /** The slots after one more encoding. */
  lemma {:induction false} StreamSlotsStep(es: seq<Encoded>, enc: Encoded)
    ensures Layout(es + [enc]) == Layout(es) + [enc.id] + enc.operands
  {
    var es1 := es + [enc];
    assert es1[..|es1| - 1] == es;
  }

  /** The running depth and the peak after one more encoding. */
  lemma {:induction false} StreamEffectsStep(es: seq<Encoded>, enc: Encoded, peak: int)
    requires IsPeakDepth(peak, Effects(es))
    ensures var d := Sum(Effects(es)) + enc.effect;
            && Sum(Effects(es + [enc])) == d
            && IsPeakDepth(if d > peak then d else peak, Effects(es + [enc]))
  {
    var fx := Effects(es);
    var fx1 := fx + [enc.effect];
    EffectsSnoc(es, enc);
    assert fx1[..|fx1| - 1] == fx;
    PeakStep(peak, fx, enc.effect);
  }

  lemma {:induction false} EffectsSnoc(es: seq<Encoded>, e: Encoded)
    ensures Effects(es + [e]) == Effects(es) + [e.effect]
  {
    var a := Effects(es + [e]);
    var b := Effects(es) + [e.effect];
    forall k | 0 <= k < |a|
      ensures a[k] == b[k]
    {
      if k < |es| {
        assert (es + [e])[k] == es[k];
      }
    }
  }

  /** `encode_stream`: encodes every element in order. The result has exactly
      `TotalSize` slots laid out as each bytecode followed by its operands, and
      its stack depth is the peak running sum of the stack effects. The first
      element that does not encode makes the whole stream fail with its error. */
  method EncodeStream(mode: Mode, ops: seq<OpCode>, insts: seq<Inst>) returns (r: Result<Iseq, Error>)
    ensures r.Ok? <==> AllEncodable(mode, ops, insts)
    ensures r.Err? ==>
              exists i :: 0 <= i < |insts| && EncodeIn(mode, ops, insts[i]) == Err(r.error)
                          && forall j :: 0 <= j < i ==> EncodeIn(mode, ops, insts[j]).Ok?
    ensures r.Ok? ==>
              |r.value.slots| == TotalSize(insts) && r.value.slots == Layout(Encodings(mode, ops, insts))
    ensures r.Ok? ==>
              r.value.stackDepth >= 0 && IsPeakDepth(r.value.stackDepth, Effects(Encodings(mode, ops, insts)))
  {
    var slots: seq<int> := [];
    var depth := 0;
    var peak := 0;
    var i := 0;
    ghost var es: seq<Encoded> := [];
    while i < |insts|
      invariant |es| == i && EncodedPrefix(mode, ops, insts, es)
      invariant slots == Layout(es) && depth == Sum(Effects(es))
      invariant peak >= 0 && IsPeakDepth(peak, Effects(es))
    {
      var enc := EncodeIn(mode, ops, insts[i]);
      if enc.Err? {
        StreamFails(mode, ops, insts, es, enc.error);
        return Err(enc.error);
      }
      StreamAdvance(mode, ops, insts, es, enc.value, slots, depth, peak);
      var d := depth + enc.value.effect;
      slots, depth, peak := slots + [enc.value.id] + enc.value.operands, d, if d > peak then d else peak;
      es, i := es + [enc.value], i + 1;
    }
    StreamDone(mode, ops, insts, es);
    return Ok(Iseq(slots, peak));
  }

  /** The loop of `EncodeStream` keeps its invariant when the next element
      encodes. */
  lemma {:induction false} StreamAdvance(mode: Mode, ops: seq<OpCode>, insts: seq<Inst>, es: seq<Encoded>,
                                         enc: Encoded, slots: seq<int>, depth: int, peak: int)
    requires |es| < |insts| && EncodedPrefix(mode, ops, insts, es) && EncodeIn(mode, ops, insts[|es|]) == Ok(enc)
    requires slots == Layout(es) && depth == Sum(Effects(es))
    requires peak >= 0 && IsPeakDepth(peak, Effects(es))
    ensures EncodedPrefix(mode, ops, insts, es + [enc])
    ensures slots + [enc.id] + enc.operands == Layout(es + [enc])
    ensures depth + enc.effect == Sum(Effects(es + [enc]))
    ensures var d := depth + enc.effect;
            IsPeakDepth(if d > peak then d else peak, Effects(es + [enc]))
  {
    StreamStep(es, enc, peak);
    EncodedPrefixStep(mode, ops, insts, es, enc);
  }

  /** One more encoding appends its chunk to the slots, its effect to the
      depth, and raises the peak if the new depth is higher. */
  lemma {:induction false} StreamStep(es: seq<Encoded>, enc: Encoded, peak: int)
    requires IsPeakDepth(peak, Effects(es))
    ensures Layout(es + [enc]) == Layout(es) + [enc.id] + enc.operands
    ensures var d := Sum(Effects(es)) + enc.effect;
            && Sum(Effects(es + [enc])) == d
            && IsPeakDepth(if d > peak then d else peak, Effects(es + [enc]))
  {
    StreamSlotsStep(es, enc);
    StreamEffectsStep(es, enc, peak);
  }

  /** `es` are the encodings of the first `|es|` elements, in order. */
  predicate EncodedPrefix(mode: Mode, ops: seq<OpCode>, insts: seq<Inst>, es: seq<Encoded>)
    decreases |es|
  {
    && |es| <= |insts|
    && (es != [] ==>
          && EncodedPrefix(mode, ops, insts, es[..|es| - 1])
          && EncodeIn(mode, ops, insts[|es| - 1]) == Ok(es[|es| - 1]))
  }

  lemma {:induction false} EncodedPrefixAll(mode: Mode, ops: seq<OpCode>, insts: seq<Inst>, es: seq<Encoded>)
    requires EncodedPrefix(mode, ops, insts, es)
    ensures forall j :: 0 <= j < |es| ==> EncodeIn(mode, ops, insts[j]) == Ok(es[j])
    decreases |es|
  {
    if es != [] {
      var init := es[..|es| - 1];
      EncodedPrefixAll(mode, ops, insts, init);
      assert forall j :: 0 <= j < |init| ==> es[j] == init[j];
    }
  }

  /** The encodings collected so far, extended by the next one. */
  lemma {:induction false} EncodedPrefixStep(mode: Mode, ops: seq<OpCode>, insts: seq<Inst>, es: seq<Encoded>, enc: Encoded)
    requires EncodedPrefix(mode, ops, insts, es)
    requires |es| < |insts| && EncodeIn(mode, ops, insts[|es|]) == Ok(enc)
    ensures EncodedPrefix(mode, ops, insts, es + [enc])
  {
    assert (es + [enc])[..|es|] == es;
  }

  /** The first element that does not encode makes the list unencodable,
      and its error is the stream's. */
  lemma {:induction false} StreamFails(mode: Mode, ops: seq<OpCode>, insts: seq<Inst>, es: seq<Encoded>, e: Error)
    requires EncodedPrefix(mode, ops, insts, es)
    requires |es| < |insts| && EncodeIn(mode, ops, insts[|es|]) == Err(e)
    ensures !AllEncodable(mode, ops, insts)
    ensures exists k :: 0 <= k < |insts| && EncodeIn(mode, ops, insts[k]) == Err(e)
                        && forall j :: 0 <= j < k ==> EncodeIn(mode, ops, insts[j]).Ok?
  {
    EncodedPrefixAll(mode, ops, insts, es);
  }

  /** At the end of the loop the encodings collected are `Encodings`. */
  lemma {:induction false} StreamDone(mode: Mode, ops: seq<OpCode>, insts: seq<Inst>, es: seq<Encoded>)
    requires |es| == |insts| && EncodedPrefix(mode, ops, insts, es)
    ensures AllEncodable(mode, ops, insts) && es == Encodings(mode, ops, insts)
    ensures |Layout(es)| == TotalSize(insts)
  {
    EncodedPrefixAll(mode, ops, insts, es);
    LayoutSize(mode, ops, insts);
  }

  /** A decoded instruction: the opcode's bytecode and its operands. */
  datatype Decoded = Decoded(id: nat, operands: seq<int>)

  /** The `symbols_only` form of a decoded instruction. */
  datatype SymbolicInst = SymbolicInst(mnemonic: Symbol, operands: seq<int>)

  /** `Tuple#at` on the slots: an index outside the sequence is a bounds error. */
  function ReadSlot(slots: seq<int>, at: int): (r: Result<int, Error>)
    ensures r.Ok? <==> 0 <= at < |slots|
    ensures r.Ok? ==> r.value == slots[at]
    ensures r.Err? ==> r.error == BoundsExceeded(at)
  {
    if 0 <= at < |slots| then Ok(slots[at]) else Err(BoundsExceeded(at))
  }

  /** `decode_instruction(iseq, ip)`: the opcode at `ip` and the `arg_count`
      slots after it. The slot value is looked up as `InstructionSet[value]`,
      so a negative value counts from the end of the table. */
  function DecodeInstruction(ops: seq<OpCode>, slots: seq<int>, ip: int): (r: Result<Decoded, Error>)
    ensures !(0 <= ip < |slots|) ==> r == Err(BoundsExceeded(ip))
    ensures 0 <= ip < |slots| && Resolve(ops, Id(slots[ip])).Err? ==>
              r == Err(InvalidOpCode(Id(slots[ip])))
    ensures 0 <= ip < |slots| && Resolve(ops, Id(slots[ip])).Ok? ==>
              var id := Resolve(ops, Id(slots[ip])).value;
              var n := ops[id].ArgCount();
              if ip + 1 + n <= |slots|
              then r == Ok(Decoded(id, slots[ip + 1..ip + 1 + n]))
              else r == Err(BoundsExceeded(|slots|))
    ensures r.Ok? ==> r.value.id < |ops| && 0 <= ip
                      && ip + 1 + |r.value.operands| <= |slots|
                      && |r.value.operands| == ops[r.value.id].ArgCount()
  {
    if 0 <= ip < |slots| then
      match Resolve(ops, Id(slots[ip]))
      case Err(e) => Err(e)
      case Ok(id) =>
        var n := ops[id].ArgCount();
        if ip + 1 + n <= |slots| then Ok(Decoded(id, slots[ip + 1..ip + 1 + n]))
        else Err(BoundsExceeded(|slots|))
    else Err(BoundsExceeded(ip))
  }

  /** The flow of the last instruction that was not `noop`, after `id`. */
  function NextGood(ops: seq<OpCode>, good: Option<Flow>, id: nat): Option<Flow>
    requires id < |ops|
  {
    if ops[id].mnemonic == Noop then good else Some(ops[id].flow)
  }

  /** The loop of `decode_iseq` from slot `off`, having decoded `acc` so far.
      An invalid opcode ends decoding without error when the last non-`noop`
      instruction had flow `:return` (junk after the end of the code);
      every other error propagates. Trailing `noop`s are kept. */
  function DecodeFrom(ops: seq<OpCode>, slots: seq<int>, off: nat, good: Option<Flow>,
                      acc: seq<Decoded>): (r: Result<seq<Decoded>, Error>)
    requires off <= |slots|
    decreases |slots| - off
  {
    if off == |slots| then Ok(acc)
    else
      match DecodeInstruction(ops, slots, off)
      case Ok(d) =>
        DecodeFrom(ops, slots, off + 1 + |d.operands|, NextGood(ops, good, d.id), acc + [d])
      case Err(e) =>
        if e.InvalidOpCode? && good == Some(ReturnFlow) then Ok(acc) else Err(e)
  }

  /** Every decoded instruction names an opcode of the table. */
  predicate KnownIds(ops: seq<OpCode>, ds: seq<Decoded>)
  {
    forall i :: 0 <= i < |ds| ==> ds[i].id < |ops|
  }

  /** `decode_iseq(iseq, false)`. */
  function DecodeIseq(ops: seq<OpCode>, slots: seq<int>): (r: Result<seq<Decoded>, Error>)
    ensures r.Ok? ==> KnownIds(ops, r.value)
  {
    DecodeFromIds(ops, slots, 0, None, []);
    DecodeFrom(ops, slots, 0, None, [])
  }

  /** Every bytecode the loop appends names an opcode of the table. */
  lemma {:induction false} DecodeFromIds(ops: seq<OpCode>, slots: seq<int>, off: nat, good: Option<Flow>,
                                         acc: seq<Decoded>)
    requires off <= |slots|
    requires KnownIds(ops, acc)
    ensures var r := DecodeFrom(ops, slots, off, good, acc);
            r.Ok? ==> KnownIds(ops, r.value)
    decreases |slots| - off
  {
    if off < |slots| {
      match DecodeInstruction(ops, slots, off)
      case Ok(d) =>
        var next := acc + [d];
        assert KnownIds(ops, next) by {
          assert forall i :: 0 <= i < |acc| ==> next[i] == acc[i];
        }
        DecodeFromIds(ops, slots, off + 1 + |d.operands|, NextGood(ops, good, d.id), next);
        DecodeFromStep(ops, slots, off, good, acc, d);
      case Err(_) =>
        assert DecodeFrom(ops, slots, off, good, acc).Ok? ==> DecodeFrom(ops, slots, off, good, acc).value == acc;
    }
  }

  /** A decoded instruction moves the loop past its operands. */
  lemma DecodeFromStep(ops: seq<OpCode>, slots: seq<int>, off: nat, good: Option<Flow>, acc: seq<Decoded>,
                       d: Decoded)
    requires off < |slots|
    requires DecodeInstruction(ops, slots, off).Ok? && DecodeInstruction(ops, slots, off).value == d
    ensures off + 1 + |d.operands| <= |slots|
    ensures DecodeFrom(ops, slots, off, good, acc)
            == DecodeFrom(ops, slots, off + 1 + |d.operands|, NextGood(ops, good, d.id), acc + [d])
  {
  }

  function Symbolic(ops: seq<OpCode>, ds: seq<Decoded>): (r: seq<SymbolicInst>)
    requires KnownIds(ops, ds)
    ensures |r| == |ds|
    ensures forall i :: 0 <= i < |ds| ==>
              r[i] == SymbolicInst(ops[ds[i].id].mnemonic, ds[i].operands)
  {
    seq(|ds|, i requires 0 <= i < |ds| => SymbolicInst(ops[ds[i].id].mnemonic, ds[i].operands))
  }

  /** `decode_iseq(iseq)` with the default `symbols_only`: each instruction's
      opcode is replaced by its mnemonic. */
  function DecodeIseqSymbols(ops: seq<OpCode>, slots: seq<int>): (r: Result<seq<SymbolicInst>, Error>)
    ensures DecodeIseq(ops, slots).Err? ==> r == Err(DecodeIseq(ops, slots).error)
    ensures DecodeIseq(ops, slots).Ok? ==> r == Ok(Symbolic(ops, DecodeIseq(ops, slots).value))
  {
    var ds :- DecodeIseq(ops, slots);
    Ok(Symbolic(ops, ds))
  }


  /** What decoding a list of encodings yields: each bytecode with its
      operands. */
  function Normalize(es: seq<Encoded>): (r: seq<Decoded>)
    ensures |r| == |es|
  {
    seq(|es|, i requires 0 <= i < |es| => Decoded(es[i].id, es[i].operands))
  }

  /** The flow of the last non-`noop` encoding, after `good`. */
  function GoodAfter(ops: seq<OpCode>, es: seq<Encoded>, good: Option<Flow>): Option<Flow>
    requires AllFit(ops, es)
  {
    if es == [] then good
    else NextGood(ops, GoodAfter(ops, es[..|es| - 1], good), es[|es| - 1].id)
  }

  /** Decoding one chunk: where the slots at `off` hold a fitting encoding's
      chunk, the decoder reads back its bytecode and operands and moves past
      the chunk. */
  lemma {:induction false} DecodeChunk(ops: seq<OpCode>, s: seq<int>, off: nat, e: Encoded,
                    good: Option<Flow>, acc: seq<Decoded>)
    requires Fits(ops, e)
    requires HoldsAt(s, off, Chunk(e))
    ensures DecodeFrom(ops, s, off, good, acc)
            == DecodeFrom(ops, s, off + |Chunk(e)|, NextGood(ops, good, e.id), acc + [Decoded(e.id, e.operands)])
  {
    var c := Chunk(e);
    assert s[off] == c[0] == e.id;
    assert s[off + 1..off + |c|] == e.operands by {
      forall k | 0 <= k < |e.operands| ensures s[off + 1 + k] == e.operands[k] {
        assert c[1 + k] == e.operands[k];
      }
    }
  }

  /** The slots of `s` from `off` on begin with `x`. */
  predicate HoldsAt(s: seq<int>, off: nat, x: seq<int>) {
    off + |x| <= |s| && forall k :: 0 <= k < |x| ==> s[off + k] == x[k]
  }

  /** Splitting slots that hold `x + y` into its two parts. */
  lemma {:induction false} SliceSplit(s: seq<int>, off: nat, x: seq<int>, y: seq<int>)
    requires HoldsAt(s, off, x + y)
    ensures HoldsAt(s, off, x) && HoldsAt(s, off + |x|, y)
  {
    forall k | 0 <= k < |x| ensures s[off + k] == x[k] {
      assert (x + y)[k] == x[k];
    }
    forall k | 0 <= k < |y| ensures s[off + |x| + k] == y[k] {
      assert (x + y)[|x| + k] == y[k];
    }
  }

  /** Decoding walks an encoded layout chunk by chunk: where the slots at
      `off` hold the layout of `es`, the decoder reaches the end of it having
      appended exactly `Normalize(es)`. */
  lemma {:induction false} DecodeLayout(ops: seq<OpCode>, s: seq<int>, off: nat, es: seq<Encoded>,
                                        good: Option<Flow>, acc: seq<Decoded>)
    requires AllFit(ops, es)
    requires HoldsAt(s, off, Layout(es))
    ensures DecodeFrom(ops, s, off, good, acc)
            == DecodeFrom(ops, s, off + |Layout(es)|, GoodAfter(ops, es, good), acc + Normalize(es))
  {
    if es == [] {
      DecodeLayoutEmpty(ops, s, off, good, acc);
    } else {
      var init, e := es[..|es| - 1], es[|es| - 1];
      LayoutSplit(ops, s, off, es);
      DecodeLayout(ops, s, off, init, good, acc);
      LayoutSnoc(ops, es, good, acc);
      DecodeChunkTo(ops, s, off + |Layout(init)|, e, GoodAfter(ops, init, good), acc + Normalize(init),
                    off + |Layout(es)|, GoodAfter(ops, es, good), acc + Normalize(es));
    }
  }

  /** The base case of `DecodeLayout`: an empty layout decodes nothing. */
  lemma {:induction false} DecodeLayoutEmpty(ops: seq<OpCode>, s: seq<int>, off: nat, good: Option<Flow>,
                                             acc: seq<Decoded>)
    requires off <= |s|
    ensures DecodeFrom(ops, s, off, good, acc)
            == DecodeFrom(ops, s, off + |Layout([])|, GoodAfter(ops, [], good), acc + Normalize([]))
  {
    assert acc + Normalize([]) == acc;
  }

  /** Appending one encoding appends its chunk to the layout, its bytecode
      and operands to the normalized list, and moves the flow on by it. */
  lemma {:induction false} LayoutSnoc(ops: seq<OpCode>, es: seq<Encoded>, good: Option<Flow>, acc: seq<Decoded>)
    requires es != [] && AllFit(ops, es[..|es| - 1]) && Fits(ops, es[|es| - 1])
    ensures |Layout(es)| == |Layout(es[..|es| - 1])| + |Chunk(es[|es| - 1])|
    ensures AllFit(ops, es)
            && NextGood(ops, GoodAfter(ops, es[..|es| - 1], good), es[|es| - 1].id) == GoodAfter(ops, es, good)
    ensures acc + Normalize(es[..|es| - 1]) + [Decoded(es[|es| - 1].id, es[|es| - 1].operands)]
            == acc + Normalize(es)
  {
    forall j | 0 <= j < |es| ensures Fits(ops, es[j]) {
      if j < |es| - 1 {
        assert es[..|es| - 1][j] == es[j];
      }
    }
    NormalizeSnoc(es);
  }

  /** `DecodeChunk`, with the position, flow and decoded list it reaches
      given by the caller. */
  lemma {:induction false} DecodeChunkTo(ops: seq<OpCode>, s: seq<int>, off: nat, e: Encoded,
                                         good: Option<Flow>, acc: seq<Decoded>,
                                         off2: nat, good2: Option<Flow>, acc2: seq<Decoded>)
    requires Fits(ops, e) && HoldsAt(s, off, Chunk(e))
    requires off2 == off + |Chunk(e)| && good2 == NextGood(ops, good, e.id)
    requires acc2 == acc + [Decoded(e.id, e.operands)]
    ensures off2 <= |s|
    ensures DecodeFrom(ops, s, off, good, acc) == DecodeFrom(ops, s, off2, good2, acc2)
  {
    DecodeChunk(ops, s, off, e, good, acc);
  }

  /** The layout of `es` is that of all but its last encoding, then the
      chunk of the last one; each part fits where it lies. */
  lemma {:induction false} LayoutSplit(ops: seq<OpCode>, s: seq<int>, off: nat, es: seq<Encoded>)
    requires es != [] && AllFit(ops, es)
    requires HoldsAt(s, off, Layout(es))
    ensures AllFit(ops, es[..|es| - 1]) && Fits(ops, es[|es| - 1])
    ensures HoldsAt(s, off, Layout(es[..|es| - 1]))
    ensures HoldsAt(s, off + |Layout(es[..|es| - 1])|, Chunk(es[|es| - 1]))
    ensures off + |Layout(es)| == off + |Layout(es[..|es| - 1])| + |Chunk(es[|es| - 1])|
  {
    var init := es[..|es| - 1];
    forall j | 0 <= j < |init| ensures Fits(ops, init[j]) {
      assert init[j] == es[j];
    }
    assert Layout(es) == Layout(init) + Chunk(es[|es| - 1]);
    SliceSplit(s, off, Layout(init), Chunk(es[|es| - 1]));
  }

  /** `Normalize` one encoding at a time. */
  lemma {:induction false} NormalizeSnoc(es: seq<Encoded>)
    requires es != []
    ensures Normalize(es) == Normalize(es[..|es| - 1]) + [Decoded(es[|es| - 1].id, es[|es| - 1].operands)]
  {
    var n := Normalize(es[..|es| - 1]);
    forall i | 0 <= i < |n| ensures n[i] == Normalize(es)[i] {
      assert es[..|es| - 1][i] == es[i];
    }
  }

  /** Decoding the layout of fitting encodings gives back each bytecode with
      its operands, in order. */
  lemma {:induction false} DecodeLayoutWhole(ops: seq<OpCode>, es: seq<Encoded>)
    requires AllFit(ops, es)
    ensures DecodeIseq(ops, Layout(es)) == Ok(Normalize(es))
  {
    var l := Layout(es);
    assert HoldsAt(l, 0, l);
    DecodePrefix(ops, l, es);
    DecodeAtEnd(ops, l, GoodAfter(ops, es, None), Normalize(es));
  }

  /** Slots that start with the layout of fitting encodings decode, up to
      the end of that layout, to each bytecode with its operands. */
  lemma {:induction false} DecodePrefix(ops: seq<OpCode>, s: seq<int>, es: seq<Encoded>)
    requires AllFit(ops, es)
    requires HoldsAt(s, 0, Layout(es))
    ensures DecodeIseq(ops, s) == DecodeFrom(ops, s, |Layout(es)|, GoodAfter(ops, es, None), Normalize(es))
  {
    DecodeLayout(ops, s, 0, es, None, []);
    assert [] + Normalize(es) == Normalize(es);
    assert 0 + |Layout(es)| == |Layout(es)|;
    assert DecodeIseq(ops, s) == DecodeFrom(ops, s, 0, None, []);
  }

  /** Decoding stops with what it has once it reaches the end of the slots. */
  lemma {:induction false} DecodeAtEnd(ops: seq<OpCode>, s: seq<int>, good: Option<Flow>, acc: seq<Decoded>)
    ensures DecodeFrom(ops, s, |s|, good, acc) == Ok(acc)
  {
  }

  /** Round trip: the slots `encode_stream` lays out for an encodable list
      decode to each element's bytecode and operands, in order. */
  lemma {:induction false} DecodeInvertsEncode(ops: seq<OpCode>, insts: seq<Inst>)
    requires AllEncodable(Checked, ops, insts)
    ensures DecodeIseq(ops, Layout(Encodings(Checked, ops, insts)))
            == Ok(seq(|insts|, i requires 0 <= i < |insts| =>
                        Decoded(Encode(ops, insts[i]).value.id, Operands(insts[i]))))
  {
    var es := Encodings(Checked, ops, insts);
    EncodingsFit(ops, insts);
    DecodeLayoutWhole(ops, es);
    var want := seq(|insts|, i requires 0 <= i < |insts| =>
                      Decoded(Encode(ops, insts[i]).value.id, Operands(insts[i])));
    forall i | 0 <= i < |insts| ensures Normalize(es)[i] == want[i] {
      assert es[i] == Encode(ops, insts[i]).value;
    }
    assert Normalize(es) == want;
  }

  /** Round trip in the `symbols_only` form: a list written with mnemonics
      decodes to the same mnemonics and operands. */
  lemma {:induction false} DecodeSymbolsInvertsEncode(ops: seq<OpCode>, insts: seq<Inst>)
    requires AllEncodable(Checked, ops, insts)
    requires forall i :: 0 <= i < |insts| ==> insts[i].op.Mnemonic?
    ensures DecodeIseqSymbols(ops, Layout(Encodings(Checked, ops, insts)))
            == Ok(seq(|insts|, i requires 0 <= i < |insts| =>
                        SymbolicInst(insts[i].op.sym, Operands(insts[i]))))
  {
    DecodeInvertsEncode(ops, insts);
    var expected := seq(|insts|, i requires 0 <= i < |insts| =>
                          SymbolicInst(insts[i].op.sym, Operands(insts[i])));
    var ds := DecodeIseq(ops, Layout(Encodings(Checked, ops, insts))).value;
    var got := Symbolic(ops, ds);
    forall i | 0 <= i < |insts| ensures got[i] == expected[i] {
      assert ds[i] == Decoded(Encode(ops, insts[i]).value.id, Operands(insts[i]));
    }
    assert got == expected;
  }

  function Zeros(k: nat): (r: seq<int>)
    ensures |r| == k && forall i :: 0 <= i < k ==> r[i] == 0
  {
    seq(k, _ => 0)
  }

  function Noops(k: nat): (r: seq<Decoded>)
    ensures |r| == k && forall i :: 0 <= i < k ==> r[i] == Decoded(NoopId, [])
  {
    seq(k, _ => Decoded(NoopId, []))
  }

  /** Zero slots decode as `noop`s, one per slot, and leave the last
      non-`noop` flow as it was. */
  lemma {:induction false} DecodeZeros(ops: seq<OpCode>, pre: seq<int>, k: nat,
                                       good: Option<Flow>, acc: seq<Decoded>)
    requires WellFormed(ops)
    ensures DecodeFrom(ops, pre + Zeros(k), |pre|, good, acc) == Ok(acc + Noops(k))
    decreases k
  {
    var s := pre + Zeros(k);
    if k == 0 {
      assert s == pre;
      assert acc + Noops(k) == acc;
    } else {
      assert s[|pre|] == 0;
      assert DecodeInstruction(ops, s, |pre|) == Ok(Decoded(0, []));
      assert s == (pre + [0]) + Zeros(k - 1);
      DecodeZeros(ops, pre + [0], k - 1, good, acc + [Decoded(0, [])]);
      assert acc + [Decoded(0, [])] + Noops(k - 1) == acc + Noops(k);
    }
  }

  /** Padding an encoded sequence with zero slots (storage is allocated in
      chunks) decodes to the same instructions followed by one `noop` per
      slot: the padding is kept, not stripped. */
  lemma {:induction false} DecodePadded(ops: seq<OpCode>, es: seq<Encoded>, k: nat)
    requires WellFormed(ops)
    requires AllFit(ops, es)
    ensures DecodeIseq(ops, Layout(es) + Zeros(k)) == Ok(Normalize(es) + Noops(k))
  {
    var l := Layout(es);
    var s := l + Zeros(k);
    var g := GoodAfter(ops, es, None);
    assert DecodeIseq(ops, s) == DecodeFrom(ops, s, |l|, g, Normalize(es)) by {
      assert HoldsAt(s, 0, l);
      DecodePrefix(ops, s, es);
    }
    assert DecodeFrom(ops, s, |l|, g, Normalize(es)) == Ok(Normalize(es) + Noops(k)) by {
      DecodeZeros(ops, l, k, g, Normalize(es));
    }
  }

  /** Junk after an encoded sequence: a slot that is no opcode ends decoding
      quietly exactly when the last non-`noop` instruction returns, and is
      reported as an invalid opcode otherwise. */
  lemma {:induction false} DecodeJunk(ops: seq<OpCode>, es: seq<Encoded>, junk: int, rest: seq<int>)
    requires AllFit(ops, es)
    requires Resolve(ops, Id(junk)).Err?
    ensures GoodAfter(ops, es, None) == Some(ReturnFlow) ==>
              DecodeIseq(ops, Layout(es) + [junk] + rest) == Ok(Normalize(es))
    ensures GoodAfter(ops, es, None) != Some(ReturnFlow) ==>
              DecodeIseq(ops, Layout(es) + [junk] + rest) == Err(InvalidOpCode(Id(junk)))
  {
    var l := Layout(es);
    var s := l + [junk] + rest;
    var g := GoodAfter(ops, es, None);
    assert DecodeIseq(ops, s) == DecodeFrom(ops, s, |l|, g, Normalize(es)) by {
      assert HoldsAt(s, 0, l);
      DecodePrefix(ops, s, es);
    }
    assert DecodeInstruction(ops, s, |l|) == Err(InvalidOpCode(Id(junk))) by {
      assert s[|l|] == junk;
    }
  }

  /** `s` with `xs` written from index `at` (consecutive `Tuple#put`s). */
  function Overwrite(s: seq<int>, at: nat, xs: seq<int>): (r: seq<int>)
    requires at + |xs| <= |s|
    ensures |r| == |s|
    ensures forall k :: 0 <= k < |xs| ==> r[at + k] == xs[k]
    ensures forall j :: 0 <= j < |s| && !(at <= j < at + |xs|) ==> r[j] == s[j]
  {
    s[..at] + xs + s[at + |xs|..]
  }

  /** The spill check of `replace_instruction`: slots `from .. to-1` must all
      be 0; a slot past the end is a bounds error. */
  function SpillFree(slots: seq<int>, from: nat, to: nat): (r: Result<(), Error>)
    ensures to <= |slots| ==> (r.Ok? <==> forall j :: from <= j < to ==> slots[j] == 0)
    ensures to <= |slots| && r.Err? ==> r.error == ArgumentError
    ensures r.Ok? ==> to <= from || to <= |slots|
    decreases (to as int) - (from as int)
  {
    if from >= to then Ok(())
    else if from >= |slots| then Err(BoundsExceeded(from))
    else if slots[from] != 0 then Err(ArgumentError)
    else SpillFree(slots, from + 1, to)
  }

  /** A call that writes slots in place and may raise part way through: the
      slots as the call leaves them, and what it returns or raises. */
  datatype InPlace<T> = InPlace(slots: seq<int>, result: Result<T, Error>)

  /** The checks `replace_instruction` makes before it writes anything: the
      opcode at `ip` and the new opcode resolve, and a wider new instruction
      spills only into zero slots. Gives the old and the new bytecode. */
  function ReplaceChecks(ops: seq<OpCode>, slots: seq<int>, ip: int, op: OpRef): (r: Result<(nat, nat), Error>)
    ensures r.Ok? ==> 0 <= ip < |slots| && Resolve(ops, Id(slots[ip])) == Ok(r.value.0)
                      && Resolve(ops, op) == Ok(r.value.1)
    ensures r.Ok? ==> ops[r.value.1].Size() <= ops[r.value.0].Size() || ip + ops[r.value.1].Size() <= |slots|
    ensures r.Ok? ==> forall j :: ip + ops[r.value.0].Size() <= j < ip + ops[r.value.1].Size() ==>
                        j < |slots| && slots[j] == 0
    ensures 0 <= ip < |slots| && Resolve(ops, Id(slots[ip])).Ok? && Resolve(ops, op).Ok?
            && ops[Resolve(ops, op).value].Size() <= ops[Resolve(ops, Id(slots[ip])).value].Size() ==>
              r.Ok?
  {
    var code :- ReadSlot(slots, ip);
    var oldId :- Resolve(ops, Id(code));
    var newId :- Resolve(ops, op);
    var _ :- SpillFree(slots, ip + ops[oldId].Size(), ip + ops[newId].Size());
    Ok((oldId, newId))
  }

  /** `replace_instruction(iseq, ip, [op, operands...])` with the old operands
      taken from the slots after the opcode (`ReplaceAsWritten` keeps the
      source's offsets). Gives the slots as the call leaves them and the
      replaced instruction. A wider instruction may only spill into zero
      slots; the old operand slots are zeroed before the new instruction is
      encoded, so an `ArgumentError` from `encode` leaves them zeroed. */
  function ReplaceInstruction(ops: seq<OpCode>, slots: seq<int>, ip: int, op: OpRef,
                              operands: seq<int>): (r: InPlace<Decoded>)
    ensures |r.slots| == |slots|
    ensures r.result.Err? ==>
              forall j :: 0 <= j < |slots| && r.slots[j] != slots[j] ==> ip < j && r.slots[j] == 0
    ensures r.result.Ok? ==>
              DecodeInstruction(ops, slots, ip).Ok? && DecodeInstruction(ops, slots, ip).value == r.result.value
    ensures r.result.Ok? ==>
              Encode(ops, Full(op, operands)).Ok?
              && DecodeInstruction(ops, r.slots, ip)
                 == Ok(Decoded(Encode(ops, Full(op, operands)).value.id, operands))
    ensures r.result.Ok? ==>
              var oldEnd := ip + 1 + |r.result.value.operands|;
              var newEnd := ip + 1 + |operands|;
              (forall j :: newEnd <= j < oldEnd ==> r.slots[j] == 0)
              && (forall j :: oldEnd <= j < newEnd ==> slots[j] == 0)
              && (forall j :: 0 <= j < |slots| && !(ip <= j < oldEnd) && !(ip <= j < newEnd) ==>
                    r.slots[j] == slots[j])
  {
    match ReplaceChecks(ops, slots, ip, op)
    case Err(e) => InPlace(slots, Err(e))
    case Ok(ids) =>
      var n := ops[ids.0].ArgCount();
      if ip + 1 + n > |slots| then
        ZeroedAfter(slots, ip, |slots| - (ip + 1));
        InPlace(Overwrite(slots, ip + 1, Zeros(|slots| - (ip + 1))), Err(BoundsExceeded(|slots|)))
      else
        var prior := Decoded(ids.0, slots[ip + 1..ip + 1 + n]);
        var cleared := Overwrite(slots, ip + 1, Zeros(n));
        match Encode(ops, Full(op, operands))
        case Err(e) =>
          ZeroedAfter(slots, ip, n);
          InPlace(cleared, Err(e))
        case Ok(enc) =>
          ReplaceWritten(ops, slots, ip, op, operands, ids, n);
          InPlace(Overwrite(cleared, ip, [enc.id] + operands), Ok(prior))
  }

  /** Zeroing `k` slots right after `ip` changes only slots after `ip`, to 0. */
  lemma ZeroedAfter(slots: seq<int>, ip: nat, k: nat)
    requires ip + 1 + k <= |slots|
    ensures var w := Overwrite(slots, ip + 1, Zeros(k));
            |w| == |slots| && forall j :: 0 <= j < |slots| && w[j] != slots[j] ==> ip < j && w[j] == 0
  {
  }

  /** The successful branch of `ReplaceInstruction`: the old instruction
      decodes from the slots, the new one decodes back from the result, the
      old operand slots past the new end are 0, the new operands spill only
      into slots that were 0, and every other slot keeps its value. */
  lemma {:induction false} ReplaceWritten(ops: seq<OpCode>, slots: seq<int>, ip: int, op: OpRef,
                                          operands: seq<int>, ids: (nat, nat), n: nat)
    requires ReplaceChecks(ops, slots, ip, op) == Ok(ids) && n == ops[ids.0].ArgCount()
    requires ip + 1 + n <= |slots| && Encode(ops, Full(op, operands)).Ok?
    ensures var enc := Encode(ops, Full(op, operands)).value;
            var w := Overwrite(Overwrite(slots, ip + 1, Zeros(n)), ip, [enc.id] + operands);
            var prior := Decoded(ids.0, slots[ip + 1..ip + 1 + n]);
            var oldEnd := ip + 1 + |prior.operands|;
            var newEnd := ip + 1 + |operands|;
            |w| == |slots|
            && DecodeInstruction(ops, slots, ip).Ok? && DecodeInstruction(ops, slots, ip).value == prior
            && DecodeInstruction(ops, w, ip) == Ok(Decoded(enc.id, operands))
            && (forall j :: newEnd <= j < oldEnd ==> w[j] == 0)
            && (forall j :: oldEnd <= j < newEnd ==> slots[j] == 0)
            && (forall j :: 0 <= j < |slots| && !(ip <= j < oldEnd) && !(ip <= j < newEnd) ==> w[j] == slots[j])
  {
    var enc := Encode(ops, Full(op, operands)).value;
    assert enc.id == ids.1 && |operands| == ops[enc.id].ArgCount();
    assert forall j :: ip + 1 + n <= j < ip + 1 + |operands| ==> j < |slots| && slots[j] == 0;
    WriteOverCleared(ops, slots, ip, n, enc.id, operands);
    DecodeResolved(ops, slots, ip, ids.0);
  }

  /** When the old instruction decodes and the new one encodes and fits, the
      replacement succeeds exactly when the slots the new instruction spills
      into are all 0. */
  lemma {:induction false} ReplaceSucceedsIffSpillFree(ops: seq<OpCode>, slots: seq<int>, ip: int, op: OpRef,
                                                       operands: seq<int>)
    requires DecodeInstruction(ops, slots, ip).Ok? && Encode(ops, Full(op, operands)).Ok?
    requires ip + 1 + |operands| <= |slots|
    ensures var oldEnd := ip + 1 + |DecodeInstruction(ops, slots, ip).value.operands|;
            ReplaceInstruction(ops, slots, ip, op, operands).result.Ok?
            <==> forall j :: oldEnd <= j < ip + 1 + |operands| ==> slots[j] == 0
  {
    var d := DecodeInstruction(ops, slots, ip).value;
    var e := Encode(ops, Full(op, operands)).value;
    assert Resolve(ops, Id(slots[ip])) == Ok(d.id);
    assert Resolve(ops, op) == Ok(e.id) && |operands| == ops[e.id].ArgCount();
    var spill := SpillFree(slots, ip + ops[d.id].Size(), ip + ops[e.id].Size());
    assert ReplaceChecks(ops, slots, ip, op).Ok? <==> spill.Ok?;
  }

  /** An operand count that does not fit a new opcode no wider than the old
      one raises `ArgumentError` from `encode`, after the old operand slots
      have been zeroed: the call leaves them 0 and the rest as it was. */
  lemma {:induction false} ReplaceArityErrorZeroes(ops: seq<OpCode>, slots: seq<int>, ip: int, op: OpRef,
                                                   operands: seq<int>)
    requires DecodeInstruction(ops, slots, ip).Ok? && Resolve(ops, op).Ok?
    requires |operands| != ops[Resolve(ops, op).value].ArgCount()
    requires ops[Resolve(ops, op).value].ArgCount() <= |DecodeInstruction(ops, slots, ip).value.operands|
    ensures var r := ReplaceInstruction(ops, slots, ip, op, operands);
            r.result.Err? && r.result.error == ArgumentError
            && r.slots == Overwrite(slots, ip + 1, Zeros(|DecodeInstruction(ops, slots, ip).value.operands|))
  {
    var d := DecodeInstruction(ops, slots, ip).value;
    assert Resolve(ops, Id(slots[ip])) == Ok(d.id);
    var checks := ReplaceChecks(ops, slots, ip, op);
    assert checks.Ok? && checks.value.0 == d.id;
    var enc := Encode(ops, Full(op, operands));
    assert enc.Err? && enc.error == ArgumentError;
  }

  /** Clearing `n` operand slots after `ip` and then writing an instruction
      at `ip`: it decodes back, the old operand slots past its end are 0, and
      every slot outside both instructions keeps its value. */
  lemma {:induction false} WriteOverCleared(ops: seq<OpCode>, slots: seq<int>, ip: nat, n: nat,
                                            id: nat, operands: seq<int>)
    requires id < |ops| && ops[id].ArgCount() == |operands|
    requires ip + 1 + n <= |slots| && ip + 1 + |operands| <= |slots|
    ensures var w := Overwrite(Overwrite(slots, ip + 1, Zeros(n)), ip, [id] + operands);
            |w| == |slots|
            && DecodeInstruction(ops, w, ip) == Ok(Decoded(id, operands))
            && (forall j :: ip + 1 + |operands| <= j < ip + 1 + n ==> w[j] == 0)
            && (forall j :: 0 <= j < |slots| && !(ip <= j < ip + 1 + n) && !(ip <= j < ip + 1 + |operands|) ==>
                  w[j] == slots[j])
  {
    DecodeWritten(ops, Overwrite(slots, ip + 1, Zeros(n)), ip, id, operands);
  }

  /** An opcode that resolves, with its operands inside the slots, decodes to
      itself and those operands. */
  lemma DecodeResolved(ops: seq<OpCode>, slots: seq<int>, ip: nat, id: nat)
    requires ip < |slots| && Resolve(ops, Id(slots[ip])) == Ok(id)
    requires id < |ops| && ip + 1 + ops[id].ArgCount() <= |slots|
    ensures DecodeInstruction(ops, slots, ip) == Ok(Decoded(id, slots[ip + 1..ip + 1 + ops[id].ArgCount()]))
  {
  }

  /** An instruction written at `ip` decodes back from there. */
  lemma {:induction false} DecodeWritten(ops: seq<OpCode>, s: seq<int>, ip: nat, id: nat, operands: seq<int>)
    requires id < |ops| && ops[id].ArgCount() == |operands| && ip + 1 + |operands| <= |s|
    ensures DecodeInstruction(ops, Overwrite(s, ip, [id] + operands), ip) == Ok(Decoded(id, operands))
  {
    var w := Overwrite(s, ip, [id] + operands);
    assert w[ip] == id;
    assert w[ip + 1..ip + 1 + |operands|] == operands;
  }

  /** The clearing loop as written: it restarts at `ip` itself, so for each
      operand it reads slot `at` and zeroes slot `at + 1`, then moves two on.
      A slot past the end raises after the earlier rounds have written. */
  function ClearAsWritten(slots: seq<int>, at: nat, count: nat): (r: InPlace<seq<int>>)
    ensures |r.slots| == |slots|
    ensures forall j :: 0 <= j < |slots| && r.slots[j] != slots[j] ==> at < j && r.slots[j] == 0
    ensures r.result.Ok? ==> |r.result.value| == count && (count == 0 || at + 2 * count <= |slots|)
    ensures r.result.Ok? ==>
              forall i :: 0 <= i < count ==>
                r.result.value[i] == slots[at + 2 * i] && r.slots[at + 2 * i + 1] == 0
    ensures r.result.Err? ==> count > 0 && |slots| <= at + 2 * count
    decreases count
  {
    if count == 0 then InPlace(slots, Ok([]))
    else if at >= |slots| then InPlace(slots, Err(BoundsExceeded(at)))
    else if at + 1 >= |slots| then InPlace(slots, Err(BoundsExceeded(at + 1)))
    else
      var cut := slots[at + 1 := 0];
      var rest := ClearAsWritten(cut, at + 2, count - 1);
      ClearStepChanges(slots, at, cut, rest.slots);
      match rest.result
      case Err(e) => InPlace(rest.slots, Err(e))
      case Ok(xs) =>
        ClearStepReads(slots, at, count, cut, rest.slots, xs);
        InPlace(rest.slots, Ok([slots[at]] + xs))
  }

  /** One round of the clearing loop changes only slot `at + 1`, to 0, so
      zeroes written after `at + 2` by the later rounds stay after `at`. */
  lemma {:induction false} ClearStepChanges(slots: seq<int>, at: nat, cut: seq<int>, after: seq<int>)
    requires at + 1 < |slots| && cut == slots[at + 1 := 0] && |after| == |slots|
    requires forall j :: 0 <= j < |cut| && after[j] != cut[j] ==> at + 2 < j && after[j] == 0
    ensures forall j :: 0 <= j < |slots| && after[j] != slots[j] ==> at < j && after[j] == 0
  {
    forall j | 0 <= j < |slots| && after[j] != slots[j] ensures at < j && after[j] == 0 {
      if after[j] == cut[j] {
        assert j == at + 1;
      }
    }
  }

  /** One round of the clearing loop read slot `at` and zeroed slot
      `at + 1`; prefixed to what the later rounds read, the reads and the
      zeroes line up with every second slot from `at`. */
  lemma {:induction false} ClearStepReads(slots: seq<int>, at: nat, count: nat, cut: seq<int>,
                                          after: seq<int>, xs: seq<int>)
    requires count > 0 && at + 1 < |slots| && cut == slots[at + 1 := 0] && |after| == |slots|
    requires forall j :: 0 <= j < |cut| && after[j] != cut[j] ==> at + 2 < j && after[j] == 0
    requires |xs| == count - 1 && (count - 1 == 0 || at + 2 + 2 * (count - 1) <= |cut|)
    requires forall i :: 0 <= i < count - 1 ==> xs[i] == cut[at + 2 + 2 * i] && after[at + 2 + 2 * i + 1] == 0
    ensures at + 2 * count <= |slots|
    ensures forall i :: 0 <= i < count ==>
              ([slots[at]] + xs)[i] == slots[at + 2 * i] && after[at + 2 * i + 1] == 0
  {
    var read := [slots[at]] + xs;
    forall i | 0 <= i < count ensures read[i] == slots[at + 2 * i] && after[at + 2 * i + 1] == 0 {
      if i > 0 {
        var k := i - 1;
        assert at + 2 * i == at + 2 + 2 * k;
        assert read[i] == xs[k];
      } else {
        assert after[at + 1] == cut[at + 1];
      }
    }
  }

  /** `replace_instruction` as written: the operand loop reads the opcode slot
      as the first old operand and zeroes every other slot from `ip + 1`; the
      zeroing survives a bounds error or an `ArgumentError` from `encode`. */
  function ReplaceAsWritten(ops: seq<OpCode>, slots: seq<int>, ip: int, op: OpRef,
                            operands: seq<int>): (r: InPlace<Decoded>)
    ensures |r.slots| == |slots|
    ensures forall j :: 0 <= j < |slots| && r.slots[j] != slots[j] && !(r.result.Ok? && ip <= j < ip + 1 + |operands|) ==>
              ip < j && r.slots[j] == 0
    ensures r.result.Ok? ==> 0 <= ip < |slots| && Resolve(ops, Id(slots[ip])) == Ok(r.result.value.id)
    ensures r.result.Ok? ==>
              var n := |r.result.value.operands|;
              n == ops[r.result.value.id].ArgCount()
              && (n > 0 ==> r.result.value.operands[0] == slots[ip])
              && Encode(ops, Full(op, operands)).Ok?
              && r.slots[ip] == Encode(ops, Full(op, operands)).value.id
    ensures 0 <= ip < |slots| && Resolve(ops, Id(slots[ip])).Ok? && Resolve(ops, op).Ok?
            && |operands| != ops[Resolve(ops, op).value].ArgCount()
            && ops[Resolve(ops, op).value].Size() <= ops[Resolve(ops, Id(slots[ip])).value].Size() ==>
              r.result.Err? && r.slots == ClearAsWritten(slots, ip, ops[Resolve(ops, Id(slots[ip])).value].ArgCount()).slots
  {
    match ReplaceChecks(ops, slots, ip, op)
    case Err(e) => InPlace(slots, Err(e))
    case Ok(ids) =>
      var cleared := ClearAsWritten(slots, ip, ops[ids.0].ArgCount());
      match cleared.result
      case Err(e) => InPlace(cleared.slots, Err(e))
      case Ok(read) =>
        match Encode(ops, Full(op, operands))
        case Err(e) => InPlace(cleared.slots, Err(e))
        case Ok(enc) =>
          InPlace(Overwrite(cleared.slots, ip, [enc.id] + operands), Ok(Decoded(ids.0, read)))
  }

  /** The entries of the VM's instruction set that the examples below use:
      `noop`, `push_nil`, `push_int`, `ret` and `send_stack`. */
  predicate ExampleEntries(ops: seq<OpCode>) {
    |ops| == OpCodeCount
    && Entry5(ops[0]) == (Noop, [], 0, 0, SequentialFlow)
    && Entry5(ops[1]) == (PushNil, [], 0, 1, SequentialFlow)
    && Entry5(ops[4]) == (PushInt, [IntArg], 0, 1, SequentialFlow)
    && Entry5(ops[12]) == (Ret, [], 0, 0, ReturnFlow)
    && Entry5(ops[36]) == (SendStack, [LiteralArg, IntArg], -121, 1, SendFlow)
  }

  /** A descriptor without its VM flags. */
  function Entry5(op: OpCode): (Symbol, seq<ArgKind>, int, int, Flow) {
    (op.mnemonic, op.args, op.consumed, op.produced, op.flow)
  }

  lemma {:induction false} TableHasExampleEntries()
    ensures ExampleEntries(Table)
  {
  }

  /** One round of the clearing loop as written. */
  lemma {:induction false} ClearOnce(s: seq<int>, at: nat)
    requires at + 1 < |s|
    ensures ClearAsWritten(s, at, 1) == InPlace(s[at + 1 := 0], Ok([s[at]]))
  {
    assert ClearAsWritten(s[at + 1 := 0], at + 2, 0) == InPlace(s[at + 1 := 0], Ok([]));
    assert [s[at]] + [] == [s[at]];
  }

  /** `push_int 5` at slot 0 decodes with its operand. */
  lemma {:induction false} DecodePushInt(ops: seq<OpCode>)
    requires ExampleEntries(ops)
    ensures DecodeInstruction(ops, [4, 5, 12], 0) == Ok(Decoded(4, [5]))
  {
    assert [4, 5, 12][1..2] == [5];
  }

  /** Replacing `push_int 5` by `push_nil` (bytecode 1) as written reports
      the opcode 4 as the old operand instead of 5. */
  lemma {:induction false} ReplaceReportsOpcodeAsOperand(ops: seq<OpCode>)
    requires ExampleEntries(ops)
    ensures ReplaceAsWritten(ops, [4, 5, 12], 0, Id(1), []) == InPlace([1, 0, 12], Ok(Decoded(4, [4])))
  {
    var s := [4, 5, 12];
    assert Encode(ops, Full(Id(1), [])) == Ok(Encoded(1, [], 1));
    ClearOnce(s, 0);
    assert s[1 := 0] == [4, 0, 12];
    assert Overwrite([4, 0, 12], 0, [1] + []) == [1, 0, 12];
  }

  /** The corrected `replace_instruction` reports the operand 5. */
  lemma {:induction false} ReplaceReportsOperand(ops: seq<OpCode>)
    requires ExampleEntries(ops)
    ensures ReplaceInstruction(ops, [4, 5, 12], 0, Id(1), []) == InPlace([1, 0, 12], Ok(Decoded(4, [5])))
  {
    var s := [4, 5, 12];
    DecodePushInt(ops);
    assert Encode(ops, Full(Id(1), [])) == Ok(Encoded(1, [], 1));
    assert Overwrite(s, 1, Zeros(1)) == [4, 0, 12];
    assert Overwrite([4, 0, 12], 0, [1] + []) == [1, 0, 12];
  }

  /** The clearing loop as written on `send_stack 7 2; ret`: it zeroes slots
      1 and 3 and reads back the opcode and the second operand. */
  lemma {:induction false} ClearSendStack()
    ensures ClearAsWritten([36, 7, 2, 12], 0, 2) == InPlace([36, 0, 2, 0], Ok([36, 2]))
  {
    var s := [36, 7, 2, 12];
    var s1 := [36, 0, 2, 12];
    assert s[1 := 0] == s1;
    ClearOnce(s1, 2);
    assert s1[3 := 0] == [36, 0, 2, 0];
    assert [36] + [2] == [36, 2];
  }

  /** Replacing `send_stack 7 2; ret` by `noop` as written zeroes the `ret`
      three slots on, so the sequence no longer returns. */
  lemma {:induction false} ReplaceClobbersNextInstruction(ops: seq<OpCode>)
    requires ExampleEntries(ops)
    ensures ReplaceAsWritten(ops, [36, 7, 2, 12], 0, Id(0), []) == InPlace([0, 0, 2, 0], Ok(Decoded(36, [36, 2])))
  {
    ClearSendStack();
    assert Encode(ops, Full(Id(0), [])) == Ok(Encoded(0, [], 0));
    assert Overwrite([36, 0, 2, 0], 0, [0] + []) == [0, 0, 2, 0];
  }

  /** The corrected `replace_instruction` zeroes only the two operand slots. */
  lemma {:induction false} ReplaceKeepsNextInstruction(ops: seq<OpCode>)
    requires ExampleEntries(ops)
    ensures ReplaceInstruction(ops, [36, 7, 2, 12], 0, Id(0), []) == InPlace([0, 0, 0, 12], Ok(Decoded(36, [7, 2])))
  {
    var s := [36, 7, 2, 12];
    assert s[1..3] == [7, 2];
    assert DecodeInstruction(ops, s, 0) == Ok(Decoded(36, [7, 2]));
    assert Encode(ops, Full(Id(0), [])) == Ok(Encoded(0, [], 0));
    assert Overwrite(s, 1, Zeros(2)) == [36, 0, 0, 12];
    assert Overwrite([36, 0, 0, 12], 0, [0] + []) == [0, 0, 0, 12];
  }

  /** Replacing `push_int 5` by `push_nil 3` raises `ArgumentError` from
      `encode`, after the operand slot has been zeroed: both readings leave
      `[4, 0, 12]` behind. */
  lemma {:induction false} ArityErrorLeavesOperandZeroed(ops: seq<OpCode>)
    requires ExampleEntries(ops)
    ensures ReplaceAsWritten(ops, [4, 5, 12], 0, Id(1), [3]) == InPlace([4, 0, 12], Err(ArgumentError))
    ensures ReplaceInstruction(ops, [4, 5, 12], 0, Id(1), [3]) == InPlace([4, 0, 12], Err(ArgumentError))
  {
    var s := [4, 5, 12];
    ClearOnce(s, 0);
    assert s[1 := 0] == [4, 0, 12];
    assert Overwrite(s, 1, Zeros(1)) == [4, 0, 12];
  }

  /** A bare `push_int` is accepted as written and laid out as its bytecode
      alone; with the operand-count check applied to bare references it is
      rejected. */
  lemma {:induction false} BareReferenceSkipsArityCheck(ops: seq<OpCode>)
    requires ExampleEntries(ops)
    ensures EncodeAsWritten(ops, Bare(Id(4))) == Ok(Encoded(4, [], 1))
    ensures Encode(ops, Bare(Id(4))) == Err(ArgumentError)
  {
  }

  /** ... so `push_int; ret` is laid out as `[4, 12]`, which decodes as
      `push_int 12`: the `ret` is lost. */
  lemma {:induction false} BareLayoutDecodesAsOperand(ops: seq<OpCode>)
    requires ExampleEntries(ops)
    ensures EncodeAsWritten(ops, Bare(Id(12))) == Ok(Encoded(12, [], 0))
    ensures DecodeIseq(ops, [4, 12]) == Ok([Decoded(4, [12])])
  {
    var s := [4, 12];
    assert s[1..2] == [12];
    assert DecodeInstruction(ops, s, 0) == Ok(Decoded(4, [12]));
    assert DecodeFrom(ops, s, 2, Some(SequentialFlow), [Decoded(4, [12])]) == Ok([Decoded(4, [12])]);
    assert [] + [Decoded(4, [12])] == [Decoded(4, [12])];
    assert DecodeFrom(ops, s, 0, None, []) == DecodeFrom(ops, s, 2, Some(SequentialFlow), [Decoded(4, [12])]);
  }

  /** A bare Fixnum reference to `send_stack` (code -121) as written: the
      formula reads `36[2]`, bit 2 of the bytecode, which is 1, so it
      consumes 2 and produces 1; the bytecode is written alone. With the
      operand-count check it is refused. */
  lemma {:induction false} BareFixnumReadsBit(ops: seq<OpCode>)
    requires ExampleEntries(ops)
    ensures EncodeAsWritten(ops, Bare(Id(36))) == Ok(Encoded(36, [], -1))
    ensures Encode(ops, Bare(Id(36))) == Err(ArgumentError)
  {
    Fixnums.BitsOf36();
    assert DecodeStackCode(-121) == Scaled(1, 2, 1);
    assert BareStackDifference(ops[36], Id(36)) == Ok(-1);
  }

  /** The two modes differ only on bare references: on a stream of arrays
      they encode the same elements the same way. */
  lemma {:induction false} ModesAgreeOnArrays(ops: seq<OpCode>, insts: seq<Inst>)
    requires forall i :: 0 <= i < |insts| ==> insts[i].Full?
    ensures AllEncodable(AsWritten, ops, insts) <==> AllEncodable(Checked, ops, insts)
    ensures AllEncodable(Checked, ops, insts) ==>
              Encodings(AsWritten, ops, insts) == Encodings(Checked, ops, insts)
  {
    assert forall i :: 0 <= i < |insts| ==>
             EncodeIn(AsWritten, ops, insts[i]) == EncodeIn(Checked, ops, insts[i]);
  }

  /** `encode_stream` as written on `[:push_int, :ret]` with both given as
      bare bytecodes: the stream encodes, laid out as `[4, 12]`, while the
      checked stream fails on the bare `push_int`. */
  lemma {:induction false} BareStreamAsWritten(ops: seq<OpCode>)
    requires ExampleEntries(ops)
    ensures AllEncodable(AsWritten, ops, [Bare(Id(4)), Bare(Id(12))])
    ensures Layout(Encodings(AsWritten, ops, [Bare(Id(4)), Bare(Id(12))])) == [4, 12]
    ensures !AllEncodable(Checked, ops, [Bare(Id(4)), Bare(Id(12))])
  {
    var s := [Bare(Id(4)), Bare(Id(12))];
    BareReferenceSkipsArityCheck(ops);
    BareLayoutDecodesAsOperand(ops);
    assert EncodeIn(AsWritten, ops, s[0]) == Ok(Encoded(4, [], 1));
    assert EncodeIn(AsWritten, ops, s[1]) == Ok(Encoded(12, [], 0));
    var es := Encodings(AsWritten, ops, s);
    assert es == [Encoded(4, [], 1), Encoded(12, [], 0)];
    assert es[..1] == [Encoded(4, [], 1)];
    assert es[..1][..0] == [];
    assert Layout(es[..1]) == [] + Chunk(Encoded(4, [], 1)) == [4];
    assert Layout(es) == Layout(es[..1]) + Chunk(Encoded(12, [], 0));
    assert EncodeIn(Checked, ops, s[0]).Err?;
  }
}
