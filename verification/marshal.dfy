/** `CompiledFile::Marshal`: the tag/length/value encoding of the values a
    compiled file holds. Each value starts with a one-byte tag; integers and
    lengths are varints; containers hold their elements' encodings in order. */
module Marshal {
  import opened Wrappers
  import opened Bytes
  import opened Varint

  /** The values `marshal` accepts, plus `Other` for an object of any other
      class. A `Float` is kept as the text of its payload line, which is not
      interpreted here. A `Method` holds the 14 fields of a `CompiledMethod`
      in marshal order: ivars, primitive, name, iseq, stack size, local
      count, required args, total args, splat, literals, exceptions, lines,
      file, local names. */
  datatype Value =
    | True
    | False
    | Nil
    | Int(i: int)
    | Str(bytes: seq<Byte>)
    | Symbol(name: seq<Byte>)
    | SendSite(name: seq<Byte>)
    | Float(text: seq<Byte>)
    | Array(items: seq<Value>)
    | Tuple(items: seq<Value>)
    | Iseq(slots: seq<int>)
    | Method(fields: seq<Value>)
    | Other(className: seq<Byte>)

  const MethodFieldCount := 14
  const MethodVersion := 1

  /** `ArgumentError` from `marshal`; the errors `unmarshal_data` raises; a
      read past the end of the data. */
  datatype Error =
    | UnsupportedClass(className: seq<Byte>)
    | UnknownType(tag: Byte)
    | UnknownMethodVersion(version: nat)
    | OutOfData

  const TagTrue: Byte := 116  // 't'
  const TagFalse: Byte := 102  // 'f'
  const TagNil: Byte := 110  // 'n'
  const TagInt: Byte := 73  // 'I'
  const TagNegInt: Byte := 74  // 'J'
  const TagFloat: Byte := 100  // 'd'
  const TagString: Byte := 115  // 's'
  const TagSymbol: Byte := 120  // 'x'
  const TagSendSite: Byte := 83  // 'S'
  const TagArray: Byte := 65  // 'A'
  const TagTuple: Byte := 112  // 'p'
  const TagIseq: Byte := 105  // 'i'
  const TagMethod: Byte := 77  // 'M'

  /** Whether every object inside `v` has a class `marshal` handles. */
  predicate Supported(v: Value) {
    match v
    case Other(_) => false
    case Array(items) => forall i :: 0 <= i < |items| ==> Supported(items[i])
    case Tuple(items) => forall i :: 0 <= i < |items| ==> Supported(items[i])
    case Method(fields) => forall i :: 0 <= i < |fields| ==> Supported(fields[i])
    case _ => true
  }

  /** The values the VM actually marshals: supported classes, methods with
      their 14 fields, non-negative instruction slots, and float payloads
      that are one line (`"Infinity"`, `"NaN"` or the frexp form). */
  predicate WellFormed(v: Value) {
    match v
    case Other(_) => false
    case Float(text) => Newline !in text && (|text| > 0 ==> text[|text| - 1] != CarriageReturn)
    case Iseq(slots) => forall i :: 0 <= i < |slots| ==> slots[i] >= 0
    case Array(items) => forall i :: 0 <= i < |items| ==> WellFormed(items[i])
    case Tuple(items) => forall i :: 0 <= i < |items| ==> WellFormed(items[i])
    case Method(fields) =>
      |fields| == MethodFieldCount && forall i :: 0 <= i < |fields| ==> WellFormed(fields[i])
    case _ => true
  }

  /** `to_varint` applied to an instruction slot: the loop never runs for a
      negative value, which therefore writes nothing. */
  function SlotVarint(n: int): (r: seq<Byte>)
    ensures n >= 0 ==> r == ToVarint(n)
    ensures n < 0 ==> r == []
  {
    if n < 0 then [] else ToVarint(n)
  }

  function SlotVarints(slots: seq<int>): seq<Byte> {
    if slots == [] then [] else SlotVarint(slots[0]) + SlotVarints(slots[1..])
  }

  /** A tag, a varint (a count, or the method format version) and a body. */
  function Counted(tag: Byte, n: nat, body: seq<Byte>): seq<Byte> {
    [tag] + ToVarint(n) + body
  }

  /** A string, symbol or send-site name: tag, byte length, bytes. */
  function Named(tag: Byte, b: seq<Byte>): seq<Byte> {
    Counted(tag, |b|, b)
  }

  /** `Marshal#marshal`. Its only error is `UnsupportedClass`
      (`MarshalFailsOnlyOnUnsupported` says when it occurs). */
  function Marshal(v: Value): (r: Result<seq<Byte>, Error>)
    ensures r.Err? ==> r.error.UnsupportedClass?
    ensures r.Ok? ==> |r.value| > 0
  {
    match v
    case True => Ok([TagTrue])
    case False => Ok([TagFalse])
    case Nil => Ok([TagNil])
    case Int(i) => if i < 0 then Ok([TagNegInt] + ToVarint(-i)) else Ok([TagInt] + ToVarint(i))
    case Str(b) => Ok(Named(TagString, b))
    case Symbol(b) => Ok(Named(TagSymbol, b))
    case SendSite(b) => Ok(Named(TagSendSite, b))
    case Float(text) => Ok([TagFloat] + text + [Newline])
    case Tuple(items) =>
      var body :- MarshalAll(items);
      Ok(Counted(TagTuple, |items|, body))
    case Array(items) =>
      var body :- MarshalAll(items);
      Ok(Counted(TagArray, |items|, body))
    case Iseq(slots) => Ok(Counted(TagIseq, |slots|, SlotVarints(slots)))
    case Method(fields) =>
      var body :- MarshalAll(fields);
      Ok(Counted(TagMethod, MethodVersion, body))
    case Other(c) => Err(UnsupportedClass(c))
  }

  /** The encodings of `vs`, concatenated in order; the first failure wins. */
  function MarshalAll(vs: seq<Value>): (r: Result<seq<Byte>, Error>)
    ensures r.Err? ==> r.error.UnsupportedClass?
  {
    if vs == [] then Ok([])
    else
      var head :- Marshal(vs[0]);
      var tail :- MarshalAll(vs[1..]);
      Ok(head + tail)
  }

  /** A value read from the front of a stream, and the bytes after it. */
  datatype Parsed = Parsed(value: Value, rest: seq<Byte>)
  datatype ParsedAll = ParsedAll(values: seq<Value>, rest: seq<Byte>)
  datatype ParsedNat = ParsedNat(n: nat, rest: seq<Byte>)
  datatype ParsedBytes = ParsedBytes(bytes: seq<Byte>, rest: seq<Byte>)
  datatype ParsedSlots = ParsedSlots(slots: seq<int>, rest: seq<Byte>)

  /** `read_varint` at the front of `s`. */
  function NextVarint(s: seq<Byte>): (r: Result<ParsedNat, Error>)
    ensures r.Ok? ==> |r.value.rest| < |s|
    ensures r.Err? ==> r.error == OutOfData
  {
    match ReadVarint(s)
    case None => Err(OutOfData)
    case Some(read) => Ok(ParsedNat(read.value, s[read.length..]))
  }

  /** `next_bytes(count)`. */
  function NextBytes(s: seq<Byte>, count: nat): (r: Result<ParsedBytes, Error>)
    ensures r.Ok? <==> count <= |s|
    ensures r.Ok? ==> r.value.bytes + r.value.rest == s && |r.value.bytes| == count
    ensures r.Err? ==> r.error == OutOfData
  {
    if count > |s| then Err(OutOfData) else Ok(ParsedBytes(s[..count], s[count..]))
  }

  /** The index just past the first newline of `s`, or `|s|` when there is
      none: `@data.locate` of a newline from `@start`, defaulting to `@size`. */
  function LineEnd(s: seq<Byte>): (r: nat)
    ensures r <= |s|
    ensures Newline in s ==> 0 < r && s[r - 1] == Newline && Newline !in s[..r - 1]
    ensures Newline !in s ==> r == |s|
  {
    if s == [] then 0
    else if s[0] == Newline then 1
    else 1 + LineEnd(s[1..])
  }

  /** `next_string`: the bytes up to and including the first newline, or the
      whole rest of the data. */
  function NextLine(s: seq<Byte>): (r: ParsedBytes)
    ensures r.bytes + r.rest == s
    ensures Newline in s ==> |r.bytes| > 0 && r.bytes[|r.bytes| - 1] == Newline
                             && Newline !in r.bytes[..|r.bytes| - 1]
    ensures Newline !in s ==> r.bytes == s && r.rest == []
  {
    ParsedBytes(s[..LineEnd(s)], s[LineEnd(s)..])
  }

  /** Ruby's `String#chop`: drops a trailing carriage return and newline
      together, or else the last byte. */
  function Chop(s: seq<Byte>): (r: seq<Byte>)
    ensures |s| > 0 ==> |r| < |s|
    ensures |r| <= |s| && r == s[..|r|]
  {
    if |s| >= 2 && s[|s| - 2] == CarriageReturn && s[|s| - 1] == Newline then s[..|s| - 2]
    else if |s| > 0 then s[..|s| - 1]
    else s
  }

  /** `count` untagged varints: the slots of an instruction sequence. */
  function NextSlots(s: seq<Byte>, count: nat): (r: Result<ParsedSlots, Error>)
    ensures r.Ok? ==> |r.value.slots| == count && |r.value.rest| <= |s|
    ensures r.Ok? ==> forall i :: 0 <= i < count ==> r.value.slots[i] >= 0
    ensures r.Err? ==> r.error == OutOfData
  {
    if count == 0 then Ok(ParsedSlots([], s))
    else
      var head :- NextVarint(s);
      var tail :- NextSlots(head.rest, count - 1);
      Ok(ParsedSlots([head.n as int] + tail.slots, tail.rest))
  }

  /** `unmarshal_data` at the front of `s`: reads the tag byte and dispatches
      on it. */
  function UnmarshalData(s: seq<Byte>): (r: Result<Parsed, Error>)
    ensures r.Ok? ==> |r.value.rest| < |s|
    decreases |s|, 3
  {
    if |s| == 0 then Err(OutOfData)
    else if s[0] == TagArray || s[0] == TagTuple || s[0] == TagMethod then
      UnmarshalComposite(s[0], s[1..])
    else UnmarshalScalar(s[0], s[1..])
  }

  /** The branches of `unmarshal_data` that read no nested value. */
  function UnmarshalScalar(tag: Byte, t: seq<Byte>): (r: Result<Parsed, Error>)
    ensures r.Ok? ==> |r.value.rest| <= |t|
  {
    if tag == TagTrue then Ok(Parsed(True, t))
    else if tag == TagFalse then Ok(Parsed(False, t))
    else if tag == TagNil then Ok(Parsed(Nil, t))
    else if tag == TagInt then
      var n :- NextVarint(t);
      Ok(Parsed(Int(n.n), n.rest))
    else if tag == TagNegInt then
      var n :- NextVarint(t);
      Ok(Parsed(Int(-(n.n as int)), n.rest))
    else if tag == TagFloat then
      var line := NextLine(t);
      Ok(Parsed(Float(Chop(line.bytes)), line.rest))
    else if tag == TagString || tag == TagSymbol || tag == TagSendSite then
      UnmarshalNamed(tag, t)
    else if tag == TagIseq then UnmarshalIseq(t)
    else Err(UnknownType(tag))
  }

  /** The `i` branch: a slot count and that many untagged varints. */
  function UnmarshalIseq(t: seq<Byte>): (r: Result<Parsed, Error>)
    ensures r.Ok? ==> |r.value.rest| <= |t|
  {
    var n :- NextVarint(t);
    var slots :- NextSlots(n.rest, n.n);
    Ok(Parsed(Iseq(slots.slots), slots.rest))
  }

  /** The `s`, `x` and `S` branches: a length and that many bytes. */
  function UnmarshalNamed(tag: Byte, t: seq<Byte>): (r: Result<Parsed, Error>)
    ensures r.Ok? ==> |r.value.rest| <= |t|
  {
    var n :- NextVarint(t);
    var b :- NextBytes(n.rest, n.n);
    Ok(Parsed(NamedValue(tag, b.bytes), b.rest))
  }

  /** The object a named tag builds: the string itself, `str.to_sym`, or
      `SendSite.new(str.to_sym)`. */
  function NamedValue(tag: Byte, b: seq<Byte>): Value {
    if tag == TagString then Str(b)
    else if tag == TagSymbol then Symbol(b)
    else SendSite(b)
  }

  /** The `A`, `p` and `M` branches, which read nested values. */
  function UnmarshalComposite(tag: Byte, t: seq<Byte>): (r: Result<Parsed, Error>)
    ensures r.Ok? ==> |r.value.rest| < |t| + 1
    decreases |t| + 1, 2
  {
    if tag == TagMethod then UnmarshalMethod(t) else UnmarshalContainer(tag, t)
  }

  /** The `M` branch: a format version, which must be 1, then the fourteen
      fields of a compiled method. */
  function UnmarshalMethod(t: seq<Byte>): (r: Result<Parsed, Error>)
    ensures r.Ok? ==> |r.value.rest| < |t| + 1
    decreases |t| + 1, 1
  {
    var version :- NextVarint(t);
    if version.n != MethodVersion then Err(UnknownMethodVersion(version.n))
    else
      var fields :- UnmarshalAll(version.rest, MethodFieldCount);
      Ok(Parsed(Method(fields.values), fields.rest))
  }

  /** The `A` and `p` branches: an element count, then the elements. */
  function UnmarshalContainer(tag: Byte, t: seq<Byte>): (r: Result<Parsed, Error>)
    ensures r.Ok? ==> |r.value.rest| < |t| + 1
    decreases |t| + 1, 1
  {
    var n :- NextVarint(t);
    var items :- UnmarshalAll(n.rest, n.n);
    Ok(Parsed(if tag == TagArray then Array(items.values) else Tuple(items.values), items.rest))
  }

  /** `count` consecutive values, as the container branches read them. */
  function UnmarshalAll(s: seq<Byte>, count: nat): (r: Result<ParsedAll, Error>)
    ensures r.Ok? ==> |r.value.values| == count && |r.value.rest| <= |s|
    decreases |s|, 4, count
  {
    if count == 0 then Ok(ParsedAll([], s))
    else
      var head :- UnmarshalData(s);
      var tail :- UnmarshalAll(head.rest, count - 1);
      Ok(ParsedAll([head.value] + tail.values, tail.rest))
  }

  /** `Marshal#unmarshal`: the value at the start of the whole data; bytes
      after it are ignored. */
  function Unmarshal(s: seq<Byte>): (r: Result<Value, Error>)
    ensures r.Ok? <==> UnmarshalData(s).Ok?
  {
    var p :- UnmarshalData(s);
    Ok(p.value)
  }

  /** `marshal` raises `ArgumentError` exactly when some object inside `v`
      has a class it does not handle. */
  lemma {:induction false} MarshalFailsOnlyOnUnsupported(v: Value)
    ensures Marshal(v).Ok? <==> Supported(v)
    decreases v, 1
  {
    match v
    case Array(items) => MarshalAllFailsOnlyOnUnsupported(items);
    case Tuple(items) => MarshalAllFailsOnlyOnUnsupported(items);
    case Method(fields) => MarshalAllFailsOnlyOnUnsupported(fields);
    case _ =>
  }

  lemma {:induction false} MarshalAllFailsOnlyOnUnsupported(vs: seq<Value>)
    ensures MarshalAll(vs).Ok? <==> forall i :: 0 <= i < |vs| ==> Supported(vs[i])
    decreases vs, 0
  {
    if vs != [] {
      MarshalFailsOnlyOnUnsupported(vs[0]);
      MarshalAllFailsOnlyOnUnsupported(vs[1..]);
      assert forall i :: 1 <= i < |vs| ==> vs[i] == vs[1..][i - 1];
    }
  }

  /** A well-formed value is one `marshal` accepts. */
  lemma {:induction false} WellFormedIsSupported(v: Value)
    requires WellFormed(v)
    ensures Supported(v)
  {
    match v
    case Array(items) =>
      forall i | 0 <= i < |items| ensures Supported(items[i]) {
        WellFormedIsSupported(items[i]);
      }
    case Tuple(items) =>
      forall i | 0 <= i < |items| ensures Supported(items[i]) {
        WellFormedIsSupported(items[i]);
      }
    case Method(fields) =>
      forall i | 0 <= i < |fields| ensures Supported(fields[i]) {
        WellFormedIsSupported(fields[i]);
      }
    case _ =>
  }

  /** A varint written by `to_varint` is read back whole. */
  lemma {:induction false} NextVarintInvertsToVarint(n: nat, rest: seq<Byte>)
    ensures NextVarint(ToVarint(n) + rest) == Ok(ParsedNat(n, rest))
  {
    ReadInvertsToVarint(n, rest);
    assert (ToVarint(n) + rest)[|ToVarint(n)|..] == rest;
  }

  /** The slots written for an instruction sequence are read back. */
  lemma {:induction false} NextSlotsInvertsSlotVarints(slots: seq<int>, rest: seq<Byte>)
    requires forall i :: 0 <= i < |slots| ==> slots[i] >= 0
    ensures NextSlots(SlotVarints(slots) + rest, |slots|) == Ok(ParsedSlots(slots, rest))
  {
    if slots != [] {
      var tail := slots[1..];
      var x := SlotVarints(tail) + rest;
      NextSlotsInvertsSlotVarints(tail, rest);
      SlotVarintsCons(slots, rest);
      NextVarintInvertsToVarint(slots[0], x);
      NextSlotsCons(SlotVarints(slots) + rest, |slots|, slots[0], x, tail, rest);
      assert [slots[0]] + tail == slots;
    } else {
      assert SlotVarints(slots) + rest == rest;
    }
  }

  lemma {:induction false} SlotVarintsCons(slots: seq<int>, rest: seq<Byte>)
    requires slots != [] && slots[0] >= 0
    ensures SlotVarints(slots) + rest == ToVarint(slots[0]) + (SlotVarints(slots[1..]) + rest)
  {
  }

  /** `NextSlots` reads one varint, then the remaining count. */
  lemma {:induction false} NextSlotsCons(s: seq<Byte>, count: nat, n: nat, x: seq<Byte>, tail: seq<int>, rest: seq<Byte>)
    requires count >= 1 && NextVarint(s) == Ok(ParsedNat(n, x))
    requires NextSlots(x, count - 1) == Ok(ParsedSlots(tail, rest))
    ensures NextSlots(s, count) == Ok(ParsedSlots([n as int] + tail, rest))
  {
  }

  /** A one-line float payload is read back by `next_string.chop`. */
  lemma {:induction false} NextLineInvertsFloat(text: seq<Byte>, rest: seq<Byte>)
    requires Newline !in text && (|text| > 0 ==> text[|text| - 1] != CarriageReturn)
    ensures NextLine(text + [Newline] + rest) == ParsedBytes(text + [Newline], rest)
    ensures Chop(text + [Newline]) == text
  {
    LineEndAfter(text, rest);
    var s := text + [Newline] + rest;
    assert s[..|text| + 1] == text + [Newline];
    assert s[|text| + 1..] == rest;
    assert (text + [Newline])[..|text|] == text;
  }

  lemma {:induction false} LineEndAfter(text: seq<Byte>, rest: seq<Byte>)
    requires Newline !in text
    ensures LineEnd(text + [Newline] + rest) == |text| + 1
  {
    if text != [] {
      LineEndAfter(text[1..], rest);
      assert (text + [Newline] + rest)[1..] == text[1..] + [Newline] + rest;
    }
  }

  /** Writing then reading a byte string with its length prefix. */
  lemma {:induction false} BytesRoundTrip(b: seq<Byte>, rest: seq<Byte>)
    ensures NextVarint(ToVarint(|b|) + b + rest) == Ok(ParsedNat(|b|, b + rest))
    ensures NextBytes(b + rest, |b|) == Ok(ParsedBytes(b, rest))
  {
    assert ToVarint(|b|) + b + rest == ToVarint(|b|) + (b + rest);
    NextVarintInvertsToVarint(|b|, b + rest);
    assert (b + rest)[..|b|] == b;
    assert (b + rest)[|b|..] == rest;
  }

  lemma {:induction false} CountedThenRest(tag: Byte, n: nat, body: seq<Byte>, rest: seq<Byte>)
    ensures Counted(tag, n, body) + rest == [tag] + (ToVarint(n) + (body + rest))
  {
  }

  /** One step of `MarshalAll` and of `UnmarshalAll`. */
  lemma {:induction false} MarshalAllStep(vs: seq<Value>)
    requires vs != [] && Marshal(vs[0]).Ok? && MarshalAll(vs[1..]).Ok?
    ensures MarshalAll(vs) == Ok(Marshal(vs[0]).value + MarshalAll(vs[1..]).value)
  {
  }

  lemma {:induction false} UnmarshalAllStep(s: seq<Byte>, count: nat, head: Parsed, tail: ParsedAll)
    requires count > 0
    requires UnmarshalData(s) == Ok(head)
    requires UnmarshalAll(head.rest, count - 1) == Ok(tail)
    ensures UnmarshalAll(s, count) == Ok(ParsedAll([head.value] + tail.values, tail.rest))
  {
  }

  /** `unmarshal_data` on a tagged payload dispatches on the tag. */
  lemma {:induction false} DataOfTagged(tag: Byte, t: seq<Byte>)
    ensures tag == TagArray || tag == TagTuple || tag == TagMethod ==>
              UnmarshalData([tag] + t) == UnmarshalComposite(tag, t)
    ensures tag != TagArray && tag != TagTuple && tag != TagMethod ==>
              UnmarshalData([tag] + t) == UnmarshalScalar(tag, t)
  {
    assert ([tag] + t)[0] == tag;
    assert ([tag] + t)[1..] == t;
  }

  /** `unmarshal_data(marshal(v))` is `v`, and it consumes exactly the bytes
      `marshal` wrote, whatever follows them. */
  lemma {:induction false} RoundTrip(v: Value, rest: seq<Byte>)
    requires WellFormed(v)
    ensures Marshal(v).Ok?
    ensures UnmarshalData(Marshal(v).value + rest) == Ok(Parsed(v, rest))
    decreases v, 1
  {
    WellFormedIsSupported(v);
    match v
    case True => DataOfTagged(TagTrue, rest);
    case False => DataOfTagged(TagFalse, rest);
    case Nil => DataOfTagged(TagNil, rest);
    case Int(i) => RoundTripInt(i, rest);
    case Str(b) => NamedRoundTrip(TagString, b, rest);
    case Symbol(b) => NamedRoundTrip(TagSymbol, b, rest);
    case SendSite(b) => NamedRoundTrip(TagSendSite, b, rest);
    case Float(text) => RoundTripFloat(text, rest);
    case Iseq(slots) => RoundTripIseq(slots, rest);
    case Array(items) =>
      RoundTripAll(items, rest);
      RoundTripContainer(v, rest);
    case Tuple(items) =>
      RoundTripAll(items, rest);
      RoundTripContainer(v, rest);
    case Method(fields) =>
      RoundTripAll(fields, rest);
      RoundTripMethod(fields, rest);
  }

  /** The encodings of several values read back in order. */
  lemma {:induction false} RoundTripAll(vs: seq<Value>, rest: seq<Byte>)
    requires forall i :: 0 <= i < |vs| ==> WellFormed(vs[i])
    ensures MarshalAll(vs).Ok?
    ensures UnmarshalAll(MarshalAll(vs).value + rest, |vs|) == Ok(ParsedAll(vs, rest))
    decreases vs, 0
  {
    if vs != [] {
      var tail := vs[1..];
      RoundTripAll(tail, rest);
      var t := MarshalAll(tail).value;
      RoundTrip(vs[0], t + rest);
      var h := Marshal(vs[0]).value;
      var s := MarshalAll(vs).value + rest;
      assert s == h + (t + rest) by {
        MarshalAllStep(vs);
      }
      UnmarshalAllStep(s, |vs|, Parsed(vs[0], t + rest), ParsedAll(tail, rest));
      assert [vs[0]] + tail == vs;
    } else {
      assert MarshalAll(vs).value + rest == rest;
    }
  }

  lemma {:induction false} RoundTripInt(i: int, rest: seq<Byte>)
    ensures UnmarshalData(Marshal(Int(i)).value + rest) == Ok(Parsed(Int(i), rest))
  {
    var tag := if i < 0 then TagNegInt else TagInt;
    var n: nat := if i < 0 then -i else i;
    var t := ToVarint(n) + rest;
    IntBytes(i, rest);
    assert UnmarshalData([tag] + t) == UnmarshalScalar(tag, t) by {
      DataOfTagged(tag, t);
    }
    assert NextVarint(t) == Ok(ParsedNat(n, rest)) by {
      NextVarintInvertsToVarint(n, rest);
    }
  }

  /** The bytes of an integer: the sign tag, then the magnitude. */
  lemma {:induction false} IntBytes(i: int, rest: seq<Byte>)
    ensures Marshal(Int(i)).value + rest
      == [if i < 0 then TagNegInt else TagInt] + (ToVarint(if i < 0 then -i else i) + rest)
  {
    var tag := if i < 0 then TagNegInt else TagInt;
    var v := ToVarint(if i < 0 then -i else i);
    assert Marshal(Int(i)) == Ok([tag] + v);
    assert ([tag] + v) + rest == [tag] + (v + rest);
  }

  predicate IsNamedTag(tag: Byte) {
    tag == TagString || tag == TagSymbol || tag == TagSendSite
  }

  lemma {:induction false} ScalarIsNamed(tag: Byte, t: seq<Byte>)
    requires IsNamedTag(tag)
    ensures UnmarshalScalar(tag, t) == UnmarshalNamed(tag, t)
  {
  }

  lemma {:induction false} NamedRoundTrip(tag: Byte, b: seq<Byte>, rest: seq<Byte>)
    requires IsNamedTag(tag)
    ensures UnmarshalData(Named(tag, b) + rest) == Ok(Parsed(NamedValue(tag, b), rest))
  {
    var t := ToVarint(|b|) + b + rest;
    assert Named(tag, b) + rest == [tag] + t;
    DataOfTagged(tag, t);
    ScalarIsNamed(tag, t);
    BytesRoundTrip(b, rest);
  }

  lemma {:induction false} RoundTripFloat(text: seq<Byte>, rest: seq<Byte>)
    requires WellFormed(Float(text))
    ensures UnmarshalData(Marshal(Float(text)).value + rest) == Ok(Parsed(Float(text), rest))
  {
    var t := text + [Newline] + rest;
    assert Marshal(Float(text)).value + rest == [TagFloat] + t;
    DataOfTagged(TagFloat, t);
    NextLineInvertsFloat(text, rest);
  }

  lemma {:induction false} RoundTripIseq(slots: seq<int>, rest: seq<Byte>)
    requires WellFormed(Iseq(slots))
    ensures UnmarshalData(Marshal(Iseq(slots)).value + rest) == Ok(Parsed(Iseq(slots), rest))
  {
    var t := ToVarint(|slots|) + (SlotVarints(slots) + rest);
    var s := Marshal(Iseq(slots)).value + rest;
    assert s == [TagIseq] + t by {
      IseqBytes(slots, rest);
    }
    assert UnmarshalData(s) == UnmarshalIseq(t) by {
      DataOfTagged(TagIseq, t);
    }
    IseqDecodes(slots, rest);
  }

  /** The bytes of an instruction sequence: the tag, the count, then the
      slots. */
  lemma {:induction false} IseqBytes(slots: seq<int>, rest: seq<Byte>)
    ensures Marshal(Iseq(slots)).value + rest
      == [TagIseq] + (ToVarint(|slots|) + (SlotVarints(slots) + rest))
  {
    assert Marshal(Iseq(slots)) == Ok(Counted(TagIseq, |slots|, SlotVarints(slots)));
    CountedThenRest(TagIseq, |slots|, SlotVarints(slots), rest);
  }

  lemma {:induction false} IseqDecodes(slots: seq<int>, rest: seq<Byte>)
    requires forall i :: 0 <= i < |slots| ==> slots[i] >= 0
    ensures UnmarshalIseq(ToVarint(|slots|) + (SlotVarints(slots) + rest)) == Ok(Parsed(Iseq(slots), rest))
  {
    NextVarintInvertsToVarint(|slots|, SlotVarints(slots) + rest);
    NextSlotsInvertsSlotVarints(slots, rest);
  }

  lemma {:induction false} RoundTripContainer(v: Value, rest: seq<Byte>)
    requires v.Array? || v.Tuple?
    requires MarshalAll(v.items).Ok?
    requires UnmarshalAll(MarshalAll(v.items).value + rest, |v.items|) == Ok(ParsedAll(v.items, rest))
    ensures Marshal(v).Ok?
    ensures UnmarshalData(Marshal(v).value + rest) == Ok(Parsed(v, rest))
  {
    var body := MarshalAll(v.items).value;
    var tag := if v.Array? then TagArray else TagTuple;
    var t := ToVarint(|v.items|) + (body + rest);
    assert Marshal(v).value == Counted(tag, |v.items|, body);
    CountedThenRest(tag, |v.items|, body, rest);
    DataOfTagged(tag, t);
    ContainerDecodes(tag, v.items, body, rest);
    assert (if tag == TagArray then Array(v.items) else Tuple(v.items)) == v;
  }

  lemma {:induction false} ContainerDecodes(tag: Byte, items: seq<Value>, body: seq<Byte>, rest: seq<Byte>)
    requires tag == TagArray || tag == TagTuple
    requires UnmarshalAll(body + rest, |items|) == Ok(ParsedAll(items, rest))
    ensures UnmarshalComposite(tag, ToVarint(|items|) + (body + rest))
         == Ok(Parsed(if tag == TagArray then Array(items) else Tuple(items), rest))
  {
    NextVarintInvertsToVarint(|items|, body + rest);
  }

  lemma {:induction false} RoundTripMethod(fields: seq<Value>, rest: seq<Byte>)
    requires |fields| == MethodFieldCount
    requires MarshalAll(fields).Ok?
    requires UnmarshalAll(MarshalAll(fields).value + rest, |fields|) == Ok(ParsedAll(fields, rest))
    ensures Marshal(Method(fields)).Ok?
    ensures UnmarshalData(Marshal(Method(fields)).value + rest) == Ok(Parsed(Method(fields), rest))
  {
    var body := MarshalAll(fields).value;
    var t := ToVarint(MethodVersion) + (body + rest);
    assert Marshal(Method(fields)).value == Counted(TagMethod, MethodVersion, body);
    CountedThenRest(TagMethod, MethodVersion, body, rest);
    DataOfTagged(TagMethod, t);
    NextVarintInvertsToVarint(MethodVersion, body + rest);
  }

  /** The tags `unmarshal_data` knows. */
  predicate KnownTag(tag: Byte) {
    tag == TagTrue || tag == TagFalse || tag == TagNil || tag == TagInt || tag == TagNegInt
    || tag == TagFloat || IsNamedTag(tag) || tag == TagArray || tag == TagTuple
    || tag == TagIseq || tag == TagMethod
  }

  /** Any other tag byte raises "Unknown type", whatever follows it. */
  lemma {:induction false} UnknownTagRaises(tag: Byte, t: seq<Byte>)
    requires !KnownTag(tag)
    ensures UnmarshalData([tag] + t) == Err(UnknownType(tag))
  {
    DataOfTagged(tag, t);
  }

  /** A compiled method of another format version is refused before any of
      its fields is read: the result does not depend on the bytes after the
      version. */
  lemma {:induction false} MethodVersionCheckedFirst(version: nat, fields: seq<Byte>)
    requires version != MethodVersion
    ensures UnmarshalData(Counted(TagMethod, version, fields)) == Err(UnknownMethodVersion(version))
  {
    var t := ToVarint(version) + fields;
    assert Counted(TagMethod, version, fields) == [TagMethod] + t;
    DataOfTagged(TagMethod, t);
    NextVarintInvertsToVarint(version, fields);
  }

  /** `unmarshal(marshal(v))` is `v`, with or without trailing bytes. */
  lemma {:induction false} UnmarshalInvertsMarshal(v: Value, rest: seq<Byte>)
    requires WellFormed(v)
    ensures Marshal(v).Ok?
    ensures Unmarshal(Marshal(v).value + rest) == Ok(v)
  {
    RoundTrip(v, rest);
  }
}
