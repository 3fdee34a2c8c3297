/** The unsigned base-128 varints of the compiled-file format
    (`Marshal#to_varint` and `Marshal#read_varint`): seven bits per byte, the
    lowest group first, bit 7 set on every byte but the last. This is the
    unsigned LEB128 encoding of section 7.6 of the DWARF 4 standard. */
module Varint {
  import opened Wrappers
  import opened Bytes

  function Pow128(k: nat): (r: nat)
    ensures r >= 1
  {
    if k == 0 then 1 else 128 * Pow128(k - 1)
  }

  /** The groups the `while val > 0` loop of `to_varint` emits for a positive
      value: `val & 127`, with bit 7 added while more than seven bits remain. */
  function Groups(n: nat): (r: seq<Byte>)
    requires n > 0
    ensures |r| >= 1 && r[|r| - 1] < 128 && r[|r| - 1] != 0
    ensures forall i :: 0 <= i < |r| - 1 ==> r[i] >= 128
    ensures Pow128(|r| - 1) <= n < Pow128(|r|)
  {
    if n <= 127 then [n] else [n % 128 + 128] + Groups(n / 128)
  }

  /** `to_varint(n)`: a single zero byte for 0, the groups of `n` otherwise. A
      negative value would give the empty string, so the model takes a `nat`. */
  function ToVarint(n: nat): (r: seq<Byte>)
    ensures n == 0 ==> r == [0]
    ensures |r| >= 1 && r[|r| - 1] < 128
    ensures forall i :: 0 <= i < |r| - 1 ==> r[i] >= 128
    ensures n < Pow128(|r|) && (|r| > 1 ==> Pow128(|r| - 1) <= n)
  {
    if n == 0 then [0] else Groups(n)
  }

  /** A varint read from the front of a stream: its value and the number of
      bytes it occupies. */
  datatype Read = Read(value: nat, length: nat)

  /** Reference reading of a varint at the front of `s`: the value and the
      number of bytes it occupies, or `None` when `s` ends before a byte below
      128. Equal to the source's sum of `(byte & ~128) << 7k` over the bytes. */
  function ReadVarint(s: seq<Byte>): (r: Option<Read>)
    ensures r.Some? ==> 1 <= r.value.length <= |s| && s[r.value.length - 1] < 128
  {
    if |s| == 0 then None
    else if s[0] < 128 then Some(Read(s[0], 1))
    else
      var rest := ReadVarint(s[1..]);
      if rest.None? then None
      else Some(Read(s[0] - 128 + 128 * rest.value.value, rest.value.length + 1))
  }

  /** A varint ends at its first byte below 128: every byte it consumes
      before the last has bit 7 set, and a stream of such bytes alone holds
      no complete varint. */
  lemma {:induction false} ReadVarintStopsAtFirstLowByte(s: seq<Byte>)
    ensures ReadVarint(s).Some? ==> forall i :: 0 <= i < ReadVarint(s).value.length - 1 ==> s[i] >= 128
    ensures ReadVarint(s).None? <==> forall i :: 0 <= i < |s| ==> s[i] >= 128
  {
    if |s| > 0 && s[0] >= 128 {
      ReadVarintStopsAtFirstLowByte(s[1..]);
      assert forall i :: 1 <= i < |s| ==> s[i] == s[1..][i - 1];
    }
  }

  /** `read_varint(to_varint(n)) == n`, and the read consumes exactly the
      bytes written, whatever follows them. */
  lemma {:induction false} ReadInvertsToVarint(n: nat, rest: seq<Byte>)
    ensures ReadVarint(ToVarint(n) + rest) == Some(Read(n, |ToVarint(n)|))
  {
    if n > 0 {
      ReadInvertsGroups(n, rest);
    }
  }

  lemma {:induction false} ReadInvertsGroups(n: nat, rest: seq<Byte>)
    requires n > 0
    ensures ReadVarint(Groups(n) + rest) == Some(Read(n, |Groups(n)|))
  {
    if n > 127 {
      var s := Groups(n) + rest;
      assert s[1..] == Groups(n / 128) + rest;
      ReadInvertsGroups(n / 128, rest);
    }
  }

  /** Decoding is injective: two values with the same encoding are equal. */
  lemma {:induction false} ToVarintInjective(m: nat, n: nat)
    requires ToVarint(m) == ToVarint(n)
    ensures m == n
  {
    ReadInvertsToVarint(m, []);
    ReadInvertsToVarint(n, []);
  }

  /** `x << 7k`, written as `k` multiplications by 128. */
  function Lift(x: nat, k: nat): nat {
    if k == 0 then x else 128 * Lift(x, k - 1)
  }

  lemma {:induction false} LiftAdd(a: nat, b: nat, k: nat)
    ensures Lift(a + b, k) == Lift(a, k) + Lift(b, k)
  {
    if k > 0 {
      LiftAdd(a, b, k - 1);
    }
  }

  lemma {:induction false} LiftLift(x: nat, k: nat)
    ensures Lift(Lift(x, 1), k) == Lift(x, k + 1)
  {
    if k > 0 {
      LiftLift(x, k - 1);
    }
  }

  /** The read of a varint that sits behind `i` bytes already worth `low`. */
  function Shifted(o: Option<Read>, low: nat, i: nat): Option<Read> {
    if o.None? then None else Some(Read(low + Lift(o.value.value, i), o.value.length + i))
  }

  /** A continuation byte contributes its low seven bits below the rest. */
  lemma {:induction false} ReadStep(s: seq<Byte>)
    requires |s| > 0 && s[0] >= 128
    ensures ReadVarint(s) == Shifted(ReadVarint(s[1..]), s[0] - 128, 1)
  {
    var o := ReadVarint(s[1..]);
    if o.Some? {
      assert Lift(o.value.value, 1) == 128 * o.value.value;
    }
  }

  lemma {:induction false} ShiftedTwice(o: Option<Read>, b: nat, low: nat, i: nat)
    ensures Shifted(Shifted(o, b, 1), low, i) == Shifted(o, low + Lift(b, i), i + 1)
  {
    if o.Some? {
      var r := o.value;
      assert o == Some(Read(r.value, r.length));
      ShiftedReadTwice(r.value, r.length, b, low, i);
    }
  }

  lemma {:induction false} ShiftedReadTwice(v: nat, k: nat, b: nat, low: nat, i: nat)
    ensures Shifted(Shifted(Some(Read(v, k)), b, 1), low, i)
            == Shifted(Some(Read(v, k)), low + Lift(b, i), i + 1)
  {
    assert Shifted(Some(Read(v, k)), b, 1) == Some(Read(b + Lift(v, 1), k + 1));
    LiftAdd(b, Lift(v, 1), i);
    LiftLift(v, i);
  }

  /** `Marshal#read_varint` as written: a loop accumulating
      `(byte & ~128) << shift` until a byte below 128. It agrees with the
      reference reading; `None` is the read past the end of the data. */
  method ReadVarintLoop(s: seq<Byte>) returns (r: Option<Read>)
    ensures r == ReadVarint(s)
  {
    var val: nat := 0;
    var pos := 0;
    assert s[0..] == s;
    while true
      invariant pos <= |s|
      invariant ReadVarint(s) == Shifted(ReadVarint(s[pos..]), val, pos)
      decreases |s| - pos
    {
      if pos == |s| {
        return None;
      }
      var byte := s[pos];
      if byte < 128 {
        return Some(Read(val + Lift(byte % 128, pos), pos + 1));
      }
      ReadStep(s[pos..]);
      assert s[pos..][1..] == s[pos + 1..];
      ShiftedTwice(ReadVarint(s[pos + 1..]), byte - 128, val, pos);
      val := val + Lift(byte % 128, pos);
      pos := pos + 1;
    }
  }
}
