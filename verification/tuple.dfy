/** `Tuple`, the VM's fixed-size array of object references: bounds-checked
    `put`, the range copy `copy_from`, the compacting `delete_inplace` and
    `pattern`. A tuple is its sequence of fields; every operation returns
    the new fields instead of writing in place. Fixnum arguments the C++
    code stores in an `int` are wrapped to 32 bits. */
module Tuples {
  import opened Wrappers
  import opened Objects
  import opened MachineInt

  /** The messages of `Exception::object_bounds_exceeded_error`. */
  datatype BoundsError =
    | OutOfBounds
    | NegativeLength
    | SourceTooShort
    | DestinationTooShort

  /** `Tuple::put`: stores `val` at `idx`. The index is a `size_t`, so a
      negative index is as out of range as one past the end. */
  function Put(fields: seq<Obj>, idx: int, val: Obj): (r: Result<seq<Obj>, BoundsError>)
    ensures r.Ok? <==> 0 <= idx < |fields|
    ensures r.Err? ==> r.error == OutOfBounds
    ensures r.Ok? ==> |r.value| == |fields| && r.value[idx] == val
    ensures r.Ok? ==> forall i :: 0 <= i < |fields| && i != idx ==> r.value[i] == fields[i]
  {
    if idx < 0 || idx >= |fields| then Err(OutOfBounds) else Ok(fields[idx := val])
  }

  /** Storing a field's own value changes nothing; storing twice is storing
      once. */
  lemma {:induction false} PutSameIsIdentity(fields: seq<Obj>, idx: int)
    requires 0 <= idx < |fields|
    ensures Put(fields, idx, fields[idx]) == Ok(fields)
  {
    assert fields[idx := fields[idx]] == fields;
  }

  lemma {:induction false} PutIdempotent(fields: seq<Obj>, idx: int, val: Obj)
    requires Put(fields, idx, val).Ok?
    ensures Put(Put(fields, idx, val).value, idx, val) == Put(fields, idx, val)
  {
    assert fields[idx := val][idx := val] == fields[idx := val];
  }

  /** The argument checks of `copy_from`, in the order the source makes
      them, on the 32-bit source start `olend`, length `olength` and
      destination start `lend`. */
  function CopyBounds(size: nat, osize: nat, olend: int, olength: int, lend: int): (r: Option<BoundsError>)
    requires -TwoTo31 <= olend < TwoTo31 && -TwoTo31 <= olength < TwoTo31
    ensures r.None? <==>
      0 <= olend && 0 <= olength && 0 <= lend && olend + olength < TwoTo31
      && olend + olength <= osize && lend + olength <= size
  {
    if olend < 0 || olend > osize then Some(OutOfBounds)
    else if lend < 0 || lend > size then Some(OutOfBounds)
    else if olength < 0 then Some(NegativeLength)
    else
      Int32OfUnsigned(olend + olength);
      if Int32(olend + olength) < 0 || Int32(olend + olength) > osize then Some(SourceTooShort)
      else if olength > size - lend then Some(DestinationTooShort)
      else None
  }

  /** `Tuple::copy_from` with a distinct source tuple: fields
      `[start, start + length)` of `other` are copied to `dest` onwards;
      every other field keeps its value. */
  method CopyFrom(fields: seq<Obj>, other: seq<Obj>, start: int, length: int, dest: int)
    returns (r: Result<seq<Obj>, BoundsError>)
    ensures r.Err? <==> CopyBounds(|fields|, |other|, Int32(start), Int32(length), Int32(dest)).Some?
    ensures r.Err? ==> r.error == CopyBounds(|fields|, |other|, Int32(start), Int32(length), Int32(dest)).value
    ensures r.Ok? ==> |r.value| == |fields|
    ensures r.Ok? ==>
              var olend, olength, lend := Int32(start), Int32(length), Int32(dest);
              forall i :: 0 <= i < |fields| ==>
                r.value[i] == if lend <= i < lend + olength then other[olend + (i - lend)] else fields[i]
  {
    var olend, olength, lend := Int32(start), Int32(length), Int32(dest);
    var check := CopyBounds(|fields|, |other|, olend, olength, lend);
    if check.Some? {
      return Err(check.value);
    }
    var t := fields;
    var k := 0;
    while k < olength
      invariant 0 <= k <= olength
      invariant |t| == |fields|
      invariant forall i :: 0 <= i < |fields| ==>
                  t[i] == if lend <= i < lend + k then other[olend + (i - lend)] else fields[i]
    {
      t := t[lend + k := other[olend + k]];
      k := k + 1;
    }
    return Ok(t);
  }

  /** `Tuple::copy_from` with the tuple itself as the source. The copy runs
      forward, so it is a faithful copy only when `dest <= start`; when the
      destination starts `d = dest - start > 0` fields later, the copied
      window repeats its first `d` fields. */
  method CopyWithin(fields: seq<Obj>, start: int, length: int, dest: int)
    returns (r: Result<seq<Obj>, BoundsError>)
    ensures r.Err? <==> CopyBounds(|fields|, |fields|, Int32(start), Int32(length), Int32(dest)).Some?
    ensures r.Ok? ==> |r.value| == |fields|
    ensures r.Ok? ==>
              var olend, olength, lend := Int32(start), Int32(length), Int32(dest);
              forall i :: 0 <= i < |fields| && !(lend <= i < lend + olength) ==> r.value[i] == fields[i]
    ensures r.Ok? && Int32(dest) <= Int32(start) ==>
              var olend, olength, lend := Int32(start), Int32(length), Int32(dest);
              forall i :: lend <= i < lend + olength ==> r.value[i] == fields[olend + (i - lend)]
    ensures r.Ok? && Int32(dest) > Int32(start) ==>
              var olend, olength, lend := Int32(start), Int32(length), Int32(dest);
              forall i :: lend <= i < lend + olength ==>
                r.value[i] == if i < lend + (lend - olend) then fields[olend + (i - lend)] else r.value[i - (lend - olend)]
  {
    var olend, olength, lend := Int32(start), Int32(length), Int32(dest);
    var check := CopyBounds(|fields|, |fields|, olend, olength, lend);
    if check.Some? {
      return Err(check.value);
    }
    var t := ForwardCopy(fields, olend, olength, lend);
    return Ok(t);
  }

  /** The copy loop of `copy_from` within one tuple, on checked bounds:
      field `olend + k` is copied to `lend + k` for `k` counting up, each
      read seeing the writes made before it. */
  method ForwardCopy(fields: seq<Obj>, olend: nat, olength: nat, lend: nat) returns (t: seq<Obj>)
    requires olend + olength <= |fields| && lend + olength <= |fields|
    ensures |t| == |fields|
    ensures forall i :: 0 <= i < |fields| && !(lend <= i < lend + olength) ==> t[i] == fields[i]
    ensures lend <= olend ==> forall i :: lend <= i < lend + olength ==> t[i] == fields[olend + (i - lend)]
    ensures lend > olend ==> forall i :: lend <= i < lend + olength ==>
              t[i] == if i < lend + (lend - olend) then fields[olend + (i - lend)] else t[i - (lend - olend)]
  {
    t := fields;
    var k := 0;
    while k < olength
      invariant 0 <= k <= olength
      invariant |t| == |fields|
      invariant forall i :: 0 <= i < |fields| && !(lend <= i < lend + k) ==> t[i] == fields[i]
      invariant lend <= olend ==> forall i :: lend <= i < lend + k ==> t[i] == fields[olend + (i - lend)]
      invariant lend > olend ==> forall i :: lend <= i < lend + k ==>
                  t[i] == if i < lend + (lend - olend) then fields[olend + (i - lend)] else t[i - (lend - olend)]
    {
      t := t[lend + k := t[olend + k]];
      k := k + 1;
    }
  }

  /** `s` with every occurrence of `x` removed, the rest in order. */
  function Without(s: seq<Obj>, x: Obj): (r: seq<Obj>)
    ensures |r| <= |s|
    decreases |s|
  {
    if s == [] then []
    else Without(s[..|s| - 1], x) + (if s[|s| - 1] == x then [] else [s[|s| - 1]])
  }

  /** `Without` removes every `x`, keeps everything else, and removes as
      many elements as there were `x`s. */
  lemma {:induction false} WithoutRemovesAll(s: seq<Obj>, x: Obj)
    ensures x !in Without(s, x)
    ensures multiset(Without(s, x)) == multiset(s)[x := 0]
    ensures |s| - |Without(s, x)| == multiset(s)[x]
    decreases |s|
  {
    if s != [] {
      var init := s[..|s| - 1];
      assert s == init + [s[|s| - 1]];
      WithoutRemovesAll(init, x);
      WithoutStep(init, s[|s| - 1], x);
    }
  }

  /** One element appended to the input is appended to the output unless
      it is the one removed. */
  lemma {:induction false} WithoutAppend(init: seq<Obj>, last: Obj, x: Obj)
    ensures Without(init + [last], x) == Without(init, x) + (if last == x then [] else [last])
  {
    assert (init + [last])[..|init|] == init;
  }

  /** The inductive step of `WithoutRemovesAll`: from `init` to `init`
      with one more element. */
  lemma {:induction false} WithoutStep(init: seq<Obj>, last: Obj, x: Obj)
    requires x !in Without(init, x)
    requires multiset(Without(init, x)) == multiset(init)[x := 0]
    requires |init| - |Without(init, x)| == multiset(init)[x]
    ensures x !in Without(init + [last], x)
    ensures multiset(Without(init + [last], x)) == multiset(init + [last])[x := 0]
    ensures |init + [last]| - |Without(init + [last], x)| == multiset(init + [last])[x]
  {
    var w := Without(init, x);
    WithoutAppend(init, last, x);
    assert multiset(init + [last]) == multiset(init) + multiset{last};
    if last != x {
      assert multiset(w + [last]) == multiset(w) + multiset{last};
    }
  }

  lemma {:induction false} WithoutAbsent(s: seq<Obj>, x: Obj)
    requires x !in s
    ensures Without(s, x) == s
    decreases |s|
  {
    if s != [] {
      var init := s[..|s| - 1];
      assert s == init + [s[|s| - 1]];
      assert x !in init by { assert forall y :: y in init ==> y in s; }
      WithoutAbsent(init, x);
      WithoutAppend(init, s[|s| - 1], x);
    }
  }

  /** Extending a window by one field. */
  lemma {:induction false} WithoutSnoc(s: seq<Obj>, lo: int, i: int, x: Obj)
    requires 0 <= lo <= i < |s|
    ensures Without(s[lo..i + 1], x) == Without(s[lo..i], x) + (if s[i] == x then [] else [s[i]])
  {
    assert s[lo..i + 1][..i - lo] == s[lo..i];
  }

  /** The fields after `delete_inplace` and the number of fields removed. */
  datatype Deleted = Deleted(fields: seq<Obj>, count: int)

  /** `Tuple::delete_inplace`: removes every field equal to `obj` from the
      window `[start, start + length)`, shifting the rest down in order and
      filling the freed end of the window with nil. Returns the number
      removed; an empty tuple gives 0 without any check. */
  method DeleteInplace(fields: seq<Obj>, start: int, length: int, obj: Obj) returns (r: Result<Deleted, BoundsError>)
    ensures |fields| == 0 ==> r == Ok(Deleted(fields, 0))
    ensures |fields| > 0 ==>
      (r.Ok? <==> 0 <= Int32(start) < |fields| && 0 <= Int32(Int32(start) + length) <= |fields|)
    ensures r.Err? ==> r.error == OutOfBounds
    ensures r.Ok? ==> |r.value.fields| == |fields|
    ensures r.Ok? && |fields| > 0 && Int32(Int32(start) + length) <= Int32(start) ==>
              r.value == Deleted(fields, 0)
    ensures r.Ok? && |fields| > 0 && Int32(start) < Int32(Int32(start) + length) ==>
              var lend, rend := Int32(start), Int32(Int32(start) + length);
              && r.value.count == multiset(fields[lend..rend])[obj]
              && Compacted(fields, r.value.fields, lend, rend, obj)
  {
    var size := |fields|;
    var lend := Int32(start);
    var rend := Int32(lend + length);
    if size == 0 {
      return Ok(Deleted(fields, 0));
    }
    if lend < 0 || lend >= size {
      return Err(OutOfBounds);
    }
    if rend < 0 || rend > size {
      return Err(OutOfBounds);
    }
    var i := lend;
    while i < rend
      invariant lend <= i && (i <= rend || i == lend)
      invariant forall k :: lend <= k < i ==> fields[k] != obj
    {
      if fields[i] == obj {
        var t, j := Compact(fields, lend, rend, i, obj);
        WithoutRemovesAll(fields[lend..rend], obj);
        return Ok(Deleted(t, rend - j));
      }
      i := i + 1;
    }
    if lend < rend {
      assert obj !in fields[lend..rend];
      CompactedWhenAbsent(fields, lend, rend, obj);
    }
    return Ok(Deleted(fields, 0));
  }

  /** `t` is `fields` with the window `[lend, rend)` compacted: the fields
      other than `obj` moved to its front in order, nils after them, and
      everything outside the window as it was. */
  predicate Compacted(fields: seq<Obj>, t: seq<Obj>, lend: int, rend: int, obj: Obj)
    requires 0 <= lend <= rend <= |fields|
  {
    var kept := Without(fields[lend..rend], obj);
    && |t| == |fields|
    && forall i :: 0 <= i < |fields| ==>
         t[i] == if i < lend || rend <= i then fields[i]
                 else if i < lend + |kept| then kept[i - lend]
                 else Nil
  }

  /** A window without `obj` is already compacted and nothing is counted. */
  lemma {:induction false} CompactedWhenAbsent(fields: seq<Obj>, lend: int, rend: int, obj: Obj)
    requires 0 <= lend <= rend <= |fields|
    requires obj !in fields[lend..rend]
    ensures Compacted(fields, fields, lend, rend, obj)
    ensures multiset(fields[lend..rend])[obj] == 0
  {
    WithoutAbsent(fields[lend..rend], obj);
  }

  /** The two inner loops of `delete_inplace`, from the first field equal to
      `obj` at `first`: shift the other fields down, then nil-fill. */
  method Compact(fields: seq<Obj>, lend: int, rend: int, first: int, obj: Obj) returns (t: seq<Obj>, j: int)
    requires 0 <= lend <= first < rend <= |fields|
    requires fields[first] == obj
    requires forall k :: lend <= k < first ==> fields[k] != obj
    ensures j == lend + |Without(fields[lend..rend], obj)|
    ensures Compacted(fields, t, lend, rend, obj)
  {
    var shifted;
    shifted, j := ShiftDown(fields, lend, rend, first, obj);
    t := NilFill(shifted, j, rend);
  }

  /** The first inner loop: every field after `first` that is not `obj` is
      moved down to the next free slot `j`. */
  method ShiftDown(fields: seq<Obj>, lend: int, rend: int, first: int, obj: Obj) returns (t: seq<Obj>, j: int)
    requires 0 <= lend <= first < rend <= |fields|
    requires fields[first] == obj
    requires forall k :: lend <= k < first ==> fields[k] != obj
    ensures |t| == |fields|
    ensures j == lend + |Without(fields[lend..rend], obj)| && j < rend
    ensures forall k :: 0 <= k < |fields| && (k < lend || rend <= k) ==> t[k] == fields[k]
    ensures forall k :: lend <= k < j ==> t[k] == Without(fields[lend..rend], obj)[k - lend]
  {
    ShiftStart(fields, lend, first, obj);
    t := fields;
    j := first;
    var i := first + 1;
    ghost var kept := fields[lend..first];
    while i < rend
      invariant first < i <= rend && j < i
      invariant Shifting(fields, lend, i, obj, t, j, kept)
    {
      ShiftStep(fields, lend, i, obj, t, j, kept);
      var val := t[i];
      if val != obj {
        t := t[j := val];
        j := j + 1;
        kept := kept + [val];
      }
      i := i + 1;
    }
  }

  /** The state of the shifting loop after the fields `[lend, i)`: the
      fields kept so far sit at `[lend, j)`, everything before `lend` and
      from `i` on is untouched. */
  ghost predicate Shifting(fields: seq<Obj>, lend: int, i: int, obj: Obj, t: seq<Obj>, j: int, kept: seq<Obj>)
    requires 0 <= lend <= i <= |fields|
  {
    && |t| == |fields|
    && lend <= j <= i
    && kept == Without(fields[lend..i], obj)
    && j == lend + |kept|
    && (forall k :: 0 <= k < |fields| && (k < lend || i <= k) ==> t[k] == fields[k])
    && (forall k :: lend <= k < j ==> t[k] == kept[k - lend])
  }

  /** Before the loop: nothing before `first` is `obj`, which is dropped. */
  lemma {:induction false} ShiftStart(fields: seq<Obj>, lend: int, first: int, obj: Obj)
    requires 0 <= lend <= first < |fields|
    requires fields[first] == obj
    requires forall k :: lend <= k < first ==> fields[k] != obj
    ensures Shifting(fields, lend, first + 1, obj, fields, first, fields[lend..first])
  {
    WithoutAbsent(fields[lend..first], obj);
    WithoutSnoc(fields, lend, first, obj);
  }

  /** One turn of the loop: a field other than `obj` moves down to `j`. */
  lemma {:induction false} ShiftStep(fields: seq<Obj>, lend: int, i: int, obj: Obj, t: seq<Obj>, j: int, kept: seq<Obj>)
    requires 0 <= lend <= i < |fields| && j < i
    requires Shifting(fields, lend, i, obj, t, j, kept)
    ensures t[i] == fields[i]
    ensures t[i] != obj ==> Shifting(fields, lend, i + 1, obj, t[j := t[i]], j + 1, kept + [t[i]])
    ensures t[i] == obj ==> Shifting(fields, lend, i + 1, obj, t, j, kept)
  {
    WithoutSnoc(fields, lend, i, obj);
  }

  /** The second inner loop: nil into every slot from `j` to the end of the
      window. */
  method NilFill(fields: seq<Obj>, j: int, rend: int) returns (t: seq<Obj>)
    requires 0 <= j <= rend <= |fields|
    ensures |t| == |fields|
    ensures forall k :: 0 <= k < |fields| ==> t[k] == if j <= k < rend then Nil else fields[k]
  {
    t := fields;
    var i := j;
    while i < rend
      invariant j <= i <= rend
      invariant |t| == |fields|
      invariant forall k :: 0 <= k < |fields| ==> t[k] == if j <= k < i then Nil else fields[k]
    {
      t := t[i := Nil];
      i := i + 1;
    }
  }

  /** `Tuple::pattern`: a new tuple of `n` fields, every one `val`. */
  method Pattern(n: int, val: Obj) returns (t: seq<Obj>)
    requires n >= 0
    ensures |t| == n
    ensures forall i :: 0 <= i < n ==> t[i] == val
  {
    t := Nils(n);
    var i := 0;
    while i < n
      invariant 0 <= i <= n
      invariant |t| == n
      invariant forall k :: 0 <= k < i ==> t[k] == val
    {
      t := t[i := val];
      i := i + 1;
    }
  }
}
