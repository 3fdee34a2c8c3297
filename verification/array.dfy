/** Ruby's `Array` as the kernel implements it: a window of `total`
    elements starting at `start` inside a backing tuple that can be larger.
    Every slot outside the window holds nil, so growing the window exposes
    nils. Each operation returns the array's new state. */
module RubyArrays {
  import opened Wrappers
  import opened Objects

  datatype Ary = Ary(tuple: seq<Obj>, start: nat, total: nat)

  /** The window fits the tuple and every slot outside it is nil. */
  predicate Valid(a: Ary) {
    && a.start + a.total <= |a.tuple|
    && forall i :: 0 <= i < |a.tuple| && !(a.start <= i < a.start + a.total) ==> a.tuple[i] == Nil
  }

  /** The array's contents: `tuple[start, start + total)`. */
  function Elements(a: Ary): (r: seq<Obj>)
    requires a.start + a.total <= |a.tuple|
    ensures |r| == a.total
    ensures forall k :: 0 <= k < a.total ==> r[k] == a.tuple[a.start + k]
  {
    a.tuple[a.start..a.start + a.total]
  }

  /** A valid array's tuple is nils, then the elements, then nils; and a
      tuple laid out that way around its window makes a valid array. */
  lemma {:induction false} ValidIsNilPadded(a: Ary)
    requires a.start + a.total <= |a.tuple|
    ensures Valid(a) <==>
              a.tuple == seq(a.start, _ => Nil) + Elements(a) + seq(|a.tuple| - a.start - a.total, _ => Nil)
  {
    var padded := seq(a.start, _ => Nil) + Elements(a) + seq(|a.tuple| - a.start - a.total, _ => Nil);
    assert |padded| == |a.tuple|;
    assert forall i :: 0 <= i < |a.tuple| ==>
             padded[i] == if a.start <= i < a.start + a.total then a.tuple[i] else Nil;
    if Valid(a) {
      assert forall i :: 0 <= i < |a.tuple| ==> padded[i] == a.tuple[i];
    }
    if a.tuple == padded {
      assert forall i :: 0 <= i < |a.tuple| && !(a.start <= i < a.start + a.total) ==> a.tuple[i] == padded[i];
    }
  }

  /** `size` and `length`. */
  function Size(a: Ary): (r: nat)
    requires Valid(a)
    ensures r == |Elements(a)|
  {
    a.total
  }

  /** `Tuple#copy_from` with the bounds already checked: `len` values of
      `src` from `from` land in `dst` at `to`. */
  function Copy(dst: seq<Obj>, src: seq<Obj>, from: nat, len: nat, to: nat): (r: seq<Obj>)
    requires from + len <= |src| && to + len <= |dst|
    ensures |r| == |dst|
    ensures forall i :: 0 <= i < |dst| ==> r[i] == if to <= i < to + len then src[from + (i - to)] else dst[i]
  {
    dst[..to] + src[from..from + len] + dst[to + len..]
  }

  /** A negative index counts from the end. */
  function Normalize(idx: int, total: nat): int {
    if idx < 0 then idx + total else idx
  }

  /** `[]` with one index: the element, or nil when the index is out of
      range after normalisation. */
  function At(a: Ary, idx: int): (r: Obj)
    requires Valid(a)
    ensures var j := Normalize(idx, a.total);
            if 0 <= j < a.total then r == Elements(a)[j] else r == Nil
  {
    var j := if idx < 0 then idx + a.total else idx;
    if j < 0 || j >= a.total then Nil else a.tuple[a.start + j]
  }

  /** `[]` with a start and a count: nil for a negative count or a start out
      of range, an empty array for a start just past the end, otherwise the
      elements from the start, as many as there are up to `count`. */
  function Slice(a: Ary, idx: int, count: int): (r: Option<seq<Obj>>)
    requires Valid(a)
    ensures count < 0 ==> r == None
    ensures count >= 0 ==> (r.Some? <==> 0 <= Normalize(idx, a.total) <= a.total)
    ensures r.Some? ==>
              var j := Normalize(idx, a.total);
              r.value == Elements(a)[j..if j + count < a.total then j + count else a.total]
  {
    if count < 0 then None
    else
      var j := if idx < 0 then idx + a.total else idx;
      if j < 0 || j >= a.total then (if j == a.total then Some([]) else None)
      else if count == 0 then Some([])
      else
        var finish := j + count - 1;
        var finish' := if finish >= a.total then a.total - 1 else finish;
        var tot := finish' - j + 1;
        SliceContents(a, j, tot);
        Some(Copy(Nils(tot), a.tuple, a.start + j, tot, 0))
  }

  lemma {:induction false} SliceContents(a: Ary, j: nat, tot: nat)
    requires Valid(a) && j + tot <= a.total
    ensures Copy(Nils(tot), a.tuple, a.start + j, tot, 0) == Elements(a)[j..j + tot]
  {
    var out := Copy(Nils(tot), a.tuple, a.start + j, tot, 0);
    var e := Elements(a);
    forall i | 0 <= i < tot
      ensures out[i] == e[j..j + tot][i]
    {
      assert out[i] == a.tuple[a.start + j + i];
      assert e[j + i] == a.tuple[a.start + (j + i)];
    }
  }

  /** One element of a slice is the element `[]` returns. */
  lemma {:induction false} SliceOfOne(a: Ary, idx: int)
    requires Valid(a) && 0 <= Normalize(idx, a.total) < a.total
    ensures Slice(a, idx, 1) == Some([At(a, idx)])
  {
    var j := Normalize(idx, a.total);
    assert Elements(a)[j..j + 1] == [Elements(a)[j]];
  }

  /** `reallocate`: a tuple of at least `atLeast` slots (twice the old size
      when that is more), with the elements moved to its front. */
  function Reallocate(a: Ary, atLeast: int): (r: Ary)
    requires Valid(a)
    ensures Valid(r) && Elements(r) == Elements(a)
    ensures atLeast < |a.tuple| ==> r == a
    ensures atLeast >= |a.tuple| ==> r.start == 0 && |r.tuple| >= atLeast && |r.tuple| >= 2 * |a.tuple|
  {
    if atLeast < |a.tuple| then a
    else
      var n := if 2 * |a.tuple| < atLeast then atLeast else 2 * |a.tuple|;
      Moved(a, n, 0);
      Ary(Copy(Nils(n), a.tuple, a.start, a.total, 0), 0, a.total)
  }

  /** The elements copied into a fresh tuple of `n` nils at `to` are the
      same elements. */
  lemma {:induction false} Moved(a: Ary, n: nat, to: nat)
    requires Valid(a) && to + a.total <= n
    ensures Valid(Ary(Copy(Nils(n), a.tuple, a.start, a.total, to), to, a.total))
    ensures Elements(Ary(Copy(Nils(n), a.tuple, a.start, a.total, to), to, a.total)) == Elements(a)
  {
    var r := Ary(Copy(Nils(n), a.tuple, a.start, a.total, to), to, a.total);
    assert Valid(r);
    var e := Elements(a);
    forall k | 0 <= k < a.total
      ensures Elements(r)[k] == e[k]
    {
      assert r.tuple[to + k] == a.tuple[a.start + k];
    }
  }

  /** `<<`: appends one element, growing the tuple when the window already
      reaches its end. */
  function Push(a: Ary, obj: Obj): (r: Ary)
    requires Valid(a)
    ensures Valid(r) && Elements(r) == Elements(a) + [obj]
  {
    var nt := a.start + a.total + 1;
    var b := if |a.tuple| < nt then Reallocate(a, nt) else a;
    var r := Ary(b.tuple[b.start + b.total := obj], b.start, b.total + 1);
    assert Elements(r) == Elements(b) + [obj];
    r
  }

  /** `concat`: a fresh tuple holding this array's elements and then the
      other's. */
  function Concat(a: Ary, other: seq<Obj>): (r: Ary)
    requires Valid(a)
    ensures Valid(r) && Elements(r) == Elements(a) + other && r.start == 0
  {
    ConcatContents(a, other);
    Concatenated(a, other)
  }

  function Concatenated(a: Ary, other: seq<Obj>): (r: Ary)
    requires Valid(a)
  {
    var size := a.total + |other|;
    var t0 := Nils(size);
    var t1 := if a.total > 0 then Copy(t0, a.tuple, a.start, a.total, 0) else t0;
    Ary(Copy(t1, other, 0, |other|, a.total), 0, size)
  }

  lemma {:induction false} ConcatContents(a: Ary, other: seq<Obj>)
    requires Valid(a)
    ensures var r := Concatenated(a, other);
            Valid(r) && Elements(r) == Elements(a) + other && r.start == 0
  {
    var size := a.total + |other|;
    var t0 := Nils(size);
    var t1 := if a.total > 0 then Copy(t0, a.tuple, a.start, a.total, 0) else t0;
    var r := Concatenated(a, other);
    var want := Elements(a) + other;
    assert r == Ary(Copy(t1, other, 0, |other|, a.total), 0, size);
    assert Valid(r) by {
      assert |r.tuple| == r.total && r.start == 0;
    }
    forall k | 0 <= k < r.total
      ensures Elements(r)[k] == want[k]
    {
      assert Elements(r)[k] == r.tuple[k];
      if k < a.total {
        assert r.tuple[k] == t1[k];
        assert want[k] == Elements(a)[k];
      } else {
        assert want[k] == other[k - a.total];
      }
    }
    assert Elements(r) == want;
  }

  /** An array and the element an operation took out of it (nil when there
      was none). */
  datatype Removed = Removed(ary: Ary, obj: Obj)

  /** `delete_at`: removes the element at a normalised index and closes the
      gap; out of range, nothing changes and the result is nil. */
  function DeleteAt(a: Ary, idx: int): (r: Removed)
    requires Valid(a)
    ensures Valid(r.ary)
    ensures var j := Normalize(idx, a.total);
            if 0 <= j < a.total then
              r.obj == Elements(a)[j] && Elements(r.ary) == Elements(a)[..j] + Elements(a)[j + 1..]
            else r == Removed(a, Nil)
  {
    var j := if idx < 0 then idx + a.total else idx;
    if j < 0 || j >= a.total then Removed(a, Nil)
    else
      var t := Copy(a.tuple, a.tuple, a.start + j + 1, a.total - j - 1, a.start + j);
      var r := Ary(t[a.start + a.total - 1 := Nil], a.start, a.total - 1);
      DeleteAtContents(a, j, r);
      Removed(r, a.tuple[a.start + j])
  }

  lemma {:induction false} DeleteAtContents(a: Ary, j: nat, r: Ary)
    requires Valid(a) && j < a.total
    requires r == Ary(Copy(a.tuple, a.tuple, a.start + j + 1, a.total - j - 1, a.start + j)[a.start + a.total - 1 := Nil],
                      a.start, a.total - 1)
    ensures Valid(r) && Elements(r) == Elements(a)[..j] + Elements(a)[j + 1..]
  {
    var e := Elements(a);
    var d := e[..j] + e[j + 1..];
    forall k | 0 <= k < r.total
      ensures Elements(r)[k] == d[k]
    {
      if k < j {
        assert d[k] == e[k];
      } else {
        assert d[k] == e[k + 1];
      }
    }
  }

  /** The halving loop of `reallocate_shrink`: halve the size at least once
      and keep halving while fewer than a sixth of it would be used. */
  function ShrinkSize(total: nat, n: nat): (r: nat)
    requires 3 * total <= n
    ensures total <= r <= n / 2 && total >= r / 6
    decreases n
  {
    var h := n / 2;
    if total < h / 6 then ShrinkSize(total, h) else h
  }

  /** `reallocate_shrink`: when at most a third of the tuple is used, moves
      the elements to the middle of a tuple halved until at least a sixth of
      it is used. */
  function ReallocateShrink(a: Ary): (r: Ary)
    requires Valid(a)
    ensures Valid(r) && Elements(r) == Elements(a)
    ensures a.total > |a.tuple| / 3 ==> r == a
    ensures a.total <= |a.tuple| / 3 ==>
              |r.tuple| <= |a.tuple| / 2 && a.total >= |r.tuple| / 6 && r.start == (|r.tuple| - a.total) / 2
  {
    if a.total > |a.tuple| / 3 then a
    else
      var n := ShrinkSize(a.total, |a.tuple|);
      var s := (n - a.total) / 2;
      Moved(a, n, s);
      Ary(Copy(Nils(n), a.tuple, a.start, a.total, s), s, a.total)
  }

  /** `pop`: removes and returns the last element, or nil when empty. */
  function Pop(a: Ary): (r: Removed)
    requires Valid(a)
    ensures Valid(r.ary)
    ensures a.total == 0 ==> r == Removed(a, Nil)
    ensures a.total > 0 ==> r.obj == Elements(a)[a.total - 1] && Elements(r.ary) == Elements(a)[..a.total - 1]
  {
    if a.total == 0 then Removed(a, Nil)
    else
      var elem := a.tuple[a.start + a.total - 1];
      var b := Ary(a.tuple[a.start + a.total - 1 := Nil], a.start, a.total - 1);
      assert Elements(b) == Elements(a)[..a.total - 1];
      Removed(ReallocateShrink(b), elem)
  }

  /** `shift`: removes and returns the first element, or nil when empty. */
  function Shift(a: Ary): (r: Removed)
    requires Valid(a)
    ensures Valid(r.ary)
    ensures a.total == 0 ==> r == Removed(a, Nil)
    ensures a.total > 0 ==> r.obj == Elements(a)[0] && Elements(r.ary) == Elements(a)[1..]
  {
    if a.total == 0 then Removed(a, Nil)
    else
      var obj := a.tuple[a.start];
      var b := Ary(a.tuple[a.start := Nil], a.start + 1, a.total - 1);
      assert Elements(b) == Elements(a)[1..];
      Removed(ReallocateShrink(b), obj)
  }

  /** `unshift`: prepends the values in order, into the free slots before
      the window when they fit, otherwise into a fresh tuple. */
  function Unshift(a: Ary, values: seq<Obj>): (r: Ary)
    requires Valid(a)
    ensures Valid(r) && Elements(r) == values + Elements(a)
  {
    UnshiftContents(a, values);
    Unshifted(a, values)
  }

  function Unshifted(a: Ary, values: seq<Obj>): (r: Ary)
    requires Valid(a)
  {
    var n := |values|;
    if a.start > n then Ary(Copy(a.tuple, values, 0, n, a.start - n), a.start - n, a.total + n)
    else Ary(Copy(Copy(Nils(a.total + n), values, 0, n, 0), a.tuple, a.start, a.total, n), 0, a.total + n)
  }

  lemma {:induction false} UnshiftContents(a: Ary, values: seq<Obj>)
    requires Valid(a)
    ensures Valid(Unshifted(a, values)) && Elements(Unshifted(a, values)) == values + Elements(a)
  {
    if a.start > |values| {
      UnshiftInPlace(a, values);
    } else {
      UnshiftFresh(a, values);
    }
  }

  /** There is room before the window: the values go just in front of it. */
  lemma {:induction false} UnshiftInPlace(a: Ary, values: seq<Obj>)
    requires Valid(a) && a.start > |values|
    ensures Valid(Unshifted(a, values)) && Elements(Unshifted(a, values)) == values + Elements(a)
  {
    var n := |values|;
    var r := Unshifted(a, values);
    var want := values + Elements(a);
    assert r == Ary(Copy(a.tuple, values, 0, n, a.start - n), a.start - n, a.total + n);
    forall i | 0 <= i < |r.tuple| && !(r.start <= i < r.start + r.total)
      ensures r.tuple[i] == Nil
    {
      assert r.tuple[i] == a.tuple[i];
    }
    forall k | 0 <= k < r.total
      ensures Elements(r)[k] == want[k]
    {
      assert Elements(r)[k] == r.tuple[a.start - n + k];
      if k >= n {
        assert want[k] == Elements(a)[k - n];
      }
    }
    assert Elements(r) == want;
  }

  /** No room before the window: a fresh tuple holds the values, then the
      elements. */
  lemma {:induction false} UnshiftFresh(a: Ary, values: seq<Obj>)
    requires Valid(a) && a.start <= |values|
    ensures Valid(Unshifted(a, values)) && Elements(Unshifted(a, values)) == values + Elements(a)
  {
    var r := Unshifted(a, values);
    CopyBehind(values, a.tuple, a.start, a.total);
    assert r.tuple == values + Elements(a);
    assert Elements(r) == r.tuple;
  }

  /** Copying `values` into a fresh nil tuple and `len` elements of `src`
      right behind them gives the values, then those elements. */
  lemma {:induction false} CopyBehind(values: seq<Obj>, src: seq<Obj>, from: nat, len: nat)
    requires from + len <= |src|
    ensures Copy(Copy(Nils(len + |values|), values, 0, |values|, 0), src, from, len, |values|)
            == values + src[from..from + len]
  {
    var n := |values|;
    var t1 := Copy(Nils(len + n), values, 0, n, 0);
    var t2 := Copy(t1, src, from, len, n);
    var want := values + src[from..from + len];
    forall k | 0 <= k < |t2| ensures t2[k] == want[k] {
      if k < n {
        assert t2[k] == t1[k] == values[k];
      } else {
        assert want[k] == src[from + (k - n)];
      }
    }
  }

  /** Pushing then popping gives back the element and the contents. */
  lemma {:induction false} PopAfterPush(a: Ary, obj: Obj)
    requires Valid(a)
    ensures Pop(Push(a, obj)).obj == obj
    ensures Elements(Pop(Push(a, obj)).ary) == Elements(a)
  {
    assert (Elements(a) + [obj])[..a.total] == Elements(a);
  }

  /** Unshifting one value and shifting it off again gives both back. */
  lemma {:induction false} ShiftAfterUnshift(a: Ary, obj: Obj)
    requires Valid(a)
    ensures Shift(Unshift(a, [obj])).obj == obj
    ensures Elements(Shift(Unshift(a, [obj])).ary) == Elements(a)
  {
    assert ([obj] + Elements(a))[1..] == Elements(a);
  }

  datatype ArrayError = IndexOutOfBounds | NegativeLength

  /** The elements, followed by nils up to `n` when `n` is larger. */
  function Padded(s: seq<Obj>, n: int): (r: seq<Obj>)
    ensures |r| == if n > |s| then n else |s|
  {
    if n > |s| then s + Nils(n - |s|) else s
  }

  /** `[]=` with an index: stores the element, growing the window (with
      nils in between) when the index is at or past the end. A negative
      index before the start raises. */
  function Store(a: Ary, index: int, ent: Obj): (r: Result<Ary, ArrayError>)
    requires Valid(a)
    ensures r.Err? <==> Normalize(index, a.total) < 0
    ensures r.Err? ==> r.error == IndexOutOfBounds
    ensures r.Ok? ==>
              var j := Normalize(index, a.total);
              var p := Padded(Elements(a), j + 1);
              Valid(r.value) && Elements(r.value) == p[j := ent]
  {
    var j := if index < 0 then index + a.total else index;
    if j < 0 then Err(IndexOutOfBounds)
    else
      var nt := a.start + j + 1;
      var b := if |a.tuple| < nt then Reallocate(a, nt) else a;
      var t := b.tuple[b.start + j := ent];
      var total := if j >= b.total - 1 then j + 1 else b.total;
      var r := Ary(t, b.start, total);
      StoreContents(b, j, ent, r);
      Ok(r)
  }

  lemma {:induction false} StoreContents(b: Ary, j: nat, ent: Obj, r: Ary)
    requires Valid(b) && b.start + j < |b.tuple|
    requires r == Ary(b.tuple[b.start + j := ent], b.start, if j >= b.total - 1 then j + 1 else b.total)
    ensures Valid(r) && Elements(r) == Padded(Elements(b), j + 1)[j := ent]
  {
    var p := Padded(Elements(b), j + 1);
    assert forall k :: 0 <= k < |p| ==> p[k] == if k < b.total then b.tuple[b.start + k] else Nil;
    assert Elements(r) == p[j := ent];
  }

  /** `[]=` with an index and a length: replaces `len` elements from the
      index (clipped to those present) by the replacement's elements. A
      negative length, or a negative index before the start, raises. An
      index past the end pads with nils. */
  function Splice(a: Ary, index: int, len: int, rep: seq<Obj>): (r: Result<Ary, ArrayError>)
    requires Valid(a)
    ensures r.Err? <==> Normalize(index, a.total) < 0 || len < 0
    ensures r.Err? ==> r.error == if Normalize(index, a.total) < 0 then IndexOutOfBounds else NegativeLength
    ensures r.Ok? ==> Valid(r.value) && r.value.start == 0
    ensures r.Ok? ==>
              var j := Normalize(index, a.total);
              var e := Elements(a);
              Elements(r.value) ==
                if j <= a.total then e[..j] + rep + e[if j + len < a.total then j + len else a.total..]
                else e + Nils(j - a.total) + rep
  {
    var j := Normalize(index, a.total);
    if j < 0 then Err(IndexOutOfBounds)
    else if len < 0 then Err(NegativeLength)
    else
      SpliceContents(a, j, len, rep);
      Ok(Spliced(a, j, len, rep))
  }

  /** The replaced length, clipped to the elements from the index on. */
  function Clip(a: Ary, j: nat, len: nat): (l: nat)
  {
    var space := a.total - j;
    if len > space then (if space > 0 then space else 0) else len
  }

  /** The fresh tuple `[]=` builds: the elements before the index, the
      replacement at the index, then the elements after the replaced ones. */
  function Spliced(a: Ary, j: nat, len: nat, rep: seq<Obj>): (r: Ary)
    requires Valid(a)
  {
    var l := Clip(a, j, len);
    var newTotal := (if j > a.total then j else a.total) + |rep| - l;
    var m := if j < a.total then j else a.total;
    var t1 := Copy(Nils(newTotal), a.tuple, a.start, m, 0);
    var t2 := Copy(t1, rep, 0, |rep|, j);
    var t3 := if j < a.total then Copy(t2, a.tuple, a.start + j + l, a.total - j - l, j + |rep|) else t2;
    Ary(t3, 0, newTotal)
  }

  lemma {:induction false} SplicedAt(a: Ary, j: nat, len: nat, rep: seq<Obj>)
    requires Valid(a)
    ensures var r := Spliced(a, j, len, rep);
            var l := Clip(a, j, len);
            && r.start == 0 && |r.tuple| == r.total
            && r.total == (if j > a.total then j else a.total) + |rep| - l
            && forall i :: 0 <= i < r.total ==>
                 r.tuple[i] == if i < j then (if i < a.total then a.tuple[a.start + i] else Nil)
                               else if i < j + |rep| then rep[i - j]
                               else a.tuple[a.start + l + (i - |rep|)]
  {
  }

  lemma {:induction false} SpliceContents(a: Ary, j: nat, len: nat, rep: seq<Obj>)
    requires Valid(a)
    ensures Valid(Spliced(a, j, len, rep)) && Spliced(a, j, len, rep).start == 0
    ensures var e := Elements(a);
            Elements(Spliced(a, j, len, rep)) ==
              if j <= a.total then e[..j] + rep + e[if j + len < a.total then j + len else a.total..]
              else e + Nils(j - a.total) + rep
  {
    SplicedAt(a, j, len, rep);
    if j <= a.total {
      SpliceInside(a, j, len, rep);
    } else {
      SplicePast(a, j, len, rep);
    }
  }

  /** Replacing within the elements or right at their end. */
  lemma {:induction false} SpliceInside(a: Ary, j: nat, len: nat, rep: seq<Obj>)
    requires Valid(a) && j <= a.total
    ensures var e := Elements(a);
            Elements(Spliced(a, j, len, rep)) == e[..j] + rep + e[if j + len < a.total then j + len else a.total..]
  {
    var r := Spliced(a, j, len, rep);
    var e := Elements(a);
    var l := Clip(a, j, len);
    var want := e[..j] + rep + e[j + l..];
    assert j + l == if j + len < a.total then j + len else a.total;
    assert r.total == a.total + |rep| - l == |want|;
    forall k | 0 <= k < r.total
      ensures Elements(r)[k] == want[k]
    {
      SpliceInsideAt(a, j, len, rep, k);
      PartsAt(e, rep, j, l, k);
    }
    assert Elements(r) == want;
  }

  /** Element `k` of the fresh tuple, by the part it falls in. */
  lemma {:induction false} SpliceInsideAt(a: Ary, j: nat, len: nat, rep: seq<Obj>, k: nat)
    requires Valid(a) && j <= a.total && k < a.total + |rep| - Clip(a, j, len)
    ensures var r := Spliced(a, j, len, rep);
            var e := Elements(a);
            k < r.total && Elements(r)[k] ==
              if k < j then e[k] else if k < j + |rep| then rep[k - j] else e[Clip(a, j, len) + (k - |rep|)]
  {
    var r := Spliced(a, j, len, rep);
    assert r.start == 0 && r.total == |r.tuple| == a.total + |rep| - Clip(a, j, len);
    assert Elements(r)[k] == r.tuple[k];
    if k < j {
      SplicedBefore(a, j, len, rep, k);
    } else if k < j + |rep| {
      SplicedReplacement(a, j, len, rep, k);
    } else {
      SplicedAfter(a, j, len, rep, k);
    }
  }

  lemma {:induction false} SplicedBefore(a: Ary, j: nat, len: nat, rep: seq<Obj>, k: nat)
    requires Valid(a) && j <= a.total && k < j
    ensures Spliced(a, j, len, rep).tuple[k] == a.tuple[a.start + k]
  {
  }

  lemma {:induction false} SplicedReplacement(a: Ary, j: nat, len: nat, rep: seq<Obj>, k: nat)
    requires Valid(a) && j <= a.total && j <= k < j + |rep|
    ensures Spliced(a, j, len, rep).tuple[k] == rep[k - j]
  {
  }

  lemma {:induction false} SplicedAfter(a: Ary, j: nat, len: nat, rep: seq<Obj>, k: nat)
    requires Valid(a) && j <= a.total && j + |rep| <= k < Spliced(a, j, len, rep).total
    ensures Spliced(a, j, len, rep).tuple[k] == a.tuple[a.start + Clip(a, j, len) + (k - |rep|)]
  {
  }

  /** Element `k` of `e[..j] + rep + e[j + l..]`. */
  lemma {:induction false} PartsAt(e: seq<Obj>, rep: seq<Obj>, j: nat, l: nat, k: nat)
    requires j + l <= |e| && k < |e| + |rep| - l
    ensures var want := e[..j] + rep + e[j + l..];
            |want| == |e| + |rep| - l &&
            want[k] == if k < j then e[k] else if k < j + |rep| then rep[k - j] else e[l + (k - |rep|)]
  {
  }

  /** Writing past the end: nils fill the gap. */
  lemma {:induction false} SplicePast(a: Ary, j: nat, len: nat, rep: seq<Obj>)
    requires Valid(a) && j > a.total
    ensures Elements(Spliced(a, j, len, rep)) == Elements(a) + Nils(j - a.total) + rep
  {
    var r := Spliced(a, j, len, rep);
    var e := Elements(a);
    var want := e + Nils(j - a.total) + rep;
    SplicedAt(a, j, len, rep);
    forall k | 0 <= k < r.total
      ensures Elements(r)[k] == want[k]
    {
      if k < a.total {
        assert want[k] == e[k];
      } else if k < j {
        assert want[k] == Nil;
      } else {
        assert want[k] == rep[k - j];
      }
    }
  }

  /** `insert`: the items go before the element at a non-negative index, and
      after the element a negative index names. */
  function Insert(a: Ary, idx: int, items: seq<Obj>): (r: Result<Ary, ArrayError>)
    requires Valid(a)
    ensures r.Ok? ==> Valid(r.value)
    ensures items == [] ==> r == Ok(a)
    ensures items != [] ==> (r.Err? <==> idx < -(a.total as int) - 1)
    ensures items != [] && r.Ok? ==>
              var j := if idx < 0 then idx + a.total + 1 else idx;
              var e := Elements(a);
              Elements(r.value) == if j <= a.total then e[..j] + items + e[j..] else e + Nils(j - a.total) + items
  {
    if items == [] then Ok(a)
    else
      var j := if idx < 0 then idx + (a.total + 1) else idx;
      if j < 0 then Err(IndexOutOfBounds)
      else Splice(a, j, 0, items)
  }

  /** Deleting an element and inserting it back at the same index restores
      the contents. */
  lemma {:induction false} InsertAfterDeleteAt(a: Ary, j: nat)
    requires Valid(a) && j < a.total
    ensures var d := DeleteAt(a, j);
            Insert(d.ary, j, [d.obj]).Ok? && Elements(Insert(d.ary, j, [d.obj]).value) == Elements(a)
  {
    RemoveThenInsert(Elements(a), j);
  }

  lemma {:induction false} RemoveThenInsert(e: seq<Obj>, j: nat)
    requires j < |e|
    ensures var f := e[..j] + e[j + 1..];
            f[..j] + [e[j]] + f[j..] == e
  {
    var f := e[..j] + e[j + 1..];
    assert f[..j] == e[..j];
    assert f[j..] == e[j + 1..];
    assert e == e[..j] + [e[j]] + e[j + 1..];
  }

  /** The elements in reverse order. */
  function Reversed(s: seq<Obj>): (r: seq<Obj>)
    ensures |r| == |s|
  {
    seq(|s|, k requires 0 <= k < |s| => s[|s| - 1 - k])
  }

  lemma {:induction false} ReversedInvolutive(s: seq<Obj>)
    ensures Reversed(Reversed(s)) == s
  {
  }

  /** `reverse!`: copies the elements back to front into a fresh tuple of
      exactly their number. */
  method Reverse(a: Ary) returns (r: Ary)
    requires Valid(a)
    ensures Valid(r) && Elements(r) == Reversed(Elements(a))
  {
    if a.total <= 1 {
      assert Elements(a) == Reversed(Elements(a));
      return a;
    }
    var tuple := Nils(a.total);
    var i := 0;
    var j: int := a.start + a.total - 1;
    while j >= a.start
      invariant i == a.start + a.total - 1 - j && 0 <= i <= a.total
      invariant |tuple| == a.total
      invariant forall k :: 0 <= k < i ==> tuple[k] == a.tuple[a.start + a.total - 1 - k]
      invariant forall k :: i <= k < a.total ==> tuple[k] == Nil
    {
      tuple := tuple[i := a.tuple[j]];
      i := i + 1;
      j := j - 1;
    }
    r := Ary(tuple, 0, a.total);
    assert Elements(r) == Reversed(Elements(a));
  }
}
