/** `ByteArray`, the VM's raw byte buffer under `String`: bounds-checked
    byte access, `memmove`-style moves, slicing, three-way comparison,
    copying into another buffer and substring search. A byte array is its
    sequence of bytes; every operation returns the new contents instead of
    writing in place. Bytes are unsigned 8-bit values. */
module ByteArrays {
  import opened Wrappers
  import opened Bytes
  import opened MachineInt


  /** The messages of `Exception::object_bounds_exceeded_error`. */
  datatype BoundsError =
    | IndexOutOfBounds
    | StartBelowZero
    | DestBelowZero
    | CountBelowZero
    | SelfLimitBelowZero
    | OtherLimitBelowZero
    | BeyondEnd
    | MoreThanAvailable

  /** `get_byte`: the byte at `idx`. */
  function GetByte(bytes: seq<Byte>, idx: int): (r: Result<Byte, BoundsError>)
    ensures r.Ok? <==> 0 <= idx < |bytes|
    ensures r.Ok? ==> r.value == bytes[idx]
    ensures r.Err? ==> r.error == IndexOutOfBounds
  {
    if idx < 0 || idx >= |bytes| then Err(IndexOutOfBounds) else Ok(bytes[idx])
  }

  /** The byte array after `set_byte` and the byte it now holds. */
  datatype Stored = Stored(bytes: seq<Byte>, value: Byte)

  /** `set_byte`: stores the low eight bits of `value` at `idx` and returns
      what was stored. */
  function SetByte(bytes: seq<Byte>, idx: int, value: int): (r: Result<Stored, BoundsError>)
    ensures r.Ok? <==> 0 <= idx < |bytes|
    ensures r.Err? ==> r.error == IndexOutOfBounds
    ensures r.Ok? ==> |r.value.bytes| == |bytes| && (value - r.value.value) % 256 == 0
    ensures r.Ok? ==> forall i :: 0 <= i < |bytes| && i != idx ==> r.value.bytes[i] == bytes[i]
  {
    if idx < 0 || idx >= |bytes| then Err(IndexOutOfBounds)
    else
      var b: Byte := value % 256;
      Ok(Stored(bytes[idx := b], b))
  }

  /** Reading back a byte just stored gives what `set_byte` returned. */
  lemma {:induction false} GetAfterSet(bytes: seq<Byte>, idx: int, value: int)
    requires SetByte(bytes, idx, value).Ok?
    ensures GetByte(SetByte(bytes, idx, value).value.bytes, idx) == Ok(SetByte(bytes, idx, value).value.value)
    ensures 0 <= value < 256 ==> SetByte(bytes, idx, value).value.value == value
  {
  }

  /** The bounds test of `get_byte` and `set_byte` as written:
      `(unsigned)idx >= size()` keeps only the low 32 bits of the 64-bit
      index. */
  function IndexCheckPassesAsWritten(idx: int, size: nat): (r: bool)
    ensures r ==> 0 <= idx
    ensures 0 <= idx < TwoTo32 ==> (r <==> idx < size)
  {
    !(idx < 0 || Unsigned32(idx) >= size)
  }

  /** The written check lets through an index 2^32 positions past a
      one-byte array, which `bytes[idx]` then reads. */
  lemma {:induction false} UnsignedCastPassesOutOfRange()
    ensures IndexCheckPassesAsWritten(TwoTo32, 1)
    ensures GetByte([0], TwoTo32).Err?
  {
  }

  /** The argument checks of `move_bytes`, in the source's order. */
  function MoveCheck(size: nat, src: int, cnt: int, dst: int): (r: Option<BoundsError>)
    ensures r.None? <==> 0 <= src && 0 <= dst && 0 <= cnt && dst + cnt <= size && src + cnt <= size
  {
    if src < 0 then Some(StartBelowZero)
    else if dst < 0 then Some(DestBelowZero)
    else if cnt < 0 then Some(CountBelowZero)
    else if dst + cnt > size then Some(BeyondEnd)
    else if src + cnt > size then Some(MoreThanAvailable)
    else None
  }

  /** The checks of `move_bytes` as written: `(unsigned)(dst + cnt)` and
      `(unsigned)(src + cnt)` keep only the low 32 bits of each end. They
      agree with `MoveCheck` while both ends stay below 2^32. */
  function MoveCheckAsWritten(size: nat, src: int, cnt: int, dst: int): (r: Option<BoundsError>)
    ensures dst + cnt < TwoTo32 && src + cnt < TwoTo32 ==> r == MoveCheck(size, src, cnt, dst)
    ensures r.None? ==> 0 <= src && 0 <= dst && 0 <= cnt
  {
    if src < 0 then Some(StartBelowZero)
    else if dst < 0 then Some(DestBelowZero)
    else if cnt < 0 then Some(CountBelowZero)
    else if Unsigned32(dst + cnt) > size then Some(BeyondEnd)
    else if Unsigned32(src + cnt) > size then Some(MoreThanAvailable)
    else None
  }

  /** As written, a one-byte move to `2^32 - 1` in a one-byte array passes
      the checks, and `memmove` writes outside the array. */
  lemma {:induction false} MoveCheckPassesBeyondEnd()
    ensures MoveCheckAsWritten(1, 0, 1, TwoTo32 - 1) == None
    ensures MoveCheck(1, 0, 1, TwoTo32 - 1) == Some(BeyondEnd)
  {
    assert Unsigned32(TwoTo32) == 0;
  }

  /** The byte array after `move_bytes` and the count it returns. */
  datatype Moved = Moved(bytes: seq<Byte>, count: int)

  /** `move_bytes`: `memmove` of `cnt` bytes from `src` to `dst` within the
      array. The destination receives the source bytes as they were before
      the move even when the ranges overlap. */
  method MoveBytes(bytes: seq<Byte>, src: int, cnt: int, dst: int) returns (r: Result<Moved, BoundsError>)
    ensures r.Err? <==> MoveCheck(|bytes|, src, cnt, dst).Some?
    ensures r.Err? ==> r.error == MoveCheck(|bytes|, src, cnt, dst).value
    ensures r.Ok? ==> r.value.count == cnt && |r.value.bytes| == |bytes|
    ensures r.Ok? ==> forall i :: 0 <= i < |bytes| ==>
              r.value.bytes[i] == if dst <= i < dst + cnt then bytes[src + (i - dst)] else bytes[i]
  {
    var check := MoveCheck(|bytes|, src, cnt, dst);
    if check.Some? {
      return Err(check.value);
    }
    var t;
    if dst <= src {
      t := MoveDown(bytes, src, cnt, dst);
    } else {
      t := MoveUp(bytes, src, cnt, dst);
    }
    return Ok(Moved(t, cnt));
  }

  /** An overlapping move towards lower addresses, copied front to back. */
  method MoveDown(bytes: seq<Byte>, src: int, cnt: int, dst: int) returns (t: seq<Byte>)
    requires 0 <= dst <= src && 0 <= cnt && src + cnt <= |bytes|
    ensures |t| == |bytes|
    ensures forall i :: 0 <= i < |bytes| ==> t[i] == if dst <= i < dst + cnt then bytes[src + (i - dst)] else bytes[i]
  {
    t := bytes;
    var k := 0;
    while k < cnt
      invariant 0 <= k <= cnt
      invariant |t| == |bytes|
      invariant forall i :: dst <= i < dst + k ==> t[i] == bytes[src + (i - dst)]
      invariant forall i :: 0 <= i < |bytes| && !(dst <= i < dst + k) ==> t[i] == bytes[i]
    {
      assert t[src + k] == bytes[src + k];
      t := t[dst + k := t[src + k]];
      k := k + 1;
    }
  }

  /** An overlapping move towards higher addresses, copied back to front. */
  method MoveUp(bytes: seq<Byte>, src: int, cnt: int, dst: int) returns (t: seq<Byte>)
    requires 0 <= src < dst && 0 <= cnt && dst + cnt <= |bytes|
    ensures |t| == |bytes|
    ensures forall i :: 0 <= i < |bytes| ==> t[i] == if dst <= i < dst + cnt then bytes[src + (i - dst)] else bytes[i]
  {
    t := bytes;
    var k := cnt;
    while k > 0
      invariant 0 <= k <= cnt
      invariant |t| == |bytes|
      invariant forall i :: dst + k <= i < dst + cnt ==> t[i] == bytes[src + (i - dst)]
      invariant forall i :: 0 <= i < |bytes| && !(dst + k <= i < dst + cnt) ==> t[i] == bytes[i]
    {
      k := k - 1;
      assert t[src + k] == bytes[src + k];
      t := t[dst + k := t[src + k]];
    }
  }

  /** `fetch_bytes`: a new array of `cnt + 1` bytes, the `cnt` bytes from
      `src` followed by a zero byte. */
  function FetchBytes(bytes: seq<Byte>, src: int, cnt: int): (r: Result<seq<Byte>, BoundsError>)
    ensures r.Ok? <==> 0 <= src && 0 <= cnt && src + cnt <= |bytes|
    ensures r.Ok? ==> |r.value| == cnt + 1 && r.value[cnt] == 0
    ensures r.Ok? ==> forall k :: 0 <= k < cnt ==> r.value[k] == bytes[src + k]
  {
    if src < 0 then Err(StartBelowZero)
    else if cnt < 0 then Err(CountBelowZero)
    else if src + cnt > |bytes| then Err(MoreThanAvailable)
    else Ok(bytes[src..src + cnt] + [0])
  }

  /** The check of `fetch_bytes` as written: `(unsigned)(src + cnt)` keeps
      only the low 32 bits of the end. It agrees with `FetchBytes` while
      the end stays below 2^32. */
  function FetchCheckAsWritten(size: nat, src: int, cnt: int): (r: Option<BoundsError>)
    ensures src + cnt < TwoTo32 ==> (r.None? <==> 0 <= src && 0 <= cnt && src + cnt <= size)
    ensures r.None? ==> 0 <= src && 0 <= cnt
  {
    if src < 0 then Some(StartBelowZero)
    else if cnt < 0 then Some(CountBelowZero)
    else if Unsigned32(src + cnt) > size then Some(MoreThanAvailable)
    else None
  }

  /** As written, fetching one byte from `2^32 - 1` of a one-byte array
      passes the check, and `memcpy` reads outside the array. */
  lemma {:induction false} FetchCheckPassesBeyondEnd()
    ensures FetchCheckAsWritten(1, TwoTo32 - 1, 1) == None
    ensures FetchBytes([0], TwoTo32 - 1, 1) == Err(MoreThanAvailable)
  {
    assert Unsigned32(TwoTo32) == 0;
  }

  /** The sign of `memcmp(a, b, len)`: the first differing byte decides,
      compared as unsigned values. */
  function Memcmp(a: seq<Byte>, b: seq<Byte>, len: nat): (r: int)
    requires len <= |a| && len <= |b|
    decreases len
  {
    if len == 0 then 0
    else if a[0] < b[0] then -1
    else if a[0] > b[0] then 1
    else Memcmp(a[1..], b[1..], len - 1)
  }

  /** `memcmp` is zero exactly on equal prefixes, and swapping its operands
      flips its sign. */
  lemma {:induction false} MemcmpZeroIffEqual(a: seq<Byte>, b: seq<Byte>, len: nat)
    requires len <= |a| && len <= |b|
    ensures Memcmp(a, b, len) in {-1, 0, 1}
    ensures Memcmp(a, b, len) == 0 <==> a[..len] == b[..len]
    ensures Memcmp(b, a, len) == -Memcmp(a, b, len)
    decreases len
  {
    if len > 0 && a[0] == b[0] {
      MemcmpZeroIffEqual(a[1..], b[1..], len - 1);
      assert a[..len] == [a[0]] + a[1..][..len - 1];
      assert b[..len] == [b[0]] + b[1..][..len - 1];
    }
  }

  /** `compare_bytes`: compares the first `slim` bytes of this array (at
      most its size) with the first `olim` bytes of `other` (likewise); a
      common prefix is decided by the lengths. */
  function CompareBytes(bytes: seq<Byte>, other: seq<Byte>, slim: int, olim: int): (r: Result<int, BoundsError>)
    ensures r.Ok? <==> 0 <= slim && 0 <= olim
    ensures slim < 0 ==> r == Err(SelfLimitBelowZero)
    ensures 0 <= slim && olim < 0 ==> r == Err(OtherLimitBelowZero)
    ensures r.Ok? ==> r.value in {-1, 0, 1}
  {
    if slim < 0 then Err(SelfLimitBelowZero)
    else if olim < 0 then Err(OtherLimitBelowZero)
    else
      var m := if |bytes| < slim then |bytes| else slim;
      var n := if |other| < olim then |other| else olim;
      var len := if m < n then m else n;
      MemcmpZeroIffEqual(bytes, other, len);
      var cmp := Memcmp(bytes, other, len);
      if cmp == 0 then (if m < n then Ok(-1) else if m > n then Ok(1) else Ok(0))
      else Ok(cmp)
  }

  /** The clamp of `compare_bytes` as written: `size() < (unsigned)lim`
      compares the size with the low 32 bits of the limit but keeps the
      whole limit. Below 2^32 it is the minimum of the two. */
  function ClampAsWritten(size: nat, lim: nat): (r: nat)
    ensures lim < TwoTo32 ==> r == if size < lim then size else lim
    ensures r == size || r == lim
  {
    if size < Unsigned32(lim) then size else lim
  }

  /** As written, two one-byte arrays compared with both limits at 2^32
      keep the limits, so `memcmp` runs 2^32 bytes over both arrays; the
      clamped comparison reads one byte of each. */
  lemma {:induction false} ClampKeepsLimitBeyondEnd()
    ensures ClampAsWritten(1, TwoTo32) == TwoTo32
    ensures CompareBytes([7], [7], TwoTo32, TwoTo32) == Ok(0)
    ensures CompareBytes([7], [9], TwoTo32, TwoTo32) == Ok(-1)
  {
    assert Unsigned32(TwoTo32) == 0;
  }

  /** `compare_bytes` is antisymmetric, and it returns 0 exactly when both
      clamped prefixes are the same bytes. */
  lemma {:induction false} CompareBytesAntisymmetric(a: seq<Byte>, b: seq<Byte>, alim: nat, blim: nat)
    ensures CompareBytes(b, a, blim, alim).value == -CompareBytes(a, b, alim, blim).value
    ensures CompareBytes(a, b, alim, blim).value == 0 <==>
              a[..if |a| < alim then |a| else alim] == b[..if |b| < blim then |b| else blim]
  {
    var m := if |a| < alim then |a| else alim;
    var n := if |b| < blim then |b| else blim;
    var len := if m < n then m else n;
    MemcmpZeroIffEqual(a, b, len);
    if a[..m] == b[..n] {
      assert m == n;
      assert a[..len] == a[..m][..len];
      assert b[..len] == b[..n][..len];
    }
    if Memcmp(a, b, len) == 0 && m == n {
      assert a[..m] == a[..len];
    }
  }

  /** `dup_into`: copies this array over the start of `other`, as much as
      fits; the rest of `other` keeps its bytes. */
  function DupInto(bytes: seq<Byte>, other: seq<Byte>): (r: seq<Byte>)
    ensures |r| == |other|
    ensures forall i :: 0 <= i < |other| ==> r[i] == if i < |bytes| then bytes[i] else other[i]
  {
    var k := if |bytes| < |other| then |bytes| else |other|;
    bytes[..k] + other[k..]
  }

  /** After `dup_into` a copy at least as long as the original compares
      equal to it over the original's length. */
  lemma {:induction false} DupIntoComparesEqual(bytes: seq<Byte>, other: seq<Byte>)
    requires |bytes| <= |other|
    ensures CompareBytes(DupInto(bytes, other), bytes, |bytes|, |bytes|) == Ok(0)
  {
    var d := DupInto(bytes, other);
    assert d[..|bytes|] == bytes[..|bytes|];
    CompareBytesAntisymmetric(d, bytes, |bytes|, |bytes|);
  }

  /** `pat` occurs in `bytes` at `i`. */
  predicate MatchesAt(bytes: seq<Byte>, pat: seq<Byte>, i: int) {
    0 <= i && i + |pat| <= |bytes| && forall j :: 0 <= j < |pat| ==> bytes[i + j] == pat[j]
  }

  /** `locate`: the index just past the first occurrence of `pat` at or after
      `start`, or nil. An empty pattern gives `start` back. A negative start
      becomes a huge `size_t` and finds nothing. */
  method Locate(bytes: seq<Byte>, pat: seq<Byte>, start: int) returns (r: Option<int>)
    ensures |pat| == 0 ==> r == Some(start)
    ensures |pat| > 0 && start < 0 ==> r == None
    ensures |pat| > 0 && r.Some? ==> MatchesAt(bytes, pat, r.value - |pat|) && start <= r.value - |pat|
    ensures |pat| > 0 && 0 <= start ==>
              forall i :: start <= i && (r.None? || i < r.value - |pat|) ==> !MatchesAt(bytes, pat, i)
    ensures 0 < |pat| <= |bytes| < TwoTo64 && 0 <= start < TwoTo64 ==>
              (r.Some? <==> LocateAsWritten(bytes, pat, start).Found?)
              && (r.Some? ==> r.value == LocateAsWritten(bytes, pat, start).end)
  {
    var len := |pat|;
    if len == 0 {
      return Some(start);
    }
    if start < 0 || len > |bytes| {
      return None;
    }
    var i := start;
    while i <= |bytes| - len
      invariant start <= i
      invariant forall k :: start <= k < i ==> !MatchesAt(bytes, pat, k)
    {
      if bytes[i] == pat[0] {
        var j := 1;
        while j < len
          invariant 1 <= j <= len
          invariant forall m :: 0 <= m < j ==> bytes[i + m] == pat[m]
        {
          if bytes[i + j] != pat[j] {
            break;
          }
          j := j + 1;
        }
        if j == len {
          if |bytes| < TwoTo64 && start < TwoTo64 {
            FirstMatchIsWritten(bytes, pat, start, Some(i + len));
          }
          return Some(i + len);
        }
      }
      i := i + 1;
    }
    if |bytes| < TwoTo64 && start < TwoTo64 {
      FirstMatchIsWritten(bytes, pat, start, None);
    }
    return None;
  }

  /** Inside the array, the written outer loop from `i` finds the first
      occurrence at or after `i`, and reports none when there is none up to
      `limit`. */
  lemma {:induction false} LocateFromFindsFirst(bytes: seq<Byte>, pat: seq<Byte>, i: nat, limit: nat)
    requires 0 < |pat| && limit + |pat| <= |bytes|
    ensures var r := LocateFromAsWritten(bytes, pat, i, limit);
            !r.ReadsPastEnd?
            && (r.Found? ==> forall k :: i <= k < r.end - |pat| ==> !MatchesAt(bytes, pat, k))
            && (r.NotFound? ==> forall k :: i <= k <= limit ==> !MatchesAt(bytes, pat, k))
    decreases limit + 1 - i
  {
    if i <= limit {
      LocateFromStep(bytes, pat, i, limit);
      LocateFromFindsFirst(bytes, pat, i + 1, limit);
    }
  }

  /** When the pattern fits and `start` is a valid `size_t`, the first
      occurrence at or after `start` is what the written loop finds. */
  lemma {:induction false} FirstMatchIsWritten(bytes: seq<Byte>, pat: seq<Byte>, start: int, r: Option<int>)
    requires 0 < |pat| <= |bytes| < TwoTo64 && 0 <= start < TwoTo64
    requires r.Some? ==> MatchesAt(bytes, pat, r.value - |pat|) && start <= r.value - |pat|
    requires forall i :: start <= i && (r.None? || i < r.value - |pat|) ==> !MatchesAt(bytes, pat, i)
    ensures r.Some? <==> LocateAsWritten(bytes, pat, start).Found?
    ensures r.Some? ==> r.value == LocateAsWritten(bytes, pat, start).end
  {
    var limit := |bytes| - |pat|;
    LocateAsWrittenStart(bytes, pat, start);
    LocateFromFindsFirst(bytes, pat, start, limit);
    var w := LocateAsWritten(bytes, pat, start);
    if r.Some? {
      assert r.value - |pat| <= limit;
      if w.Found? {
        assert !(w.end - |pat| < r.value - |pat|);
        assert !(r.value - |pat| < w.end - |pat|);
      }
    }
  }

  /** Inside the array, the inner loop finds the match exactly when the
      pattern occurs at `i`. */
  lemma {:induction false} MatchRestInBounds(bytes: seq<Byte>, pat: seq<Byte>, i: nat, j: nat)
    requires 1 <= j <= |pat| && i + |pat| <= |bytes|
    requires forall m :: 0 <= m < j ==> bytes[i + m] == pat[m]
    ensures MatchRestAsWritten(bytes, pat, i, j) == if MatchesAt(bytes, pat, i) then Found(i + |pat|) else NotFound
    decreases |pat| - j
  {
    if j < |pat| && bytes[i + j] == pat[j] {
      MatchRestInBounds(bytes, pat, i, j + 1);
    }
  }

  /** One round of the written outer loop inside the array: the candidate
      `i` is the answer when the pattern occurs there, and otherwise the loop
      moves on to `i + 1`. */
  lemma {:induction false} LocateFromStep(bytes: seq<Byte>, pat: seq<Byte>, i: nat, limit: nat)
    requires 0 < |pat| && i <= limit && limit + |pat| <= |bytes|
    ensures LocateFromAsWritten(bytes, pat, i, limit)
            == if MatchesAt(bytes, pat, i) then Found(i + |pat|) else LocateFromAsWritten(bytes, pat, i + 1, limit)
  {
    if bytes[i] == pat[0] {
      MatchRestInBounds(bytes, pat, i, 1);
    }
  }

  /** When the pattern fits and `start` is a valid `size_t`, the written
      `locate` is the outer loop from `start` up to `size() - len`. */
  lemma {:induction false} LocateAsWrittenStart(bytes: seq<Byte>, pat: seq<Byte>, start: int)
    requires 0 < |pat| <= |bytes| < TwoTo64 && 0 <= start < TwoTo64
    ensures LocateAsWritten(bytes, pat, start) == LocateFromAsWritten(bytes, pat, start, |bytes| - |pat|)
  {
    assert start % TwoTo64 == start;
  }

  /** The loop bound of `locate` as written: `size() - len` on `size_t`
      wraps around when the pattern is longer than the array. */
  function LocateLimitAsWritten(size: nat, len: nat): (r: nat)
    ensures r < TwoTo64
    ensures len <= size < TwoTo64 ==> r == size - len
    ensures size < len <= size + TwoTo64 ==> r == TwoTo64 - (len - size)
  {
    (size - len) % TwoTo64
  }

  /** What the written loop of `locate` does: it finds the pattern ending
      at `end`, runs out of candidates, or reads the array at `index`, which
      is past its end. */
  datatype LocateOutcome = Found(end: int) | NotFound | ReadsPastEnd(index: nat)

  /** The inner loop of `locate` as written: compares pattern byte `j` on
      with the array from `i + j`, stopping at the first mismatch. The bytes
      before `i + j` have been read already, so they are inside the array. */
  function MatchRestAsWritten(bytes: seq<Byte>, pat: seq<Byte>, i: nat, j: nat): (r: LocateOutcome)
    requires j <= |pat| && i + j <= |bytes|
    ensures r.Found? ==> r.end == i + |pat| <= |bytes| && forall m :: j <= m < |pat| ==> bytes[i + m] == pat[m]
    ensures r.ReadsPastEnd? ==> |bytes| <= r.index < i + |pat|
    decreases |pat| - j
  {
    if j == |pat| then Found(i + |pat|)
    else if i + j >= |bytes| then ReadsPastEnd(i + j)
    else if bytes[i + j] != pat[j] then NotFound
    else
      var r := MatchRestAsWritten(bytes, pat, i, j + 1);
      assert r.Found? ==> forall m :: j <= m < |pat| ==> bytes[i + m] == pat[m] by {
        if r.Found? {
          forall m | j <= m < |pat| ensures bytes[i + m] == pat[m] {
            if m > j {
              assert j + 1 <= m;
            }
          }
        }
      }
      r
  }

  /** The outer loop of `locate` as written, from candidate `i` up to the
      bound `limit`; a read beyond the array is reported, not performed. */
  function LocateFromAsWritten(bytes: seq<Byte>, pat: seq<Byte>, i: nat, limit: nat): (r: LocateOutcome)
    requires |pat| > 0
    ensures r.Found? ==> i <= r.end - |pat| && MatchesAt(bytes, pat, r.end - |pat|)
    ensures r.ReadsPastEnd? ==> r.index >= |bytes|
    decreases limit + 1 - i
  {
    if i > limit then NotFound
    else if i >= |bytes| then ReadsPastEnd(i)
    else if bytes[i] != pat[0] then LocateFromAsWritten(bytes, pat, i + 1, limit)
    else
      match MatchRestAsWritten(bytes, pat, i, 1)
      case NotFound => LocateFromAsWritten(bytes, pat, i + 1, limit)
      case other => other
  }

  /** `locate` as written: `start` is converted to `size_t` and the loop runs
      up to the unsigned bound `size() - len`. */
  function LocateAsWritten(bytes: seq<Byte>, pat: seq<Byte>, start: int): (r: LocateOutcome)
    ensures |pat| == 0 ==> r == Found(start)
    ensures r.ReadsPastEnd? ==> r.index >= |bytes|
    ensures |pat| > 0 && r.Found? ==> MatchesAt(bytes, pat, r.end - |pat|)
  {
    if |pat| == 0 then Found(start)
    else LocateFromAsWritten(bytes, pat, start % TwoTo64, LocateLimitAsWritten(|bytes|, |pat|))
  }

  /** With a pattern longer than the array, every start from 0 to the size of
      the array makes the written loop read past the end: the wrapped bound
      keeps the loop going and no candidate can match. */
  lemma {:induction false} LocateReadsPastEnd(bytes: seq<Byte>, pat: seq<Byte>, start: int)
    requires |bytes| < |pat| < TwoTo64 && 0 <= start <= |bytes|
    ensures LocateAsWritten(bytes, pat, start).ReadsPastEnd?
  {
    var limit := LocateLimitAsWritten(|bytes|, |pat|);
    assert limit == TwoTo64 - (|pat| - |bytes|);
    LocateFromReadsPastEnd(bytes, pat, start, limit);
  }

  lemma {:induction false} LocateFromReadsPastEnd(bytes: seq<Byte>, pat: seq<Byte>, i: nat, limit: nat)
    requires 0 < |pat| && |bytes| < |pat| && i <= |bytes| <= limit
    ensures LocateFromAsWritten(bytes, pat, i, limit).ReadsPastEnd?
    decreases |bytes| - i
  {
    if i < |bytes| {
      LocateFromReadsPastEnd(bytes, pat, i + 1, limit);
    }
  }

  /** When the pattern fits in the array, the written loop never reads past
      the end. */
  lemma {:induction false} LocateAsWrittenInBounds(bytes: seq<Byte>, pat: seq<Byte>, start: int)
    requires |pat| <= |bytes| < TwoTo64
    ensures !LocateAsWritten(bytes, pat, start).ReadsPastEnd?
  {
    if |pat| > 0 {
      LocateFromInBounds(bytes, pat, start % TwoTo64, |bytes| - |pat|);
    }
  }

  lemma {:induction false} LocateFromInBounds(bytes: seq<Byte>, pat: seq<Byte>, i: nat, limit: nat)
    requires 0 < |pat| && limit + |pat| <= |bytes|
    ensures !LocateFromAsWritten(bytes, pat, i, limit).ReadsPastEnd?
    decreases limit + 1 - i
  {
    if i <= limit {
      LocateFromInBounds(bytes, pat, i + 1, limit);
    }
  }
}
