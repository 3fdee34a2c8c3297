/** The VM's symbol table: every symbol is an index into a growing list of
    strings, with a hash index from string hashes to the ids whose strings
    share that hash. Interning a string twice yields the same symbol. The
    string hash `String::hash_str` is a parameter. */
module SymbolTables {
  import opened Wrappers
  import opened Bytes

  /** What a symbol's spelling says about the name it stands for. */
  datatype Kind = Normal | Constant | IVar | CVar | System

  const At: Byte := 64  // '@'
  const Underscore: Byte := 95  // '_'
  const UpperA: Byte := 65  // 'A'
  const UpperZ: Byte := 90  // 'Z'

  /** `detect_kind`. The C string is terminated by a NUL byte, so an empty
      string reads as a single 0 byte. */
  function DetectKind(s: seq<Byte>): (r: Kind)
    ensures r == Constant <==> |s| > 0 && UpperA <= s[0] <= UpperZ
    ensures r == IVar <==> |s| > 1 && s[0] == At && s[1] != At
    ensures r == CVar <==> |s| > 2 && s[0] == At && s[1] == At
    ensures r == System <==> |s| > 2 && s[0] == Underscore && s[1] == Underscore
  {
    var one := if |s| == 0 then 0 else s[0];
    if UpperA <= one <= UpperZ then Constant
    else if one == At && |s| > 1 then
      (if s[1] == At then (if |s| > 2 then CVar else Normal) else IVar)
    else if |s| > 2 && one == Underscore && s[1] == Underscore then System
    else Normal
  }

  /** `@@` alone and `@` alone are ordinary names. */
  lemma {:induction false} DetectKindShortSigils()
    ensures DetectKind([At, At]) == Normal
    ensures DetectKind([At]) == Normal
    ensures DetectKind([Underscore, Underscore]) == Normal
  {
  }

  datatype Table = Table(strings: seq<seq<Byte>>, kinds: seq<Kind>, buckets: map<nat, seq<nat>>)

  /** An empty symbol table. */
  const Empty: Table := Table([], [], map[])

  /** The table's invariant: one kind per string, no string twice, and the
      hash index lists exactly the ids whose strings have each hash. */
  predicate Valid(t: Table, hash: seq<Byte> -> nat) {
    && |t.kinds| == |t.strings|
    && (forall i :: 0 <= i < |t.strings| ==> t.kinds[i] == DetectKind(t.strings[i]))
    && (forall i, j :: 0 <= i < j < |t.strings| ==> t.strings[i] != t.strings[j])
    && Indexed(t, hash)
  }

  predicate Indexed(t: Table, hash: seq<Byte> -> nat) {
    && (forall i :: 0 <= i < |t.strings| ==> hash(t.strings[i]) in t.buckets && i in t.buckets[hash(t.strings[i])])
    && (forall h :: h in t.buckets ==> InBucket(t, hash, h))
  }

  predicate InBucket(t: Table, hash: seq<Byte> -> nat, h: nat)
    requires h in t.buckets
  {
    forall k :: 0 <= k < |t.buckets[h]| ==> t.buckets[h][k] < |t.strings| && hash(t.strings[t.buckets[h][k]]) == h
  }

  lemma {:induction false} EmptyValid(hash: seq<Byte> -> nat)
    ensures Valid(Empty, hash)
  {
  }

  /** `size`: the number of symbols. */
  function Size(t: Table): nat {
    |t.strings|
  }

  /** A table and the id of the symbol just interned in it. */
  datatype Interned = Interned(table: Table, id: nat)

  /** `add`: appends a string and its kind; the new id is the old size. */
  function Add(t: Table, s: seq<Byte>): (r: Interned)
    ensures r.id == Size(t) && Size(r.table) == Size(t) + 1
    ensures r.table.strings[r.id] == s && r.table.strings[..Size(t)] == t.strings
    ensures |r.table.kinds| == |t.kinds| + 1 && r.table.kinds[|t.kinds|] == DetectKind(s)
  {
    Interned(Table(t.strings + [s], t.kinds + [DetectKind(s)], t.buckets), |t.strings|)
  }

  /** The first id in `bucket` whose string is `s`. */
  function FindIn(bucket: seq<nat>, strings: seq<seq<Byte>>, s: seq<Byte>): (r: Option<nat>)
    requires forall k :: 0 <= k < |bucket| ==> bucket[k] < |strings|
    ensures r.Some? ==> r.value in bucket && r.value < |strings| && strings[r.value] == s
    ensures r.None? ==> forall k :: 0 <= k < |bucket| ==> strings[bucket[k]] != s
  {
    if bucket == [] then None
    else if strings[bucket[0]] == s then Some(bucket[0])
    else FindIn(bucket[1..], strings, s)
  }

  datatype SymbolError = EmptyName | NilName | ContainsNul

  /** `lookup(std::string)`: the symbol for `s`, interning it when it is
      new. The empty string is refused. */
  function Lookup(t: Table, hash: seq<Byte> -> nat, s: seq<Byte>): (r: Result<Interned, SymbolError>)
    requires Valid(t, hash)
    ensures r.Ok? <==> |s| > 0
    ensures r.Err? ==> r.error == EmptyName
  {
    if |s| == 0 then Err(EmptyName)
    else
      var h := hash(s);
      if h !in t.buckets then
        var a := Add(t, s);
        Ok(Interned(a.table.(buckets := t.buckets[h := [a.id]]), a.id))
      else
        var bucket := t.buckets[h];
        assert InBucket(t, hash, h);
        match FindIn(bucket, t.strings, s)
        case Some(id) => Ok(Interned(t, id))
        case None =>
          var a := Add(t, s);
          Ok(Interned(a.table.(buckets := t.buckets[h := bucket + [a.id]]), a.id))
  }

  /** A string already in the table is its own bucket's entry. */
  lemma {:induction false} PresentIsFound(t: Table, hash: seq<Byte> -> nat, s: seq<Byte>, i: nat)
    requires Valid(t, hash)
    requires i < |t.strings| && t.strings[i] == s
    ensures hash(s) in t.buckets
    ensures InBucket(t, hash, hash(s))
    ensures FindIn(t.buckets[hash(s)], t.strings, s) == Some(i)
  {
    assert InBucket(t, hash, hash(s));
  }

  /** A string the bucket search misses is not in the table. */
  lemma {:induction false} MissingIsAbsent(t: Table, hash: seq<Byte> -> nat, s: seq<Byte>)
    requires Valid(t, hash)
    requires hash(s) !in t.buckets ||
             (InBucket(t, hash, hash(s)) && FindIn(t.buckets[hash(s)], t.strings, s).None?)
    ensures s !in t.strings
  {
    if s in t.strings {
      var i :| 0 <= i < |t.strings| && t.strings[i] == s;
      PresentIsFound(t, hash, s, i);
    }
  }

  /** Interning keeps the invariant, returns an id naming `s`, and only
      ever appends to the list of strings. */
  lemma {:induction false} LookupInterns(t: Table, hash: seq<Byte> -> nat, s: seq<Byte>)
    requires Valid(t, hash) && |s| > 0
    ensures Valid(Lookup(t, hash, s).value.table, hash)
    ensures Lookup(t, hash, s).value.id < Size(Lookup(t, hash, s).value.table)
    ensures Lookup(t, hash, s).value.table.strings[Lookup(t, hash, s).value.id] == s
    ensures t.strings <= Lookup(t, hash, s).value.table.strings
  {
    var h := hash(s);
    if h in t.buckets {
      assert InBucket(t, hash, h);
    }
    var r := Lookup(t, hash, s).value;
    if r.table != t {
      MissingIsAbsent(t, hash, s);
      AddKeepsValid(t, hash, s);
    }
  }

  /** Appending an absent string and its id to its hash's bucket keeps the
      invariant. */
  lemma {:induction false} AddKeepsValid(t: Table, hash: seq<Byte> -> nat, s: seq<Byte>)
    requires Valid(t, hash) && s !in t.strings
    ensures var h := hash(s);
            var old_bucket := if h in t.buckets then t.buckets[h] else [];
            Valid(Table(t.strings + [s], t.kinds + [DetectKind(s)], t.buckets[h := old_bucket + [|t.strings|]]), hash)
  {
    var h := hash(s);
    var old_bucket := if h in t.buckets then t.buckets[h] else [];
    var n := |t.strings|;
    var u := Table(t.strings + [s], t.kinds + [DetectKind(s)], t.buckets[h := old_bucket + [n]]);
    forall i | 0 <= i < |u.strings|
      ensures hash(u.strings[i]) in u.buckets && i in u.buckets[hash(u.strings[i])]
    {
      if i < n {
        assert u.strings[i] == t.strings[i];
        assert i in t.buckets[hash(t.strings[i])];
      }
    }
    forall g | g in u.buckets
      ensures InBucket(u, hash, g)
    {
      if g != h {
        assert InBucket(t, hash, g);
      } else if h in t.buckets {
        assert InBucket(t, hash, h);
      }
    }
  }

  /** Looking up a string that is already interned changes nothing and
      returns its id. */
  lemma {:induction false} LookupFindsExisting(t: Table, hash: seq<Byte> -> nat, s: seq<Byte>, i: nat)
    requires Valid(t, hash)
    requires i < |t.strings| && t.strings[i] == s && |s| > 0
    ensures Lookup(t, hash, s) == Ok(Interned(t, i))
  {
    PresentIsFound(t, hash, s, i);
  }

  /** A new string gets the next id. */
  lemma {:induction false} LookupAddsNew(t: Table, hash: seq<Byte> -> nat, s: seq<Byte>)
    requires Valid(t, hash) && |s| > 0 && s !in t.strings
    ensures Lookup(t, hash, s).value.id == Size(t)
    ensures Size(Lookup(t, hash, s).value.table) == Size(t) + 1
  {
    var h := hash(s);
    if h in t.buckets {
      assert InBucket(t, hash, h);
      if FindIn(t.buckets[h], t.strings, s).Some? {
        assert false;
      }
    }
  }

  /** Interning is idempotent: a second lookup of the same string returns
      the same symbol and leaves the table as the first left it. */
  lemma {:induction false} LookupIdempotent(t: Table, hash: seq<Byte> -> nat, s: seq<Byte>)
    requires Valid(t, hash) && |s| > 0
    ensures Valid(Lookup(t, hash, s).value.table, hash)
    ensures var r := Lookup(t, hash, s).value;
            Lookup(r.table, hash, s) == Ok(r)
  {
    var r := Lookup(t, hash, s).value;
    LookupInterns(t, hash, s);
    LookupFindsExisting(r.table, hash, s, r.id);
  }

  /** `lookup_string`: the string a symbol names, or `NilName` for a nil
      symbol. The new `String` is made from the stored bytes read as a C
      string, so it stops at the first NUL byte. */
  function LookupString(t: Table, sym: Option<nat>): (r: Result<seq<Byte>, SymbolError>)
    requires sym.Some? ==> sym.value < Size(t)
    ensures r.Err? <==> sym.None?
    ensures r.Err? ==> r.error == NilName
    ensures r.Ok? ==> r.value <= t.strings[sym.value] && 0 !in r.value
    ensures r.Ok? && |r.value| < |t.strings[sym.value]| ==> t.strings[sym.value][|r.value|] == 0
  {
    match sym
    case None => Err(NilName)
    case Some(id) => Ok(CString(t.strings[id]))
  }

  /** `lookup_string` inverts `lookup` on strings without NUL bytes; a
      string holding one comes back cut off before its first NUL. */
  lemma {:induction false} LookupStringInvertsLookup(t: Table, hash: seq<Byte> -> nat, s: seq<Byte>)
    requires Valid(t, hash) && |s| > 0
    ensures var r := Lookup(t, hash, s).value;
            r.id < Size(r.table) && LookupString(r.table, Some(r.id)) == Ok(CString(s))
    ensures var r := Lookup(t, hash, s).value;
            0 !in s ==> LookupString(r.table, Some(r.id)) == Ok(s)
    ensures var r := Lookup(t, hash, s).value;
            0 in s ==> |LookupString(r.table, Some(r.id)).value| < |s|
  {
    LookupInterns(t, hash, s);
    if 0 !in s {
      CStringOfNulFree(s);
    } else {
      CStringStopsAtNul(s);
    }
  }

  /** A string holding a NUL byte is longer than its C string. */
  lemma {:induction false} CStringStopsAtNul(s: seq<Byte>)
    requires 0 in s
    ensures |CString(s)| < |s|
  {
    if s[0] != 0 {
      assert 0 in s[1..];
      CStringStopsAtNul(s[1..]);
    }
  }

  /** `"a\0b"` is interned with all three bytes, and `lookup_string` gives
      back `"a"`. */
  lemma {:induction false} LookupStringTruncates(t: Table, hash: seq<Byte> -> nat)
    requires Valid(t, hash)
    ensures var r := Lookup(t, hash, [97, 0, 98]).value;
            r.table.strings[r.id] == [97, 0, 98] && LookupString(r.table, Some(r.id)) == Ok([97])
  {
    var s: seq<Byte> := [97, 0, 98];
    LookupInterns(t, hash, s);
    assert s[1..] == [0, 98];
    assert CString(s[1..]) == [];
    assert CString(s) == [97];
  }

  /** `kind`: a symbol's kind is that of its spelling. */
  lemma {:induction false} KindOfLookup(t: Table, hash: seq<Byte> -> nat, s: seq<Byte>)
    requires Valid(t, hash) && |s| > 0
    ensures var r := Lookup(t, hash, s).value;
            r.id < |r.table.kinds| && r.table.kinds[r.id] == DetectKind(s)
  {
    LookupInterns(t, hash, s);
  }

  /** The bytes of a C string: everything before the first NUL byte. */
  function CString(s: seq<Byte>): (r: seq<Byte>)
    ensures r <= s && 0 !in r
    ensures |r| < |s| ==> s[|r|] == 0
  {
    if s == [] || s[0] == 0 then [] else [s[0]] + CString(s[1..])
  }

  /** `lookup(const char*)`: the string ends at its first NUL byte. */
  function LookupCString(t: Table, hash: seq<Byte> -> nat, s: seq<Byte>): (r: Result<Interned, SymbolError>)
    requires Valid(t, hash)
    ensures r.Ok? <==> |s| > 0 && s[0] != 0
  {
    Lookup(t, hash, CString(s))
  }

  /** `lookup(String*)`: a nil string, or one holding a NUL byte, is refused;
      otherwise the symbol of exactly its bytes. */
  function LookupRubyString(t: Table, hash: seq<Byte> -> nat, str: Option<seq<Byte>>): (r: Result<Interned, SymbolError>)
    requires Valid(t, hash)
    ensures str.None? ==> r == Err(NilName)
    ensures str.Some? && 0 in str.value ==> r == Err(ContainsNul)
    ensures str.Some? && 0 !in str.value ==> r == Lookup(t, hash, str.value)
  {
    match str
    case None => Err(NilName)
    case Some(bytes) =>
      if exists i :: 0 <= i < |bytes| && bytes[i] == 0 then Err(ContainsNul)
      else
        CStringOfNulFree(bytes);
        LookupCString(t, hash, bytes)
  }

  /** A string without NUL bytes is its own C string. */
  lemma {:induction false} CStringOfNulFree(s: seq<Byte>)
    requires 0 !in s
    ensures CString(s) == s
  {
    if s != [] {
      assert 0 !in s[1..];
      CStringOfNulFree(s[1..]);
    }
  }
}
