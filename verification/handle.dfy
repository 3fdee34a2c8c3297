/** The handle table of the legacy C-extension layer (subtend). A C
    extension never holds a VM object itself: it holds a handle carrying an
    id and a slot index, and the slot of the table holds an entry with the
    same id and the object. Ids are handed out from a counter, slots from a
    `next` cursor that only moves forward; the slot array grows by a fixed
    step when the cursor reaches its end. */
module Handles {
  import opened Wrappers
  import opened Objects

  /** Slots of a new table, and how many are added when it is full. */
  const InitialTotal: nat := 100
  const Growth: nat := 25

  /** `rni_ht_entry`: the id of the handle that owns the slot and the
      object it stands for. */
  datatype Entry = Entry(handleId: int, obj: Obj)

  /** `rni_handle`: a flags word, the id (0 marks a detached handle) and
      the slot index. The `data` pointer that carries RStruct copies is
      not modelled. */
  datatype Handle = Handle(flags: bv32, handleId: int, tableIdx: nat)

  /** `rni_handle_table`: the cursor, the next id, and the slots
      (`total` is their number); an empty slot is `None`. */
  datatype Table = Table(next: nat, id: int, entries: seq<Option<Entry>>)

  /** A value passed where the C API expects a handle: an immediate
      (nil, true, false, a fixnum) passes through as it is. */
  datatype Reference = Immediate(value: Obj) | Held(handle: Handle)

  datatype HandleError =
    | OutOfTable   // the handle's slot index is past the last slot
    | NullEntry    // the handle's slot is empty: the C code dereferences NULL
    | Aborted      // the slot belongs to another handle: the C code aborts

  /** The shape every table the operations build keeps: the cursor is on
      an empty slot, every slot at or after it is empty, the next id is
      one more than the cursor, and the entry in slot `i` has id `i + 1`. */
  predicate Valid(t: Table) {
    && t.next < |t.entries|
    && t.id == t.next + 1
    && forall i :: 0 <= i < |t.entries| && t.entries[i].Some? ==>
         i < t.next && t.entries[i].value.handleId == i + 1
  }

  /** The handle's slot is in the table and holds the handle's entry. */
  predicate Matches(t: Table, h: Handle) {
    && h.tableIdx < |t.entries|
    && t.entries[h.tableIdx].Some?
    && t.entries[h.tableIdx].value.handleId == h.handleId
  }

  /** `handle_table_new`: cursor 0, first id 1, 100 slots, all empty (the
      C code leaves the allocated slots unset; they are read as empty). */
  function HandleTableNew(): (r: Table)
    ensures Valid(r)
    ensures r.next == 0 && r.id == 1 && |r.entries| == InitialTotal
    ensures forall h: Handle :: !Matches(r, h)
  {
    Table(0, 1, seq(InitialTotal, _ => None))
  }

  /** `handle_to_object`. */
  function HandleToObject(t: Table, v: Reference): (r: Result<Obj, HandleError>)
    ensures v.Immediate? ==> r == Ok(v.value)
    ensures v.Held? && v.handle.handleId == 0 ==> r == Ok(Nil)
    ensures v.Held? && v.handle.handleId != 0 ==>
      (r.Ok? <==> Matches(t, v.handle)) &&
      (r.Ok? ==> t.entries[v.handle.tableIdx] == Some(Entry(v.handle.handleId, r.value)))
    ensures r == Err(Aborted) <==>
      v.Held? && v.handle.handleId != 0 && v.handle.tableIdx < |t.entries| &&
      t.entries[v.handle.tableIdx].Some? && !Matches(t, v.handle)
  {
    match v
    case Immediate(o) => Ok(o)
    case Held(h) =>
      if h.handleId == 0 then Ok(Nil)
      else if h.tableIdx >= |t.entries| then Err(OutOfTable)
      else match t.entries[h.tableIdx]
        case None => Err(NullEntry)
        case Some(e) => if e.handleId != h.handleId then Err(Aborted) else Ok(e.obj)
  }

  /** `handle_new`: the handle takes the current id and the cursor's slot,
      the entry goes into that slot, the cursor moves to the first empty
      slot after it, and when it runs off the end the table grows by
      `Growth` empty slots. Only `next < total` is needed for the write to
      stay inside the slots. */
  method HandleNew(t: Table, obj: Obj) returns (t2: Table, h: Handle)
    requires t.next < |t.entries|
    ensures h == Handle(0, t.id, t.next) && t2.id == t.id + 1
    ensures |t2.entries| >= |t.entries|
    ensures t2.entries[t.next] == Some(Entry(t.id, obj))
    ensures forall i :: 0 <= i < |t.entries| && i != t.next ==> t2.entries[i] == t.entries[i]
    ensures forall i :: |t.entries| <= i < |t2.entries| ==> t2.entries[i].None?
    ensures t.next < t2.next < |t2.entries| && t2.entries[t2.next].None?
    ensures forall i :: t.next <= i < t2.next ==> t2.entries[i].Some?
    ensures |t2.entries| == if t2.next == |t.entries| then |t.entries| + Growth else |t.entries|
    ensures Valid(t) ==> Valid(t2) && t2.next == t.next + 1
    ensures Valid(t) ==> HandleToObject(t2, Held(h)) == Ok(obj)
  {
    var entries := t.entries[t.next := Some(Entry(t.id, obj))];
    var next := t.next;
    while next < |entries| && entries[next].Some?
      invariant t.next <= next <= |entries| == |t.entries|
      invariant forall i :: t.next <= i < next ==> entries[i].Some?
      invariant Valid(t) ==> next <= t.next + 1
      decreases |entries| - next
    {
      next := next + 1;
    }
    if next == |entries| {
      entries := entries + seq(Growth, _ => None);
    }
    t2 := Table(next, t.id + 1, entries);
    h := Handle(0, t.id, t.next);
  }

  /** `handle_new` leaves every other live handle resolving as before. */
  lemma {:induction false} NewKeepsOthers(t: Table, t2: Table, obj: Obj, g: Handle)
    requires Valid(t) && Matches(t, g)
    requires |t2.entries| >= |t.entries|
    requires t2.entries[t.next] == Some(Entry(t.id, obj))
    requires forall i :: 0 <= i < |t.entries| && i != t.next ==> t2.entries[i] == t.entries[i]
    ensures HandleToObject(t2, Held(g)) == HandleToObject(t, Held(g))
  {
    assert g.tableIdx < t.next;
  }

  /** The removal result: the table afterwards and the returned object. */
  datatype Removed = Removed(table: Table, value: Obj)

  /** `handle_remove` as written: an empty slot is dereferenced. */
  function HandleRemoveAsWritten(t: Table, h: Handle): (r: Result<Removed, HandleError>)
    ensures r.Ok? <==> h.tableIdx < |t.entries| && t.entries[h.tableIdx].Some?
    ensures r.Ok? ==> r == HandleRemove(t, h)
  {
    if h.tableIdx >= |t.entries| then Err(OutOfTable)
    else if t.entries[h.tableIdx].None? then Err(NullEntry)
    else HandleRemove(t, h)
  }

  /** `handle_remove`: a handle whose id differs from its slot's gets nil
      and changes nothing; otherwise the slot is emptied and the object
      returned. The cursor is not moved back, so the slot is not reused.
      An empty slot counts as a mismatch here (see
      `HandleRemoveAsWritten`). */
  function HandleRemove(t: Table, h: Handle): (r: Result<Removed, HandleError>)
    ensures r.Ok? <==> h.tableIdx < |t.entries|
    ensures r.Ok? && !Matches(t, h) ==> r.value == Removed(t, Nil)
    ensures r.Ok? && Matches(t, h) ==>
      r.value.value == t.entries[h.tableIdx].value.obj &&
      r.value.table == t.(entries := t.entries[h.tableIdx := None])
    ensures r.Ok? ==> r.value.table.next == t.next && r.value.table.id == t.id
  {
    if h.tableIdx >= |t.entries| then Err(OutOfTable)
    else match t.entries[h.tableIdx]
      case None => Ok(Removed(t, Nil))
      case Some(e) =>
        if e.handleId != h.handleId then Ok(Removed(t, Nil))
        else Ok(Removed(t.(entries := t.entries[h.tableIdx := None]), e.obj))
  }

  /** Removal keeps the table's shape. */
  lemma {:induction false} RemoveKeepsValid(t: Table, h: Handle)
    requires Valid(t) && HandleRemove(t, h).Ok?
    ensures Valid(HandleRemove(t, h).value.table)
  {
  }

  /** In a valid table a live handle's id is never 0 and fixes its slot,
      so two live handles never share a slot or an id. */
  lemma {:induction false} LiveHandleIds(t: Table, h: Handle, g: Handle)
    requires Valid(t) && Matches(t, h) && Matches(t, g)
    ensures h.handleId >= 1 && h.tableIdx == h.handleId - 1
    ensures h.handleId == g.handleId <==> h.tableIdx == g.tableIdx
  {
  }

  /** Removing a live handle gives back its object; afterwards the handle
      no longer resolves and a second removal returns nil, while the
      removal as written dereferences the empty slot. */
  lemma {:induction false} RemoveThenUse(t: Table, h: Handle)
    requires Valid(t) && Matches(t, h)
    ensures HandleRemove(t, h).Ok?
    ensures Ok(HandleRemove(t, h).value.value) == HandleToObject(t, Held(h))
    ensures HandleToObject(HandleRemove(t, h).value.table, Held(h)) == Err(NullEntry)
    ensures var t2 := HandleRemove(t, h).value.table;
      HandleRemove(t2, h) == Ok(Removed(t2, Nil)) &&
      HandleRemoveAsWritten(t2, h) == Err(NullEntry)
  {
    LiveHandleIds(t, h, h);
  }

  /** Removing one handle leaves the other live handles resolving as
      before. */
  lemma {:induction false} RemoveKeepsOthers(t: Table, h: Handle, g: Handle)
    requires Valid(t) && Matches(t, h) && Matches(t, g) && g.tableIdx != h.tableIdx
    ensures HandleToObject(HandleRemove(t, h).value.table, Held(g)) == HandleToObject(t, Held(g))
  {
  }

  /** `handle_make_global`, `handle_clear_global`, `handle_is_global`.
      The flag's bit is fixed by a header that is not part of this model,
      so it is a parameter: any non-zero mask. */
  function IsGlobal(h: Handle, flag: bv32): (r: bool)
    ensures r <==> h.flags | flag == h.flags
  {
    h.flags & flag == flag
  }

  function MakeGlobal(h: Handle, flag: bv32): (r: Handle)
    ensures IsGlobal(r, flag)
    ensures r.handleId == h.handleId && r.tableIdx == h.tableIdx
  {
    Handle(h.flags | flag, h.handleId, h.tableIdx)
  }

  function ClearGlobal(h: Handle, flag: bv32): (r: Handle)
    requires flag != 0
    ensures !IsGlobal(r, flag)
    ensures r.handleId == h.handleId && r.tableIdx == h.tableIdx
  {
    Handle(h.flags & !flag, h.handleId, h.tableIdx)
  }

  /** Setting the flag leaves every other bit of the flags word alone. */
  lemma {:induction false} MakeGlobalKeepsOtherFlags(h: Handle, flag: bv32)
    ensures MakeGlobal(h, flag).flags & !flag == h.flags & !flag
  {
  }

  /** So does clearing it. */
  lemma {:induction false} ClearGlobalKeepsOtherFlags(h: Handle, flag: bv32)
    requires flag != 0
    ensures ClearGlobal(h, flag).flags & !flag == h.flags & !flag
  {
  }

  /** Clearing after setting is clearing. */
  lemma {:induction false} ClearUndoesMake(h: Handle, flag: bv32)
    requires flag != 0
    ensures ClearGlobal(MakeGlobal(h, flag), flag) == ClearGlobal(h, flag)
  {
  }

  /** Setting the flag changes the handle exactly when it was not
      global. */
  lemma {:induction false} MakeGlobalIdempotent(h: Handle, flag: bv32)
    ensures MakeGlobal(h, flag) == h <==> IsGlobal(h, flag)
  {
  }

  /** The global flag does not change what a handle resolves to. */
  lemma {:induction false} GlobalIsInvisibleToLookup(t: Table, h: Handle, flag: bv32)
    requires flag != 0
    ensures HandleToObject(t, Held(MakeGlobal(h, flag))) == HandleToObject(t, Held(h))
    ensures HandleToObject(t, Held(ClearGlobal(h, flag))) == HandleToObject(t, Held(h))
  {
  }
}
