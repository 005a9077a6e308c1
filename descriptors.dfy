/**
 * The descriptor table of userfs.c: `file_descriptors`, a growable array of
 * optional descriptors indexed by handle, with its `file_descriptor_capacity`.
 * The functions below state what one allocation does to the table's contents;
 * the class `DescriptorTable` performs it in place on an array.
 */
module Descriptors {
  import opened Types

  /** A table whose every slot is taken. */
  ghost predicate Full(s: seq<Option<Desc>>)
  {
    forall j :: 0 <= j < |s| ==> s[j].Some?
  }

  /** The lowest-index empty slot, if there is one. */
  function FirstFree(s: seq<Option<Desc>>): (r: Option<nat>)
    ensures r.Some? ==> r.value < |s| && s[r.value].None?
    ensures r.Some? ==> forall j :: 0 <= j < r.value ==> s[j].Some?
    ensures r.None? <==> Full(s)
  {
    if |s| == 0 then None
    else if s[0].None? then Some(0)
    else
      var rest := FirstFree(s[1..]);
      if rest.Some? then Some(rest.value + 1) else None
  }

  /** `n` empty slots, as `calloc` hands them out. */
  function Empty(n: nat): (r: seq<Option<Desc>>)
    ensures |r| == n && forall j :: 0 <= j < n ==> r[j].None?
  {
    seq(n, _ => None)
  }

  /**
   * The table and the handle after `create_file_descriptor(d)`: an unallocated table
   * first gets one slot; the lowest empty slot receives `d`; a full table doubles,
   * keeps its entries at their indices and puts `d` at the old capacity.
   */
  function Allocated(s: seq<Option<Desc>>, d: Desc): (r: (seq<Option<Desc>>, nat))
    ensures r.1 < |r.0| && r.0[r.1] == Some(d)
    ensures |r.0| == if |s| == 0 then 1 else if Full(s) then 2 * |s| else |s|
    ensures r.1 < |s| ==> s[r.1].None?
    ensures forall j :: 0 <= j < r.1 && j < |s| ==> s[j].Some?
    ensures r.1 >= |s| ==> r.1 == |s| && Full(s)
    ensures forall j :: 0 <= j < |s| && j != r.1 ==> r.0[j] == s[j]
    ensures forall j :: |s| <= j < |r.0| && j != r.1 ==> r.0[j].None?
  {
    var t := if |s| == 0 then [None] else s;
    var free := FirstFree(t);
    if free.Some? then
      (t[free.value := Some(d)], free.value)
    else
      (t + [Some(d)] + Empty(|t| - 1), |t|)
  }

  /** A handle `ufs_close` accepts: in range and bound to a descriptor. */
  predicate IsOpen(s: seq<Option<Desc>>, fd: int)
  {
    0 <= fd < |s| && s[fd].Some?
  }

  /** Closing the descriptor in the lowest taken slot of an otherwise full prefix and
      allocating again hands that slot back out. */
  lemma ReleasedSlotIsReused(s: seq<Option<Desc>>, k: nat, d: Desc)
    requires IsOpen(s, k)
    requires forall j :: 0 <= j < k ==> s[j].Some?
    ensures Allocated(s[k := None], d) == (s[k := Some(d)], k)
  {
    var t := s[k := None];
    assert t[k].None?;
    assert forall j :: 0 <= j < k ==> t[j].Some?;
    assert FirstFree(t) == Some(k);
    assert t[k := Some(d)] == s[k := Some(d)];
  }

  /** The first `k` slots are taken and all later ones are empty. */
  ghost predicate Dense(s: seq<Option<Desc>>, k: nat)
  {
    k <= |s| && forall j :: 0 <= j < |s| ==> (s[j].Some? <==> j < k)
  }

  /** On a dense table allocation hands out the next handle and keeps the table dense. */
  lemma AllocatedOnDense(s: seq<Option<Desc>>, k: nat, d: Desc)
    requires Dense(s, k)
    ensures Allocated(s, d).1 == k
    ensures Dense(Allocated(s, d).0, k + 1)
  {
    if k < |s| {
      assert s[k].None?;
      assert !Full(s);
    }
  }

  /** The handles handed out by allocating `ds` one after another, and the final table. */
  function AllocateAll(s: seq<Option<Desc>>, ds: seq<Desc>): (seq<Option<Desc>>, seq<nat>)
    decreases |ds|
  {
    if |ds| == 0 then (s, [])
    else
      var first := Allocated(s, ds[0]);
      var rest := AllocateAll(first.0, ds[1..]);
      (rest.0, [first.1] + rest.1)
  }

  /** Allocating on a dense table without closing hands out consecutive handles. */
  lemma {:induction false} AllocateAllConsecutive(s: seq<Option<Desc>>, k: nat, ds: seq<Desc>)
    requires Dense(s, k)
    ensures AllocateAll(s, ds).1 == seq(|ds|, i => k + i)
    decreases |ds|
  {
    if |ds| > 0 {
      AllocatedOnDense(s, k, ds[0]);
      AllocateAllConsecutive(Allocated(s, ds[0]).0, k + 1, ds[1..]);
    }
  }

  /** A fresh table hands out 0, 1, ..., n - 1 to n opens without a close. */
  lemma FreshTableCountsUp(ds: seq<Desc>)
    ensures AllocateAll([], ds).1 == seq(|ds|, i => i)
  {
    AllocateAllConsecutive([], 0, ds);
  }

  /** The global descriptor array and its capacity, updated in place. */
  class DescriptorTable {
    var slots: array<Option<Desc>>
    var capacity: nat

    /** `file_descriptor_capacity` is the length of `file_descriptors` (0 while it is NULL). */
    ghost predicate Valid()
      reads this
    {
      capacity == slots.Length
    }

    /** The table's contents, slot by slot. */
    ghost function Slots(): seq<Option<Desc>>
      reads this, slots
    {
      slots[..]
    }

    /** The table before the first open: no array, capacity 0. */
    constructor ()
      ensures Valid() && fresh(slots)
      ensures Slots() == []
    {
      slots := new Option<Desc>[0];
      capacity := 0;
    }

    /** `create_file_descriptor`: stores `d` in the lowest empty slot, growing the array when full. */
    method Allocate(d: Desc) returns (fd: nat)
      requires Valid()
      modifies this, slots
      ensures Valid()
      ensures slots == old(slots) || fresh(slots)
      ensures (Slots(), fd) == Allocated(old(Slots()), d)
    {
      ghost var before := slots[..];
      ghost var start := if |before| == 0 then [None] else before;
      if capacity == 0 {
        capacity := 1;
        slots := new Option<Desc>[1](_ => None);
      }
      assert slots[..] == start;
      var i := 0;
      while i < capacity
        invariant 0 <= i <= capacity == slots.Length
        invariant slots[..] == start
        invariant forall j :: 0 <= j < i ==> slots[j].Some?
      {
        if slots[i].None? {
          slots[i] := Some(d);
          assert FirstFree(start) == Some(i);
          return i;
        }
        i := i + 1;
      }
      assert FirstFree(start).None?;
      capacity := capacity * 2;
      var extended := new Option<Desc>[capacity](_ => None);
      i := 0;
      while i < capacity / 2
        invariant 0 <= i <= capacity / 2 == slots.Length
        invariant extended.Length == capacity && slots[..] == start
        invariant extended[..i] == slots[..i]
        invariant forall j :: i <= j < capacity ==> extended[j].None?
      {
        extended[i] := slots[i];
        i := i + 1;
      }
      extended[capacity / 2] := Some(d);
      assert extended[..] == start + [Some(d)] + Empty(|start| - 1);
      slots := extended;
      fd := capacity / 2;
    }

    /** Empties slot `fd` (the store of NULL in `ufs_close`). */
    method Clear(fd: nat)
      requires Valid() && fd < capacity
      modifies slots
      ensures Slots() == old(Slots())[fd := None]
    {
      slots[fd] := None;
    }
  }
}
