/**
 * The lifecycle calls of userfs.c (`ufs_open`, `ufs_close`, `ufs_delete`,
 * `ufs_errno`) over the global state: the error code, the file list, the
 * descriptor table and the allocator of fresh file identities.
 *
 * `OpenStep`, `CloseStep` and `DeleteStep` say what each call does to that state
 * as a value; the class `FileSystem` performs the calls in place and is proved
 * to agree with them.
 */
module UserFs {
  import opened Types
  import Registry
  import Descriptors

  /** `UFS_CREATE` from userfs.h; its value only has to differ from 0. */
  const CreateFlag: int := 1

  /** Every global of userfs.c that the lifecycle calls read or write. */
  datatype State = State(err: ErrorCode, files: seq<FileRec>, slots: seq<Option<Desc>>, nextId: FileId)

  /** The globals at program start. */
  const Initial: State := State(NoErr, [], [], 0)

  /** `ufs_open(name, flags)`: the new globals and the returned handle (-1 on failure). */
  function OpenStep(st: State, name: Name, flags: int): (r: (State, int))
    ensures r.1 == -1 <==> flags == 0 && Registry.Find(st.files, name).None?
    ensures r.0.err == if r.1 == -1 then NoFile else NoErr
    ensures r.1 != -1 ==> 0 <= r.1 < |r.0.slots| && r.0.slots[r.1].Some?
    ensures |st.slots| <= |r.0.slots| && |r.0.files| <= |st.files| + 1
  {
    var found := Registry.Find(st.files, name);
    if flags == 0 && found.None? then
      (st.(err := NoFile), -1)
    else if flags == CreateFlag && found.None? then
      var f := FileRec(st.nextId, name);
      var a := Descriptors.Allocated(st.slots, Desc(Some(f.id)));
      (State(NoErr, Registry.Linked(st.files, f), a.0, st.nextId + 1), a.1 as int)
    else
      // With flags other than 0 and CreateFlag a missing name binds the descriptor to NULL.
      var target := if found.Some? then Some(found.value.id) else None;
      var a := Descriptors.Allocated(st.slots, Desc(target));
      (st.(err := NoErr, slots := a.0), a.1 as int)
  }

  /** `ufs_close(fd)`: the new globals and the returned status. */
  function CloseStep(st: State, fd: int): (r: (State, int))
    ensures r.1 == 0 || r.1 == -1
    ensures r.0.files == st.files && r.0.nextId == st.nextId && |r.0.slots| == |st.slots|
    ensures r.1 == 0 ==> 0 <= fd < |r.0.slots| && r.0.slots[fd].None? && r.0.err == st.err
  {
    if Descriptors.IsOpen(st.slots, fd) then
      (st.(slots := st.slots[fd := None]), 0)
    else
      (st.(err := NoFile), -1)
  }

  /** `ufs_delete(name)`: the new globals and the returned status; the error code is never touched. */
  function DeleteStep(st: State, name: Name): (r: (State, int))
    ensures r.1 == 0 || r.1 == -1
    ensures r.0.err == st.err && r.0.slots == st.slots && r.0.nextId == st.nextId
    ensures |r.0.files| == if r.1 == 0 then |st.files| - 1 else |st.files|
  {
    if Registry.IndexOf(st.files, name).Some? then
      (st.(files := Registry.RemoveFirst(st.files, name)), 0)
    else
      (st, -1)
  }

  /**
   * `ufs_open` starts by resetting the error code: it ends as NoErr unless the call
   * is a plain open (flags 0) of a missing name, which fails with NoFile, returns -1
   * and allocates nothing.
   */
  lemma OpenErrorCode(st: State, name: Name, flags: int)
    ensures var r := OpenStep(st, name, flags);
      (r.1 == -1) == (flags == 0 && Registry.Find(st.files, name).None?) &&
      r.0.err == (if r.1 == -1 then NoFile else NoErr)
    ensures flags == 0 && Registry.Find(st.files, name).None? ==>
      OpenStep(st, name, flags).0 == st.(err := NoFile)
  {
  }

  /**
   * A successful open returns a handle inside the (never shrinking) table, bound to
   * the new descriptor, in the lowest slot that was free; every other slot keeps its
   * contents.
   */
  lemma OpenHandle(st: State, name: Name, flags: int)
    requires OpenStep(st, name, flags).1 != -1
    ensures var r := OpenStep(st, name, flags);
      0 <= r.1 < |r.0.slots| && r.0.slots[r.1].Some? &&
      (r.0.slots[r.1].value.file.None? <==> flags != CreateFlag && Registry.Find(st.files, name).None?) &&
      |st.slots| <= |r.0.slots| &&
      (r.1 < |st.slots| ==> st.slots[r.1].None?) &&
      (forall j :: 0 <= j < r.1 && j < |st.slots| ==> st.slots[j].Some?) &&
      (forall j :: 0 <= j < |st.slots| && j != r.1 ==> r.0.slots[j] == st.slots[j])
  {
  }

  /** Opening an existing name binds the new descriptor to the first file of that name. */
  lemma OpenExistingBindsFirstMatch(st: State, name: Name, flags: int)
    requires Registry.Find(st.files, name).Some?
    ensures var r := OpenStep(st, name, flags);
      r.1 >= 0 && r.0.files == st.files && r.0.nextId == st.nextId &&
      r.0.slots[r.1] == Some(Desc(Some(Registry.Find(st.files, name).value.id)))
  {
  }

  /** On an empty registry, opening with CreateFlag creates the file and makes it findable. */
  lemma CreateOnEmptyRegistry(st: State, name: Name)
    requires st.files == []
    ensures var r := OpenStep(st, name, CreateFlag);
      r.0.files == [FileRec(st.nextId, name)] &&
      Registry.Find(r.0.files, name) == Some(FileRec(st.nextId, name)) &&
      r.0.slots[r.1] == Some(Desc(Some(st.nextId)))
  {
  }

  /**
   * Source defect: on a non-empty registry, creating a missing name hands out a
   * descriptor bound to a new file that never enters the list, so a plain open of
   * the same name right after still fails with NoFile.
   */
  lemma CreateOnNonEmptyRegistryIsLost(st: State, name: Name)
    requires st.files != [] && Registry.Find(st.files, name).None?
    ensures var r := OpenStep(st, name, CreateFlag);
      r.1 >= 0 && r.0.files == st.files &&
      r.0.slots[r.1] == Some(Desc(Some(st.nextId))) &&
      OpenStep(r.0, name, 0) == (r.0.(err := NoFile), -1)
  {
  }

  /**
   * Source defect: with flags other than 0 and CreateFlag, opening a missing name
   * still succeeds and binds the descriptor to no file.
   */
  lemma OpenOtherFlagsBindsNull(st: State, name: Name, flags: int)
    requires flags != 0 && flags != CreateFlag && Registry.Find(st.files, name).None?
    ensures var r := OpenStep(st, name, flags);
      r.1 >= 0 && r.0.err == NoErr && r.0.files == st.files &&
      r.0.slots[r.1] == Some(Desc(None))
  {
  }

  /**
   * `ufs_close` fails exactly on a negative, out-of-range or empty handle, and then
   * only sets NoFile; otherwise it empties exactly that slot and returns 0.
   */
  lemma CloseOutcome(st: State, fd: int)
    ensures var r := CloseStep(st, fd);
      (r.1 == 0) == (0 <= fd < |st.slots| && st.slots[fd].Some?) &&
      (r.1 != 0 ==> r.1 == -1 && r.0 == st.(err := NoFile)) &&
      (r.1 == 0 ==> (r.0.err == st.err && r.0.files == st.files && |r.0.slots| == |st.slots| &&
        r.0.slots[fd].None? && forall j :: 0 <= j < |st.slots| && j != fd ==> r.0.slots[j] == st.slots[j]))
  {
  }

  /**
   * A handle closed while every lower slot is taken is the one the next successful
   * open hands back.
   */
  lemma CloseThenOpenReuses(st: State, fd: nat, name: Name, flags: int)
    requires Descriptors.IsOpen(st.slots, fd)
    requires forall j :: 0 <= j < fd ==> st.slots[j].Some?
    requires flags != 0 || Registry.Find(st.files, name).Some?
    ensures OpenStep(CloseStep(st, fd).0, name, flags).1 == fd
  {
  }

  /**
   * `ufs_delete` unlinks exactly the first file of that name, keeps the rest in order
   * and returns 0; when no file matches it returns -1 and changes nothing (not even
   * the error code, which the source leaves as it was).
   */
  lemma DeleteOutcome(st: State, name: Name)
    ensures var r := DeleteStep(st, name);
      (r.1 == 0) == (exists j :: 0 <= j < |st.files| && st.files[j].name == name) &&
      r.0.err == st.err && r.0.slots == st.slots &&
      (r.1 != 0 ==> r.1 == -1 && r.0 == st)
    ensures var i := Registry.IndexOf(st.files, name);
      i.Some? ==> DeleteStep(st, name).0.files == st.files[..i.value] + st.files[i.value + 1..]
  {
  }

  /**
   * When names are distinct, a plain open of a deleted name fails straight away,
   * while descriptors opened before the delete keep their slots.
   */
  lemma DeleteThenOpenFails(st: State, name: Name)
    requires Registry.DistinctNames(st.files)
    ensures var d := DeleteStep(st, name).0;
      d.slots == st.slots && OpenStep(d, name, 0) == (d.(err := NoFile), -1)
  {
  }

  /**
   * A run from program start: create `a` (handle 0), open it again (handle 1),
   * close 0, open it again (handle 0 is reused), then delete it, after which a
   * plain open fails with NoFile.
   */
  lemma ExampleRun(a: Name)
    ensures var s1 := OpenStep(Initial, a, CreateFlag);
      var s2 := OpenStep(s1.0, a, 0);
      var s3 := CloseStep(s2.0, 0);
      var s4 := OpenStep(s3.0, a, 0);
      var s5 := DeleteStep(s4.0, a);
      var s6 := OpenStep(s5.0, a, 0);
      s1.1 == 0 && s2.1 == 1 && s3.1 == 0 && s4.1 == 0 && s5.1 == 0 &&
      s6 == (s5.0.(err := NoFile), -1)
  {
  }

  /** What every reachable state satisfies. */
  ghost predicate Reachable(st: State)
  {
    |st.files| <= 1 &&
    (forall j :: 0 <= j < |st.files| ==> st.files[j].id < st.nextId) &&
    (forall j :: 0 <= j < |st.slots| && st.slots[j].Some? && st.slots[j].value.file.Some? ==>
      st.slots[j].value.file.value < st.nextId)
  }

  /** The globals at program start are reachable. */
  lemma InitialReachable()
    ensures Reachable(Initial)
  {
  }

  /**
   * Because `create_file` only links into an empty list, the registry never holds
   * more than one file; every identity in use stays below the allocator's next one,
   * so a created file is fresh.
   */
  lemma OpenKeepsReachable(st: State, name: Name, flags: int)
    requires Reachable(st)
    ensures Reachable(OpenStep(st, name, flags).0)
  {
  }

  /** Closing keeps the state reachable. */
  lemma CloseKeepsReachable(st: State, fd: int)
    requires Reachable(st)
    ensures Reachable(CloseStep(st, fd).0)
  {
  }

  /** Deleting keeps the state reachable. */
  lemma DeleteKeepsReachable(st: State, name: Name)
    requires Reachable(st)
    ensures Reachable(DeleteStep(st, name).0)
  {
  }

  /** The global state of userfs.c, updated in place by the lifecycle calls. */
  class FileSystem {
    /** `ufs_error_code`. */
    var err: ErrorCode
    /** `file_list`, head first. */
    var files: seq<FileRec>
    /** `file_descriptors` with `file_descriptor_capacity`. */
    var table: Descriptors.DescriptorTable
    /** The identity the next `calloc` of a `struct file` yields. */
    var nextId: FileId

    ghost predicate Valid()
      reads this, table
    {
      table.Valid()
    }

    /** The globals as a value. */
    ghost function Abs(): State
      reads this, table, table.slots
    {
      State(err, files, table.Slots(), nextId)
    }

    /** The globals at program start. */
    constructor ()
      ensures Valid() && fresh(table) && fresh(table.slots)
      ensures Abs() == Initial
    {
      err := NoErr;
      files := [];
      table := new Descriptors.DescriptorTable();
      nextId := 0;
    }

    /** `ufs_errno`: the error code left by the last call that set it. */
    method Errno() returns (e: ErrorCode)
      ensures e == err
    {
      e := err;
    }

    /** `ufs_open`. */
    method Open(name: Name, flags: int) returns (fd: int)
      requires Valid()
      modifies this, table, table.slots
      ensures Valid() && table == old(table)
      ensures table.slots == old(table.slots) || fresh(table.slots)
      ensures (Abs(), fd) == OpenStep(old(Abs()), name, flags)
    {
      err := NoErr;
      var desired := Registry.SearchFile(files, name);
      if flags == 0 {
        if desired.None? {
          err := NoFile;
          return -1;
        }
      }
      var target := if desired.Some? then Some(desired.value.id) else None;
      if flags == CreateFlag {
        if desired.None? {
          var f := FileRec(nextId, name);
          nextId := nextId + 1;
          files := Registry.CreateFile(files, f);
          target := Some(f.id);
        }
      }
      var handle := table.Allocate(Desc(target));
      fd := handle;
    }

    /** `ufs_close`. */
    method Close(fd: int) returns (status: int)
      requires Valid()
      modifies this, table.slots
      ensures Valid() && table == old(table) && table.slots == old(table.slots)
      ensures (Abs(), status) == CloseStep(old(Abs()), fd)
    {
      if fd < 0 || fd >= table.capacity {
        err := NoFile;
        return -1;
      }
      if table.slots[fd].None? {
        err := NoFile;
        return -1;
      }
      table.Clear(fd);
      return 0;
    }

    /** `ufs_delete`. */
    method Delete(name: Name) returns (status: int)
      requires Valid()
      modifies this
      ensures Valid() && table == old(table)
      ensures (Abs(), status) == DeleteStep(old(Abs()), name)
    {
      var found, rest := Registry.UnlinkFirst(files, name);
      if !found {
        return -1;
      }
      files := rest;
      return 0;
    }
  }
}
