/**
 * The file registry of userfs.c: the global `file_list`, walked from its head.
 * The list is modelled as a sequence of records in list order.
 */
module Registry {
  import opened Types

  /** Position of the first record named `name`, counting from the head of the list. */
  function IndexOf(files: seq<FileRec>, name: Name): (r: Option<nat>)
    ensures r.Some? ==> r.value < |files| && files[r.value].name == name
    ensures r.Some? ==> forall j :: 0 <= j < r.value ==> files[j].name != name
    ensures r.None? <==> forall j :: 0 <= j < |files| ==> files[j].name != name
  {
    if |files| == 0 then None
    else if files[0].name == name then Some(0)
    else
      var rest := IndexOf(files[1..], name);
      if rest.Some? then Some(rest.value + 1) else None
  }

  /** The record `search_file` yields: the first one named `name`, or None for NULL. */
  function Find(files: seq<FileRec>, name: Name): (r: Option<FileRec>)
    ensures r.Some? ==> r.value in files && r.value.name == name
    ensures r.Some? ==>
      exists i :: 0 <= i < |files| && files[i] == r.value && (forall j :: 0 <= j < i ==> files[j].name != name)
    ensures r.None? <==> forall j :: 0 <= j < |files| ==> files[j].name != name
  {
    var i := IndexOf(files, name);
    if i.Some? then Some(files[i.value]) else None
  }

  /** No two records of the list carry the same name. */
  ghost predicate DistinctNames(files: seq<FileRec>)
  {
    forall i, j :: 0 <= i < j < |files| ==> files[i].name != files[j].name
  }

  /** `search_file`: walks the list from its head and stops at the first record whose name matches. */
  method SearchFile(files: seq<FileRec>, name: Name) returns (found: Option<FileRec>)
    ensures found == Find(files, name)
  {
    var i := 0;
    while i < |files|
      invariant 0 <= i <= |files|
      invariant forall j :: 0 <= j < i ==> files[j].name != name
    {
      if files[i].name == name {
        return Some(files[i]);
      }
      i := i + 1;
    }
    return None;
  }

  /**
   * The list after `create_file(f)` as the source writes it. On an empty list the new
   * record becomes the head. On a non-empty list the source walks to the last record
   * and then assigns the new record only to its local walking pointer, so the list
   * does not change and the new record is unreachable from it (a defect of the source,
   * kept here as written).
   */
  function Linked(files: seq<FileRec>, f: FileRec): (r: seq<FileRec>)
    ensures forall g :: g in files ==> g in r
    ensures |r| == if |files| == 0 then 1 else |files|
    ensures Find(r, f.name) == if |files| == 0 then Some(f) else Find(files, f.name)
  {
    if |files| == 0 then [f] else files
  }

  /** `create_file`: links `f` (a freshly allocated record) and returns the new list. */
  method CreateFile(files: seq<FileRec>, f: FileRec) returns (files': seq<FileRec>)
    ensures files' == Linked(files, f)
    ensures |files| == 0 ==> Find(files', f.name) == Some(f)
    ensures |files| > 0 ==> files' == files
  {
    if |files| == 0 {
      return [f];
    }
    // The walk to the tail, kept as userfs.c writes it: it finds the last record ...
    var last := 0;
    while last + 1 < |files|
      invariant 0 <= last < |files|
    {
      last := last + 1;
    }
    assert last == |files| - 1;
    // ... and then overwrites only its local pointer to `files[last]` with the new
    // record, so `files[last]`'s successor link stays NULL.
    files' := files;
  }

  /** The list once `ufs_delete` has unlinked the first record named `name`; unchanged when none is. */
  function RemoveFirst(files: seq<FileRec>, name: Name): (r: seq<FileRec>)
    ensures |r| == if IndexOf(files, name).Some? then |files| - 1 else |files|
    ensures forall g :: g in r ==> g in files
    ensures IndexOf(files, name).None? ==> r == files
  {
    var i := IndexOf(files, name);
    if i.Some? then files[..i.value] + files[i.value + 1..] else files
  }

  /** Reference definition of unlinking: rebuild the list, dropping the first match only. */
  function DropFirstMatch(files: seq<FileRec>, name: Name): seq<FileRec>
  {
    if |files| == 0 then []
    else if files[0].name == name then files[1..]
    else [files[0]] + DropFirstMatch(files[1..], name)
  }

  /** Unlinking by position agrees with the element-by-element reference definition. */
  lemma {:induction false} RemoveFirstIsDropFirstMatch(files: seq<FileRec>, name: Name)
    ensures RemoveFirst(files, name) == DropFirstMatch(files, name)
  {
    if |files| > 0 && files[0].name != name {
      RemoveFirstIsDropFirstMatch(files[1..], name);
      var i := IndexOf(files[1..], name);
      if i.Some? {
        assert files[1..][..i.value] + files[1..][i.value + 1..]
            == files[1..i.value + 1] + files[i.value + 2..];
        assert files[..i.value + 1] == [files[0]] + files[1..i.value + 1];
      }
    }
  }

  /**
   * Unlinking removes exactly one record, the first match at position `i`, and keeps
   * the others in their relative order; a lookup afterwards finds the next record of
   * that name, if any.
   */
  lemma RemoveFirstRemovesOne(files: seq<FileRec>, name: Name, i: nat)
    requires IndexOf(files, name) == Some(i)
    ensures |RemoveFirst(files, name)| == |files| - 1
    ensures forall j :: 0 <= j < i ==> RemoveFirst(files, name)[j] == files[j]
    ensures forall j :: i <= j < |files| - 1 ==> RemoveFirst(files, name)[j] == files[j + 1]
    ensures multiset(RemoveFirst(files, name)) + multiset{files[i]} == multiset(files)
    ensures Find(RemoveFirst(files, name), name) == Find(files[i + 1..], name)
  {
    var r := RemoveFirst(files, name);
    assert r == files[..i] + files[i + 1..];
    assert files == files[..i] + [files[i]] + files[i + 1..];
    assert multiset(files) == multiset(files[..i]) + multiset{files[i]} + multiset(files[i + 1..]);
    FindAfterPrefix(files[..i], files[i + 1..], name);
  }

  /** A lookup skips a prefix in which no record carries the name. */
  lemma FindAfterPrefix(prefix: seq<FileRec>, rest: seq<FileRec>, name: Name)
    requires forall j :: 0 <= j < |prefix| ==> prefix[j].name != name
    ensures Find(prefix + rest, name) == Find(rest, name)
  {
    var s := prefix + rest;
    var k := IndexOf(rest, name);
    if k.Some? {
      var n := k.value + |prefix|;
      forall j | 0 <= j < n ensures s[j].name != name {
        if j >= |prefix| {
          assert s[j] == rest[j - |prefix|];
        }
      }
      assert s[n] == rest[k.value];
      assert IndexOf(s, name) == Some(n);
    } else {
      forall j | 0 <= j < |s| ensures s[j].name != name {
        if j >= |prefix| {
          assert s[j] == rest[j - |prefix|];
        }
      }
    }
  }

  /** With distinct names, a deleted name can no longer be found. */
  lemma RemoveFirstHidesDistinctName(files: seq<FileRec>, name: Name)
    requires DistinctNames(files)
    ensures Find(RemoveFirst(files, name), name).None?
  {
  }

  /**
   * `create_file` as written versus the append its walk to the tail evidently aims
   * at: on a non-empty list the new name stays unknown, where appending would make
   * `search_file` find the new record.
   */
  lemma LinkedLosesRecordOnNonEmptyList(files: seq<FileRec>, f: FileRec)
    requires |files| > 0 && Find(files, f.name).None?
    ensures Find(Linked(files, f), f.name).None?
    ensures Find(files + [f], f.name) == Some(f)
  {
    FindAfterPrefix(files, [f], f.name);
  }

  /** `ufs_delete`'s walk: finds the first match with a trailing `prev` and splices it out. */
  method UnlinkFirst(files: seq<FileRec>, name: Name) returns (found: bool, files': seq<FileRec>)
    ensures found <==> exists j :: 0 <= j < |files| && files[j].name == name
    ensures files' == RemoveFirst(files, name)
    ensures !found ==> files' == files
  {
    var i := 0;
    while i < |files| && files[i].name != name
      invariant 0 <= i <= |files|
      invariant forall j :: 0 <= j < i ==> files[j].name != name
    {
      i := i + 1;
    }
    if i == |files| {
      return false, files;
    }
    if i == 0 {
      // prev == NULL: the head moves to the successor.
      files' := files[1..];
    } else {
      // prev->next skips the match.
      files' := files[..i] + files[i + 1..];
    }
    found := true;
  }
}
