# userfs: descriptor table and file registry

This project models the core of `userfs.c`, an in-memory file storage with a
POSIX-like API. The only logic that file implements is this:

- the global **file registry** (`file_list`), a list of `struct file` records. It is
  searched by name (`search_file`), extended by `create_file` and unlinked by `ufs_delete`;
- the global **descriptor table** (`file_descriptors`, `file_descriptor_capacity`), a
  growable array of optional descriptors. `create_file_descriptor` fills the
  lowest empty slot, or doubles the array when it is full. `ufs_close` empties a slot;
- the global **error code** (`ufs_error_code`, read by `ufs_errno`). `ufs_open`
  resets it on entry, and `ufs_open` and `ufs_close` set it on failure;
- the lifecycle calls `ufs_open`, `ufs_close`, `ufs_delete` built on them.

Layout:

- `types.dfy` (module `Types`): names, file records, descriptors and error codes.
  File names are opaque keys compared by equality, because the source compares
  `char *` pointers, not strings. A file's identity is a fresh number taken from an
  allocator counter. A descriptor may be bound to no file (NULL).
- `registry.dfy` (module `Registry`): the file list as a sequence in list order. The
  spec functions `IndexOf`, `Find`, `Linked` and `RemoveFirst` describe it. The
  list walks of the source are the methods `SearchFile`, `CreateFile` and `UnlinkFirst`.
- `descriptors.dfy` (module `Descriptors`): the spec functions `FirstFree` and
  `Allocated` give the table after one allocation. The class `DescriptorTable` does
  the same in place on an `array`, including the element-by-element copy when the
  array grows.
- `userfs.dfy` (module `UserFs`): the globals as a `State` value, and the functions
  `OpenStep`, `CloseStep` and `DeleteStep` saying what each call does to them. The
  class `FileSystem` holds the globals as fields. Its methods are proved to agree
  with those functions.

### Source defects modelled as written

These behaviours are reproduced, not corrected. Each is stated by a lemma:

- `create_file` links a new file only when the list is empty. On a non-empty list it
  walks to the tail and then assigns the new record to its local walking pointer
  only, so the file never becomes reachable (`Registry.LinkedLosesRecordOnNonEmptyList`,
  `UserFs.CreateOnNonEmptyRegistryIsLost`). As a result the registry never holds more
  than one file (`UserFs.OpenKeepsReachable`).
- `ufs_open` with flags other than 0 and `UFS_CREATE` on a missing name allocates
  a descriptor bound to NULL (`UserFs.OpenOtherFlagsBindsNull`).
- `ufs_delete` sets no error code when no file matches (`UserFs.DeleteOutcome`).
- `refs` is never incremented or decremented, so it is not part of the model.

## Model

| member | source | states |
|---|---|---|
| Registry.IndexOf | userfs.c:72-82 | the position of the first record with the given name: no earlier record matches; None exactly when no record matches |
| Registry.Find | userfs.c:72-82 | the record `search_file` returns has the given name and is in the list; NULL exactly when no record has that name |
| Registry.SearchFile | userfs.c:72-82 | walking the list from the head and returning at the first match yields exactly `Find` |
| Registry.CreateFile | userfs.c:119-137 | on an empty list the new file becomes the only record and is found by name; on a non-empty list the list is unchanged (the defect) |
| Registry.LinkedLosesRecordOnNonEmptyList | userfs.c:127-134 | after `create_file` on a non-empty list the new name is still not found, where appending at the tail would make it found |
| Registry.Linked | userfs.c:119-137 | the list after `create_file`: no record is lost; it has one record on an empty list and keeps its length otherwise; a lookup of the new name finds the new file only when the list was empty |
| Registry.RemoveFirst | userfs.c:204-225 | the list after `ufs_delete`: one record shorter when the name matches, unchanged when it does not, and holding no record that was not there before |
| Registry.UnlinkFirst | userfs.c:207-224 | the walk with a trailing `prev` reports whether any record matches and splices out the first match; the list is unchanged on a miss |
| Registry.RemoveFirstIsDropFirstMatch | userfs.c:207-220 | unlinking by position equals the record-by-record rebuild that drops only the first match |
| Registry.RemoveFirstRemovesOne | userfs.c:207-224 | unlinking removes exactly one record (the first match), keeps the others in relative order, and a later lookup finds the next record of that name |
| Registry.FindAfterPrefix | userfs.c:75-79 | the search walks past records whose names differ |
| Registry.RemoveFirstHidesDistinctName | userfs.c:204-225 | when names are distinct, a deleted name is no longer found |
| Descriptors.FirstFree | userfs.c:96-102 | the lowest-index empty slot; None exactly when every slot is taken |
| Descriptors.Allocated | userfs.c:84-117 | the handle is in range and bound to the new descriptor; it is the lowest empty slot; capacity becomes 1 on first use, stays unchanged when a slot is free, and doubles when full, with the handle equal to the old capacity; other entries keep their indices; new slots (zeroed by `calloc`) are empty |
| Descriptors.ReleasedSlotIsReused | userfs.c:55-60 | emptying the lowest taken slot of a full prefix makes the next allocation return that slot |
| Descriptors.AllocatedOnDense | userfs.c:97-116 | on a table whose first k slots are taken and the rest empty, allocation returns k and keeps that shape |
| Descriptors.AllocateAllConsecutive | userfs.c:84-117 | repeated allocation on such a table returns k, k+1, k+2, ... |
| Descriptors.FreshTableCountsUp | userfs.c:91-116 | N opens without a close on a fresh table return 0..N-1 in order |
| Descriptors.DescriptorTable.constructor | userfs.c:61-63 | the table starts with no slots and capacity 0 |
| Descriptors.DescriptorTable.Allocate | userfs.c:84-117 | the in-place scan, growth and copy leave the array equal to `Allocated` of the old contents and return its handle; capacity stays equal to the array length |
| Descriptors.DescriptorTable.Clear | userfs.c:199 | exactly the given slot becomes empty |
| UserFs.OpenStep | userfs.c:139-162 | the globals and the handle after `ufs_open`: -1 exactly for flags 0 on a missing name; the error code ends as NoFile on failure and NoErr otherwise; a returned handle is in the table and bound; the table never shrinks and the list gains at most one file |
| UserFs.CloseStep | userfs.c:186-202 | the globals and the status after `ufs_close`: 0 or -1; the list, the identity counter and the capacity are unchanged; on success the handle's slot is empty and the error code is untouched |
| UserFs.DeleteStep | userfs.c:204-225 | the globals and the status after `ufs_delete`: 0 or -1; the error code, the table and the identity counter are unchanged; the list loses one file on success and none on failure |
| UserFs.OpenErrorCode | userfs.c:142-151 | `ufs_open` resets the error code; it returns -1 with NoFile exactly for flags 0 on a missing name, and then allocates nothing and changes nothing else |
| UserFs.OpenHandle | userfs.c:154-161 | a successful open returns a handle inside the table, in the lowest free slot; the table never shrinks; other slots are untouched; the descriptor is NULL-bound exactly when the name is missing and the flags are not UFS_CREATE |
| UserFs.OpenExistingBindsFirstMatch | userfs.c:144-161 | opening an existing name binds the descriptor to the first file of that name and leaves the registry alone |
| UserFs.CreateOnEmptyRegistry | userfs.c:154-158 | with UFS_CREATE on an empty registry the new file is linked, findable and bound to the descriptor |
| UserFs.CreateOnNonEmptyRegistryIsLost | userfs.c:127-134 | with UFS_CREATE on a non-empty registry the new file is bound to the descriptor but not linked, so a plain open of the name right after fails |
| UserFs.OpenOtherFlagsBindsNull | userfs.c:144-161 | other flags on a missing name succeed with a descriptor bound to NULL |
| UserFs.CloseOutcome | userfs.c:186-202 | close fails exactly for a negative, out-of-range or empty handle, then only sets NoFile and returns -1; otherwise it empties exactly that slot and returns 0 |
| UserFs.CloseThenOpenReuses | userfs.c:55-60 | a closed handle whose lower slots are all taken is returned by the next successful open |
| UserFs.DeleteOutcome | userfs.c:204-225 | delete returns 0 exactly when a file of that name exists and then unlinks the first one; otherwise it returns -1 and changes nothing; the error code and the table are never touched |
| UserFs.DeleteThenOpenFails | userfs.c:204-225 | with distinct names, a plain open of a deleted name fails, while the descriptor table is unchanged by the delete |
| UserFs.ExampleRun | userfs.c:139-225 | from program start: create gives 0, a second open gives 1, close 0, the next open reuses 0, delete succeeds, a plain open then fails with NoFile |
| UserFs.InitialReachable | userfs.c:12-63 | the initial globals satisfy the invariant |
| UserFs.OpenKeepsReachable | userfs.c:119-162 | open keeps the registry at most one file long and every file identity below the allocator counter, so new files are fresh |
| UserFs.CloseKeepsReachable | userfs.c:186-202 | close keeps that invariant |
| UserFs.DeleteKeepsReachable | userfs.c:204-225 | delete keeps that invariant |
| UserFs.FileSystem.constructor | userfs.c:12-63 | the globals start as no error, empty list, empty table |
| UserFs.FileSystem.Errno | userfs.c:65-69 | returns the current error code |
| UserFs.FileSystem.Open | userfs.c:139-162 | the in-place `ufs_open` leaves the globals and returns the handle exactly as `OpenStep` says |
| UserFs.FileSystem.Close | userfs.c:186-202 | the in-place `ufs_close` agrees with `CloseStep` |
| UserFs.FileSystem.Delete | userfs.c:204-225 | the in-place `ufs_delete` agrees with `DeleteStep` |

## Left out

- `ufs_write` and `ufs_read`: they only set `UFS_ERR_NOT_IMPLEMENTED` and return -1. No block chain, cursor or size limit exists to model. The `NotImplemented` error value is declared but never produced.
- `struct block`, `BLOCK_SIZE` and `MAX_FILE_SIZE`: declared but never used by any code.
- `ufs_destroy`: its body is empty.
- `file_descriptor_count`: declared but never read or written.
- The `refs` field of `struct file`: never read or written.
- `calloc` and `free`: allocation is a fresh identity from a counter. `free` is removal from the list. Allocation failure is not modelled. A descriptor bound to a deleted file keeps its now-dangling identity.
- userfs.h is not part of this model. `UFS_CREATE` is taken as 1; the model only needs it to differ from 0.
- Integer width: capacities and handles are unbounded. The C `int` overflow of `file_descriptor_capacity *= 2` after 2^30 slots is not modelled.
- Names compare by identity only, as in the source. Two equal strings at different addresses are different names.
