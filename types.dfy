/** Shared vocabulary of the userfs model: names, file records, descriptors and error codes. */
module Types {

  /** The conventional optional value; `None` plays the part of a NULL pointer. */
  datatype Option<+T> = None | Some(value: T)

  /**
   * A file name as the storage compares it. userfs.c compares names with `==` on
   * `char *`, that is by the address of the string and not by its characters, so a
   * name is an opaque key that only supports equality.
   */
  type Name = nat

  /** The identity of one `struct file` obtained from `calloc`. */
  type FileId = nat

  /** A file of the registry. The block chain and the unused `refs` counter are not modelled. */
  datatype FileRec = FileRec(id: FileId, name: Name)

  /** A `struct filedesc`: the file it is bound to, which may be NULL. */
  datatype Desc = Desc(file: Option<FileId>)

  /** The values of `enum ufs_error_code` that userfs.c assigns. */
  datatype ErrorCode = NoErr | NoFile | NotImplemented
}
