/** The absent-or-present wrapper used wherever the C code returns NULL. */
module Optional {

  /** `None` stands for a NULL return, `Some(v)` for a pointer to `v`. */
  datatype Option<+T> = None | Some(value: T)
}
