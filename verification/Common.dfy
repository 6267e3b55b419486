/** Helpers shared by the modules of the project. */
module Common {
  datatype Option<+T> = None | Some(value: T)

  /** The next element of a walk over a set, in no particular order. */
  method Pick<T(==)>(s: set<T>) returns (x: T)
    requires s != {}
    ensures x in s
  {
    x :| x in s;
  }
}
