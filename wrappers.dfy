/** The optional value the scanner uses for a package that may be missing and
    for a decompiler argument string that may be absent. */
module Wrappers {

  datatype Option<+T> = None | Some(value: T)
}
