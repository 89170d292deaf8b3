/** The Some/None datatype used wherever the page reads a value that may be absent
    (`undefined`, `null`, a failed lookup). */
module Optional {

  datatype Option<+T> = None | Some(value: T)
}
