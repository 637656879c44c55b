/** The conventional Some/None datatype, used for values that may be absent
    (an item's rendered page before rendering) and for operations that may fail. */
module Options {

  datatype Option<+T> = None | Some(value: T)
}
