/** The optional value used wherever the program can meet "no value": an
    unparsable date (a Date whose time value is NaN) or a falsy room cell. */
module Options {

  datatype Option<+T> = None | Some(value: T)
}
