/** The Some/None wrapper that stands for java.util.Optional. */
module Optional {

  datatype Option<+T> = None | Some(value: T)
}
