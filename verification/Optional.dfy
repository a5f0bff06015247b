/** The conventional optional value, used for the slot's payload. */
module Optional {

  datatype Option<+T> = None | Some(value: T)
}
