/** An explicit absent result, used where the original code leaves a value undefined. */
module Options {

  datatype Option<+T> = None | Some(value: T)
}
