/** Small vocabulary shared by the models of the individual components. */
module Common {

  datatype Option<+T> = None | Some(value: T)
}
