/** The optional value used where the dashboard passes Python's None. */
module Optional {

  datatype Option<+T> = None | Some(value: T)

}
