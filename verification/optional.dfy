/** The failure-or-value result used where a backend call can return `false`. */
module Optional {

  datatype Option<+T> = None | Some(value: T)
}
