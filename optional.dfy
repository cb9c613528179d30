/** The JavaScript values `null` / `undefined` of the page, as an option type. */
module Optional {

  datatype Option<+T> = None | Some(value: T)
}
