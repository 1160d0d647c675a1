/** The optional value used for the lexer's pending-span start (a null pointer in the source). */
module Optional {

  datatype Option<+T> = None | Some(value: T)
}
