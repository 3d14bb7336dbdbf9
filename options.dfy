/** An optional value, for PHP's null and for "no match". */
module Options {

  datatype Option<T> = None | Some(value: T)
}
