/** Values that may be absent: a query with no row, a request field that was
    not sent, a time string that does not parse. */
module Common {

  datatype Option<+T> = None | Some(value: T)
}
