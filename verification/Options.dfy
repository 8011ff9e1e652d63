/** An optional value, for results the code reports as null, std::nullopt or an invalid handle. */
module Options {
  datatype Option<T> = None | Some(value: T)
}
