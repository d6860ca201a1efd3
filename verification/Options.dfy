/** An optional result, as the source's `std::optional` and its error returns. */
module Options {
  datatype Option<+T> = None | Some(value: T)
}
