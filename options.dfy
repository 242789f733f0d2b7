/** An optional value: an absent query parameter, an unparseable date, a
    lookup that found nothing. */
module Options {
  datatype Option<T> = None | Some(value: T)
}
