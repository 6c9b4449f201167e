/** A value that may be missing: the first match of a search that can come up
    empty, or the result of a parser that can reject its input. */
module Optional {

  datatype Maybe<T> = Nothing | Just(value: T)
}
