/** A value that may be absent: Python's `None`, a missing dictionary entry,
    or a search that found nothing. */
module Optional {

  datatype Option<+T> = None | Some(value: T)
}
