/** A value that may be absent: a JavaScript property that is `undefined`,
    or a lookup that found nothing. */
module Optional {

  datatype Option<+T> = None | Some(value: T)
}
