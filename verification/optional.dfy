/** Python's `None`-or-value, as returned by `dict.get`-style lookups and
    by `get_queue_by_name`. */
module Optional {

  datatype Option<+T> = None | Some(value: T)

}
