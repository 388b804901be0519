/** An optional value: the model's stand-in for a Python lookup that can
    raise (an `IndexError`, a failed `strptime`) or a search that can miss. */
module Options {

  datatype Option<+T> = None | Some(value: T)
}
