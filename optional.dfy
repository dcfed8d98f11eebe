/** The value-or-nothing type used for an environment variable that may be unset
    and for a search that may find nothing (NULL or a 0 return in C). */
module Optional {

  datatype Option<+T> = None | Some(value: T)
}
