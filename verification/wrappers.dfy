/** The value-or-nothing type used wherever the Python code returns `None`
    (a failed `re.search`, a missing year, a term that matched nothing). */
module Wrappers {

  datatype Option<+T> = None | Some(value: T)
}
