/** The optional value used throughout the model: `None` stands for a
    value that is absent (a missing query parameter) or for JavaScript's
    `NaN` (an index string with no digits). */
module Options {

  datatype Option<+T> = None | Some(value: T)
}
