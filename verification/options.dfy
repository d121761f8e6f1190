/** An optional value: `None` stands for JavaScript's `null`, `undefined` and `NaN`
    results in the places where the todo application produces them. */
module Options {

  datatype Option<+T> = None | Some(value: T)
}
