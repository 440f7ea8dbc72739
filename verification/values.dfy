/** Small value types shared by every module of the model. */
module Values {

  /** An optional value. Besides "absent", `None` also stands for a library
      call that throws or whose promise rejects. */
  datatype Option<+T> = None | Some(value: T)

  /** A request field or header as the handlers read it: absent (`undefined`)
      or a string. JavaScript's `!field` is true exactly when the field is
      absent or the empty string, so `Truthy` is its negation. */
  predicate Truthy(field: Option<string>) {
    field.Some? && field.value != ""
  }
}
