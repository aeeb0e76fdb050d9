/** Optional string values as the handler sees them.

    An omitted request field (JavaScript `undefined`) and an empty database
    column (SQL `NULL`) are both `None`; a present value, even the empty
    string, is `Some`.
 */
module Optional {

  datatype Option<+T> = None | Some(value: T)

  /** JavaScript truthiness of an optional string: present and non-empty. */
  predicate Truthy(o: Option<string>) {
    o.Some? && o.value != ""
  }
}
