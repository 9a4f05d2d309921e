/** Shapes of the already-parsed JSON values that the scripts inspect with
    `Array.isArray` and `typeof` before using them. */
module Json {

  /** A field that the source only uses when it holds an array: absent (or
      `null`), an array, or any other JSON value. */
  datatype Field<T> = Missing | Items(items: seq<T>) | NotArray

  /** `Array.isArray(f) ? f : []`. */
  function ArrayOrEmpty<T>(f: Field<T>): seq<T> {
    if f.Items? then f.items else []
  }

  /** A scalar field read with `typeof v === "string"` and `v ?? "?"`:
      `undefined`, `null`, a string, or any other value (number, boolean,
      object, array) together with the text a template literal renders it as. */
  datatype Value = Undefined | Null | Text(s: string) | NonText(shown: string)
}
