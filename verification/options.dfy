/** The optional value a lookup or a replacement hands back to its caller. */
module Options {

  /** `Some(v)` where the C# code returns `true` with `v` in its `out`
      parameter; `None` where it returns `false` with `default!`. */
  datatype Option<+T> = None | Some(value: T)
}
