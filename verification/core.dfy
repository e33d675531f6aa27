/** The two small value types the combinator is written against: `Option`
    (the result of `output_mut` and `take_output`) and `Poll` (the answer of
    one step of any future). */
module Options {

  /** An optional value: what `output_mut` and `take_output` answer. */
  datatype Option<+T> = None | Some(value: T)
}

module Task {

  /** The answer of polling a future once: not finished yet, or finished with
      a value. */
  datatype Poll<+T> = Pending | Ready(value: T)
}
