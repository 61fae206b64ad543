/** A value or nothing: a pointer that may be null, a frame that may not be written; and sequences of what
    was written. */
module Options {

  datatype Option<T> = None | Some(value: T)

  /** What was written, as a sequence. */
  function Emitted<T>(o: Option<T>): (s: seq<T>)
  {
    if o.Some? then [o.value] else []
  }

  lemma Associates<T>(a: seq<T>, b: seq<T>, c: seq<T>)
    ensures (a + b) + c == a + (b + c)
  {
  }
}
