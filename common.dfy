/** Values shared by the graph store and the version graph. */
module Common {

  /** A graph node or edge label. The test suites use both strings
      ("terah", "likes") and numbers (the divisor lattice); JavaScript would
      compare them after turning them into strings, here they stay apart. */
  datatype Value = Str(s: string) | Num(n: int)

  /** The error kinds a query can report. */
  datatype Error = NotFound | NoPath | NoCommonAncestor | DuplicateEdge

  datatype Result<T> = Ok(value: T) | Err(error: Error)

  datatype Option<T> = None | Some(value: T)

  lemma ConcatAssoc<T>(a: seq<T>, b: seq<T>, c: seq<T>)
    ensures (a + b) + c == a + (b + c)
  {
  }
}
