/** Success/failure values shared by every stage of the compiler. A failure
    stands for the point where the C program reports an error and exits. */
module Results {

  datatype Option<T> = None | Some(value: T)

  datatype Result<T, E> = Success(value: T) | Failure(error: E)

  /** The outcome of a check that produces no value (expect_reserved). */
  datatype Outcome<E> = Pass | Fail(error: E)

  /** Puts an item in front of the items a computation on the rest yields
      (a token before the tokens of the rest of the input). */
  function Prepend<T, E>(t: T, r: Result<seq<T>, E>): Result<seq<T>, E> {
    match r
    case Success(ts) => Success([t] + ts)
    case Failure(p) => Failure(p)
  }

  /** The items produced so far followed by those the rest yields. */
  ghost function Glue<T, E>(done: seq<T>, r: Result<seq<T>, E>): Result<seq<T>, E> {
    match r
    case Success(ts) => Success(done + ts)
    case Failure(p) => Failure(p)
  }

  lemma GlueAppend<T, E>(done: seq<T>, t: T, r: Result<seq<T>, E>)
    ensures Glue(done, Prepend(t, r)) == Glue(done + [t], r)
  {
    if r.Success? {
      assert done + ([t] + r.value) == (done + [t]) + r.value;
    }
  }
}
