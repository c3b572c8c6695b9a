/** The success/failure struct `Result<Success, Failure>`: a type tag and
    the value of the matching side. */
module Results {
  import opened Common

  /** `Result<Success, Failure>.Type`. */
  datatype Type = Success | Failure

  /** The two shapes of the struct: `Ok(s)` has type `Success` and holds `s`;
      `Err(f)` has type `Failure` and holds `f`. The other field of the C#
      struct holds a default value, which no accessor exposes. */
  datatype Result<S, F> = Ok(success: S) | Err(failure: F) {

    /** `Result.Suceeded(result)` (the source's spelling). */
    static function Suceeded(v: S): (r: Result<S, F>)
      ensures r.ResultType() == Type.Success
      ensures r.ResultValue() == Returned(v)
      ensures r.ErrorValue() == Threw(InvalidOperation)
    {
      Ok(v)
    }

    /** `Result.Failed(error)`. */
    static function Failed(e: F): (r: Result<S, F>)
      ensures r.ResultType() == Type.Failure
      ensures r.ErrorValue() == Returned(e)
      ensures r.ResultValue() == Threw(InvalidOperation)
    {
      Err(e)
    }

    /** The `ResultType` property. */
    function ResultType(): (t: Type)
      ensures t == Type.Success <==> Ok?
    {
      if Ok? then Type.Success else Type.Failure
    }

    /** The `ResultValue` property: the success value, or
        `InvalidOperationException` on a failure. */
    function ResultValue(): (r: Outcome<S>)
      ensures r.Threw? <==> ResultType() == Type.Failure
      ensures r.Threw? ==> r.exception == InvalidOperation
    {
      if ResultType() == Type.Success then Returned(success) else Threw(InvalidOperation)
    }

    /** The `ErrorValue` property: the error value, or
        `InvalidOperationException` on a success. */
    function ErrorValue(): (r: Outcome<F>)
      ensures r.Threw? <==> ResultType() == Type.Success
      ensures r.Threw? ==> r.exception == InvalidOperation
    {
      if ResultType() == Type.Failure then Returned(failure) else Threw(InvalidOperation)
    }

    /** The implicit conversion from `Success`. */
    static function FromSuccess(v: S): (r: Result<S, F>)
      ensures r == Suceeded(v)
    {
      Ok(v)
    }

    /** The explicit conversion from `Failure`. */
    static function FromFailure(e: F): (r: Result<S, F>)
      ensures r == Failed(e)
    {
      Err(e)
    }
  }

  /** Exactly one of the two accessors returns, and the result is rebuilt
      from whichever does. */
  lemma AccessorsRebuild<S, F>(r: Result<S, F>)
    ensures r.ResultValue().Returned? != r.ErrorValue().Returned?
    ensures r.ResultValue().Returned? ==> r == Result<S, F>.Suceeded(r.ResultValue().value)
    ensures r.ErrorValue().Returned? ==> r == Result<S, F>.Failed(r.ErrorValue().value)
  {
  }
}
