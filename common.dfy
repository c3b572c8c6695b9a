/** Shared vocabulary of the model: the exceptions the library throws,
    an explicit carrier for a call that either returns or throws, the
    null/non-null view of a C# reference slot, and the `None` unit value. */
module Common {

  /** The exception classes the collections throw. `UnexpectedError` stands
      for the `new Exception("Unexpected error")` guards of the source. */
  datatype Exception = InvalidOperation | ArgumentOutOfRange | UnexpectedError

  /** A member call that either returns a value or throws. */
  datatype Outcome<T> = Returned(value: T) | Threw(exception: Exception)

  /** A C# reference that may be null. */
  datatype Nullable<T> = Null | Ref(target: T)

  /** The singleton `None.Value` used as the failure payload of `Pop`,
      `Dequeue` and `PopBack`; a unit value here. */
  datatype None = Value

  /** A prefix one longer is the shorter prefix and the next element. */
  lemma PrefixGrows<T>(s: seq<T>, i: int)
    requires 0 <= i < |s|
    ensures s[..i + 1] == s[..i] + [s[i]]
    ensures i + 1 == |s| ==> s[..i + 1] == s
  {
  }
}
