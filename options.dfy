/** The optional-value struct `Option<T>`: a status tag and, for `Some`,
    a value. */
module Options {
  import opened Common

  /** `Option<T>.Status`. */
  datatype Status = Some | None

  /** The two shapes of the struct: `Present(v)` has status `Some` and holds
      `v`; `Absent` has status `None` and holds the default value, which no
      accessor exposes. */
  datatype Option<T> = Present(held: T) | Absent {

    /** `Option<T>.Some(value)`. */
    static function Some(v: T): (o: Option<T>)
      ensures o.OptionStatus() == Status.Some
      ensures o.Value() == Returned(v)
    {
      Present(v)
    }

    /** `Option<T>.None()`. */
    static function None(): (o: Option<T>)
      ensures o.OptionStatus() == Status.None
      ensures o.Value() == Threw(InvalidOperation)
    {
      Absent
    }

    /** The `OptionStatus` property. */
    function OptionStatus(): (s: Status)
      ensures s == Status.Some <==> Present?
    {
      if Present? then Status.Some else Status.None
    }

    /** The `Value` property: the held value, or `InvalidOperationException`
        when the status is `None`. */
    function Value(): (r: Outcome<T>)
      ensures r.Threw? <==> OptionStatus() == Status.None
      ensures r.Threw? ==> r.exception == InvalidOperation
    {
      if OptionStatus() == Status.Some then Returned(held) else Threw(InvalidOperation)
    }

    /** The implicit conversion from `T`. */
    static function FromValue(v: T): (o: Option<T>)
      ensures o == Some(v)
    {
      Present(v)
    }
  }

  /** An option is determined by its status and, when present, its value. */
  lemma StatusAndValueDetermine<T>(a: Option<T>, b: Option<T>)
    requires a.OptionStatus() == b.OptionStatus()
    requires a.Value() == b.Value()
    ensures a == b
  {
  }
}
