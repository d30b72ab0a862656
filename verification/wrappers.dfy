/** Failure-carrying values shared by every module of the model. */
module Wrappers {

  /** The `None`-or-value results that every stage of the authentication code returns. */
  datatype Option<+T> = None | Some(value: T)

  /** A dynamically typed argument, as far as the code inspects it: `None`, an
      exact `str`, an instance of a subclass of `str` (which `type(x) is str`
      rejects and `isinstance(x, str)` accepts), or any other kind of value. */
  datatype PyValue = PyNone | PyStr(s: string) | PyStrSubclass(s: string) | PyOther {

    /** `isinstance(v, str)`. */
    predicate IsStrInstance() {
      PyStr? || PyStrSubclass?
    }
  }

  /** Lifts the result of a stage that returns either `None` or a `str`
      into an argument of the next stage. */
  function FromOption(o: Option<string>): (v: PyValue)
    ensures v.PyStr? <==> o.Some?
    ensures o.Some? ==> v.s == o.value
  {
    match o
    case None => PyNone
    case Some(s) => PyStr(s)
  }
}
