/**
  The two optional primitives and the static factory that builds them.

  `Option<T>` is a presence flag and a value slot; `OptionEx<T, TException>`
  (the C# `Option<T, TException>`, renamed because Dafny cannot overload a
  type name by arity) adds an exception slot. Both are immutable values, so
  they are datatypes whose fields are the struct's `HasValue`, `Value` and
  `Exception` members.
 */
module Optional {

  /** The plain optional: `hasValue` is `HasValue`, `value` is `Value`. */
  datatype Option<T> = Option(value: T, hasValue: bool)

  /** The optional that carries an exceptional value when absent. */
  datatype OptionEx<T, TException> = OptionEx(value: T, exception: TException, hasValue: bool)

  /** C#'s `default(T)`: one fixed value of every type that has one. */
  ghost function Default<T(0)>(): T
  {
    var d: T :| true; d
  }

  /** The state every option built by this module is in: an unused slot holds `default`. */
  ghost predicate WellFormed<T(0)>(o: Option<T>)
  {
    o.hasValue || o.value == Default<T>()
  }

  /** For `OptionEx`, exactly one slot is live; the other holds `default`. */
  ghost predicate WellFormedEx<T(0), TException(0)>(o: OptionEx<T, TException>)
  {
    if o.hasValue then o.exception == Default<TException>() else o.value == Default<T>()
  }

  /** `Option.Some<T>(value)`: a present option holding exactly `value`. */
  function Some<T>(value: T): (o: Option<T>)
    ensures o.hasValue && o.value == value
  {
    Option(value, true)
  }

  /** `Option.Some<T, TException>(value)`: present, with `default` in the exception slot. */
  ghost function SomeEx<T, TException(0)>(value: T): (o: OptionEx<T, TException>)
    ensures o.hasValue && o.value == value
    ensures o.exception == Default<TException>()
  {
    OptionEx(value, Default(), true)
  }

  /**
    `Option.None<T>()`: the shared `Option<T>.None`. Being a function of no
    arguments, every call yields the same value.
   */
  ghost function None<T(0)>(): (o: Option<T>)
    ensures !o.hasValue && o.value == Default<T>()
    ensures WellFormed(o)
  {
    Option(Default(), false)
  }

  /**
    `Option.None<T, TException>(exception)`: absent, storing the caller's
    exception as given and `default` in the value slot.
   */
  ghost function NoneEx<T(0), TException>(exception: TException): (o: OptionEx<T, TException>)
    ensures !o.hasValue && o.exception == exception
    ensures o.value == Default<T>()
  {
    OptionEx(Default(), exception, false)
  }

  /** `Some` forgets nothing: distinct values give distinct options, for both shapes. */
  lemma SomeInjective<T, TException(0)>(a: T, b: T)
    ensures Some(a) == Some(b) <==> a == b
    ensures SomeEx<T, TException>(a) == SomeEx<T, TException>(b) <==> a == b
  {
  }

  /** `None<T, TException>` keeps the caller's exception: distinct exceptions give distinct options. */
  lemma NoneExInjective<T(0), TException>(e1: TException, e2: TException)
    ensures NoneEx<T, TException>(e1) == NoneEx<T, TException>(e2) <==> e1 == e2
  {
  }

  /**
    The present and absent constructors pass the same slots and differ only
    in the flag: flipping the flag of `Some(default)` gives `None()`, and
    flipping that of `Some<T, TException>(default)` gives `None(default)`.
   */
  lemma PresentAbsentDifferOnlyInFlag<T(0), TException(0)>(v: T, e: TException)
    ensures Some(Default<T>()).(hasValue := false) == None<T>()
    ensures SomeEx<T, TException>(Default<T>()).(hasValue := false) == NoneEx<T, TException>(Default<TException>())
    ensures Some(v) != None<T>()
    ensures SomeEx<T, TException>(v) != NoneEx<T, TException>(e)
  {
  }

  /**
    The well-formed plain options are exactly those the factory can build:
    every one of them is `Some(v)` for some `v` or is `None()`.
   */
  lemma WellFormedIffConstructed<T(0)>(o: Option<T>)
    ensures WellFormed(o) <==> (exists v: T :: o == Some(v)) || o == None<T>()
  {
    if o.hasValue {
      assert o == Some(o.value);
    }
  }

  /**
    The well-formed options with an exception slot are exactly those the
    factory can build: `Some(v)` for some `v` or `None(e)` for some `e`.
   */
  lemma WellFormedExIffConstructed<T(0), TException(0)>(o: OptionEx<T, TException>)
    ensures WellFormedEx(o) <==>
      (exists v: T :: o == SomeEx<T, TException>(v)) || (exists e: TException :: o == NoneEx<T, TException>(e))
  {
    if WellFormedEx(o) {
      if o.hasValue {
        assert o == SomeEx<T, TException>(o.value);
      } else {
        assert o == NoneEx<T, TException>(o.exception);
      }
    }
  }

  /** Absence is one state: every well-formed absent plain option is the shared `None()`. */
  lemma AbsentIsNone<T(0)>(o: Option<T>)
    requires WellFormed(o) && !o.hasValue
    ensures o == None<T>()
  {
  }
}
