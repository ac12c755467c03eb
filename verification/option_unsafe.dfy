/**
  The unsafe-extraction escape hatch: turning an `Option<T>` or an
  `OptionEx<T, TException>` back into a raw value, a nullable, a span of at
  most one element, or a failure.

  A thrown exception is modelled as the `Threw` outcome; a possibly-null
  delegate or a C# `T?` is a `Nullable`. Overloads that C# tells apart by
  their parameter types carry a suffix here: `Message` for the fixed-string
  form, `Factory` for the delegate form, `Ex` for the two-parameter option.
 */
module OptionUnsafe {
  import opened Optional

  /** A value that may be null: a C# `T?`, or a delegate reference. */
  datatype Nullable<T> = Null | NonNull(value: T)

  /** The message an `OptionValueMissingException` is built with. */
  datatype Message =
    | NoMessage             // the parameterless constructor
    | Text(text: string)    // the constructor taking a message

  /** The exceptions an extraction can throw. */
  datatype Failure =
    | OptionValueMissing(message: Message)
    | ArgumentNull(paramName: string)

  /** An extraction either returns a value or throws. */
  datatype Extracted<T> = Returned(value: T) | Threw(failure: Failure)

  /** `nameof(errorMessageFactory)`, the parameter name the null check reports. */
  const FactoryParamName := "errorMessageFactory"

  // ---------------------------------------------------------------- Option<T>

  /** `ToNullable<T>`: the value when present, `null` when absent. */
  function ToNullable<T>(o: Option<T>): (r: Nullable<T>)
    ensures r.NonNull? <==> o.hasValue
    ensures r.NonNull? ==> o == Some(r.value)
  {
    if o.hasValue then NonNull(o.value) else Null
  }

  /** `ToSpan<T>`: a span holding the value when present, the empty span when absent. */
  function ToSpan<T>(o: Option<T>): (s: seq<T>)
    ensures |s| <= 1
    ensures |s| == 1 <==> o.hasValue
    ensures |s| == 1 ==> o == Some(s[0])
  {
    if o.hasValue then [o.value] else []
  }

  /** `ValueOrDefault<T>`: the value when present, `default(T)` when absent; never throws. */
  ghost function ValueOrDefault<T(0)>(o: Option<T>): (r: T)
    ensures o.hasValue ==> o == Some(r)
    ensures !o.hasValue ==> r == Default<T>()
  {
    if o.hasValue then o.value else Default()
  }

  /** `ValueOrFailure<T>()`: the value, or an `OptionValueMissingException` with no message. */
  function ValueOrFailure<T>(o: Option<T>): (r: Extracted<T>)
    ensures r.Returned? <==> o.hasValue
    ensures r.Returned? ==> o == Some(r.value)
    ensures r.Threw? ==> r.failure == OptionValueMissing(NoMessage)
  {
    if o.hasValue then Returned(o.value) else Threw(OptionValueMissing(NoMessage))
  }

  /** `ValueOrFailure<T>(errorMessage)`: the value, or a missing-value failure carrying `errorMessage`. */
  function ValueOrFailureMessage<T>(o: Option<T>, errorMessage: string): (r: Extracted<T>)
    ensures r.Returned? <==> o.hasValue
    ensures r.Returned? ==> o == Some(r.value)
    ensures r.Threw? ==> r.failure == OptionValueMissing(Text(errorMessage))
  {
    if o.hasValue then Returned(o.value) else Threw(OptionValueMissing(Text(errorMessage)))
  }

  /**
    `ValueOrFailure<T>(errorMessageFactory)`: a null factory is rejected before
    presence is looked at; otherwise the value, or a missing-value failure
    whose message is what the factory returns.
   */
  function ValueOrFailureFactory<T>(o: Option<T>, errorMessageFactory: Nullable<() -> string>): (r: Extracted<T>)
    ensures errorMessageFactory.Null? ==> r == Threw(ArgumentNull(FactoryParamName))
    ensures r.Returned? <==> errorMessageFactory.NonNull? && o.hasValue
    ensures r.Returned? ==> o == Some(r.value)
    ensures errorMessageFactory.NonNull? && !o.hasValue ==>
      r == Threw(OptionValueMissing(Text(errorMessageFactory.value())))
  {
    if errorMessageFactory.Null? then Threw(ArgumentNull(FactoryParamName))
    else if o.hasValue then Returned(o.value)
    else Threw(OptionValueMissing(Text(errorMessageFactory.value())))
  }

  /**
    The same steps as `ValueOrFailureFactory`, run in order, with a
    counter kept beside the only factory call: it ends at 1 exactly when the
    factory is non-null and the option is absent, and at 0 otherwise.
   */
  method ValueOrFailureFactoryCalls<T>(o: Option<T>, errorMessageFactory: Nullable<() -> string>)
    returns (r: Extracted<T>, calls: nat)
    ensures r == ValueOrFailureFactory(o, errorMessageFactory)
    ensures calls == if errorMessageFactory.NonNull? && !o.hasValue then 1 else 0
  {
    calls := 0;
    if errorMessageFactory.Null? {
      return Threw(ArgumentNull(FactoryParamName)), calls;
    }
    if o.hasValue {
      return Returned(o.value), calls;
    }
    var message := errorMessageFactory.value();
    calls := calls + 1;
    r := Threw(OptionValueMissing(Text(message)));
  }

  // ------------------------------------------------------ OptionEx<T, TException>

  /** `ToNullable<T, TException>`: the value when present, `null` when absent. */
  function ToNullableEx<T, TException>(o: OptionEx<T, TException>): (r: Nullable<T>)
    ensures r.NonNull? <==> o.hasValue
    ensures r.NonNull? ==> r.value == o.value
  {
    if o.hasValue then NonNull(o.value) else Null
  }

  /** `ToSpan<T, TException>`: a span holding the value when present, empty when absent. */
  function ToSpanEx<T, TException>(o: OptionEx<T, TException>): (s: seq<T>)
    ensures |s| <= 1
    ensures |s| == 1 <==> o.hasValue
    ensures |s| == 1 ==> s[0] == o.value
  {
    if o.hasValue then [o.value] else []
  }

  /** `ValueOrDefault<T, TException>`: the value when present, `default(T)` when absent. */
  ghost function ValueOrDefaultEx<T(0), TException>(o: OptionEx<T, TException>): (r: T)
    ensures o.hasValue ==> r == o.value
    ensures !o.hasValue ==> r == Default<T>()
  {
    if o.hasValue then o.value else Default()
  }

  /** `ValueOrFailure<T, TException>()`: the value, or a missing-value failure with no message. */
  function ValueOrFailureEx<T, TException>(o: OptionEx<T, TException>): (r: Extracted<T>)
    ensures r.Returned? <==> o.hasValue
    ensures r.Returned? ==> r.value == o.value
    ensures r.Threw? ==> r.failure == OptionValueMissing(NoMessage)
  {
    if o.hasValue then Returned(o.value) else Threw(OptionValueMissing(NoMessage))
  }

  /** `ValueOrFailure<T, TException>(errorMessage)`: the value, or a failure carrying `errorMessage`. */
  function ValueOrFailureMessageEx<T, TException>(o: OptionEx<T, TException>, errorMessage: string): (r: Extracted<T>)
    ensures r.Returned? <==> o.hasValue
    ensures r.Returned? ==> r.value == o.value
    ensures r.Threw? ==> r.failure == OptionValueMissing(Text(errorMessage))
  {
    if o.hasValue then Returned(o.value) else Threw(OptionValueMissing(Text(errorMessage)))
  }

  /**
    `ValueOrFailure<T, TException>(errorMessageFactory)`: a null factory is
    rejected first; otherwise the value, or a missing-value failure whose
    message the factory builds from the option's stored exception.
   */
  function ValueOrFailureFactoryEx<T, TException>(
    o: OptionEx<T, TException>, errorMessageFactory: Nullable<TException -> string>): (r: Extracted<T>)
    ensures errorMessageFactory.Null? ==> r == Threw(ArgumentNull(FactoryParamName))
    ensures r.Returned? <==> errorMessageFactory.NonNull? && o.hasValue
    ensures r.Returned? ==> r.value == o.value
    ensures errorMessageFactory.NonNull? && !o.hasValue ==>
      r == Threw(OptionValueMissing(Text(errorMessageFactory.value(o.exception))))
  {
    if errorMessageFactory.Null? then Threw(ArgumentNull(FactoryParamName))
    else if o.hasValue then Returned(o.value)
    else Threw(OptionValueMissing(Text(errorMessageFactory.value(o.exception))))
  }

  /**
    The same steps as `ValueOrFailureFactoryEx`, run in order, with a
    counter kept beside the only factory call: it ends at 1 exactly when the
    factory is non-null and the option is absent, and at 0 otherwise.
   */
  method ValueOrFailureFactoryExCalls<T, TException>(
    o: OptionEx<T, TException>, errorMessageFactory: Nullable<TException -> string>)
    returns (r: Extracted<T>, calls: nat)
    ensures r == ValueOrFailureFactoryEx(o, errorMessageFactory)
    ensures calls == if errorMessageFactory.NonNull? && !o.hasValue then 1 else 0
  {
    calls := 0;
    if errorMessageFactory.Null? {
      return Threw(ArgumentNull(FactoryParamName)), calls;
    }
    if o.hasValue {
      return Returned(o.value), calls;
    }
    var message := errorMessageFactory.value(o.exception);
    calls := calls + 1;
    r := Threw(OptionValueMissing(Text(message)));
  }

  // ------------------------------------------------------------------ Lemmas

  /**
    On a present plain option every extraction yields the same value and
    none throws, given a non-null factory; the span's only element is it too.
   */
  lemma PresentExtractionsAgree<T(0)>(o: Option<T>, errorMessage: string, f: () -> string)
    requires o.hasValue
    ensures ValueOrDefault(o) == o.value
    ensures ToNullable(o) == NonNull(o.value)
    ensures ToSpan(o) == [o.value]
    ensures ValueOrFailure(o) == Returned(o.value)
    ensures ValueOrFailureMessage(o, errorMessage) == Returned(o.value)
    ensures ValueOrFailureFactory(o, NonNull(f)) == Returned(o.value)
  {
  }

  /** The same agreement for a present option with an exception slot. */
  lemma PresentExtractionsAgreeEx<T(0), TException>(
    o: OptionEx<T, TException>, errorMessage: string, f: TException -> string)
    requires o.hasValue
    ensures ValueOrDefaultEx(o) == o.value
    ensures ToNullableEx(o) == NonNull(o.value)
    ensures ToSpanEx(o) == [o.value]
    ensures ValueOrFailureEx(o) == Returned(o.value)
    ensures ValueOrFailureMessageEx(o, errorMessage) == Returned(o.value)
    ensures ValueOrFailureFactoryEx(o, NonNull(f)) == Returned(o.value)
  {
  }

  /**
    On an absent plain option no extraction reveals a value: the default,
    `null` and the empty span are returned, and every `ValueOrFailure` throws
    the missing-value failure with its own message.
   */
  lemma AbsentExtractions<T(0)>(o: Option<T>, errorMessage: string, f: () -> string)
    requires !o.hasValue
    ensures ValueOrDefault(o) == Default<T>()
    ensures ToNullable(o) == Null
    ensures ToSpan(o) == []
    ensures ValueOrFailure(o) == Threw(OptionValueMissing(NoMessage))
    ensures ValueOrFailureMessage(o, errorMessage) == Threw(OptionValueMissing(Text(errorMessage)))
    ensures ValueOrFailureFactory(o, NonNull(f)) == Threw(OptionValueMissing(Text(f())))
  {
  }

  /** The same for an absent option with an exception slot; the factory sees the stored exception. */
  lemma AbsentExtractionsEx<T(0), TException>(
    o: OptionEx<T, TException>, errorMessage: string, f: TException -> string)
    requires !o.hasValue
    ensures ValueOrDefaultEx(o) == Default<T>()
    ensures ToNullableEx(o) == Null
    ensures ToSpanEx(o) == []
    ensures ValueOrFailureEx(o) == Threw(OptionValueMissing(NoMessage))
    ensures ValueOrFailureMessageEx(o, errorMessage) == Threw(OptionValueMissing(Text(errorMessage)))
    ensures ValueOrFailureFactoryEx(o, NonNull(f)) == Threw(OptionValueMissing(Text(f(o.exception))))
  {
  }

  /**
    Wrapping and unwrapping: every extraction of `Some(v)` gives back `v`,
    and the failure for `None<T, TException>(e)` is built from exactly `e`.
   */
  lemma ConstructThenExtract<T(0), TException(0)>(
    v: T, e: TException, errorMessage: string, g: () -> string, f: TException -> string)
    ensures ValueOrDefault(Some(v)) == v && ValueOrDefaultEx(SomeEx<T, TException>(v)) == v
    ensures ValueOrFailure(Some(v)) == Returned(v) && ValueOrFailureEx(SomeEx<T, TException>(v)) == Returned(v)
    ensures ToSpan(Some(v)) == [v] && ToSpanEx(SomeEx<T, TException>(v)) == [v]
    ensures ToNullable(Some(v)) == NonNull(v) && ToNullableEx(SomeEx<T, TException>(v)) == NonNull(v)
    ensures ValueOrFailureMessage(Some(v), errorMessage) == Returned(v)
    ensures ValueOrFailureMessageEx(SomeEx<T, TException>(v), errorMessage) == Returned(v)
    ensures ValueOrFailureFactory(Some(v), NonNull(g)) == Returned(v)
    ensures ValueOrFailureFactoryEx(SomeEx<T, TException>(v), NonNull(f)) == Returned(v)
    ensures ValueOrDefault(None<T>()) == Default<T>()
    ensures ToNullable(None<T>()) == Null
    ensures ValueOrFailureFactoryEx(NoneEx<T, TException>(e), NonNull(f)) == Threw(OptionValueMissing(Text(f(e))))
  {
  }

  /**
    The message factory only matters on the absent path: on a present
    option any two non-null factories give the same outcome.
   */
  lemma FactoryIrrelevantWhenPresent<T, TException>(
    o: Option<T>, f: () -> string, g: () -> string,
    oe: OptionEx<T, TException>, fe: TException -> string, ge: TException -> string)
    ensures o.hasValue ==> ValueOrFailureFactory(o, NonNull(f)) == ValueOrFailureFactory(o, NonNull(g))
    ensures oe.hasValue ==> ValueOrFailureFactoryEx(oe, NonNull(fe)) == ValueOrFailureFactoryEx(oe, NonNull(ge))
  {
  }

  /**
    For a well-formed option, where the value slot is `default` whenever the
    flag is off, `ValueOrDefault` is the same as reading the slot directly.
   */
  lemma ValueOrDefaultReadsSlot<T(0), TException(0)>(o: Option<T>, oe: OptionEx<T, TException>)
    requires WellFormed(o) && WellFormedEx(oe)
    ensures ValueOrDefault(o) == o.value
    ensures ValueOrDefaultEx(oe) == oe.value
  {
  }

  /**
    A plain option and an option with an exception slot that hold the same
    flag and value are indistinguishable to every extraction that does not
    consult the exception.
   */
  lemma ShapesAgree<T(0), TException>(o: Option<T>, oe: OptionEx<T, TException>, errorMessage: string)
    requires o.hasValue == oe.hasValue && o.value == oe.value
    ensures ToNullable(o) == ToNullableEx(oe)
    ensures ToSpan(o) == ToSpanEx(oe)
    ensures ValueOrDefault(o) == ValueOrDefaultEx(oe)
    ensures ValueOrFailure(o) == ValueOrFailureEx(oe)
    ensures ValueOrFailureMessage(o, errorMessage) == ValueOrFailureMessageEx(oe, errorMessage)
  {
  }
}
