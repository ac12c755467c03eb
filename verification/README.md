# Optional: the option primitives and their unsafe extraction

This project models the core of the C# library *Optional*:

- the static factory `Option` (`src/Optional/Option.cs`), which builds the two
  optional shapes. `Option<T>` is a presence flag and a value slot.
  `Option<T, TException>` is a presence flag, a value slot and an exception slot;
- the escape hatch `OptionUnsafeExtensions` (`src/Optional/Unsafe/OptionUnsafeExtensions.cs`),
  which turns either shape back into a raw value. It can return `default(T)`, a
  `Nullable<T>` or a span of at most one element, or it can throw
  `OptionValueMissingException`. Each throwing form can carry no message, a
  fixed message, or a message built by a caller-supplied factory.

Both files are pure, so the model uses datatypes, functions and lemmas.

- `option.dfy`, module `Optional`:
  - the datatypes `Option<T>` and `OptionEx<T, TException>`. The second is the
    C# `Option<T, TException>`; Dafny cannot overload a type name by arity;
  - the four constructors;
  - `WellFormed`/`WellFormedEx`, the state every constructed option is in: the
    slot that is not live holds `default`;
  - lemmas showing that these states are exactly the ones the constructors can
    build.
- `option_unsafe.dfy`, module `OptionUnsafe`:
  - one function per extension overload. Overloads get a suffix: `Message` for
    the string form, `Factory` for the delegate form, `Ex` for the two-parameter
    option;
  - the outcome datatype `Extracted<T> = Returned | Threw`, which stands for a
    thrown exception;
  - `Nullable<T>`, which stands for a C# `T?` and for a delegate reference that
    may be null;
  - a method per factory overload that performs the steps in order and keeps a
    counter beside the factory call;
  - lemmas relating the extractions to each other and to the constructors.

`default(T)` is the ghost function `Optional.Default<T>()`, one fixed value of
each auto-initialisable type. For this reason the members that need it are
ghost: `Default`, `SomeEx`, `None`, `NoneEx`, `ValueOrDefault` and
`ValueOrDefaultEx`.

The struct bodies of `Option<T>` and `Option<T, TException>` are not part of this
model. Their fields are read through `HasValue`, `Value` and `Exception`, and
their constructors take `(value, hasValue)` and `(value, exception, hasValue)`.
The body of the shared `Option<T>.None` is not part of this model either. `None()`
assumes that it holds `default(T)` with the flag off, which is what the
`(value, hasValue)` constructor gives for `(default!, false)`.

## Model

| member | source | states |
|---|---|---|
| `Optional.Some` | src/Optional/Option.cs:13 | the result is present and holds exactly the given value |
| `Optional.SomeEx` | src/Optional/Option.cs:20-21 | the result is present, holds the given value, and its exception slot is `default(TException)` |
| `Optional.None` | src/Optional/Option.cs:27 | the result is absent with `default(T)` in the value slot; a call with no arguments, so all calls give one shared value |
| `Optional.NoneEx` | src/Optional/Option.cs:35-36 | the result is absent, its exception is exactly the caller's value, and its value slot is `default(T)`, never a caller value |
| `Optional.SomeInjective` | src/Optional/Option.cs:13-21 | `Some` keeps its argument for both shapes: `Some(a) == Some(b)` iff `a == b` |
| `Optional.NoneExInjective` | src/Optional/Option.cs:35-36 | `None(e)` keeps the exception unnormalised: `None(e1) == None(e2)` iff `e1 == e2` |
| `Optional.PresentAbsentDifferOnlyInFlag` | src/Optional/Option.cs:13-36 | flipping the flag of `Some(default)` gives `None()`, and flipping it for the exception shape gives `None(default)`; a present option never equals an absent one |
| `Optional.WellFormedIffConstructed` | src/Optional/Option.cs:13-27 | a plain option has `default` in its value slot whenever absent iff it is `Some(v)` for some `v` or is `None()` |
| `Optional.WellFormedExIffConstructed` | src/Optional/Option.cs:20-36 | an option with an exception slot has `default` in its non-live slot iff it is `Some(v)` for some `v` or `None(e)` for some `e` |
| `Optional.AbsentIsNone` | src/Optional/Option.cs:27 | every well-formed absent plain option equals the shared `None()` |
| `OptionUnsafe.ToNullable` | src/Optional/Unsafe/OptionUnsafeExtensions.cs:14-22 | non-null iff the option is present, and then the option is `Some` of the returned value |
| `OptionUnsafe.ToSpan` | src/Optional/Unsafe/OptionUnsafeExtensions.cs:30-41 | at most one element; exactly one iff present, and then the option is `Some` of that element |
| `OptionUnsafe.ValueOrDefault` | src/Optional/Unsafe/OptionUnsafeExtensions.cs:67-75 | a present option is `Some` of the result; an absent one yields `default(T)`; no failure case exists |
| `OptionUnsafe.ValueOrFailure` | src/Optional/Unsafe/OptionUnsafeExtensions.cs:83-91 | returns iff present, and then the option is `Some` of the result; otherwise throws the missing-value failure with no message |
| `OptionUnsafe.ValueOrFailureMessage` | src/Optional/Unsafe/OptionUnsafeExtensions.cs:146-154 | returns iff present, and then the option is `Some` of the result; otherwise throws the missing-value failure carrying exactly `errorMessage` |
| `OptionUnsafe.ValueOrFailureFactory` | src/Optional/Unsafe/OptionUnsafeExtensions.cs:163-173 | a null factory throws the argument-null failure for `errorMessageFactory` whether or not a value is present; otherwise returns iff present, and an absent option throws with the factory's message |
| `OptionUnsafe.ValueOrFailureFactoryCalls` | src/Optional/Unsafe/OptionUnsafeExtensions.cs:163-173 | the outcome equals `ValueOrFailureFactory`; a counter kept beside the only factory call is 1 exactly when the factory is non-null and the option is absent, and 0 otherwise |
| `OptionUnsafe.ToNullableEx` | src/Optional/Unsafe/OptionUnsafeExtensions.cs:98-106 | non-null iff present, and then it holds the option's value |
| `OptionUnsafe.ToSpanEx` | src/Optional/Unsafe/OptionUnsafeExtensions.cs:47-58 | at most one element; exactly one iff present, and that element is the option's value |
| `OptionUnsafe.ValueOrDefaultEx` | src/Optional/Unsafe/OptionUnsafeExtensions.cs:113-121 | the value when present, `default(T)` when absent; no failure case exists |
| `OptionUnsafe.ValueOrFailureEx` | src/Optional/Unsafe/OptionUnsafeExtensions.cs:129-137 | returns the value iff present; otherwise throws the missing-value failure with no message |
| `OptionUnsafe.ValueOrFailureMessageEx` | src/Optional/Unsafe/OptionUnsafeExtensions.cs:182-190 | returns the value iff present; otherwise throws the missing-value failure carrying exactly `errorMessage` |
| `OptionUnsafe.ValueOrFailureFactoryEx` | src/Optional/Unsafe/OptionUnsafeExtensions.cs:199-209 | a null factory throws the argument-null failure whatever the option; otherwise returns the value iff present, and an absent option throws with the factory applied to the stored exception |
| `OptionUnsafe.ValueOrFailureFactoryExCalls` | src/Optional/Unsafe/OptionUnsafeExtensions.cs:199-209 | the outcome equals `ValueOrFailureFactoryEx`; a counter kept beside the only factory call is 1 exactly when the factory is non-null and the option is absent, and 0 otherwise |
| `OptionUnsafe.PresentExtractionsAgree` | src/Optional/Unsafe/OptionUnsafeExtensions.cs:14-173 | on a present plain option, `ValueOrDefault`, `ToNullable`, the only span element and all three `ValueOrFailure` forms (given a non-null factory) give the same value, and none of them throws |
| `OptionUnsafe.PresentExtractionsAgreeEx` | src/Optional/Unsafe/OptionUnsafeExtensions.cs:47-209 | the same agreement for a present option with an exception slot |
| `OptionUnsafe.AbsentExtractions` | src/Optional/Unsafe/OptionUnsafeExtensions.cs:14-173 | on an absent plain option: `default(T)`, null, the empty span, and the three missing-value failures with no message, the given message and the factory's message |
| `OptionUnsafe.AbsentExtractionsEx` | src/Optional/Unsafe/OptionUnsafeExtensions.cs:47-209 | the same for the exception shape; the factory's message is computed from the option's stored exception |
| `OptionUnsafe.ConstructThenExtract` | src/Optional/Unsafe/OptionUnsafeExtensions.cs:67-208 | every extraction of `Some(v)` gives back `v` for both shapes (`ValueOrDefault`, `ToNullable`, `ToSpan`, and the three `ValueOrFailure` forms with a non-null factory), `None()` extracts to `default` and null, and the failure for `None(e)` carries the factory's message for exactly `e` |
| `OptionUnsafe.FactoryIrrelevantWhenPresent` | src/Optional/Unsafe/OptionUnsafeExtensions.cs:163-209 | on a present option, any two non-null factories give the same outcome, for both shapes |
| `OptionUnsafe.ValueOrDefaultReadsSlot` | src/Optional/Unsafe/OptionUnsafeExtensions.cs:67-121 | on a well-formed option, `ValueOrDefault` equals the raw value slot, for both shapes |
| `OptionUnsafe.ShapesAgree` | src/Optional/Unsafe/OptionUnsafeExtensions.cs:14-190 | two options of the two shapes with the same flag and value agree on every extraction that does not read the exception |

## Left out

- `src/Optional.Utilities/Parse.cs` is not part of this model. Its methods wrap the .NET `TryParse`/`TryParseExact` parsers, which depend on culture, format and style data outside this library, and on floating-point and decimal parsing.
- `MemoryMarshal.CreateReadOnlySpan` and the local copy `spanVal` that `ToSpan` makes before calling it. The returned span points at `spanVal`, a local of `ToSpan`'s own frame whose storage ends when `ToSpan` returns. The model gives the evidently intended result, the one-element sequence `[o.value]`, and does not capture where the span's storage lives or whether it is still valid.
- The `NETSTANDARD2_1 || NET6_0_OR_GREATER` build switch around `ToSpan`. It is build configuration; the model treats `ToSpan` as present.
- The struct bodies of `Option<T>` and `Option<T, TException>`: their equality, hashing, combinators (map, bind, match, filter, else/or) and the body of `Option<T>.None`. They are not in the modelled files.
- The text of the parameterless `OptionValueMissingException()`. It is modelled as `NoMessage` rather than as an invented string.
- Exception object identity and stack traces. Failures are modelled only as outcome values.
- Exceptions thrown by a caller's message factory. They propagate unchanged in the library, but Dafny function values cannot throw, so the model does not represent them.
- A `null` `errorMessage` string. Nullable reference annotations declare the parameter as non-null `string`, and the code passes it through unchecked, so the model treats it as non-null text.
- `ValueOrDefault`, `ValueOrDefaultEx`, `SomeEx`, `None`, `NoneEx`: ghost. `default(T)` has no compilable Dafny expression, so these members specify behaviour but are not executable.
- `ValueOrFailureFactoryCalls`, `ValueOrFailureFactoryExCalls`: Dafny cannot observe calls of a `->` function. The counter is kept by hand beside the factory call, so "at most once" and the factory's side effects are not captured. The laziness fact that is checked is `FactoryIrrelevantWhenPresent`: on a present option the outcome does not depend on the factory.
- `Default<T>()` stands for `default(T)` only as an unspecified fixed value of each type. The model cannot derive that `default(int)` is `0` or that the default of a reference type is `null`.
- The `where T : struct` constraint on both `ToNullable` overloads. `ToNullable` and `ToNullableEx` accept every `T`; the result `Nullable<T>` stands for `T?`.
