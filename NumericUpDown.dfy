/** The numeric up-down control: a decimal value kept inside [Minimum, Maximum] and on the grid
    of `DecimalPlaces` decimals, stepped by `Increment`, and edited through a text box.

    Each of `Value`, `Minimum`, `Maximum` and `Increment` is a dependency property: it keeps the
    value last assigned to it (its base value) and shows the result of its coercion callback
    applied to that base value. Re-coercing a property runs the callback again on the base
    value. */
module NumericUpDown {
  import opened Common
  import opened Text
  import opened DecimalMath

  /** The exceptions the control's entry points throw. */
  datatype Fault = ArgumentOutOfRange | InvalidArgument | ElementNotEnabled | Overflow

  /** The keys the text box's preview handler tells apart. */
  datatype Key = Up | Down | Return | OtherKey

  const DefaultMinimum: real := 0.0
  const DefaultMaximum: real := 100.0
  const DefaultIncrement: real := 1.0
  const DefaultDecimalPlaces: nat := 0

  /** The most decimals `Decimal.Round` accepts. */
  const MaxDecimalPlaces: nat := 28

  /** The step 10^-dp that `SmallestForDecimalPlaces` computes. */
  function Step(dp: nat): real
  {
    1.0 / Scale(dp)
  }

  /** `CoerceValue`: clamp into [minimum, maximum], then round to `dp` decimals. */
  function CoerceValue(minimum: real, maximum: real, dp: nat, v: real): real
  {
    var clamped := if maximum < v then maximum else v;
    Round(if clamped < minimum then minimum else clamped, dp)
  }

  /** `CoerceMinimum`: round to `dp` decimals. */
  function CoerceMinimum(dp: nat, v: real): real
  {
    Round(v, dp)
  }

  /** `CoerceMaximum`: at least the minimum, rounded to `dp` decimals. */
  function CoerceMaximum(minimum: real, dp: nat, v: real): real
  {
    Round(if v < minimum then minimum else v, dp)
  }

  /** `CoerceIncrement`: round to `dp` decimals, and use the smallest step instead of zero. */
  function CoerceIncrement(dp: nat, v: real): real
  {
    var r := Round(v, dp);
    if r == 0.0 then Step(dp) else r
  }

  /** `ValidateIncrement`: an increment must be positive. */
  predicate ValidIncrement(v: real)
  {
    v > 0.0
  }

  /** `ValidateDecimalPlaces`: the number of decimals must not be negative. */
  predicate ValidDecimalPlaces(dp: int)
  {
    dp >= 0
  }

  /** The smallest step is on its own grid and positive. */
  lemma StepPositive(dp: nat)
    ensures Step(dp) > 0.0 && OnGrid(Step(dp), dp)
  {
    StepOnGrid(dp);
  }

  /** With bounds on the grid and in order, a coerced value lies between them, on the grid. */
  lemma CoerceValueInRange(minimum: real, maximum: real, dp: nat, v: real)
    requires OnGrid(minimum, dp) && OnGrid(maximum, dp) && minimum <= maximum
    ensures minimum <= CoerceValue(minimum, maximum, dp, v) <= maximum
    ensures OnGrid(CoerceValue(minimum, maximum, dp, v), dp)
  {
    var clamped := if maximum < v then maximum else v;
    var c := if clamped < minimum then minimum else clamped;
    RoundMonotone(minimum, c, dp);
    RoundMonotone(c, maximum, dp);
    RoundOnGrid(minimum, dp);
    RoundOnGrid(maximum, dp);
    RoundNearest(c, dp);
  }

  /** A value on the grid and in range is left as it is. */
  lemma CoerceValueFixes(minimum: real, maximum: real, dp: nat, v: real)
    requires OnGrid(v, dp) && minimum <= v <= maximum
    ensures CoerceValue(minimum, maximum, dp, v) == v
  {
    RoundOnGrid(v, dp);
  }

  /** Coercing a coerced value changes nothing. */
  lemma CoerceValueIdempotent(minimum: real, maximum: real, dp: nat, v: real)
    requires OnGrid(minimum, dp) && OnGrid(maximum, dp) && minimum <= maximum
    ensures CoerceValue(minimum, maximum, dp, CoerceValue(minimum, maximum, dp, v))
      == CoerceValue(minimum, maximum, dp, v)
  {
    CoerceValueInRange(minimum, maximum, dp, v);
    CoerceValueFixes(minimum, maximum, dp, CoerceValue(minimum, maximum, dp, v));
  }

  /** The coerced maximum is never below a minimum on the grid, and is on the grid itself. */
  lemma CoerceMaximumAboveMinimum(minimum: real, dp: nat, v: real)
    requires OnGrid(minimum, dp)
    ensures minimum <= CoerceMaximum(minimum, dp, v) && OnGrid(CoerceMaximum(minimum, dp, v), dp)
  {
    var m := if v < minimum then minimum else v;
    RoundMonotone(minimum, m, dp);
    RoundOnGrid(minimum, dp);
    RoundNearest(m, dp);
  }

  /** The coerced minimum is on the grid. */
  lemma CoerceMinimumOnGrid(dp: nat, v: real)
    ensures OnGrid(CoerceMinimum(dp, v), dp)
  {
    RoundNearest(v, dp);
  }

  /** The coerced increment is never zero; it is positive and on the grid whenever the
      increment passed validation. */
  lemma CoerceIncrementPositive(dp: nat, v: real)
    ensures CoerceIncrement(dp, v) != 0.0
    ensures ValidIncrement(v) ==> CoerceIncrement(dp, v) > 0.0 && OnGrid(CoerceIncrement(dp, v), dp)
  {
    StepPositive(dp);
    RoundNearest(v, dp);
    if v > 0.0 {
      ZeroOnGrid(dp);
      RoundOnGrid(0.0, dp);
      RoundMonotone(0.0, v, dp);
    }
  }

  /** The whole state the coercions produce from the base values: the minimum, then the
      maximum above it, then the value between them, all on the grid. */
  lemma CoercedState(minimumBase: real, maximumBase: real, valueBase: real, dp: nat)
    ensures var minimum := CoerceMinimum(dp, minimumBase);
      var maximum := CoerceMaximum(minimum, dp, maximumBase);
      var value := CoerceValue(minimum, maximum, dp, valueBase);
      minimum <= value <= maximum
      && OnGrid(minimum, dp) && OnGrid(maximum, dp) && OnGrid(value, dp)
  {
    var minimum := CoerceMinimum(dp, minimumBase);
    CoerceMinimumOnGrid(dp, minimumBase);
    CoerceMaximumAboveMinimum(minimum, dp, maximumBase);
    CoerceValueInRange(minimum, CoerceMaximum(minimum, dp, maximumBase), dp, valueBase);
  }

  /** Stepping up from an in-range value on the grid stays in range and on the grid when the
      sum does not pass the maximum. */
  lemma IncreaseInRange(minimum: real, maximum: real, dp: nat, v: real, increment: real)
    requires OnGrid(v, dp) && OnGrid(increment, dp) && increment > 0.0
    requires minimum <= v && v + increment <= maximum
    ensures CoerceValue(minimum, maximum, dp, v + increment) == v + increment
  {
    OnGridAddSub(v, increment, dp);
    CoerceValueFixes(minimum, maximum, dp, v + increment);
  }

  /** Stepping down mirrors stepping up. */
  lemma DecreaseInRange(minimum: real, maximum: real, dp: nat, v: real, increment: real)
    requires OnGrid(v, dp) && OnGrid(increment, dp) && increment > 0.0
    requires v - increment >= minimum && v <= maximum
    ensures CoerceValue(minimum, maximum, dp, v - increment) == v - increment
  {
    OnGridAddSub(v, increment, dp);
    CoerceValueFixes(minimum, maximum, dp, v - increment);
  }

  /** With the default range: 150 is clamped to 100, and 2.345 with two decimals becomes 2.34,
      since the tie 234.5 rounds to the even 234. */
  lemma CoerceValueExamples()
    ensures CoerceValue(0.0, 100.0, 0, 150.0) == 100.0
    ensures CoerceValue(0.0, 100.0, 2, 2.345) == 2.34
    ensures CoerceValue(0.0, 100.0, 0, -3.0) == 0.0
  {
    assert Scale(0) == 1.0;
    assert Scale(2) == 100.0 by { assert Pow10(2) == 100; }
    assert 2.345 * 100.0 == 234.5;
    assert RoundHalfEven(234.5) == 234;
  }

  /** `SmallestForDecimalPlaces`: divides 1 by 10 once per decimal place; a negative count
      throws. */
  method SmallestForDecimalPlaces(dp: int) returns (r: Result<real, Fault>)
    ensures dp < 0 ==> r == Err(ArgumentOutOfRange)
    ensures dp >= 0 ==> r == Ok(Step(dp))
  {
    if dp < 0 {
      return Err(ArgumentOutOfRange);
    }
    var d := 1.0;
    var i := 0;
    while i < dp
      invariant 0 <= i <= dp
      invariant d == Step(i)
    {
      assert Scale(i + 1) == 10.0 * Scale(i);
      d := d / 10.0;
      i := i + 1;
    }
    return Ok(d);
  }

  class NumericUpDown {
    var value: real
    var minimum: real
    var maximum: real
    var increment: real
    var decimalPlaces: nat

    /** The values last assigned to the four coerced properties. */
    var valueBase: real
    var minimumBase: real
    var maximumBase: real
    var incrementBase: real

    /** `_inputValue` and `_lastInput`: the last accepted text input and its value. */
    var inputValue: real
    var lastInput: string

    /** The template's text box: its text and caret position. */
    var boxText: string
    var selectionStart: nat

    var isReadOnly: bool

    /** `Value.ToString("F" + DecimalPlaces, NumberFormatInfo)`, which depends on the culture. */
    const format: (real, nat) -> string

    /** Every shown property is the coercion of its base value, in dependency order. */
    predicate Valid()
      reads this
    {
      decimalPlaces <= MaxDecimalPlaces
      && ValidIncrement(incrementBase)
      && minimum == CoerceMinimum(decimalPlaces, minimumBase)
      && maximum == CoerceMaximum(minimum, decimalPlaces, maximumBase)
      && value == CoerceValue(minimum, maximum, decimalPlaces, valueBase)
      && increment == CoerceIncrement(decimalPlaces, incrementBase)
    }

    /** The invariant the control keeps: the value in range, everything on the grid, and a
        positive increment. */
    lemma InRange()
      requires Valid()
      ensures minimum <= value <= maximum && increment > 0.0
      ensures OnGrid(value, decimalPlaces) && OnGrid(increment, decimalPlaces)
      ensures OnGrid(minimum, decimalPlaces) && OnGrid(maximum, decimalPlaces)
    {
      CoercedState(minimumBase, maximumBase, valueBase, decimalPlaces);
      CoerceIncrementPositive(decimalPlaces, incrementBase);
    }

    /** A new control with the default range [0, 100], increment 1, no decimals, an empty
        last input, and its text box attached. */
    constructor(format: (real, nat) -> string)
      ensures Valid()
      ensures value == 0.0 && minimum == 0.0 && maximum == 100.0 && increment == 1.0
      ensures decimalPlaces == 0 && lastInput == "" && !isReadOnly
      ensures this.format == format
    {
      this.format := format;
      value, minimum, maximum, increment := 0.0, 0.0, 100.0, 1.0;
      valueBase, minimumBase, maximumBase, incrementBase := 0.0, 0.0, 100.0, 1.0;
      decimalPlaces := 0;
      inputValue := 0.0;
      lastInput := "";
      boxText := "";
      selectionStart := 0;
      isReadOnly := false;
      new;
      assert Scale(0) == 1.0;
    }

    /** `UpdateText`: the text box shows the value. Assigning the text raises the text box's
        TextChanged event, which accepts the formatted value as the new input. */
    method UpdateText()
      modifies this
      ensures boxText == format(value, decimalPlaces) && lastInput == boxText
      ensures inputValue == value
      ensures value == old(value) && minimum == old(minimum) && maximum == old(maximum)
      ensures increment == old(increment) && decimalPlaces == old(decimalPlaces)
      ensures valueBase == old(valueBase) && minimumBase == old(minimumBase)
      ensures maximumBase == old(maximumBase) && incrementBase == old(incrementBase)
      ensures selectionStart == old(selectionStart) && isReadOnly == old(isReadOnly)
    {
      boxText := format(value, decimalPlaces);
      lastInput := boxText;
      inputValue := value;
    }

    /** `CoerceValue(ValueProperty)`; when the value changes, `OnValueChanged` updates the text. */
    method RecoerceValue()
      modifies this
      ensures value == CoerceValue(minimum, maximum, decimalPlaces, valueBase)
      ensures value != old(value) ==> boxText == format(value, decimalPlaces) && lastInput == boxText && inputValue == value
      ensures value == old(value) ==> boxText == old(boxText) && lastInput == old(lastInput) && inputValue == old(inputValue)
      ensures minimum == old(minimum) && maximum == old(maximum)
      ensures increment == old(increment) && decimalPlaces == old(decimalPlaces)
      ensures valueBase == old(valueBase) && minimumBase == old(minimumBase)
      ensures maximumBase == old(maximumBase) && incrementBase == old(incrementBase)
      ensures selectionStart == old(selectionStart) && isReadOnly == old(isReadOnly)
    {
      var coerced := CoerceValue(minimum, maximum, decimalPlaces, valueBase);
      if coerced != value {
        value := coerced;
        UpdateText();
      }
    }

    /** `CoerceValue(MaximumProperty)`; when the maximum changes, `OnMaximumChanged`
        re-coerces the value. */
    method RecoerceMaximum()
      modifies this
      ensures maximum == CoerceMaximum(minimum, decimalPlaces, maximumBase)
      ensures maximum != old(maximum) ==> value == CoerceValue(minimum, maximum, decimalPlaces, valueBase)
      ensures maximum == old(maximum) ==> value == old(value)
      ensures value != old(value) ==> boxText == format(value, decimalPlaces) && lastInput == boxText && inputValue == value
      ensures value == old(value) ==> boxText == old(boxText) && lastInput == old(lastInput) && inputValue == old(inputValue)
      ensures minimum == old(minimum)
      ensures increment == old(increment) && decimalPlaces == old(decimalPlaces)
      ensures valueBase == old(valueBase) && minimumBase == old(minimumBase)
      ensures maximumBase == old(maximumBase) && incrementBase == old(incrementBase)
      ensures selectionStart == old(selectionStart) && isReadOnly == old(isReadOnly)
    {
      var coerced := CoerceMaximum(minimum, decimalPlaces, maximumBase);
      if coerced != maximum {
        maximum := coerced;
        RecoerceValue();
      }
    }

    /** `CoerceValue(MinimumProperty)`; when the minimum changes, `OnMinimumChanged`
        re-coerces the maximum and then the value. */
    method RecoerceMinimum()
      modifies this
      ensures minimum == CoerceMinimum(decimalPlaces, minimumBase)
      ensures minimum != old(minimum) ==>
        maximum == CoerceMaximum(minimum, decimalPlaces, maximumBase)
        && value == CoerceValue(minimum, maximum, decimalPlaces, valueBase)
      ensures minimum == old(minimum) ==> maximum == old(maximum) && value == old(value)
      ensures value != old(value) ==> boxText == format(value, decimalPlaces) && lastInput == boxText && inputValue == value
      ensures value == old(value) ==> boxText == old(boxText) && lastInput == old(lastInput) && inputValue == old(inputValue)
      ensures increment == old(increment) && decimalPlaces == old(decimalPlaces)
      ensures valueBase == old(valueBase) && minimumBase == old(minimumBase)
      ensures maximumBase == old(maximumBase) && incrementBase == old(incrementBase)
      ensures selectionStart == old(selectionStart) && isReadOnly == old(isReadOnly)
    {
      var coerced := CoerceMinimum(decimalPlaces, minimumBase);
      if coerced != minimum {
        minimum := coerced;
        RecoerceMaximum();
        RecoerceValue();
      }
    }

    /** Assigning `Value`: the base value is stored and the value shown is its coercion. */
    method SetValue(v: real)
      requires Valid()
      modifies this
      ensures Valid()
      ensures valueBase == v && value == CoerceValue(minimum, maximum, decimalPlaces, v)
      ensures value != old(value) ==> boxText == format(value, decimalPlaces) && lastInput == boxText && inputValue == value
      ensures value == old(value) ==> boxText == old(boxText) && lastInput == old(lastInput) && inputValue == old(inputValue)
      ensures minimum == old(minimum) && maximum == old(maximum)
      ensures increment == old(increment) && decimalPlaces == old(decimalPlaces)
      ensures minimumBase == old(minimumBase) && maximumBase == old(maximumBase)
      ensures incrementBase == old(incrementBase)
      ensures selectionStart == old(selectionStart) && isReadOnly == old(isReadOnly)
    {
      valueBase := v;
      RecoerceValue();
    }

    /** Assigning `Minimum`: the maximum and the value follow it. */
    method SetMinimum(v: real)
      requires Valid()
      modifies this
      ensures Valid()
      ensures minimumBase == v && minimum == CoerceMinimum(decimalPlaces, v)
      ensures minimum <= value <= maximum
      ensures value != old(value) ==> boxText == format(value, decimalPlaces) && lastInput == boxText && inputValue == value
      ensures value == old(value) ==> boxText == old(boxText) && lastInput == old(lastInput) && inputValue == old(inputValue)
      ensures increment == old(increment) && decimalPlaces == old(decimalPlaces)
      ensures valueBase == old(valueBase) && maximumBase == old(maximumBase)
      ensures incrementBase == old(incrementBase)
      ensures selectionStart == old(selectionStart) && isReadOnly == old(isReadOnly)
    {
      minimumBase := v;
      RecoerceMinimum();
      InRange();
    }

    /** Assigning `Maximum`: the value follows it; the maximum never falls below the minimum. */
    method SetMaximum(v: real)
      requires Valid()
      modifies this
      ensures Valid()
      ensures maximumBase == v && maximum == CoerceMaximum(minimum, decimalPlaces, v)
      ensures minimum <= value <= maximum
      ensures value != old(value) ==> boxText == format(value, decimalPlaces) && lastInput == boxText && inputValue == value
      ensures value == old(value) ==> boxText == old(boxText) && lastInput == old(lastInput) && inputValue == old(inputValue)
      ensures minimum == old(minimum)
      ensures increment == old(increment) && decimalPlaces == old(decimalPlaces)
      ensures valueBase == old(valueBase) && minimumBase == old(minimumBase)
      ensures incrementBase == old(incrementBase)
      ensures selectionStart == old(selectionStart) && isReadOnly == old(isReadOnly)
    {
      maximumBase := v;
      RecoerceMaximum();
      InRange();
    }

    /** Assigning `Increment`: a value that is not positive is rejected with an
        `ArgumentException` and changes nothing; otherwise the increment is coerced. */
    method SetIncrement(v: real) returns (thrown: Option<Fault>)
      requires Valid()
      modifies this
      ensures Valid()
      ensures thrown == None <==> ValidIncrement(v)
      ensures thrown != None ==> thrown == Some(InvalidArgument) && incrementBase == old(incrementBase)
      ensures thrown == None ==> incrementBase == v && increment == CoerceIncrement(decimalPlaces, v)
      ensures thrown == None ==> increment > 0.0
      ensures thrown != None ==> increment == old(increment)
      ensures value == old(value) && minimum == old(minimum) && maximum == old(maximum)
      ensures decimalPlaces == old(decimalPlaces) && valueBase == old(valueBase)
      ensures minimumBase == old(minimumBase) && maximumBase == old(maximumBase)
      ensures inputValue == old(inputValue) && lastInput == old(lastInput) && boxText == old(boxText)
      ensures selectionStart == old(selectionStart) && isReadOnly == old(isReadOnly)
    {
      if !ValidIncrement(v) {
        return Some(InvalidArgument);
      }
      incrementBase := v;
      increment := CoerceIncrement(decimalPlaces, v);
      CoerceIncrementPositive(decimalPlaces, v);
      return None;
    }

    /** Assigning `DecimalPlaces`: a negative count is rejected with an `ArgumentException`;
        otherwise `OnDecimalPlacesChanged` re-coerces the increment, the minimum, the maximum
        and the value, in that order, and updates the text. */
    method SetDecimalPlaces(dp: int) returns (thrown: Option<Fault>)
      requires Valid()
      modifies this
      ensures Valid()
      ensures thrown == None <==> ValidDecimalPlaces(dp) && dp <= MaxDecimalPlaces
      ensures thrown != None ==> value == old(value) && decimalPlaces == old(decimalPlaces)
      ensures thrown != None ==> boxText == old(boxText) && lastInput == old(lastInput) && inputValue == old(inputValue)
      ensures thrown == Some(InvalidArgument) <==> dp < 0
      ensures thrown == None ==> decimalPlaces == dp
      ensures thrown == None && dp != old(decimalPlaces) ==>
        boxText == format(value, decimalPlaces) && lastInput == boxText && inputValue == value
      ensures minimum <= value <= maximum && increment > 0.0
      ensures valueBase == old(valueBase) && minimumBase == old(minimumBase)
      ensures maximumBase == old(maximumBase) && incrementBase == old(incrementBase)
      ensures selectionStart == old(selectionStart) && isReadOnly == old(isReadOnly)
    {
      if !ValidDecimalPlaces(dp) {
        InRange();
        return Some(InvalidArgument);
      }
      if dp > MaxDecimalPlaces {
        InRange();
        return Some(ArgumentOutOfRange);
      }
      if dp != decimalPlaces {
        decimalPlaces := dp;
        increment := CoerceIncrement(decimalPlaces, incrementBase);
        RecoerceMinimum();
        RecoerceMaximum();
        RecoerceValue();
        UpdateText();
      }
      InRange();
      return None;
    }

    /** `UpdateValue`: a pending input that differs from the value is coerced and assigned. */
    method UpdateValue()
      requires Valid()
      modifies this
      ensures Valid()
      ensures old(inputValue) != old(value) ==>
        value == CoerceValue(minimum, maximum, decimalPlaces, old(inputValue))
      ensures old(inputValue) != old(value) ==> valueBase == value
      ensures old(inputValue) == old(value) ==> value == old(value) && valueBase == old(valueBase)
      ensures value != old(value) ==> boxText == format(value, decimalPlaces) && lastInput == boxText && inputValue == value
      ensures value == old(value) ==> boxText == old(boxText) && lastInput == old(lastInput) && inputValue == old(inputValue)
      ensures minimum == old(minimum) && maximum == old(maximum) && increment == old(increment)
      ensures decimalPlaces == old(decimalPlaces) && isReadOnly == old(isReadOnly)
      ensures minimumBase == old(minimumBase) && maximumBase == old(maximumBase)
      ensures incrementBase == old(incrementBase) && selectionStart == old(selectionStart)
    {
      if inputValue != value {
        InRange();
        var input := inputValue;
        var v := CoerceValue(minimum, maximum, decimalPlaces, input);
        CoerceValueIdempotent(minimum, maximum, decimalPlaces, input);
        assert CoerceValue(minimum, maximum, decimalPlaces, v) == v;
        SetValue(v);
      }
    }

    /** `OnIncrease`: commit the pending input, then add the increment unless that passes the
        maximum. */
    method OnIncrease()
      requires Valid()
      modifies this
      ensures Valid()
      ensures var committed := Committed(old(minimum), old(maximum), old(decimalPlaces), old(inputValue), old(value));
        value == (if committed + increment <= maximum then committed + increment else committed)
      ensures var committed := Committed(old(minimum), old(maximum), old(decimalPlaces), old(inputValue), old(value));
        valueBase == (if committed + increment <= maximum then committed + increment
                      else if old(inputValue) != old(value) then committed else old(valueBase))
      ensures value != old(value) ==> boxText == format(value, decimalPlaces) && lastInput == boxText && inputValue == value
      ensures old(inputValue) == old(value) && value == old(value) ==>
        boxText == old(boxText) && lastInput == old(lastInput) && inputValue == old(inputValue)
      ensures minimum == old(minimum) && maximum == old(maximum) && increment == old(increment)
      ensures decimalPlaces == old(decimalPlaces)
      ensures minimumBase == old(minimumBase) && maximumBase == old(maximumBase)
      ensures incrementBase == old(incrementBase)
      ensures selectionStart == old(selectionStart) && isReadOnly == old(isReadOnly)
    {
      UpdateValue();
      InRange();
      if value + increment <= maximum {
        IncreaseInRange(minimum, maximum, decimalPlaces, value, increment);
        SetValue(value + increment);
      }
    }

    /** `OnDecrease`: commit the pending input, then subtract the increment unless that passes
        the minimum. */
    method OnDecrease()
      requires Valid()
      modifies this
      ensures Valid()
      ensures var committed := Committed(old(minimum), old(maximum), old(decimalPlaces), old(inputValue), old(value));
        value == (if committed - increment >= minimum then committed - increment else committed)
      ensures var committed := Committed(old(minimum), old(maximum), old(decimalPlaces), old(inputValue), old(value));
        valueBase == (if committed - increment >= minimum then committed - increment
                      else if old(inputValue) != old(value) then committed else old(valueBase))
      ensures value != old(value) ==> boxText == format(value, decimalPlaces) && lastInput == boxText && inputValue == value
      ensures old(inputValue) == old(value) && value == old(value) ==>
        boxText == old(boxText) && lastInput == old(lastInput) && inputValue == old(inputValue)
      ensures minimum == old(minimum) && maximum == old(maximum) && increment == old(increment)
      ensures decimalPlaces == old(decimalPlaces)
      ensures minimumBase == old(minimumBase) && maximumBase == old(maximumBase)
      ensures incrementBase == old(incrementBase)
      ensures selectionStart == old(selectionStart) && isReadOnly == old(isReadOnly)
    {
      UpdateValue();
      InRange();
      if value - increment >= minimum {
        DecreaseInRange(minimum, maximum, decimalPlaces, value, increment);
        SetValue(value - increment);
      }
    }

    /** `OnGotFocus`: the text box shows the value. */
    method GotFocus()
      requires Valid()
      modifies this
      ensures Valid()
      ensures boxText == format(value, decimalPlaces) && lastInput == boxText && inputValue == value
      ensures value == old(value) && minimum == old(minimum) && maximum == old(maximum)
      ensures increment == old(increment) && decimalPlaces == old(decimalPlaces)
      ensures valueBase == old(valueBase)
      ensures minimumBase == old(minimumBase) && maximumBase == old(maximumBase)
      ensures incrementBase == old(incrementBase)
      ensures selectionStart == old(selectionStart) && isReadOnly == old(isReadOnly)
    {
      UpdateText();
    }

    /** `OnLostFocus`, and the Return key: the pending input is committed and the text box shows
        the value. */
    method LostFocus()
      requires Valid()
      modifies this
      ensures Valid()
      ensures value == Committed(old(minimum), old(maximum), old(decimalPlaces), old(inputValue), old(value))
      ensures minimum <= value <= maximum
      ensures boxText == format(value, decimalPlaces) && lastInput == boxText && inputValue == value
      ensures valueBase == if old(inputValue) != old(value) then value else old(valueBase)
      ensures minimum == old(minimum) && maximum == old(maximum) && increment == old(increment)
      ensures decimalPlaces == old(decimalPlaces)
      ensures minimumBase == old(minimumBase) && maximumBase == old(maximumBase)
      ensures incrementBase == old(incrementBase)
      ensures selectionStart == old(selectionStart) && isReadOnly == old(isReadOnly)
    {
      UpdateValue();
      UpdateText();
      InRange();
    }

    /** `OnTextBoxPreviewKeyDown`: Up and Down step the value when arrow keys are intercepted,
        Return commits the input; the event is marked handled for these three keys only. */
    method KeyDown(key: Key, interceptArrowKeys: bool) returns (handled: bool)
      requires Valid()
      modifies this
      ensures Valid()
      ensures handled <==> !key.OtherKey?
      ensures var committed := Committed(old(minimum), old(maximum), old(decimalPlaces), old(inputValue), old(value));
        (key == Up && interceptArrowKeys ==>
          value == (if committed + increment <= maximum then committed + increment else committed))
        && (key == Down && interceptArrowKeys ==>
          value == (if committed - increment >= minimum then committed - increment else committed))
        && (key == Return ==> value == committed && boxText == format(value, decimalPlaces))
      ensures key == Return ==> lastInput == boxText && inputValue == value
      ensures (key == Up || key == Down) && interceptArrowKeys && value != old(value) ==> boxText == format(value, decimalPlaces) && lastInput == boxText && inputValue == value
      ensures key.OtherKey? || (!interceptArrowKeys && key != Return) ==>
        value == old(value) && valueBase == old(valueBase) && boxText == old(boxText)
        && lastInput == old(lastInput) && inputValue == old(inputValue)
      ensures minimum == old(minimum) && maximum == old(maximum) && increment == old(increment)
      ensures decimalPlaces == old(decimalPlaces)
      ensures minimumBase == old(minimumBase) && maximumBase == old(maximumBase)
      ensures incrementBase == old(incrementBase)
      ensures selectionStart == old(selectionStart) && isReadOnly == old(isReadOnly)
    {
      handled := !key.OtherKey?;
      match key
      case Up =>
        if interceptArrowKeys {
          OnIncrease();
        }
      case Down =>
        if interceptArrowKeys {
          OnDecrease();
        }
      case Return =>
        LostFocus();
      case OtherKey =>
    }

    /** `ReturnPreviousInput`: the text box goes back to the last accepted input, with the caret
        one place to the left (not before the start). */
    method ReturnPreviousInput()
      modifies this
      ensures boxText == old(lastInput)
      ensures selectionStart == if old(selectionStart) == 0 then 0 else old(selectionStart) - 1
      ensures value == old(value) && minimum == old(minimum) && maximum == old(maximum)
      ensures increment == old(increment) && decimalPlaces == old(decimalPlaces)
      ensures valueBase == old(valueBase) && minimumBase == old(minimumBase)
      ensures maximumBase == old(maximumBase) && incrementBase == old(incrementBase)
      ensures inputValue == old(inputValue) && lastInput == old(lastInput)
      ensures isReadOnly == old(isReadOnly)
    {
      boxText := lastInput;
      selectionStart := if selectionStart == 0 then 0 else selectionStart - 1;
    }

    /** `OnTextBoxTextChanged` after the user has set the box to `text` with the caret at
        `caret`. `parsed` is what `decimal.TryParse` makes of `text` with the control's number
        format, whose negative sign and decimal separator are `negativeSign` and
        `decimalSeparator`. */
    method TextChanged(text: string, caret: nat, parsed: Option<real>, negativeSign: string,
                       decimalSeparator: string)
      requires Valid()
      modifies this
      ensures Valid()
      ensures isReadOnly ==> lastInput == text && inputValue == value && boxText == text && selectionStart == caret
      ensures !isReadOnly && (text == "" || text == negativeSign) ==>
        lastInput == old(lastInput) && inputValue == old(inputValue) && boxText == text
        && selectionStart == caret
      ensures (!isReadOnly && text != "" && text != negativeSign && parsed.Some?
        && !(decimalPlaces == 0 && Contains(text, decimalSeparator))) ==>
        lastInput == text && inputValue == parsed.value && boxText == text && selectionStart == caret
      ensures (!isReadOnly && text != "" && text != negativeSign
        && (parsed.None? || (decimalPlaces == 0 && Contains(text, decimalSeparator)))) ==>
        lastInput == old(lastInput) && inputValue == old(inputValue) && boxText == old(lastInput)
        && selectionStart == (if caret == 0 then 0 else caret - 1)
      ensures value == old(value) && minimum == old(minimum) && maximum == old(maximum)
      ensures increment == old(increment) && decimalPlaces == old(decimalPlaces)
      ensures valueBase == old(valueBase) && minimumBase == old(minimumBase)
      ensures maximumBase == old(maximumBase) && incrementBase == old(incrementBase)
      ensures isReadOnly == old(isReadOnly)
    {
      boxText := text;
      selectionStart := caret;
      if !isReadOnly {
        if text == "" || text == negativeSign {
          return;
        }
        if parsed.Some? {
          if decimalPlaces == 0 && Contains(text, decimalSeparator) {
            ReturnPreviousInput();
            return;
          }
          lastInput := text;
          inputValue := parsed.value;
          return;
        }
        ReturnPreviousInput();
      } else {
        lastInput := boxText;
        inputValue := value;
      }
    }
  }

  /** The value `UpdateValue` leaves: the coerced pending input when it differs from the value. */
  function Committed(minimum: real, maximum: real, dp: nat, inputValue: real, value: real): real
  {
    if inputValue != value then CoerceValue(minimum, maximum, dp, inputValue) else value
  }

  /** 2^96, the magnitude at which the `double` to `decimal` conversion overflows. */
  const DecimalOverflowBound: real := 79228162514264337593543950336.0

  /** The explicit conversion `(decimal)d`: `OverflowException` (`None`) for NaN, for the
      infinities and for magnitudes at or beyond 2^96; otherwise the number itself. */
  function DoubleToDecimal(d: Double): (r: Option<real>)
    ensures r.None? <==> !d.Finite? || d.x <= -DecimalOverflowBound || d.x >= DecimalOverflowBound
    ensures r.Some? ==> r.value == d.x && -DecimalOverflowBound < r.value < DecimalOverflowBound
  {
    if d.Finite? && -DecimalOverflowBound < d.x < DecimalOverflowBound then Some(d.x) else None
  }

  /** `NumericUpDownAutomationPeer.SetValue`: a disabled control throws
      `ElementNotEnabledException`; a `double` the conversion to `decimal` rejects throws
      `OverflowException`; a value outside [Minimum, Maximum] throws
      `ArgumentOutOfRangeException`; otherwise the value is assigned. */
  method AutomationSetValue(control: NumericUpDown, v: Double, enabled: bool) returns (thrown: Option<Fault>)
    requires control.Valid()
    modifies control
    ensures control.Valid()
    ensures !enabled ==> thrown == Some(ElementNotEnabled)
    ensures enabled && DoubleToDecimal(v).None? ==> thrown == Some(Overflow)
    ensures enabled && (v.NaN? || v.PositiveInfinity? || v.NegativeInfinity?) ==> thrown == Some(Overflow)
    ensures enabled && DoubleToDecimal(v).Some? && (v.x < old(control.minimum) || v.x > old(control.maximum)) ==>
      thrown == Some(ArgumentOutOfRange)
    ensures thrown == None <==>
      enabled && DoubleToDecimal(v).Some? && old(control.minimum) <= v.x <= old(control.maximum)
    ensures thrown != None ==> control.value == old(control.value) && control.valueBase == old(control.valueBase)
    ensures thrown == None ==>
      control.valueBase == v.x && control.value == CoerceValue(control.minimum, control.maximum, control.decimalPlaces, v.x)
    ensures thrown == None && control.value != old(control.value) ==>
      control.boxText == control.format(control.value, control.decimalPlaces) && control.lastInput == control.boxText
      && control.inputValue == control.value
    ensures thrown != None || control.value == old(control.value) ==>
      control.boxText == old(control.boxText) && control.lastInput == old(control.lastInput)
      && control.inputValue == old(control.inputValue)
    ensures control.minimum == old(control.minimum) && control.maximum == old(control.maximum)
    ensures control.increment == old(control.increment) && control.decimalPlaces == old(control.decimalPlaces)
    ensures control.minimumBase == old(control.minimumBase) && control.maximumBase == old(control.maximumBase)
    ensures control.incrementBase == old(control.incrementBase)
    ensures control.selectionStart == old(control.selectionStart) && control.isReadOnly == old(control.isReadOnly)
  {
    if !enabled {
      return Some(ElementNotEnabled);
    }
    var val := DoubleToDecimal(v);
    if val.None? {
      return Some(Overflow);
    }
    if val.value < control.minimum || val.value > control.maximum {
      return Some(ArgumentOutOfRange);
    }
    control.SetValue(val.value);
    return None;
  }
}
