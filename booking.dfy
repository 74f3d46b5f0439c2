/**
 * The booking form's page state and its handlers: validating a field on blur or after
 * input, validating the whole form, the check-in change handler, the destination
 * prefill, and the two halves of a submission (the gate and the delayed success).
 * Each method is proved against the functions of the Engine module.
 */
module Booking {
  import opened Wrappers
  import opened Calendar
  import opened Rules
  import opened Engine
  import opened Labels

  /** What the form message element shows. */
  datatype FormMessage = ErrorMessage(text: string) | SuccessMessage(confirmation: Confirmation)

  const FixErrors := "Please fix the errors above before submitting."

  class BookingForm {
    /** The value of every field element on the page; a field without an element has
        no entry. */
    var values: map<Field, string>
    /** The `valid`/`invalid` classes of the field elements. */
    var marks: map<Field, Marking>
    /** The `<key>-error` elements on the page. */
    var errors: map<Field, ErrorSlot>
    /** The `min` attributes of the two date inputs, when set. */
    var checkinMin: Option<string>
    var checkoutMin: Option<string>
    /** Whether the submit button is disabled while a submission is pending. */
    var busy: bool
    /** The form message element: its content and whether it has the `show` class. */
    var message: Option<FormMessage>
    var messageShown: bool

    ghost predicate Valid()
      reads this
    {
      marks.Keys == values.Keys
    }

    function View(): Ui
      reads this
    {
      Ui(marks, errors)
    }

    /** The page as loaded: empty, unmarked fields and hidden errors; both date
        inputs start no earlier than today. */
    constructor (present: set<Field>, slots: set<Field>, today: ValidDate)
      ensures Valid()
      ensures values == map f | f in present :: ""
      ensures marks == map f | f in present :: Unmarked
      ensures errors == map f | f in slots :: Hidden
      ensures checkinMin == (if Checkin in present then Some(FormatIsoDate(today)) else None)
      ensures checkoutMin == (if Checkout in present then Some(FormatIsoDate(today)) else None)
      ensures !busy && message == None && !messageShown
    {
      values := map f | f in present :: "";
      marks := map f | f in present :: Unmarked;
      errors := map f | f in slots :: Hidden;
      var minDate := FormatIsoDate(today);
      checkinMin := if Checkin in present then Some(minDate) else None;
      checkoutMin := if Checkout in present then Some(minDate) else None;
      busy := false;
      message := None;
      messageShown := false;
    }

    method ShowFieldError(f: Field, msg: string)
      modifies this
      ensures errors == ShowError(old(errors), f, msg)
      ensures values == old(values) && marks == old(marks)
      ensures checkinMin == old(checkinMin) && checkoutMin == old(checkoutMin)
      ensures busy == old(busy) && message == old(message) && messageShown == old(messageShown)
    {
      if f in errors {
        errors := errors[f := ErrorSlot(msg, true)];
      }
    }

    method ClearFieldError(f: Field)
      modifies this
      ensures errors == ClearError(old(errors), f)
      ensures values == old(values) && marks == old(marks)
      ensures checkinMin == old(checkinMin) && checkoutMin == old(checkoutMin)
      ensures busy == old(busy) && message == old(message) && messageShown == old(messageShown)
    {
      if f in errors {
        errors := errors[f := Hidden];
      }
    }

    /** The value typed into a field's element; its error is cleared at once (the
        delayed validation that follows is a separate ValidateField). */
    method Input(f: Field, v: string)
      requires Valid() && f in values
      modifies this
      ensures Valid()
      ensures values == old(values)[f := v]
      ensures errors == ClearError(old(errors), f)
      ensures marks == old(marks)
      ensures checkinMin == old(checkinMin) && checkoutMin == old(checkoutMin)
      ensures busy == old(busy) && message == old(message) && messageShown == old(messageShown)
    {
      values := values[f := v];
      ClearFieldError(f);
    }

    /** `validateField(key, fields)`: runs the field's rules in order and reports the
        first one that fails. */
    method ValidateField(key: string, today: ValidDate) returns (outcome: Outcome)
      requires Valid()
      modifies this
      ensures Valid()
      ensures (outcome, View()) == FieldStep(key, old(values), old(View()), today)
      ensures values == old(values)
      ensures checkinMin == old(checkinMin) && checkoutMin == old(checkoutMin)
      ensures busy == old(busy) && message == old(message) && messageShown == old(messageShown)
    {
      var target := Target(key, values);
      if target.None? {
        return Returned(true);
      }
      var f := target.value;
      var value := values[f];
      var ctx := Context(today, CheckinValue(values));
      var rules := RulesOf(f);
      var i := 0;
      while i < |rules|
        invariant 0 <= i <= |rules|
        invariant FirstFailure(rules, value, ctx) == FirstFailure(rules[i..], value, ctx)
      {
        assert rules[i..][0] == rules[i] && rules[i..][1..] == rules[i + 1..];
        match Holds(rules[i].check, value, ctx)
        case Throw =>
          return Threw;
        case Fail =>
          ShowFieldError(f, rules[i].msg);
          marks := marks[f := Marking(false, true)];
          return Returned(false);
        case Pass =>
        i := i + 1;
      }
      ClearFieldError(f);
      marks := marks[f := Marking(true, false)];
      return Returned(true);
    }

    /** `validateAllFields(fields)`: validates every field in declaration order, a
        failure not stopping the loop; a throwing rule ends the whole call. */
    method ValidateAllFields(today: ValidDate) returns (outcome: Outcome)
      requires Valid()
      modifies this
      ensures Valid()
      ensures (outcome, View()) == RunAll(AllFields, old(values), old(View()), today, true)
      ensures values == old(values)
      ensures checkinMin == old(checkinMin) && checkoutMin == old(checkoutMin)
      ensures busy == old(busy) && message == old(message) && messageShown == old(messageShown)
    {
      var isValid := true;
      var i := 0;
      while i < |AllFields|
        invariant 0 <= i <= |AllFields|
        invariant Valid() && values == old(values)
        invariant checkinMin == old(checkinMin) && checkoutMin == old(checkoutMin)
        invariant busy == old(busy) && message == old(message) && messageShown == old(messageShown)
        invariant RunAll(AllFields, values, old(View()), today, true) == RunAll(AllFields[i..], values, View(), today, isValid)
      {
        assert AllFields[i..][0] == AllFields[i] && AllFields[i..][1..] == AllFields[i + 1..];
        RunAllUnfold(AllFields[i..], values, View(), today, isValid);
        var ok := ValidateField(Key(AllFields[i]), today);
        if ok.Threw? {
          return Threw;
        }
        if !ok.ok {
          isValid := false;
        }
        i := i + 1;
      }
      return Returned(isValid);
    }
  
    /** The check-in element's change handler. It is installed only when both date
        elements are on the page; a check-in value that is not a date makes it throw
        before it changes anything. */
    method OnCheckinChange() returns (effect: ChangeEffect)
      requires Valid() && Checkin in values && Checkout in values
      modifies this
      ensures Valid()
      ensures effect == CheckinChange(old(values[Checkin]), old(values[Checkout]))
      ensures effect.Aborted? ==> values == old(values) && errors == old(errors) && checkoutMin == old(checkoutMin)
      ensures effect.Applied? ==>
        && checkoutMin == Some(effect.checkoutMin)
        && values == (if effect.cleared then old(values)[Checkout := ""] else old(values))
        && values.Keys == old(values).Keys
        && errors == (if effect.cleared then ClearError(old(errors), Checkout) else old(errors))
      ensures marks == old(marks) && checkinMin == old(checkinMin)
      ensures busy == old(busy) && message == old(message) && messageShown == old(messageShown)
    {
      var checkinDate := ParseIsoDate(values[Checkin]);
      if checkinDate.None? {
        return Aborted;
      }
      var minCheckout := FormatIsoDate(NextDate(checkinDate.value));
      checkoutMin := Some(minCheckout);
      var currentCheckout := values[Checkout];
      var cleared := false;
      if currentCheckout != "" {
        var checkoutDay := ParseDay(currentCheckout);
        if checkoutDay.Some? && checkoutDay.value <= DayNumber(checkinDate.value) {
          values := values[Checkout := ""];
          ClearFieldError(Checkout);
          cleared := true;
        }
      }
      return Applied(minCheckout, cleared, currentCheckout != "");
    }

    /** A check-in change followed by the revalidation of check-out it schedules: a
        check-out the handler cleared is then reported as missing. */
    method ChangeCheckin(today: ValidDate) returns (effect: ChangeEffect, followUp: Option<Outcome>)
      requires Valid() && Checkin in values && Checkout in values
      modifies this
      ensures Valid()
      ensures effect == CheckinChange(old(values[Checkin]), old(values[Checkout]))
      ensures checkoutMin == if effect.Applied? then Some(effect.checkoutMin) else old(checkoutMin)
      ensures values == if effect.Applied? && effect.cleared then old(values)[Checkout := ""] else old(values)
      ensures followUp.Some? <==> effect.Applied? && effect.revalidate
      ensures !(effect.Applied? && effect.revalidate) ==> marks == old(marks) && errors == old(errors)
      ensures effect.Applied? && effect.cleared ==>
        && followUp == Some(Returned(false))
        && marks == old(marks)[Checkout := Marking(false, true)]
        && errors == ShowError(old(errors), Checkout, CheckoutMissing)
      ensures effect.Applied? && effect.revalidate && !effect.cleared ==>
        (followUp.value, View()) == FieldStep("checkout", old(values), old(View()), today)
      ensures checkinMin == old(checkinMin)
      ensures busy == old(busy) && message == old(message) && messageShown == old(messageShown)
    {
      ghost var values0, marks0, errors0 := values, marks, errors;
      effect := OnCheckinChange();
      assert values.Keys == values0.Keys;
      followUp := None;
      if effect.Applied? && effect.revalidate {
        ghost var now, ui := values, View();
        if effect.cleared {
          assert now[Checkout] == "";
          BlankCheckoutReportsMissing(now, ui, today);
          ShowAfterClear(errors0, Checkout, CheckoutMissing);
        }
        var outcome := ValidateField("checkout", today);
        assert values == now;
        followUp := Some(outcome);
      }
    }

    /** A click on a destination card that maps to a destination selects it and marks
        it valid; the `invalid` class is left as it was. */
    method PrefillDestination(card: string)
      requires Valid()
      modifies this
      ensures Valid()
      ensures Location !in old(values) || PrefillLocation(card).None? ==>
        values == old(values) && marks == old(marks) && errors == old(errors)
      ensures Location in old(values) && PrefillLocation(card).Some? ==>
        && values == old(values)[Location := PrefillLocation(card).value]
        && marks == old(marks)[Location := old(marks)[Location].(valid := true)]
        && errors == ClearError(old(errors), Location)
      ensures checkinMin == old(checkinMin) && checkoutMin == old(checkoutMin)
      ensures busy == old(busy) && message == old(message) && messageShown == old(messageShown)
    {
      if Location in values {
        var locationValue := PrefillLocation(card);
        if locationValue.Some? {
          values := values[Location := locationValue.value];
          marks := marks[Location := marks[Location].(valid := true)];
          ClearFieldError(Location);
        }
      }
    }

    /** The submit handler up to its timer: hides the message, validates the whole
        form, and either shows the error banner or disables the button and collects the
        values of the field elements on the page. */
    method Submit(today: ValidDate) returns (outcome: Outcome, collected: Option<map<Field, string>>)
      requires Valid()
      modifies this
      ensures Valid()
      ensures (outcome, View()) == RunAll(AllFields, old(values), old(View()), today, true)
      ensures collected.Some? <==> Submittable(old(values), today)
      ensures collected.Some? ==> collected.value == old(values) && busy && message == old(message) && !messageShown
      ensures outcome == Returned(false) ==>
        collected.None? && busy == old(busy) && message == Some(ErrorMessage(FixErrors)) && messageShown
      ensures outcome == Threw ==> collected.None? && busy == old(busy) && message == old(message) && !messageShown
      ensures values == old(values) && checkinMin == old(checkinMin) && checkoutMin == old(checkoutMin)
    {
      messageShown := false;
      GateOpensIffAllPass(values, View(), today);
      outcome := ValidateAllFields(today);
      collected := None;
      if outcome.Threw? {
        return;
      }
      if !outcome.ok {
        message := Some(ErrorMessage(FixErrors));
        messageShown := true;
        return;
      }
      busy := true;
      collected := Some(values);
    }

    method ClearFieldState(f: Field)
      requires Valid() && f in values
      modifies this
      ensures Valid()
      ensures marks == old(marks)[f := Unmarked] && errors == ClearError(old(errors), f)
      ensures values == old(values) && checkinMin == old(checkinMin) && checkoutMin == old(checkoutMin)
      ensures busy == old(busy) && message == old(message) && messageShown == old(messageShown)
    {
      marks := marks[f := Unmarked];
      ClearFieldError(f);
    }

    /** Removes both classes from, and clears the error of, every field element on
        the page. */
    method ClearFieldStates()
      requires Valid()
      modifies this
      ensures Valid()
      ensures marks.Keys == old(marks).Keys && forall f :: f in marks ==> marks[f] == Unmarked
      ensures errors.Keys == old(errors).Keys
      ensures forall f :: f in errors ==> errors[f] == if f in values then Hidden else old(errors)[f]
      ensures values == old(values) && checkinMin == old(checkinMin) && checkoutMin == old(checkoutMin)
      ensures busy == old(busy) && message == old(message) && messageShown == old(messageShown)
    {
      var i := 0;
      ghost var done: set<Field> := {};
      while i < |AllFields|
        invariant 0 <= i <= |AllFields|
        invariant forall j :: 0 <= j < i ==> AllFields[j] in done
        invariant values == old(values) && marks.Keys == old(marks).Keys && errors.Keys == old(errors).Keys
        invariant forall f :: f in marks ==> marks[f] == if f in done then Unmarked else old(marks)[f]
        invariant forall f :: f in errors ==>
          errors[f] == if f in done && f in values then Hidden else old(errors)[f]
        invariant checkinMin == old(checkinMin) && checkoutMin == old(checkoutMin)
        invariant busy == old(busy) && message == old(message) && messageShown == old(messageShown)
      {
        var f := AllFields[i];
        if f in values {
          ClearFieldState(f);
        }
        done := done + {f};
        i := i + 1;
      }
      forall f ensures f in done {
        FieldKeys(f);
      }
    }

    /** The submission timer: re-enables the button, shows the confirmation, resets
        the form and clears every field's marking and error, and resets both date
        minimums to today. */
    method CompleteSubmission(data: map<Field, string>, today: ValidDate)
      requires Valid()
      modifies this
      ensures Valid()
      ensures !busy && message == Some(SuccessMessage(ConfirmationFor(data))) && messageShown
      ensures values == map f | f in old(values) :: ""
      ensures marks.Keys == old(values).Keys && forall f :: f in marks ==> marks[f] == Unmarked
      ensures errors.Keys == old(errors).Keys
      ensures forall f :: f in errors ==> errors[f] == if f in old(values) then Hidden else old(errors)[f]
      ensures checkinMin == if Checkin in old(values) then Some(FormatIsoDate(today)) else old(checkinMin)
      ensures checkoutMin == if Checkout in old(values) then Some(FormatIsoDate(today)) else old(checkoutMin)
    {
      busy := false;
      message := Some(SuccessMessage(ConfirmationFor(data)));
      messageShown := true;
      values := map f | f in values :: "";
      ClearFieldStates();
      var minDate := FormatIsoDate(today);
      if Checkin in values {
        checkinMin := Some(minDate);
      }
      if Checkout in values {
        checkoutMin := Some(minDate);
      }
    }
  }
}
