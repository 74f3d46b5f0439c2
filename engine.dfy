/**
 * The validation engine as functions of the page state: what validating one field
 * and validating all fields return and leave behind, and what the check-in change
 * handler does to the check-out field. The class in booking.dfy is proved against
 * these functions.
 */
module Engine {
  import opened Wrappers
  import opened Text
  import opened Calendar
  import opened Rules

  /** The `valid` and `invalid` classes of a field's element. They are two flags
      because the destination prefill adds `valid` without removing `invalid`. */
  datatype Marking = Marking(valid: bool, invalid: bool)

  const Unmarked := Marking(false, false)

  /** A field's `<key>-error` element: its text and whether it has the `show` class. */
  datatype ErrorSlot = ErrorSlot(text: string, shown: bool)

  const Hidden := ErrorSlot("", false)

  /** What validation writes: the marking of every field element on the page and the
      error elements that exist (a map's domain is the set of elements present). */
  datatype Ui = Ui(marks: map<Field, Marking>, errors: map<Field, ErrorSlot>)

  /** What a call returns, or that it threw. */
  datatype Outcome = Returned(ok: bool) | Threw

  /** `showFieldError`: a missing error element is skipped. */
  function ShowError(errors: map<Field, ErrorSlot>, f: Field, msg: string): (r: map<Field, ErrorSlot>)
    ensures r.Keys == errors.Keys
    ensures f in r ==> r[f] == ErrorSlot(msg, true)
    ensures forall g :: g in errors && g != f ==> r[g] == errors[g]
  {
    if f in errors then errors[f := ErrorSlot(msg, true)] else errors
  }

  /** `clearFieldError`: empties and hides the error element, when there is one. */
  function ClearError(errors: map<Field, ErrorSlot>, f: Field): (r: map<Field, ErrorSlot>)
    ensures r.Keys == errors.Keys
    ensures f in r ==> r[f] == Hidden
    ensures forall g :: g in errors && g != f ==> r[g] == errors[g]
  {
    if f in errors then errors[f := Hidden] else errors
  }

  /** The marking a decided verdict leaves. */
  function MarkFor(v: Verdict): Marking {
    if v.AllPass? then Marking(true, false) else Marking(false, true)
  }

  /** The error element a decided verdict leaves. */
  function SlotFor(v: Verdict): ErrorSlot {
    if v.FailsWith? then ErrorSlot(v.msg, true) else Hidden
  }

  /** The field a key names, when its element is on the page. */
  function Target(key: string, values: map<Field, string>): (r: Option<Field>)
    ensures r.Some? ==> r.value in values && Key(r.value) == key
    ensures forall f :: f in values ==> (r == Some(f) <==> Key(f) == key)
  {
    EveryKeyNamesItsField();
    match FieldNamed(key)
    case None => None
    case Some(f) => if f in values then Some(f) else None
  }

  /** FieldKeys' lookup fact for all fields at once. */
  lemma {:induction false} EveryKeyNamesItsField()
    ensures forall f :: FieldNamed(Key(f)) == Some(f)
  {
    forall f ensures FieldNamed(Key(f)) == Some(f) { FieldKeys(f); }
  }

  /** `validateField(key, fields)`: the result and the page state it leaves
      (FieldStepSpec gives it in full). Only a field on the page can fail, a throw
      changes nothing, and no error slot appears or disappears. */
  function FieldStep(key: string, values: map<Field, string>, ui: Ui, today: ValidDate): (r: (Outcome, Ui))
    ensures r.0 == Returned(false) ==> Target(key, values).Some?
    ensures r.0.Threw? ==> r.1 == ui
    ensures r.1.errors.Keys == ui.errors.Keys
  {
    match Target(key, values)
    case None => (Returned(true), ui)
    case Some(f) =>
      match VerdictOf(f, values, today)
      case AllPass => (Returned(true), Ui(ui.marks[f := Marking(true, false)], ClearError(ui.errors, f)))
      case FailsWith(m) => (Returned(false), Ui(ui.marks[f := Marking(false, true)], ShowError(ui.errors, f, m)))
      case Throws => (Threw, ui)
  }

  /** Validating a field: an unknown key or a field whose element is missing is a
      success that touches nothing; otherwise the result is true, false or a throw as
      the field's rules pass, fail or throw; a failure shows the first failing rule's
      message and marks the field invalid, a pass clears its error and marks it valid,
      a throw leaves everything as it was; no other field changes. */
  lemma {:induction false} FieldStepSpec(key: string, values: map<Field, string>, ui: Ui, today: ValidDate)
    ensures var r := FieldStep(key, values, ui, today);
      && (Target(key, values).None? ==> r == (Returned(true), ui))
      && (Target(key, values).Some? ==>
            var f := Target(key, values).value;
            var v := VerdictOf(f, values, today);
            && (r.0 == Returned(true) <==> v.AllPass?)
            && (r.0 == Returned(false) <==> v.FailsWith?)
            && (r.0 == Threw <==> v.Throws?)
            && (v.Throws? ==> r.1 == ui)
            && (!v.Throws? ==>
                  && r.1.marks == ui.marks[f := MarkFor(v)]
                  && r.1.errors.Keys == ui.errors.Keys
                  && (f in ui.errors ==> r.1.errors[f] == SlotFor(v))
                  && forall g :: g in ui.errors && g != f ==> r.1.errors[g] == ui.errors[g]))
  {
  }

  /** `validateAllFields` from field `fs[0]` on, with `acc` the result so far: every
      field is validated (a failure does not stop the loop) until one throws, which
      ends the whole call. The result can only be true if it was true so far, and
      no error slot appears or disappears. */
  function RunAll(fs: seq<Field>, values: map<Field, string>, ui: Ui, today: ValidDate, acc: bool): (r: (Outcome, Ui))
    ensures r.0 == Returned(true) ==> acc
    decreases |fs|
  {
    if fs == [] then (Returned(acc), ui)
    else
      var step := FieldStep(Key(fs[0]), values, ui, today);
      if step.0.Threw? then (Threw, step.1)
      else RunAll(fs[1..], values, step.1, today, acc && step.0.ok)
  }

  /** Validating all fields, whether it returns or throws, never adds or removes an
      error element. */
  lemma {:induction false} RunAllKeepsErrorElements(fs: seq<Field>, values: map<Field, string>, ui: Ui, today: ValidDate, acc: bool)
    ensures RunAll(fs, values, ui, today, acc).1.errors.Keys == ui.errors.Keys
    decreases |fs|
  {
    if fs != [] {
      var step := FieldStep(Key(fs[0]), values, ui, today);
      if !step.0.Threw? {
        RunAllKeepsErrorElements(fs[1..], values, step.1, today, acc && step.0.ok);
      }
    }
  }

  /** One step of the fold: validate the first field, then go on unless it threw. */
  lemma {:induction false} RunAllUnfold(fs: seq<Field>, values: map<Field, string>, ui: Ui, today: ValidDate, acc: bool)
    requires fs != []
    ensures var step := FieldStep(Key(fs[0]), values, ui, today);
      RunAll(fs, values, ui, today, acc) ==
        if step.0.Threw? then (Threw, step.1) else RunAll(fs[1..], values, step.1, today, acc && step.0.ok)
  {
  }

  /** A field on the page in `fs` whose verdict is the given one. */
  predicate SomeVerdict(fs: seq<Field>, values: map<Field, string>, today: ValidDate, v: Verdict) {
    exists k :: 0 <= k < |fs| && fs[k] in values && VerdictOf(fs[k], values, today) == v
  }

  predicate AllPassing(fs: seq<Field>, values: map<Field, string>, today: ValidDate) {
    forall k :: 0 <= k < |fs| && fs[k] in values ==> VerdictOf(fs[k], values, today) == AllPass
  }

  lemma {:induction false} SomeVerdictCons(fs: seq<Field>, values: map<Field, string>, today: ValidDate, v: Verdict)
    requires fs != []
    ensures SomeVerdict(fs, values, today, v) <==>
      (fs[0] in values && VerdictOf(fs[0], values, today) == v) || SomeVerdict(fs[1..], values, today, v)
  {
    if SomeVerdict(fs, values, today, v) {
      var k :| 0 <= k < |fs| && fs[k] in values && VerdictOf(fs[k], values, today) == v;
      if k > 0 { assert fs[1..][k - 1] == fs[k]; }
    }
    if SomeVerdict(fs[1..], values, today, v) {
      var k :| 0 <= k < |fs[1..]| && fs[1..][k] in values && VerdictOf(fs[1..][k], values, today) == v;
      assert fs[k + 1] == fs[1..][k];
    }
  }

  lemma {:induction false} AllPassingCons(fs: seq<Field>, values: map<Field, string>, today: ValidDate)
    requires fs != []
    ensures AllPassing(fs, values, today) <==>
      (fs[0] in values ==> VerdictOf(fs[0], values, today) == AllPass) && AllPassing(fs[1..], values, today)
  {
    assert forall k :: 0 < k < |fs| ==> fs[k] == fs[1..][k - 1];
  }

  /** The step on the first field of `fs`: it throws exactly when that field's rules do. */
  lemma {:induction false} FirstStep(fs: seq<Field>, values: map<Field, string>, ui: Ui, today: ValidDate)
    requires fs != []
    ensures var step := FieldStep(Key(fs[0]), values, ui, today);
      && (step.0.Threw? <==> fs[0] in values && VerdictOf(fs[0], values, today) == Throws)
      && (step.0 == Returned(true) <==> fs[0] in values ==> VerdictOf(fs[0], values, today) == AllPass)
  {
    FieldKeys(fs[0]);
    FieldStepSpec(Key(fs[0]), values, ui, today);
  }

  /** Validating all fields throws exactly when some field's rules throw (by
      OnlyCheckoutThrows, only the check-out rule can, on a page without a check-in
      element). */
  lemma {:induction false} RunAllThrows(fs: seq<Field>, values: map<Field, string>, ui: Ui, today: ValidDate, acc: bool)
    ensures RunAll(fs, values, ui, today, acc).0.Threw? <==> SomeVerdict(fs, values, today, Throws)
    decreases |fs|
  {
    if fs != [] {
      var step := FieldStep(Key(fs[0]), values, ui, today);
      FirstStep(fs, values, ui, today);
      SomeVerdictCons(fs, values, today, Throws);
      if !step.0.Threw? {
        RunAllThrows(fs[1..], values, step.1, today, acc && step.0.ok);
      }
    }
  }

  /** When validating all fields returns, its result is the conjunction of the
      per-field results: true exactly when every field on the page passes. */
  lemma {:induction false} RunAllConjunction(fs: seq<Field>, values: map<Field, string>, ui: Ui, today: ValidDate, acc: bool)
    requires RunAll(fs, values, ui, today, acc).0.Returned?
    ensures RunAll(fs, values, ui, today, acc).0.ok <==> acc && AllPassing(fs, values, today)
    decreases |fs|
  {
    if fs != [] {
      var step := FieldStep(Key(fs[0]), values, ui, today);
      FirstStep(fs, values, ui, today);
      AllPassingCons(fs, values, today);
      RunAllConjunction(fs[1..], values, step.1, today, acc && step.0.ok);
    }
  }

  /** `after` is `before` with every field of `fs` on the page refreshed from its
      verdict, and nothing else changed. */
  predicate Refreshed(fs: seq<Field>, values: map<Field, string>, today: ValidDate, before: Ui, after: Ui) {
    && after.errors.Keys == before.errors.Keys
    && (forall f :: f in fs && f in values ==>
          && f in after.marks && after.marks[f] == MarkFor(VerdictOf(f, values, today))
          && (f in before.errors ==> after.errors[f] == SlotFor(VerdictOf(f, values, today))))
    && (forall f :: f !in fs || f !in values ==>
          && (f in after.marks <==> f in before.marks)
          && (f in before.marks ==> after.marks[f] == before.marks[f])
          && (f in before.errors ==> after.errors[f] == before.errors[f]))
  }

  /** When validating all fields returns, every field on the page has been refreshed
      from its own verdict, including those after the first failure, and nothing else
      has changed. */
  lemma {:induction false} RunAllRefreshes(fs: seq<Field>, values: map<Field, string>, ui: Ui, today: ValidDate, acc: bool)
    requires Distinct(fs)
    requires RunAll(fs, values, ui, today, acc).0.Returned?
    ensures Refreshed(fs, values, today, ui, RunAll(fs, values, ui, today, acc).1)
    decreases |fs|
  {
    if fs != [] {
      var f0 := fs[0];
      var step := FieldStep(Key(f0), values, ui, today);
      FieldKeys(f0);
      FieldStepSpec(Key(f0), values, ui, today);
      var rest := fs[1..];
      assert Distinct(rest) by {
        forall i, j | 0 <= i < j < |rest| ensures rest[i] != rest[j] { assert rest[i] == fs[i + 1] && rest[j] == fs[j + 1]; }
      }
      assert f0 !in rest by {
        forall k | 0 <= k < |rest| ensures rest[k] != f0 { assert rest[k] == fs[k + 1]; }
      }
      RunAllRefreshes(rest, values, step.1, today, acc && step.0.ok);
      assert forall f :: f in fs <==> f == f0 || f in rest;
    }
  }

  /** The follow-up validation of a blank check-out (for instance one the check-in
      handler has just cleared) reports it as missing and marks it invalid. */
  lemma {:induction false} BlankCheckoutReportsMissing(values: map<Field, string>, ui: Ui, today: ValidDate)
    requires Checkout in values && AllSpace(values[Checkout])
    ensures FieldStep("checkout", values, ui, today) ==
      (Returned(false), Ui(ui.marks[Checkout := Marking(false, true)], ShowError(ui.errors, Checkout, CheckoutMissing)))
  {
    FieldKeys(Checkout);
    assert Target("checkout", values) == Some(Checkout);
    CheckoutVerdict(values[Checkout], Context(today, CheckinValue(values)));
  }

  /** Showing a message in an error element overwrites whatever clearing it left. */
  lemma {:induction false} ShowAfterClear(errors: map<Field, ErrorSlot>, f: Field, msg: string)
    ensures ShowError(ClearError(errors, f), f, msg) == ShowError(errors, f, msg)
  {
    if f in errors {
      assert errors[f := Hidden][f := ErrorSlot(msg, true)] == errors[f := ErrorSlot(msg, true)];
    }
  }

  /** What the check-in change handler does with the two date values it reads. */
  datatype ChangeEffect =
    | Aborted   // the check-in value is not a date: the handler throws before any change
    | Applied(checkoutMin: string, cleared: bool, revalidate: bool)

  /** The check-in change handler: the earliest check-out becomes the day after the
      check-in; a check-out date on or before the check-in is cleared; a non-empty
      check-out is validated again. */
  function CheckinChange(checkin: string, checkout: string): (r: ChangeEffect)
    ensures r.Aborted? <==> ParseIsoDate(checkin).None?
    ensures r.Applied? ==>
      && (r.cleared <==>
            checkout != "" && ParseDay(checkout).Some? && ParseDay(checkout).value <= ParseDay(checkin).value)
      && (r.revalidate <==> checkout != "")
    ensures r.Applied? && !r.cleared && checkout != "" && ParseDay(checkout).Some? ==>
      ParseDay(checkout).value > ParseDay(checkin).value
  {
    match ParseIsoDate(checkin)
    case None => Aborted
    case Some(d) =>
      var co := ParseDay(checkout);
      Applied(FormatIsoDate(NextDate(d)), checkout != "" && co.Some? && co.value <= DayNumber(d), checkout != "")
  }

  /** The check-out minimum the handler sets is the date of the day after the
      check-in (for check-in dates before 9999-12-31, whose next day still has a
      four-digit year). */
  lemma {:induction false} CheckoutMinIsNextDay(checkin: string, checkout: string)
    requires ParseIsoDate(checkin).Some? && NextDate(ParseIsoDate(checkin).value).year <= 9999
    ensures CheckinChange(checkin, checkout).Applied?
    ensures ParseDay(CheckinChange(checkin, checkout).checkoutMin) == Some(ParseDay(checkin).value + 1)
  {
    var d := ParseIsoDate(checkin).value;
    var r := CheckinChange(checkin, checkout);
    assert r.checkoutMin == FormatIsoDate(NextDate(d));
    NextDateIsNextDay(d);
    ParseDayIff(r.checkoutMin, NextDate(d));
  }

  lemma {:induction false} SampleNamePasses(ctx: Context)
    ensures FirstFailure(RulesOf(Name), "Jane Doe", ctx) == AllPass
  {
    var v := "Jane Doe";
    assert !IsSpace(v[0]) && !IsSpace(v[|v| - 1]);
    TrimOfTrimmed(v);
    NameVerdict(v, ctx);
  }

  lemma {:induction false} LettersAreEmailChars(t: string)
    requires forall i :: 0 <= i < |t| ==> IsAsciiLetter(t[i])
    ensures EmailChars(t)
  {
  }

  lemma {:induction false} SampleAddressParts()
    ensures EmailChars("jane") && EmailChars("example") && EmailChars("com")
    ensures "jane" + "@" + "example" + "." + "com" == "jane@example.com"
  {
    LettersAreEmailChars("jane");
    LettersAreEmailChars("example");
    LettersAreEmailChars("com");
  }

  lemma {:induction false} SampleEmailPasses(ctx: Context)
    ensures FirstFailure(RulesOf(Email), "jane@example.com", ctx) == AllPass
  {
    SampleAddressParts();
    AssembledAddressPasses("jane", "example", "com", ctx);
  }

  lemma {:induction false} SamplePhonePasses(ctx: Context)
    ensures FirstFailure(RulesOf(Phone), "9876543210", ctx) == AllPass
  {
    var v := "9876543210";
    assert AllDigits(v);
    DigitStringPasses(v, ctx);
  }

  lemma {:induction false} DigitStringPasses(v: string, ctx: Context)
    requires |v| == 10 && AllDigits(v)
    ensures FirstFailure(RulesOf(Phone), v, ctx) == AllPass
  {
    DigitsOfDigitString(v);
    assert Holds(TenDigits, v, ctx) == Pass;
    assert PassesBefore(RulesOf(Phone), v, ctx, 1);
  }

  lemma {:induction false} SampleSelectionPasses(f: Field, v: string, ctx: Context)
    requires f == Location || f == People
    requires v != [] && (IsAsciiLetter(v[0]) || IsAsciiDigit(v[0]))
    ensures FirstFailure(RulesOf(f), v, ctx) == AllPass
  {
    SelectionVerdict(f, v, ctx);
    assert !IsSpace(v[0]);
  }

  /** A formatted date is never blank: its fifth character is a hyphen. */
  lemma {:induction false} FormattedNotBlank(d: ValidDate)
    requires d.year <= 9999
    ensures !AllSpace(FormatIsoDate(d))
  {
    var s := FormatIsoDate(d);
    assert s == Padded(d.year, 4) + "-" + Padded(d.month, 2) + "-" + Padded(d.day, 2);
    assert s[4] == '-';
  }

  lemma {:induction false} TodayCheckinPasses(today: ValidDate, ctx: Context)
    requires today.year <= 9999 && ctx.today == today
    ensures FirstFailure(RulesOf(Checkin), FormatIsoDate(today), ctx) == AllPass
  {
    ParseFormatted(today);
    FormattedNotBlank(today);
    CheckinVerdict(FormatIsoDate(today), ctx);
  }

  lemma {:induction false} NextDayCheckoutPasses(d: ValidDate, ctx: Context)
    requires NextDate(d).year <= 9999 && ctx.checkin == Some(FormatIsoDate(d))
    ensures FirstFailure(RulesOf(Checkout), FormatIsoDate(NextDate(d)), ctx) == AllPass
  {
    var n: ValidDate := NextDate(d);
    ParseFormatted(d);
    ParseFormatted(n);
    NextDateIsNextDay(d);
    FormattedNotBlank(n);
    CheckoutVerdict(FormatIsoDate(n), ctx);
  }

  /** A booking filled in as a visitor would (a two-word name, a plain address, a
      ten-digit phone number, a destination, check-in today and check-out tomorrow,
      two people) validates without a failure and is submitted. */
  lemma {:induction false} FilledBookingPasses(values: map<Field, string>, ui: Ui, today: ValidDate)
    requires NextDate(today).year <= 9999
    requires forall f :: f in values
    requires values[Name] == "Jane Doe" && values[Email] == "jane@example.com"
    requires values[Phone] == "9876543210" && values[Location] == "kedarnath" && values[People] == "2"
    requires values[Checkin] == FormatIsoDate(today) && values[Checkout] == FormatIsoDate(NextDate(today))
    ensures RunAll(AllFields, values, ui, today, true).0 == Returned(true)
  {
    SampleFieldsPass(values, today);
    GateOpensIffAllPass(values, ui, today);
  }

  lemma {:induction false} SampleFieldsPass(values: map<Field, string>, today: ValidDate)
    requires NextDate(today).year <= 9999
    requires forall f :: f in values
    requires values[Name] == "Jane Doe" && values[Email] == "jane@example.com"
    requires values[Phone] == "9876543210" && values[Location] == "kedarnath" && values[People] == "2"
    requires values[Checkin] == FormatIsoDate(today) && values[Checkout] == FormatIsoDate(NextDate(today))
    ensures Submittable(values, today)
  {
    var ctx := Context(today, CheckinValue(values));
    forall f | f in values ensures VerdictOf(f, values, today) == AllPass {
      match f
      case Name => SampleNamePasses(ctx);
      case Email => SampleEmailPasses(ctx);
      case Phone => SamplePhonePasses(ctx);
      case Location => SampleSelectionPasses(Location, values[Location], ctx);
      case People => SampleSelectionPasses(People, values[People], ctx);
      case Checkin => TodayCheckinPasses(today, ctx);
      case Checkout => NextDayCheckoutPasses(today, ctx);
    }
  }

  lemma {:induction false} AllPassingEvery(fs: seq<Field>, values: map<Field, string>, today: ValidDate)
    requires forall f :: f in fs
    ensures AllPassing(fs, values, today) <==>
      forall f :: f in values ==> VerdictOf(f, values, today) == AllPass
    ensures AllPassing(fs, values, today) ==> !SomeVerdict(fs, values, today, Throws)
  {
    if AllPassing(fs, values, today) {
      forall f | f in values ensures VerdictOf(f, values, today) == AllPass {
        assert f in fs;
        var k :| 0 <= k < |fs| && fs[k] == f;
      }
    }
  }

  /** Every field element on the page passes its rules. */
  predicate Submittable(values: map<Field, string>, today: ValidDate) {
    forall f :: f in values ==> VerdictOf(f, values, today) == AllPass
  }

  /** The submission gate: validating the whole form returns true exactly when every
      field element on the page passes its rules. */
  lemma {:induction false} GateOpensIffAllPass(values: map<Field, string>, ui: Ui, today: ValidDate)
    ensures RunAll(AllFields, values, ui, today, true).0 == Returned(true) <==> Submittable(values, today)
  {
    var r := RunAll(AllFields, values, ui, today, true);
    RunAllThrows(AllFields, values, ui, today, true);
    forall f ensures f in AllFields { FieldKeys(f); }
    AllPassingEvery(AllFields, values, today);
    if r.0.Returned? {
      RunAllConjunction(AllFields, values, ui, today, true);
    }
  }
}
