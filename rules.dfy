/**
 * The booking form's rule table: for each field an ordered list of checks, each
 * with the message shown when it fails, and the first-failure semantics with
 * which `validateField` runs them.
 */
module Rules {
  import opened Wrappers
  import opened Text
  import opened Calendar

  datatype Field = Name | Email | Phone | Location | Checkin | Checkout | People

  /** The fields in the order `Object.keys(fields)` visits them. */
  const AllFields: seq<Field> := [Name, Email, Phone, Location, Checkin, Checkout, People]

  /** The key of a field in the rule table, which is also the id of its input element. */
  function Key(f: Field): string {
    match f
    case Name => "name"
    case Email => "email"
    case Phone => "phone"
    case Location => "location"
    case Checkin => "checkin"
    case Checkout => "checkout"
    case People => "people"
  }

  /** `fields[key]`: the field a key names, if any. */
  function FieldNamed(key: string): (r: Option<Field>)
    ensures r.Some? ==> Key(r.value) == key
  {
    if key == "name" then Some(Name)
    else if key == "email" then Some(Email)
    else if key == "phone" then Some(Phone)
    else if key == "location" then Some(Location)
    else if key == "checkin" then Some(Checkin)
    else if key == "checkout" then Some(Checkout)
    else if key == "people" then Some(People)
    else None
  }

  /** No field occurs twice in `fs`. */
  predicate Distinct(fs: seq<Field>) {
    forall i, j :: 0 <= i < j < |fs| ==> fs[i] != fs[j]
  }

  /** Every field is found under its own key, and AllFields lists every field once. */
  lemma {:induction false} FieldKeys(f: Field)
    ensures FieldNamed(Key(f)) == Some(f)
    ensures f in AllFields
    ensures Distinct(AllFields)
  {
  }

  const NameTooShort := "Name must be at least 2 characters long"
  const NameBadChars := "Name should only contain letters and spaces"
  const EmailInvalid := "Please enter a valid email address"
  const PhoneInvalid := "Please enter a valid 10-digit phone number"
  const LocationMissing := "Please select a destination"
  const CheckinMissing := "Please select a check-in date"
  const CheckinPast := "Check-in date must be today or in the future"
  const CheckoutMissing := "Please select a check-out date"
  const CheckoutNotAfter := "Check-out date must be after check-in date"
  const PeopleMissing := "Please select number of people"

  /** The predicates of the rule table. */
  datatype Check =
    | MinLength2    // the trimmed value has at least two characters
    | LettersOnly   // the trimmed value matches ^[a-zA-Z\s]+$
    | EmailShape    // the trimmed value matches ^[^\s@]+@[^\s@]+\.[^\s@]+$
    | TenDigits     // the value's digits match ^[0-9]{10}$
    | NotBlank      // the trimmed value is not empty
    | NotPast       // the value is a date on or after today
    | AfterCheckin  // the value is a date after the check-in field's date

  datatype Rule = Rule(check: Check, msg: string)

  /** What one predicate does: holds, fails, or throws (reading the check-in
      element's value when the page has no check-in element). */
  datatype Answer = Pass | Fail | Throw

  /** What a field's rule list comes to: all hold, the first failure's message,
      or an exception that escapes `validateField`. */
  datatype Verdict = AllPass | FailsWith(msg: string) | Throws

  /** What a predicate may read besides the field's own value: today's date and
      the check-in element's value (None when the page has no such element). */
  datatype Context = Context(today: ValidDate, checkin: Option<string>)

  /** The rule table; RulesTable states its shape. */
  function RulesOf(f: Field): seq<Rule> {
    match f
    case Name => [Rule(MinLength2, NameTooShort), Rule(LettersOnly, NameBadChars)]
    case Email => [Rule(EmailShape, EmailInvalid)]
    case Phone => [Rule(TenDigits, PhoneInvalid)]
    case Location => [Rule(NotBlank, LocationMissing)]
    case Checkin => [Rule(NotBlank, CheckinMissing), Rule(NotPast, CheckinPast)]
    case Checkout => [Rule(NotBlank, CheckoutMissing), Rule(AfterCheckin, CheckoutNotAfter)]
    case People => [Rule(NotBlank, PeopleMissing)]
  }

  /** ^[a-zA-Z\s]+$ */
  predicate MatchesLetters(t: string) {
    |t| > 0 && forall i :: 0 <= i < |t| ==> IsAsciiLetter(t[i]) || IsSpace(t[i])
  }

  /** The class [^\s@]. */
  predicate EmailChar(c: char) {
    !IsSpace(c) && c != '@'
  }

  predicate EmailChars(t: string) {
    forall i :: 0 <= i < |t| ==> EmailChar(t[i])
  }

  /** ^[^\s@]+@[^\s@]+\.[^\s@]+$ : some `@` at i and some `.` at j split t into
      three non-empty runs of [^\s@]. */
  predicate MatchesEmail(t: string) {
    exists i: nat, j: nat :: i < j < |t| && EmailSplit(t, i, j)
  }

  /** ^[0-9]{10}$ */
  predicate MatchesTenDigits(t: string) {
    |t| == 10 && AllDigits(t)
  }

  /** One predicate of the table on a value. Only the check-out comparison can throw,
      and exactly when the page has no check-in element; a required-value check
      passes exactly when the value is not all white space; the date checks pass
      only on a value that names a date. */
  function Holds(c: Check, v: string, ctx: Context): (r: Answer)
    ensures r == Throw <==> c == AfterCheckin && ctx.checkin.None?
    ensures c == NotBlank ==> (r == Pass <==> !AllSpace(v))
    ensures (c == NotPast || c == AfterCheckin) && r == Pass ==> ParseDay(v).Some?
  {
    match c
    case MinLength2 => if |Trim(v)| >= 2 then Pass else Fail
    case LettersOnly => if MatchesLetters(Trim(v)) then Pass else Fail
    case EmailShape => if MatchesEmail(Trim(v)) then Pass else Fail
    case TenDigits => if MatchesTenDigits(Digits(v)) then Pass else Fail
    case NotBlank => if Trim(v) != "" then Pass else Fail
    case NotPast =>
      if v != "" && ParseDay(v).Some? && ParseDay(v).value >= DayNumber(ctx.today) then Pass else Fail
    case AfterCheckin =>
      match ctx.checkin
      case None => Throw
      case Some(ci) =>
        if ci != "" && v != "" && ParseDay(ci).Some? && ParseDay(v).Some?
           && ParseDay(v).value > ParseDay(ci).value
        then Pass else Fail
  }

  /** Every field has one or two rules, and an empty value fails the first whatever
      the page holds, so it is reported with that rule's message; the two rules of a
      field have different messages; only the check-out field's rules read another
      element. */
  lemma {:induction false} RulesTable(f: Field, ctx: Context)
    ensures 1 <= |RulesOf(f)| <= 2 && Holds(RulesOf(f)[0].check, "", ctx) == Fail
    ensures |RulesOf(f)| == 2 ==> RulesOf(f)[0].msg != RulesOf(f)[1].msg
    ensures forall i :: 0 <= i < |RulesOf(f)| && RulesOf(f)[i].check == AfterCheckin ==> f == Checkout
  {
    var t: string := "";
    assert Digits(t) == [];
    assert !MatchesEmail(t);
  }

  /** The verdict a rule that does not hold decides. */
  function Decided(rule: Rule, v: string, ctx: Context): Verdict {
    if Holds(rule.check, v, ctx) == Throw then Throws else FailsWith(rule.msg)
  }

  ghost predicate PassesBefore(rules: seq<Rule>, v: string, ctx: Context, k: nat)
    requires k <= |rules|
  {
    forall j :: 0 <= j < k ==> Holds(rules[j].check, v, ctx) == Pass
  }

  /** Runs the rules in order and stops at the first that does not hold. The verdict
      is AllPass exactly when every rule holds; otherwise it is decided by the first
      rule that does not hold, whatever the rules after it say. */
  function FirstFailure(rules: seq<Rule>, v: string, ctx: Context): (r: Verdict)
    ensures r.AllPass? <==> PassesBefore(rules, v, ctx, |rules|)
    ensures forall k :: 0 <= k < |rules| && PassesBefore(rules, v, ctx, k)
                        && Holds(rules[k].check, v, ctx) != Pass
                        ==> r == Decided(rules[k], v, ctx)
  {
    if rules == [] then AllPass
    else
      match Holds(rules[0].check, v, ctx)
      case Pass =>
        var r := FirstFailure(rules[1..], v, ctx);
        assert forall k :: 1 <= k <= |rules| ==>
          (PassesBefore(rules, v, ctx, k) <==> PassesBefore(rules[1..], v, ctx, k - 1));
        r
      case Fail => FailsWith(rules[0].msg)
      case Throw => Throws
  }

  /** Rules after the first one that does not hold are never consulted: appending
      any rules to a list that already fails leaves its verdict as it was. */
  lemma {:induction false} FirstFailureIgnoresLater(rules: seq<Rule>, rest: seq<Rule>, v: string, ctx: Context)
    requires !PassesBefore(rules, v, ctx, |rules|)
    ensures FirstFailure(rules + rest, v, ctx) == FirstFailure(rules, v, ctx)
  {
    assert (rules + rest)[0] == rules[0];
    if Holds(rules[0].check, v, ctx) == Pass {
      assert (rules + rest)[1..] == rules[1..] + rest;
      assert !PassesBefore(rules[1..], v, ctx, |rules| - 1) by {
        var j :| 0 <= j < |rules| && Holds(rules[j].check, v, ctx) != Pass;
        assert rules[1..][j - 1] == rules[j];
      }
      FirstFailureIgnoresLater(rules[1..], rest, v, ctx);
    }
  }

  /** The check-in element's value as the check-out rule reads it. */
  function CheckinValue(values: map<Field, string>): Option<string> {
    if Checkin in values then Some(values[Checkin]) else None
  }

  /** The verdict of a field whose element is on the page, from the current values. */
  function VerdictOf(f: Field, values: map<Field, string>, today: ValidDate): Verdict
    requires f in values
  {
    FirstFailure(RulesOf(f), values[f], Context(today, CheckinValue(values)))
  }

  /** Only the check-out rule can throw, and only on a page without a check-in element. */
  lemma {:induction false} OnlyCheckoutThrows(f: Field, values: map<Field, string>, today: ValidDate)
    requires f in values
    ensures VerdictOf(f, values, today) == Throws ==> f == Checkout && Checkin !in values
  {
    var v, ctx := values[f], Context(today, CheckinValue(values));
    match f
    case Name => NameVerdict(v, ctx);
    case Email => EmailVerdict(v, ctx);
    case Phone => PhoneVerdict(v, ctx);
    case Location => SelectionVerdict(f, v, ctx);
    case People => SelectionVerdict(f, v, ctx);
    case Checkin => CheckinVerdict(v, ctx);
    case Checkout => CheckoutVerdict(v, ctx);
  }

  /** Name: a value shorter than two characters once trimmed is reported as too short,
      whatever its characters; a long enough one passes exactly when every trimmed
      character is an ASCII letter or white space. */
  lemma {:induction false} NameVerdict(v: string, ctx: Context)
    ensures var t := Trim(v);
      FirstFailure(RulesOf(Name), v, ctx) ==
        if |t| < 2 then FailsWith(NameTooShort)
        else if MatchesLetters(t) then AllPass
        else FailsWith(NameBadChars)
  {
    var rules := RulesOf(Name);
    assert PassesBefore(rules, v, ctx, 0);
    if |Trim(v)| >= 2 {
      assert PassesBefore(rules, v, ctx, 1);
    }
  }

  /** Name: a value with a digit anywhere in it never passes. */
  lemma {:induction false} NameWithDigitFails(v: string, ctx: Context, p: nat)
    requires p < |v| && IsAsciiDigit(v[p])
    ensures FirstFailure(RulesOf(Name), v, ctx) != AllPass
  {
    NameVerdict(v, ctx);
    assert !IsSpace(v[p]);
    TrimKeeps(v, p);
  }

  /** Exactly one `@` in plain terms: two distinct positions holding the same
      character count it twice. */
  lemma {:induction false} TwoOccurrences(t: string, p: nat, q: nat)
    requires p < q < |t| && t[p] == t[q]
    ensures multiset(t)[t[p]] >= 2
  {
    assert t == t[..p] + [t[p]] + t[p + 1..q] + [t[q]] + t[q + 1..];
  }

  predicate HasInnerDot(d: string) {
    exists k :: 0 < k < |d| - 1 && d[k] == '.'
  }

  /** The email shape in plain terms: no white space, exactly one `@`, something before
      it, and after it a `.` that is neither the first nor the last character. */
  predicate WellFormedAddress(t: string) {
    && (forall k :: 0 <= k < |t| ==> !IsSpace(t[k]))
    && multiset(t)['@'] == 1
    && exists i :: 0 < i < |t| && t[i] == '@' && HasInnerDot(t[i + 1..])
  }

  lemma {:induction false} EmailCharAt(t: string, lo: nat, hi: nat, k: nat)
    requires lo <= k < hi <= |t| && EmailChars(t[lo..hi])
    ensures EmailChar(t[k])
  {
    assert t[lo..hi][k - lo] == t[k];
  }

  lemma {:induction false} NoAtIn(t: string)
    requires EmailChars(t)
    ensures multiset(t)['@'] == 0
  {
    assert forall k :: 0 <= k < |t| ==> t[k] != '@';
    assert '@' !in t;
  }

  /** The conditions under which MatchesEmail splits t at i and j. */
  predicate EmailSplit(t: string, i: nat, j: nat) {
    0 < i && i + 1 < j < |t| - 1 && t[i] == '@' && t[j] == '.'
    && EmailChars(t[..i]) && EmailChars(t[i + 1..j]) && EmailChars(t[j + 1..])
  }

  lemma {:induction false} SplitHasNoSpace(t: string, i: nat, j: nat)
    requires EmailSplit(t, i, j)
    ensures forall k :: 0 <= k < |t| ==> !IsSpace(t[k])
  {
    assert t[..i] == t[0..i];
    assert t[j + 1..] == t[j + 1..|t|];
    forall k | 0 <= k < |t| ensures !IsSpace(t[k]) {
      if k < i {
        EmailCharAt(t, 0, i, k);
      } else if i < k < j {
        EmailCharAt(t, i + 1, j, k);
      } else if j < k {
        EmailCharAt(t, j + 1, |t|, k);
      }
    }
  }

  lemma {:induction false} SplitHasOneAt(t: string, i: nat, j: nat)
    requires EmailSplit(t, i, j)
    ensures multiset(t)['@'] == 1
  {
    var a, m, e := t[..i], t[i + 1..j], t[j + 1..];
    assert t == a + [t[i]] + m + [t[j]] + e;
    NoAtIn(a);
    NoAtIn(m);
    NoAtIn(e);
  }

  lemma {:induction false} MatchesEmailIsWellFormed(t: string)
    requires MatchesEmail(t)
    ensures WellFormedAddress(t)
  {
    var i: nat, j: nat :| i < j < |t| && EmailSplit(t, i, j);
    SplitHasNoSpace(t, i, j);
    SplitHasOneAt(t, i, j);
    var d := t[i + 1..];
    assert d[j - i - 1] == '.';
    assert HasInnerDot(d);
  }

  lemma {:induction false} WellFormedMatchesEmail(t: string)
    requires WellFormedAddress(t)
    ensures MatchesEmail(t)
  {
    var i :| 0 < i < |t| && t[i] == '@' && HasInnerDot(t[i + 1..]);
    var d := t[i + 1..];
    var k :| 0 < k < |d| - 1 && d[k] == '.';
    var j := i + 1 + k;
    assert t[j] == '.';
    assert EmailSplit(t, i, j) by {
      forall p | 0 <= p < |t| && p != i ensures EmailChar(t[p]) {
        if t[p] == '@' {
          if p < i { TwoOccurrences(t, p, i); } else { TwoOccurrences(t, i, p); }
        }
      }
      assert EmailChars(t[..i]) by {
        forall p | 0 <= p < i ensures EmailChar(t[..i][p]) { assert t[..i][p] == t[p]; }
      }
      assert EmailChars(t[i + 1..j]) by {
        var m := t[i + 1..j];
        forall p | 0 <= p < |m| ensures EmailChar(m[p]) { assert m[p] == t[i + 1 + p]; }
      }
      assert EmailChars(t[j + 1..]) by {
        var e := t[j + 1..];
        forall p | 0 <= p < |e| ensures EmailChar(e[p]) { assert e[p] == t[j + 1 + p]; }
      }
    }
  }

  /** The email regular expression accepts exactly the well-formed addresses. */
  lemma {:induction false} MatchesEmailIff(t: string)
    ensures MatchesEmail(t) <==> WellFormedAddress(t)
  {
    if MatchesEmail(t) { MatchesEmailIsWellFormed(t); }
    if WellFormedAddress(t) { WellFormedMatchesEmail(t); }
  }

  /** Email: the trimmed value must be a well-formed address. */
  lemma {:induction false} EmailVerdict(v: string, ctx: Context)
    ensures FirstFailure(RulesOf(Email), v, ctx) ==
      if WellFormedAddress(Trim(v)) then AllPass else FailsWith(EmailInvalid)
  {
    MatchesEmailIff(Trim(v));
    assert PassesBefore(RulesOf(Email), v, ctx, 0);
  }

  /** Any address assembled as local@domain.tld from non-empty runs without white
      space or `@` passes the email rule. */
  lemma {:induction false} AssembledAddressPasses(local: string, domain: string, tld: string, ctx: Context)
    requires local != [] && domain != [] && tld != []
    requires EmailChars(local) && EmailChars(domain) && EmailChars(tld)
    ensures FirstFailure(RulesOf(Email), local + "@" + domain + "." + tld, ctx) == AllPass
  {
    var t := local + "@" + domain + "." + tld;
    var i, j := |local|, |local| + 1 + |domain|;
    assert t[..i] == local && t[i + 1..j] == domain && t[j + 1..] == tld;
    assert t[i] == '@' && t[j] == '.';
    assert EmailSplit(t, i, j);
    assert t[0] == local[0] && t[|t| - 1] == tld[|tld| - 1];
    assert !IsSpace(t[0]) && !IsSpace(t[|t| - 1]);
    TrimOfTrimmed(t);
    assert MatchesEmail(t);
    assert PassesBefore(RulesOf(Email), t, ctx, 0);
  }

  /** Phone: the value passes exactly when it holds ten ASCII digits, wherever they are. */
  lemma {:induction false} PhoneVerdict(v: string, ctx: Context)
    ensures FirstFailure(RulesOf(Phone), v, ctx) ==
      if DigitCount(v) == 10 then AllPass else FailsWith(PhoneInvalid)
  {
    DigitsLength(v);
    assert PassesBefore(RulesOf(Phone), v, ctx, 0);
  }

  /** Phone: separators never matter, so "123-456-7890" and "1234567890" agree. */
  lemma {:induction false} PhoneIgnoresSeparators(a: string, c: char, b: string, ctx: Context)
    requires !IsAsciiDigit(c)
    ensures FirstFailure(RulesOf(Phone), a + [c] + b, ctx) == FirstFailure(RulesOf(Phone), a + b, ctx)
  {
    var u, w := a + [c] + b, a + b;
    DigitsIgnoreNonDigit(a, c, b);
    assert Holds(TenDigits, u, ctx) == Holds(TenDigits, w, ctx);
    assert PassesBefore(RulesOf(Phone), u, ctx, 0) && PassesBefore(RulesOf(Phone), w, ctx, 0);
  }

  /** Destination and party size: the value passes exactly when it has a character
      that is not white space. */
  lemma {:induction false} SelectionVerdict(f: Field, v: string, ctx: Context)
    requires f == Location || f == People
    ensures FirstFailure(RulesOf(f), v, ctx) ==
      if AllSpace(v) then FailsWith(if f == Location then LocationMissing else PeopleMissing)
      else AllPass
  {
    assert PassesBefore(RulesOf(f), v, ctx, 0);
  }

  /** Check-in: a blank value is reported as missing; otherwise it passes exactly when
      it is a date no earlier than today. */
  lemma {:induction false} CheckinVerdict(v: string, ctx: Context)
    ensures FirstFailure(RulesOf(Checkin), v, ctx) ==
      if AllSpace(v) then FailsWith(CheckinMissing)
      else if ParseDay(v).Some? && ParseDay(v).value >= DayNumber(ctx.today) then AllPass
      else FailsWith(CheckinPast)
  {
    var rules := RulesOf(Checkin);
    assert PassesBefore(rules, v, ctx, 0);
    if !AllSpace(v) {
      assert v != [];
      assert PassesBefore(rules, v, ctx, 1);
    }
  }

  /** Check-out: a blank value is reported as missing; otherwise the second rule reads
      the check-in element (and throws when there is none) and passes exactly when both
      values are dates and the check-out day is strictly later. */
  lemma {:induction false} CheckoutVerdict(v: string, ctx: Context)
    ensures FirstFailure(RulesOf(Checkout), v, ctx) ==
      if AllSpace(v) then FailsWith(CheckoutMissing)
      else if ctx.checkin.None? then Throws
      else if ParseDay(ctx.checkin.value).Some? && ParseDay(v).Some?
              && ParseDay(v).value > ParseDay(ctx.checkin.value).value then AllPass
      else FailsWith(CheckoutNotAfter)
  {
    var rules := RulesOf(Checkout);
    assert PassesBefore(rules, v, ctx, 0);
    if !AllSpace(v) {
      assert v != [];
      assert PassesBefore(rules, v, ctx, 1);
    }
  }

  /** Check-out against calendar dates: with both values real dates, the check-out
      passes exactly when its date comes after the check-in date, so the same day fails. */
  lemma {:induction false} CheckoutByCalendar(ci: string, co: string, today: ValidDate)
    requires ParseIsoDate(ci).Some? && ParseIsoDate(co).Some?
    ensures (FirstFailure(RulesOf(Checkout), co, Context(today, Some(ci))) == AllPass)
            <==> Before(ParseIsoDate(ci).value, ParseIsoDate(co).value)
  {
    CheckoutVerdict(co, Context(today, Some(ci)));
    assert !AllSpace(co) by { assert !IsSpace(co[4]); }
    DayNumberOrder(ParseIsoDate(ci).value, ParseIsoDate(co).value);
  }

  /** The check-in date rule as its code compares instants, in minutes since the
      start of day 0: the value's date is read as UTC midnight, while "today" is local
      midnight on a clock `ahead` minutes ahead of UTC. Only a date passes, and on a
      clock less than a day behind UTC exactly the dates after today pass. */
  function NotPastAsWritten(v: string, today: ValidDate, ahead: int): (r: bool)
    ensures r ==> ParseDay(v).Some?
    ensures -1440 < ahead < 0 ==> (r <==> ParseDay(v).Some? && ParseDay(v).value > DayNumber(today))
  {
    if v != "" && ParseDay(v).Some? then
      WestOfUtcMeansLater(ParseDay(v).value, DayNumber(today), ahead);
      ParseDay(v).value * 1440 >= DayNumber(today) * 1440 - ahead
    else false
  }

  lemma {:induction false} WestOfUtcMeansLater(d: int, t: int, ahead: int)
    ensures -1440 < ahead < 0 ==> (d * 1440 >= t * 1440 - ahead <==> d > t)
  {
    if d > t {
      assert d * 1440 >= t * 1440 + 1440;
    } else {
      assert d * 1440 <= t * 1440;
    }
  }

  /** West of UTC the instant comparison rejects today's own date. */
  lemma {:induction false} TodayRejectedWestOfUtc(today: ValidDate, ahead: int)
    requires today.year <= 9999 && ahead < 0
    ensures !NotPastAsWritten(FormatIsoDate(today), today, ahead)
  {
    ParseFormatted(today);
  }

  /** At UTC and east of it (up to a day ahead), the instant comparison accepts
      exactly the dates the calendar-day rule accepts. */
  lemma {:induction false} NotPastAsWrittenEastOfUtc(v: string, today: ValidDate, ahead: int)
    requires 0 <= ahead < 1440
    ensures NotPastAsWritten(v, today, ahead) <==> Holds(NotPast, v, Context(today, None)) == Pass
  {
    if v != "" && ParseDay(v).Some? {
      var d, t := ParseDay(v).value, DayNumber(today);
      if d < t {
        assert d * 1440 <= t * 1440 - 1440;
      }
    }
  }
}
