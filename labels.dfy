/**
 * The small lookups around the form: the display name of a destination, the
 * party-size wording, the card-to-destination prefill table, and the
 * confirmation the success message is built from.
 */
module Labels {
  import opened Wrappers
  import opened Rules
  import Text

  /** The display names of the destination values. */
  const LocationNames: map<string, string> := map[
    "rishikesh" := "Rishikesh", "mussorie" := "Mussorie", "tehri" := "Tehri",
    "nainital" := "Nainital", "kedarnath" := "Kedarnath", "badrinath" := "Badrinath"]

  function Upper(c: char): char {
    if 'a' <= c <= 'z' then (c as int - 32) as char else c
  }

  /** The value with its first letter in upper case. */
  function Capitalized(s: string): string {
    if s == [] then [] else [Upper(s[0])] + s[1..]
  }

  /** `getLocationName(value)`: a known destination's display name, which is the value
      capitalised; any other value is returned as it is. */
  function GetLocationName(value: string): (r: string)
    ensures value in LocationNames ==> r == Capitalized(value)
    ensures value !in LocationNames ==> r == value
  {
    if value in LocationNames then DisplayNameCapitalises(value); LocationNames[value] else value
  }

  lemma {:induction false} DisplayNameCapitalises(value: string)
    requires value in LocationNames
    ensures LocationNames[value] == Capitalized(value)
  {
    if value == "rishikesh" {
      assert Capitalized(value) == "Rishikesh";
    } else if value == "mussorie" {
      assert Capitalized(value) == "Mussorie";
    } else if value == "tehri" {
      assert Capitalized(value) == "Tehri";
    } else if value == "nainital" {
      assert Capitalized(value) == "Nainital";
    } else if value == "kedarnath" {
      assert Capitalized(value) == "Kedarnath";
    } else {
      assert Capitalized(value) == "Badrinath";
    }
  }

  /** Looking a display name up again changes nothing: no display name is itself a key. */
  lemma {:induction false} GetLocationNameIdempotent(value: string)
    ensures GetLocationName(GetLocationName(value)) == GetLocationName(value)
  {
    if value in LocationNames {
      assert value in {"rishikesh", "mussorie", "tehri", "nainital", "kedarnath", "badrinath"};
      assert LocationNames[value][0] in {'R', 'M', 'T', 'N', 'K', 'B'};
    }
  }

  /** How the success message states the party size. */
  function PeopleText(people: string): (r: string)
    ensures r == "1 person" <==> people == "1"
    ensures people != "1" ==> r == people + " people"
  {
    if people == "1" then "1 person"
    else
      var r := people + " people";
      assert r[|r| - 1] == 'e';
      r
  }

  /** Different party sizes are never worded alike. */
  lemma {:induction false} PeopleTextInjective(p: string, q: string)
    requires PeopleText(p) == PeopleText(q)
    ensures p == q
  {
    if p != "1" && q != "1" {
      assert p == PeopleText(p)[..|p|];
      assert q == PeopleText(q)[..|q|];
    }
  }

  /** The destination cards whose click pre-selects a destination, and which. */
  const CardDestinations: map<string, string> := map[
    "harshil-valley" := "tehri", "panch-kedar" := "kedarnath",
    "tungnath-chopta" := "kedarnath", "valley-of-flowers" := "nainital"]

  /** `locationMap[destination]`: the destination a card pre-selects, always one that
      has a display name. */
  function PrefillLocation(card: string): (r: Option<string>)
    ensures r.Some? <==> card in CardDestinations
    ensures r.Some? ==> r.value in LocationNames
  {
    if card in CardDestinations then Some(CardDestinations[card]) else None
  }

  /** A pre-selected destination satisfies the destination rule. */
  lemma {:induction false} PrefillPassesLocationRule(card: string, ctx: Context)
    requires PrefillLocation(card).Some?
    ensures FirstFailure(RulesOf(Location), PrefillLocation(card).value, ctx) == AllPass
  {
    var v := PrefillLocation(card).value;
    SelectionVerdict(Location, v, ctx);
    assert v[0] in {'t', 'k', 'n'};
    assert !Text.IsSpace(v[0]);
  }

  /** The values the success message interpolates; the dates are the raw input values. */
  datatype Confirmation = Confirmation(
    name: string, destination: string, checkin: string, checkout: string,
    party: string, email: string)

  /** A collected value as a template literal renders it: the string `undefined` for a
      field whose element was not on the page. */
  function Collected(data: map<Field, string>, f: Field): string {
    if f in data then data[f] else "undefined"
  }

  /** The confirmation shown for the collected `data`: name, e-mail and dates as
      collected; known destinations by their display name and other values as they
      are; the party size worded; absent fields as `undefined` throughout. */
  function ConfirmationFor(data: map<Field, string>): (c: Confirmation)
    ensures c.name == Collected(data, Name) && c.email == Collected(data, Email)
    ensures c.checkin == Collected(data, Checkin) && c.checkout == Collected(data, Checkout)
    ensures Location in data && data[Location] in LocationNames ==>
      c.destination == Capitalized(data[Location])
    ensures Location in data && data[Location] !in LocationNames ==> c.destination == data[Location]
    ensures Location !in data ==> c.destination == "undefined"
    ensures c.party == "1 person" <==> People in data && data[People] == "1"
    ensures !(People in data && data[People] == "1") ==> c.party == Collected(data, People) + " people"
  {
    assert "undefined" !in LocationNames;
    Confirmation(
      Collected(data, Name), GetLocationName(Collected(data, Location)),
      Collected(data, Checkin), Collected(data, Checkout),
      PeopleText(Collected(data, People)), Collected(data, Email))
  }

  /** The confirmation of the sample booking: Jane Doe, two people, Kedarnath. */
  lemma {:induction false} SampleConfirmation(data: map<Field, string>, checkin: string, checkout: string)
    requires data == map[Name := "Jane Doe", Email := "jane@example.com", Location := "kedarnath",
                         Checkin := checkin, Checkout := checkout, People := "2"]
    ensures ConfirmationFor(data) ==
      Confirmation("Jane Doe", "Kedarnath", checkin, checkout, "2 people", "jane@example.com")
  {
    assert Capitalized("kedarnath") == "Kedarnath";
  }
}
