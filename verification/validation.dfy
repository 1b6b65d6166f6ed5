/** The reservation form's validators. The validator object's hidden
    `arrival_date` attribute becomes an explicit stash passed in and out,
    and the current day becomes a parameter. */
module Validation {
  import opened Wrappers
  import opened Text
  import opened Calendar
  import opened DateDisplay
  import opened DateSearch
  import Email
  import SingleDigit
  import CitySearch

  /** The symbols a name may not contain. */
  const SpecialCharacters: string := "!@#$\"%^&*()-+?_=,<>/"

  const TooShort := " shall be at least two letter long."
  const HasNumbers := " shall not contain numbers."
  const HasSymbols := " shall not contain any of the following symbols: "
  const GuestsNotUnderstood := "I could not understand now many."
  const DateNotUnderstood := "I could not understand the date."
  const ArrivalInPast := "Arrival date shall be in the future."
  const DepartureInPast := "Departure date shall be in the future."
  const DepartureNotAfterArrival := "Departure shall be at least one day after the arrival."
  const EmailNotUnderstood := "I could not understand the email."
  const CityNotUnderstood := "I did not understand in which city."

  /** `contains_numbers`: some character is a digit. */
  function ContainsNumbers(s: string): (r: bool)
    ensures r <==> exists i :: 0 <= i < |s| && IsDigit(s[i])
  {
    AnyChar(s, IsDigit)
  }

  /** `contains_symbols`: some character is one of `SpecialCharacters`. */
  function ContainsSymbols(s: string): (r: bool)
    ensures r <==> exists i :: 0 <= i < |s| && s[i] in SpecialCharacters
  {
    AnyChar(s, c => c in SpecialCharacters)
  }

  /** What one validation call asks of the form: the new slot value and
      at most one message for the user. */
  datatype Reply = Reply(slot: Option<string>, message: Option<string>) {
    /** Either a value is accepted or the user is told why not, never both. */
    predicate Decided() {
      slot.Some? != message.Some?
    }
  }

  function Reject(message: string): (r: Reply)
    ensures r.Decided() && r.slot.None?
  {
    Reply(None, Some(message))
  }

  function Accept(value: string): (r: Reply)
    ensures r.Decided() && r.slot == Some(value)
  {
    Reply(Some(value), None)
  }

  /** `validate_name`: three checks in a fixed order; the first that fails
      decides the message. */
  function ValidateName(name: string, description: string): (r: Reply)
    ensures r.Decided()
    ensures |name| <= 1 ==> r == Reject(description + TooShort)
    ensures |name| > 1 && (exists i :: 0 <= i < |name| && IsDigit(name[i]))
            ==> r == Reject(description + HasNumbers)
    ensures |name| > 1 && (forall i :: 0 <= i < |name| ==> !IsDigit(name[i]))
            && (exists i :: 0 <= i < |name| && name[i] in SpecialCharacters)
            ==> r == Reject(description + HasSymbols + SpecialCharacters)
    ensures r.slot.Some? <==>
            |name| >= 2 && forall i :: 0 <= i < |name| ==> !IsDigit(name[i]) && name[i] !in SpecialCharacters
    ensures r.slot.Some? ==> r.slot.value == name
  {
    if |name| <= 1 then Reject(description + TooShort)
    else if ContainsNumbers(name) then Reject(description + HasNumbers)
    else if ContainsSymbols(name) then Reject(description + HasSymbols + SpecialCharacters)
    else Accept(name)
  }

  /** A hyphen is a special character: hyphenated names are refused. */
  lemma HyphenatedNameRefused()
    ensures ValidateName("Anne-Marie", "First name")
            == Reject("First name" + HasSymbols + SpecialCharacters)
  {
    HyphenatedName("Anne-Marie");
  }

  /** The name is a parameter fixed by `requires`, so that only this fact is
      unfolded on the literal. */
  lemma HyphenatedName(name: string)
    requires name == "Anne-Marie"
    ensures ValidateName(name, "First name") == Reject("First name" + HasSymbols + SpecialCharacters)
  {
    assert name[4] == '-';
  }

  /** Everything the validators depend on besides the user's text: the
      current day, the libraries behind `search_date` and the alias tables. */
  datatype Environment = Environment(today: Date, libraries: Libraries, cities: CitySearch.AliasTable)

  /** A reply together with the stashed arrival date after the call. */
  datatype Turn = Turn(reply: Reply, stash: Option<Date>)

  /** A departure was validated with no arrival stashed: a fault of the
      caller (an `AttributeError` or `AssertionError` in the original). */
  datatype Fault = ArrivalNotStashed

  /** `validate_number_of_guests`. */
  function ValidateNumberOfGuests(env: Environment, text: string): (r: Reply)
    ensures r.Decided()
    ensures r.slot == SingleDigit.SearchSingleDigitNumber(env.libraries.alpha2digit, text)
    ensures r.message.Some? ==> r.message.value == GuestsNotUnderstood
  {
    match SingleDigit.SearchSingleDigitNumber(env.libraries.alpha2digit, text)
    case None => Reject(GuestsNotUnderstood)
    case Some(n) => Accept(n)
  }

  /** `validate_email`. */
  function ValidateEmail(text: string): (r: Reply)
    ensures r.Decided()
    ensures r.slot == Email.SearchEmail(text)
    ensures r.message.Some? ==> r.message.value == EmailNotUnderstood
  {
    match Email.SearchEmail(text)
    case None => Reject(EmailNotUnderstood)
    case Some(e) => Accept(e)
  }

  /** `validate_city`. */
  function ValidateCity(env: Environment, text: string): (r: Reply)
    ensures r.Decided()
    ensures r.slot == CitySearch.SearchCity(env.cities, text)
    ensures r.message.Some? ==> r.message.value == CityNotUnderstood
  {
    match CitySearch.SearchCity(env.cities, text)
    case None => Reject(CityNotUnderstood)
    case Some(c) => Accept(c)
  }

  /** `validate_arrival_date`: refuse what cannot be read or lies before
      today; otherwise stash the date and store its display form. */
  function ValidateArrivalDate(env: Environment, stash: Option<Date>, text: string): (r: Turn)
    ensures r.reply.Decided()
    ensures var found := SearchDate(env.libraries, text);
            && (found.None? ==> r == Turn(Reject(DateNotUnderstood), stash))
            && (found.Some? && Before(found.value, env.today) ==> r == Turn(Reject(ArrivalInPast), stash))
            && (r.reply.slot.Some? <==> found.Some? && !Before(found.value, env.today))
            && (r.reply.slot.Some? ==> r.stash == found && ParseDisplay(r.reply.slot.value) == found)
  {
    match SearchDate(env.libraries, text)
    case None => Turn(Reject(DateNotUnderstood), stash)
    case Some(d) =>
      if Before(d, env.today) then Turn(Reject(ArrivalInPast), stash)
      else Turn(Accept(FormatDate(d)), Some(d))
  }

  /** `validate_departure_date`: the unreadable and past-date checks come
      first; only then is the stash read, and a missing stash is a fault.
      An accepted departure clears the stash. */
  function ValidateDepartureDate(env: Environment, stash: Option<Date>, text: string): (r: Result<Turn, Fault>)
    ensures var found := SearchDate(env.libraries, text);
            && (r.Failure? <==> found.Some? && !Before(found.value, env.today) && stash.None?)
            && (found.None? ==> r == Success(Turn(Reject(DateNotUnderstood), stash)))
            && (found.Some? && Before(found.value, env.today)
                ==> r == Success(Turn(Reject(DepartureInPast), stash)))
            && (found.Some? && !Before(found.value, env.today) && stash.Some? && !Before(stash.value, found.value)
                ==> r == Success(Turn(Reject(DepartureNotAfterArrival), stash)))
            && (r.Success? ==> r.value.reply.Decided())
            && (r.Success? && r.value.reply.slot.Some? <==>
                found.Some? && !Before(found.value, env.today) && stash.Some? && Before(stash.value, found.value))
            && (r.Success? && r.value.reply.slot.Some?
                ==> r.value.stash.None? && ParseDisplay(r.value.reply.slot.value) == found)
  {
    match SearchDate(env.libraries, text)
    case None => Success(Turn(Reject(DateNotUnderstood), stash))
    case Some(d) =>
      if Before(d, env.today) then Success(Turn(Reject(DepartureInPast), stash))
      else
        match stash
        case None => Failure(ArrivalNotStashed)
        case Some(arrival) =>
          if !Before(arrival, d) then Success(Turn(Reject(DepartureNotAfterArrival), stash))
          else Success(Turn(Accept(FormatDate(d)), None))
  }

  /** The stash is one-shot: validating the same departure again right
      after it was accepted is a fault. */
  lemma DepartureConsumesArrival(env: Environment, stash: Option<Date>, text: string)
    requires ValidateDepartureDate(env, stash, text).Success?
    requires ValidateDepartureDate(env, stash, text).value.reply.slot.Some?
    ensures ValidateDepartureDate(env, ValidateDepartureDate(env, stash, text).value.stash, text)
            == Failure(ArrivalNotStashed)
  {
  }

  /** An accepted arrival followed by a departure read as a strictly later
      day is accepted, whatever today is. */
  lemma ArrivalThenDeparture(env: Environment, stash: Option<Date>, arrivalText: string, departureText: string)
    requires ValidateArrivalDate(env, stash, arrivalText).reply.slot.Some?
    requires SearchDate(env.libraries, departureText).Some?
    requires Before(SearchDate(env.libraries, arrivalText).value, SearchDate(env.libraries, departureText).value)
    ensures var after := ValidateArrivalDate(env, stash, arrivalText).stash;
            var r := ValidateDepartureDate(env, after, departureText);
            r.Success? && r.value.reply.slot.Some? && r.value.stash.None?
  {
  }

  /** The slots of the reservation form. */
  datatype Slot = FirstName | LastName | NumberOfGuests | ArrivalDate | DepartureDate | EmailSlot | CitySlot

  /** The form's validators, chosen by slot. */
  function ValidateSlot(env: Environment, slot: Slot, stash: Option<Date>, text: string): (r: Result<Turn, Fault>)
    ensures r.Success? ==> r.value.reply.Decided()
    ensures slot != ArrivalDate && slot != DepartureDate ==> r.Success? && r.value.stash == stash
    ensures slot == ArrivalDate ==> r.Success?
    ensures slot == FirstName ==> r == Success(Turn(ValidateName(text, "First name"), stash))
    ensures slot == LastName ==> r == Success(Turn(ValidateName(text, "Last name"), stash))
    ensures slot == NumberOfGuests ==> r == Success(Turn(ValidateNumberOfGuests(env, text), stash))
    ensures slot == ArrivalDate ==> r == Success(ValidateArrivalDate(env, stash, text))
    ensures slot == DepartureDate ==> r == ValidateDepartureDate(env, stash, text)
    ensures slot == EmailSlot ==> r == Success(Turn(ValidateEmail(text), stash))
    ensures slot == CitySlot ==> r == Success(Turn(ValidateCity(env, text), stash))
  {
    match slot
    case FirstName => Success(Turn(ValidateName(text, "First name"), stash))
    case LastName => Success(Turn(ValidateName(text, "Last name"), stash))
    case NumberOfGuests => Success(Turn(ValidateNumberOfGuests(env, text), stash))
    case ArrivalDate => Success(ValidateArrivalDate(env, stash, text))
    case DepartureDate => ValidateDepartureDate(env, stash, text)
    case EmailSlot => Success(Turn(ValidateEmail(text), stash))
    case CitySlot => Success(Turn(ValidateCity(env, text), stash))
  }
}
