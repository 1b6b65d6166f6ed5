# Reservation chatbot slot extraction and validation, in Dafny

This project models the pure logic behind the reservation form of a hotel
chatbot: the slot extractors of `app/actions/nlp_pipelines.py` and the form
validators of `app/actions/actions.py`.

Each extractor turns one utterance into exactly one value or nothing. Zero
candidates and several candidates both give nothing:

- `Email.SearchEmail` scans for addresses like Python's `re.findall` does with
  the unanchored pattern adapted from the WHATWG HTML Living Standard's
  "valid e-mail address" grammar (`input type=email`). It answers only when
  the scan finds exactly one match.
- `SingleDigit.SearchSingleDigitNumber` normalises number words to digits, drops
  every non-digit and answers only when a single digit is left.
- `CitySearch.SearchCity` lower-cases the input and looks for the aliases of
  Munich, Stuttgart and Berlin as substrings. It answers only when exactly one
  city is hit.
- `DateSearch.SearchDate` is a three-stage cascade. It tries the raw text, then
  the text with number words turned into digits, then the date-like named
  entities joined together. The first stage that yields a date wins.
- `DateDisplay.ConvertDateToString` renders a date as `%A %d. %B %Y` with English
  names, for example `Sunday 20. July 1969`.

The validators (`Validation`) apply the business rules:

- A name must have at least two characters, no digit and none of twenty
  special characters. The first failing rule alone gives the message.
- Guests, e-mail and city are pass-throughs of their extractors.
- An arrival date may not lie before today.
- A departure date may not lie before today and must be strictly after the
  stashed arrival.

The arrival is kept between turns. In the original it is an attribute of the
validator object; here it is an explicit `Option<Date>` stash passed in and
returned. The current day is a parameter (`Environment.today`). Departure
validation with no arrival stashed is a fault of the caller
(`Failure(ArrivalNotStashed)`). In the original this raises `AttributeError`
(the attribute was never set) or `AssertionError` (it was cleared).

Foreign libraries are parameters, gathered in `DateSearch.Libraries`:
`alpha2digit`, `dateparser.parse(...).date()` and the spaCy entity recogniser.
The city alias lists are a parameter too (`CitySearch.AliasTable`).

Where the tests and the code disagree, the model follows the code. Two e-mail
tests in `app/actions/test_nlp_pipelines.py` expect other results than the
pattern gives:

- line 16: a one-character domain label such as `wh@t` is legal, so the pattern matches;
- line 18: `!` belongs to the local-part class, so the match starts at `course!messy-writer`.

## Model

| member | source | states |
|---|---|---|
| Text.Lower | app/actions/nlp_pipelines.py:108 | `str.lower` keeps the length and lower-cases each ASCII capital, leaving every other character alone |
| Text.LowerIdempotent | app/actions/nlp_pipelines.py:94-108 | lower-casing text that is already lower-cased changes nothing |
| Text.AnyChar | app/actions/actions.py:22-43 | the left-to-right character scan is true exactly when some character satisfies the test |
| Text.Occurs | app/actions/nlp_pipelines.py:110-112 | Python's `p in t` is true exactly when `p` occurs in `t` at some index; the empty pattern occurs everywhere |
| Text.OccursAny | app/actions/nlp_pipelines.py:110-112 | `any(p in t for p in ps)` is true exactly when some pattern of the list occurs in the text |
| Email.LabelEnd | app/actions/nlp_pipelines.py:25 | the greedy label group takes a well-formed label (1 to 63 characters, alphanumeric at both ends) and no longer label starts at the same place |
| Email.ScanDomain | app/actions/nlp_pipelines.py:25 | the domain part scanned is a non-empty list of well-formed labels whose dot-join is exactly the scanned text; each label is the longest at its start, and the scan stops only where no dot followed by an alphanumeric character comes next |
| Email.GreedyLongest | app/actions/nlp_pipelines.py:25 | no well-formed domain starting where the greedy domain starts is longer than it |
| Email.DomainGreedy | app/actions/nlp_pipelines.py:25 | a domain followed by neither a label character nor a dot and an alphanumeric character is exactly what the greedy group takes |
| Email.MatchAt | app/actions/nlp_pipelines.py:25 | there is a match at an index exactly when a well-formed address starts there; it has the grammar's shape, is the input text verbatim, and no address starting there is longer |
| Email.FindAll | app/actions/nlp_pipelines.py:25-26 | every match is well-formed, found verbatim in the input and exactly the greedy match the pattern takes at its start (`MatchAt`), and the matches do not overlap |
| Email.FindAllFrom | app/actions/nlp_pipelines.py:26 | `re.findall` returns well-formed matches found verbatim in the input, in order and without overlap |
| Email.FindAllFromScans | app/actions/nlp_pipelines.py:25-26 | every match of the scan is what `MatchAt` finds at its start, so its extent is the greedy one and not merely some address |
| Email.ScannedAt | app/actions/nlp_pipelines.py:25-26 | the same for the `k`-th match of a scan from any position |
| Email.FindAllComplete | app/actions/nlp_pipelines.py:26 | the scan misses nothing: if a well-formed address occurs anywhere, a match is found that starts at or before it |
| Email.NoMatchMeansNoAddress | app/actions/nlp_pipelines.py:26 | a text holding a well-formed address gives at least one match |
| Email.NoAtNoMatch | app/actions/nlp_pipelines.py:25-26 | text without `@` holds no match |
| Email.SearchEmail | app/actions/nlp_pipelines.py:26-29 | the answer is present exactly when the match list has one element, and is then that match's text |
| Email.SearchEmailShape | app/actions/nlp_pipelines.py:25-29 | a returned e-mail is a non-empty local part, `@` and dot-separated well-formed labels, found verbatim in the input |
| Email.TwoAddressesRefused | app/actions/nlp_pipelines.py:26-29 | two addresses with a separator (a character outside the local-part class other than `@`) between them give two matches and no answer |
| Email.AddressInContext | app/actions/nlp_pipelines.py:25 | a well-formed address keeps its shape and position whatever text surrounds it |
| Email.TwoEmailsSentence | app/actions/test_nlp_pipelines.py:21 | the test sentence with two addresses yields no e-mail |
| Email.SoleAddress | app/actions/nlp_pipelines.py:25-28 | an address between text without `@` that ends outside the local-part class and text that cannot extend its domain is returned verbatim |
| Email.WholeAddress | app/actions/nlp_pipelines.py:25-28 | a text that is one well-formed address is returned unchanged |
| Email.NiceUserAddress | app/actions/test_nlp_pipelines.py:19 | "nice.user@hotmail.de" is returned unchanged |
| Email.TestmailSentence | app/actions/test_nlp_pipelines.py:17 | the address before ", thank you" is returned without the comma |
| Email.SpaceLovingSentence | app/actions/test_nlp_pipelines.py:20 | the address between spaces is returned without them |
| Email.MessyWriterSentence | app/actions/test_nlp_pipelines.py:18 | the pattern returns "course!messy-writer@g-mail.us", where the test expects the address without "course!" |
| Email.WhatSentence | app/actions/test_nlp_pipelines.py:16 | the pattern returns "wh@t", where the test expects no answer |
| SingleDigit.Digits | app/actions/nlp_pipelines.py:88 | removing `\D` leaves only digits, never lengthens the text and leaves an all-digit text unchanged |
| SingleDigit.DigitsAppend | app/actions/nlp_pipelines.py:88 | the digits of two joined texts are the digits of the first followed by those of the second, so every digit is kept in order |
| SingleDigit.DigitsSingle | app/actions/nlp_pipelines.py:88 | a single character is kept exactly when it is a digit |
| SingleDigit.SearchSingleDigitNumber | app/actions/nlp_pipelines.py:87-92 | an answer is always one digit character |
| SingleDigit.SearchSingleDigitNumberIff | app/actions/nlp_pipelines.py:87-92 | the answer is `Some(d)` exactly when the normalised text has a single digit, and `d` is that digit |
| SingleDigit.TwoDigitsRejected | app/actions/nlp_pipelines.py:89-92 | two digits anywhere in the normalised text, from one number or two mentions, give no answer |
| SingleDigit.NoDigitRejected | app/actions/nlp_pipelines.py:89-92 | normalised text without digits gives no answer |
| SingleDigit.ElevenAndZero | app/actions/test_nlp_pipelines.py:51 | "eleven players", normalised to "11 players", is refused; a lone "0" is accepted |
| SingleDigit.OneGuest | app/actions/test_nlp_pipelines.py:45 | "1 guest", unchanged by normalisation, gives "1" |
| SingleDigit.TwentyOnePeople | app/actions/test_nlp_pipelines.py:46 | "Make a reservation for 21 people" gives no answer |
| SingleDigit.FiveAndSix | app/actions/test_nlp_pipelines.py:52 | "between 5 and 6, I don't know" gives no answer |
| CitySearch.LowerAll | app/actions/nlp_pipelines.py:94-96 | the alias lists are lower-cased element by element |
| CitySearch.Detected | app/actions/nlp_pipelines.py:110-112 | a city is detected exactly when one of its lower-cased aliases occurs in the lower-cased text |
| CitySearch.SearchCity | app/actions/nlp_pipelines.py:99-123 | an answer is one of "Munich", "Stuttgart", "Berlin" |
| CitySearch.HitsCount | app/actions/nlp_pipelines.py:114 | the sum of the three flags is the number of distinct cities mentioned |
| CitySearch.SearchCityExactlyOne | app/actions/nlp_pipelines.py:108-123 | the answer is a city's name exactly when that city is the only one mentioned |
| CitySearch.SearchCityNone | app/actions/nlp_pipelines.py:114-123 | no answer exactly when zero, two or three cities are mentioned |
| CitySearch.SearchCityCaseInsensitive | app/actions/nlp_pipelines.py:108 | the answer depends only on the lower-cased input |
| CitySearch.TwoCitiesRefused | app/actions/nlp_pipelines.py:110-116 | a text that mentions both Munich and Stuttgart gets no answer |
| Calendar.Before | app/actions/actions.py:170 | Python's `<` on dates never holds between a date and itself |
| Calendar.Weekday | app/actions/nlp_pipelines.py:73 | the weekday behind `%A` is an index from 0 (Monday) to 6 (Sunday) |
| Calendar.OrdinalNextDay | app/actions/nlp_pipelines.py:73 | the day ordinal behind the weekday counts days: the calendar's next day has the next ordinal |
| Calendar.WeekdayNextDay | app/actions/nlp_pipelines.py:73 | weekdays cycle through the week from one day to the next |
| Calendar.BeforeIsChronological | app/actions/actions.py:170 | the year-month-day comparison of dates agrees with their order in time |
| DateDisplay.Pad2 | app/actions/nlp_pipelines.py:73 | `%d` gives two digits denoting the day |
| DateDisplay.Pad4 | app/actions/nlp_pipelines.py:73 | `%Y` gives four digits denoting the year |
| DateDisplay.ConvertDateToString | app/actions/nlp_pipelines.py:72-74 | `None` maps to `None`; a date maps to a string that reads back as that date |
| DateDisplay.FormatDate | app/actions/nlp_pipelines.py:73 | reading the rendering `<weekday> <dd>. <month> <yyyy>` back gives the date: the format loses nothing |
| DateDisplay.ParsedIsFormatted | app/actions/nlp_pipelines.py:73 | only renderings read back: a string that parses is exactly the rendering of its date |
| DateDisplay.MoonLanding | app/actions/test_nlp_pipelines.py:39 | 1969-07-20 renders as "Sunday 20. July 1969" |
| DateSearch.DateChunks | app/actions/nlp_pipelines.py:55 | the filter never yields more chunks than there are entities |
| DateSearch.DateChunksAppend | app/actions/nlp_pipelines.py:55 | the entity filter keeps document order |
| DateSearch.DateChunksSingle | app/actions/nlp_pipelines.py:55 | an entity is kept exactly when its label is DATE, ORDINAL or CARDINAL |
| DateSearch.Concat | app/actions/nlp_pipelines.py:56 | joining no chunks gives the empty text, and joining one chunk gives that chunk |
| DateSearch.ConcatAppend | app/actions/nlp_pipelines.py:56 | joining without separator distributes over concatenation |
| DateSearch.FirstSome | app/actions/nlp_pipelines.py:44-60 | the cascade answers exactly when some stage answers |
| DateSearch.FirstSomeIsFirst | app/actions/nlp_pipelines.py:44-60 | the cascade's answer is that of the first stage that answers |
| DateSearch.SearchDate | app/actions/nlp_pipelines.py:41-60 | parse the raw text; failing that, the digit-normalised text; failing that, the date-like entities of the normalised text joined in order |
| Validation.ContainsNumbers | app/actions/actions.py:22-31 | true exactly when some character is a digit |
| Validation.ContainsSymbols | app/actions/actions.py:34-43 | true exactly when some character is one of the twenty special characters |
| Validation.ValidateName | app/actions/actions.py:46-68 | length at most one, then a digit, then a special character decides the single message; otherwise the name is kept unchanged without message |
| Validation.HyphenatedNameRefused | app/actions/actions.py:19 | "-" is a special character, so "Anne-Marie" is refused with the symbols message |
| Validation.ValidateNumberOfGuests | app/actions/actions.py:141-145 | the slot is the extractor's answer; the fixed message comes exactly when there is none |
| Validation.ValidateEmail | app/actions/actions.py:230-234 | the slot is the extractor's answer; the fixed message comes exactly when there is none |
| Validation.ValidateCity | app/actions/actions.py:255-259 | the slot is the extractor's answer; the fixed message comes exactly when there is none |
| Validation.ValidateArrivalDate | app/actions/actions.py:166-174 | unreadable or past dates are refused with their messages and the stash kept; today or later is accepted, stashed and stored in display form |
| Validation.ValidateDepartureDate | app/actions/actions.py:195-209 | unreadable and past dates are refused before the stash is read; a missing stash is then a fault; a departure not after the arrival is refused keeping the stash; otherwise it is accepted and the stash cleared |
| Validation.DepartureConsumesArrival | app/actions/actions.py:203-208 | validating an accepted departure again right away is a fault, because acceptance cleared the stash |
| Validation.ArrivalThenDeparture | app/actions/actions.py:170-209 | after an accepted arrival, a departure read as a strictly later day is accepted |
| Validation.ValidateSlot | app/actions/actions.py:80-259 | each slot runs its own validator: first and last name run `validate_name` with "First name" and "Last name" (lines 99 and 120), the other five slots their own validator; every validator gives a value or a message, never both; only the arrival and departure validators touch the stash, and only departure can fault |

## Left out

- The internals of `dateparser.parse` (with its DMY, prefer-future and day-and-month settings), `text_to_num.alpha2digit` and the spaCy model are foreign libraries; they are the function fields of `DateSearch.Libraries`. The date examples of the test file depend on them and on the current day, so they are not stated.
- The contents of the city alias tables are not part of this model; `CitySearch.AliasTable` takes the three lists as given.
- `str.lower`, `str.isdigit` and `\D` are modelled on ASCII only; non-ASCII letters and digits are left unchanged or treated as non-digits.
- `DateDisplay.Pad4`: renders every year as four zero-padded digits; for years below 1000 the original's `%Y` depends on the platform's C library.
- Weekday and month names are the English ones; locale-dependent `%A` and `%B` are not modelled.
- `datetime.date.today()` is the parameter `Environment.today`.
- The Rasa plumbing (method-name dispatch of `FormValidationAction`, the dispatcher, the tracker and domain, `ActionClearSlots` and `AllSlotsReset`) has no logic of its own; `Validation.ValidateSlot` stands for the dispatch.
- The pattern is modelled by a scanner for this one pattern, not by a general regular-expression engine.
