/** `search_single_digit_number`: the party size, accepted only when the
    normalised text holds exactly one digit. */
module SingleDigit {
  import opened Wrappers
  import opened Text

  /** `re.sub(r"\D", "", t)`: the digits of `t`, in order. */
  function Digits(t: string): (r: string)
    ensures |r| <= |t|
    ensures forall k :: 0 <= k < |r| ==> IsDigit(r[k])
    ensures (forall k :: 0 <= k < |t| ==> IsDigit(t[k])) ==> r == t
  {
    if t == [] then []
    else if IsDigit(t[0]) then [t[0]] + Digits(t[1..])
    else Digits(t[1..])
  }

  /** Removing non-digits distributes over concatenation: the digits of
      both parts are kept, in order. */
  lemma {:induction false} DigitsAppend(a: string, b: string)
    ensures Digits(a + b) == Digits(a) + Digits(b)
  {
    if a == [] {
      assert a + b == b;
    } else {
      assert (a + b)[0] == a[0];
      assert (a + b)[1..] == a[1..] + b;
      DigitsAppend(a[1..], b);
    }
  }

  /** A single character is kept exactly when it is a digit. */
  lemma DigitsSingle(c: char)
    ensures Digits([c]) == if IsDigit(c) then [c] else []
  {
    assert [c][1..] == [];
  }

  /** The digit at `i` is the only digit of `t`. */
  predicate UniqueDigitAt(t: string, i: int) {
    0 <= i < |t| && IsDigit(t[i]) && forall j :: 0 <= j < |t| && j != i ==> !IsDigit(t[j])
  }

  /** `search_single_digit_number`, with `alpha2digit(text, "en")` passed in as `normalise`. */
  function SearchSingleDigitNumber(normalise: string -> string, text: string): (r: Option<string>)
    ensures r.Some? ==> |r.value| == 1 && IsDigit(r.value[0])
  {
    var digits := Digits(normalise(text));
    if |digits| == 1 then Some([digits[0]]) else None
  }

  lemma {:induction false} NoDigits(t: string)
    requires forall j :: 0 <= j < |t| ==> !IsDigit(t[j])
    ensures Digits(t) == []
  {
    if t != [] {
      NoDigits(t[1..]);
    }
  }

  /** A digit at `i` is kept by the filter. */
  lemma {:induction false} SomeDigit(t: string, i: int)
    requires 0 <= i < |t| && IsDigit(t[i])
    ensures |Digits(t)| >= 1
  {
    if i > 0 && !IsDigit(t[0]) {
      SomeDigit(t[1..], i - 1);
    }
  }

  /** The only digit of the text is all the filter keeps. */
  lemma {:induction false} DigitsOfUnique(t: string, i: int)
    requires UniqueDigitAt(t, i)
    ensures Digits(t) == [t[i]]
  {
    if i == 0 {
      NoDigits(t[1..]);
    } else {
      assert !IsDigit(t[0]);
      DigitsOfUnique(t[1..], i - 1);
    }
  }

  /** Two digit positions leave at least two digits. */
  lemma {:induction false} TwoDigits(t: string, i: int, j: int)
    requires 0 <= i < j < |t| && IsDigit(t[i]) && IsDigit(t[j])
    ensures |Digits(t)| >= 2
  {
    if i == 0 {
      SomeDigit(t[1..], j - 1);
    } else {
      TwoDigits(t[1..], i - 1, j - 1);
    }
  }

  /** A filter that keeps one character found it at some position of the text. */
  lemma {:induction false} SingleDigitPosition(t: string) returns (i: int)
    requires |Digits(t)| == 1
    ensures 0 <= i < |t| && IsDigit(t[i]) && Digits(t)[0] == t[i]
  {
    if IsDigit(t[0]) {
      i := 0;
    } else {
      var k := SingleDigitPosition(t[1..]);
      i := k + 1;
    }
  }

  /** The extractor answers `Some(d)` exactly when the normalised text has
      a single digit, and `d` is that digit. */
  lemma SearchSingleDigitNumberIff(normalise: string -> string, text: string, i: int)
    ensures UniqueDigitAt(normalise(text), i) ==> SearchSingleDigitNumber(normalise, text) == Some([normalise(text)[i]])
    ensures SearchSingleDigitNumber(normalise, text).Some? ==>
      exists k :: UniqueDigitAt(normalise(text), k) && SearchSingleDigitNumber(normalise, text) == Some([normalise(text)[k]])
  {
    var t := normalise(text);
    if UniqueDigitAt(t, i) {
      DigitsOfUnique(t, i);
    }
    if SearchSingleDigitNumber(normalise, text).Some? {
      var k := SingleDigitPosition(t);
      forall j | 0 <= j < |t| && j != k
        ensures !IsDigit(t[j])
      {
        if IsDigit(t[j]) {
          if j < k { TwoDigits(t, j, k); } else { TwoDigits(t, k, j); }
        }
      }
      assert UniqueDigitAt(t, k);
    }
  }

  /** Two digits anywhere in the normalised text, from one number or from
      two mentions, give `None`. */
  lemma TwoDigitsRejected(normalise: string -> string, text: string, i: int, j: int)
    requires 0 <= i < j < |normalise(text)|
    requires IsDigit(normalise(text)[i]) && IsDigit(normalise(text)[j])
    ensures SearchSingleDigitNumber(normalise, text) == None
  {
    TwoDigits(normalise(text), i, j);
  }

  /** Text without any digit after normalisation gives `None`. */
  lemma NoDigitRejected(normalise: string -> string, text: string)
    requires forall j :: 0 <= j < |normalise(text)| ==> !IsDigit(normalise(text)[j])
    ensures SearchSingleDigitNumber(normalise, text) == None
  {
    NoDigits(normalise(text));
  }

  /** "eleven players" normalises to "11 players" and is refused; "0" is a
      digit like any other and is accepted. */
  lemma ElevenAndZero(normalise: string -> string)
    requires normalise("eleven players") == "11 players"
    requires normalise("zero") == "0"
    ensures SearchSingleDigitNumber(normalise, "eleven players") == None
    ensures SearchSingleDigitNumber(normalise, "zero") == Some("0")
  {
    TwoDigitsRejected(normalise, "eleven players", 0, 1);
  }

  /** "1 guest" keeps its one digit through normalisation and is accepted. */
  lemma OneGuest(normalise: string -> string)
    requires normalise("1 guest") == "1 guest"
    ensures SearchSingleDigitNumber(normalise, "1 guest") == Some("1")
  {
    assert UniqueDigitAt("1 guest", 0);
    DigitsOfUnique("1 guest", 0);
  }

  /** "Make a reservation for 21 people" carries two digits and is refused. */
  lemma TwentyOnePeople(normalise: string -> string)
    requires normalise("Make a reservation for 21 people") == "Make a reservation for 21 people"
    ensures SearchSingleDigitNumber(normalise, "Make a reservation for 21 people") == None
  {
    TwoDigitsRejected(normalise, "Make a reservation for 21 people", 23, 24);
  }

  /** "between 5 and 6, I don't know" carries two digits and is refused. */
  lemma FiveAndSix(normalise: string -> string)
    requires normalise("between 5 and 6, I don't know") == "between 5 and 6, I don't know"
    ensures SearchSingleDigitNumber(normalise, "between 5 and 6, I don't know") == None
  {
    TwoDigitsRejected(normalise, "between 5 and 6, I don't know", 8, 14);
  }
}
