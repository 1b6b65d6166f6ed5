/** `search_date`: three parsing strategies tried in order, the first
    answer wins. The date parser, the number normaliser and the entity
    recogniser are foreign libraries and appear as function parameters. */
module DateSearch {
  import opened Wrappers
  import opened Calendar

  /** A named entity: its text and its label `tag` (`DATE`, `ORDINAL`, `PERSON`, ...). */
  datatype Entity = Entity(text: string, tag: string)

  /** The libraries `search_date` relies on:
      `alpha2digit(text, "en")`, `dateparser.parse(text, settings).date()`
      with the DMY / prefer-future / day-and-month settings (so it already
      depends on the current day), and the entities of the language model. */
  datatype Libraries = Libraries(
    alpha2digit: string -> string,
    parseDate: string -> Option<Date>,
    entities: string -> seq<Entity>)

  /** The entity labels the third stage keeps. */
  const DateLabels: set<string> := {"DATE", "ORDINAL", "CARDINAL"}

  /** The texts of the date-like entities, in document order. */
  function DateChunks(ents: seq<Entity>): (r: seq<string>)
    ensures |r| <= |ents|
  {
    if ents == [] then []
    else if ents[0].tag in DateLabels then [ents[0].text] + DateChunks(ents[1..])
    else DateChunks(ents[1..])
  }

  /** `"".join(chunks)`. */
  function Concat(chunks: seq<string>): (r: string)
    ensures chunks == [] ==> r == []
    ensures |chunks| == 1 ==> r == chunks[0]
  {
    if chunks == [] then [] else chunks[0] + Concat(chunks[1..])
  }

  /** Filtering keeps document order: it distributes over concatenation. */
  lemma {:induction false} DateChunksAppend(a: seq<Entity>, b: seq<Entity>)
    ensures DateChunks(a + b) == DateChunks(a) + DateChunks(b)
  {
    if a == [] {
      assert a + b == b;
    } else {
      assert (a + b)[0] == a[0];
      assert (a + b)[1..] == a[1..] + b;
      DateChunksAppend(a[1..], b);
    }
  }

  /** An entity is kept exactly when its label is date-like. */
  lemma DateChunksSingle(e: Entity)
    ensures DateChunks([e]) == (if e.tag in DateLabels then [e.text] else [])
  {
    assert [e][1..] == [];
  }

  /** Joining distributes over concatenation. */
  lemma {:induction false} ConcatAppend(a: seq<string>, b: seq<string>)
    ensures Concat(a + b) == Concat(a) + Concat(b)
  {
    if a == [] {
      assert a + b == b;
    } else {
      assert (a + b)[0] == a[0];
      assert (a + b)[1..] == a[1..] + b;
      ConcatAppend(a[1..], b);
    }
  }

  /** The first answer of a list of fallible strategies. */
  function FirstSome<T>(answers: seq<Option<T>>): (r: Option<T>)
    ensures r.Some? <==> exists i :: 0 <= i < |answers| && answers[i].Some?
  {
    if answers == [] then None
    else if answers[0].Some? then answers[0]
    else
      var r := FirstSome(answers[1..]);
      assert r.Some? ==> answers[1..][FirstSomeIndex(answers[1..])].Some?;
      r
  }

  /** The position of the first answer. */
  function FirstSomeIndex<T>(answers: seq<Option<T>>): (i: nat)
    requires exists i :: 0 <= i < |answers| && answers[i].Some?
    ensures i < |answers| && answers[i].Some?
    ensures forall j :: 0 <= j < i ==> answers[j].None?
  {
    if answers[0].Some? then 0
    else
      assert exists i :: 0 <= i < |answers[1..]| && answers[1..][i].Some? by {
        var i :| 0 <= i < |answers| && answers[i].Some?;
        assert answers[1..][i - 1] == answers[i];
      }
      FirstSomeIndex(answers[1..]) + 1
  }

  /** The answer `FirstSome` gives is the one at the first position that has one. */
  lemma {:induction false} FirstSomeIsFirst<T>(answers: seq<Option<T>>)
    requires exists i :: 0 <= i < |answers| && answers[i].Some?
    ensures FirstSome(answers) == answers[FirstSomeIndex(answers)]
  {
    if answers[0].None? {
      assert exists i :: 0 <= i < |answers[1..]| && answers[1..][i].Some? by {
        var i :| 0 <= i < |answers| && answers[i].Some?;
        assert answers[1..][i - 1] == answers[i];
      }
      FirstSomeIsFirst(answers[1..]);
    }
  }

  /** The three texts the parser is tried on: the raw input, the input with
      number words turned into digits, and the date-like entities of the
      latter joined without separator. */
  function StageInputs(lib: Libraries, text: string): seq<string> {
    var withDigits := lib.alpha2digit(text);
    [text, withDigits, Concat(DateChunks(lib.entities(withDigits)))]
  }

  /** `search_date`: the cascade over the three stage inputs. */
  function SearchDate(lib: Libraries, text: string): (r: Option<Date>)
    ensures var withDigits := lib.alpha2digit(text);
      r == if lib.parseDate(text).Some? then lib.parseDate(text)
           else if lib.parseDate(withDigits).Some? then lib.parseDate(withDigits)
           else lib.parseDate(Concat(DateChunks(lib.entities(withDigits))))
  {
    var inputs := StageInputs(lib, text);
    var answers: seq<Option<Date>> := [lib.parseDate(inputs[0]), lib.parseDate(inputs[1]), lib.parseDate(inputs[2])];
    assert answers[1..] == [answers[1], answers[2]];
    assert [answers[1], answers[2]][1..] == [answers[2]];
    assert FirstSome([answers[2]]) == answers[2];
    assert FirstSome([answers[1], answers[2]]) == if answers[1].Some? then answers[1] else answers[2];
    FirstSome(answers)
  }
}
