/** `search_city`: a case-insensitive substring search for the aliases of
    three known cities, accepted only when exactly one city is mentioned. */
module CitySearch {
  import opened Wrappers
  import opened Text

  datatype City = Munich | Stuttgart | Berlin

  const AllCities: set<City> := {Munich, Stuttgart, Berlin}

  /** The name `search_city` returns for a city. */
  function CityName(c: City): string {
    match c
    case Munich => "Munich"
    case Stuttgart => "Stuttgart"
    case Berlin => "Berlin"
  }

  /** The three alias lists of `city_aliases`, as given. */
  datatype AliasTable = AliasTable(munich: seq<string>, stuttgart: seq<string>, berlin: seq<string>) {
    function Aliases(c: City): seq<string> {
      match c
      case Munich => munich
      case Stuttgart => stuttgart
      case Berlin => berlin
    }
  }

  /** The aliases lower-cased once, as the module does on import. */
  function LowerAll(names: seq<string>): (r: seq<string>)
    ensures |r| == |names|
    ensures forall k :: 0 <= k < |names| ==> r[k] == Lower(names[k])
  {
    if names == [] then [] else [Lower(names[0])] + LowerAll(names[1..])
  }

  /** Some lower-cased alias of `c` occurs in the lower-cased text. */
  ghost predicate Mentions(table: AliasTable, c: City, text: string) {
    exists k, i :: 0 <= k < |table.Aliases(c)| && OccursAt(Lower(table.Aliases(c)[k]), Lower(text), i)
  }

  /** The cities the text mentions, an independent reference for the count. */
  ghost function Hits(table: AliasTable, text: string): set<City> {
    set c | c in AllCities && Mentions(table, c, text)
  }

  function Detected(table: AliasTable, c: City, lowered: string): (r: bool)
    ensures r <==> exists k, i :: 0 <= k < |table.Aliases(c)| && OccursAt(Lower(table.Aliases(c)[k]), lowered, i)
  {
    var aliases := table.Aliases(c);
    var r := OccursAny(LowerAll(aliases), lowered);
    assert r ==> exists k, i :: 0 <= k < |aliases| && OccursAt(Lower(aliases[k]), lowered, i) by {
      if r {
        var k, i :| 0 <= k < |aliases| && OccursAt(LowerAll(aliases)[k], lowered, i);
        assert OccursAt(Lower(aliases[k]), lowered, i);
      }
    }
    assert (exists k, i :: 0 <= k < |aliases| && OccursAt(Lower(aliases[k]), lowered, i)) ==> r by {
      if exists k, i :: 0 <= k < |aliases| && OccursAt(Lower(aliases[k]), lowered, i) {
        var k, i :| 0 <= k < |aliases| && OccursAt(Lower(aliases[k]), lowered, i);
        assert OccursAt(LowerAll(aliases)[k], lowered, i);
      }
    }
    r
  }

  /** `search_city`: lower-case the input, test each alias list, count the
      cities hit, answer only when the count is one. */
  function SearchCity(table: AliasTable, text: string): (r: Option<string>)
    ensures r.Some? ==> r.value in {"Munich", "Stuttgart", "Berlin"}
  {
    var lowered := Lower(text);
    var munich := Detected(table, Munich, lowered);
    var stuttgart := Detected(table, Stuttgart, lowered);
    var berlin := Detected(table, Berlin, lowered);
    var count := (if munich then 1 else 0) + (if stuttgart then 1 else 0) + (if berlin then 1 else 0);
    if count == 1 then
      if munich then Some("Munich")
      else if stuttgart then Some("Stuttgart")
      else Some("Berlin")
    else None
  }

  /** The answer is a city exactly when the text mentions exactly one
      city, and it is that city's name. */
  lemma SearchCityExactlyOne(table: AliasTable, text: string, c: City)
    ensures SearchCity(table, text) == Some(CityName(c)) <==> Hits(table, text) == {c}
  {
    var hits := Hits(table, text);
    var m, s, b := Mentions(table, Munich, text), Mentions(table, Stuttgart, text), Mentions(table, Berlin, text);
    assert Munich in hits <==> m;
    assert Stuttgart in hits <==> s;
    assert Berlin in hits <==> b;
    if hits == {c} {
      assert c in hits;
    }
    if SearchCity(table, text) == Some(CityName(c)) {
      assert c in hits;
      forall x | x in hits
        ensures x == c
      {
      }
      assert hits == {c};
    }
  }

  /** How many cities the text mentions, as `sum` of the three flags. */
  lemma HitsCount(table: AliasTable, text: string)
    ensures |Hits(table, text)| ==
      (if Mentions(table, Munich, text) then 1 else 0)
      + (if Mentions(table, Stuttgart, text) then 1 else 0)
      + (if Mentions(table, Berlin, text) then 1 else 0)
  {
    var m, s, b := Mentions(table, Munich, text), Mentions(table, Stuttgart, text), Mentions(table, Berlin, text);
    assert Hits(table, text) == Flagged(m, s, b);
    FlaggedSize(m, s, b);
  }

  /** The cities whose flag is set. */
  function Flagged(m: bool, s: bool, b: bool): set<City> {
    (if m then {Munich} else {}) + (if s then {Stuttgart} else {}) + (if b then {Berlin} else {})
  }

  lemma FlaggedSize(m: bool, s: bool, b: bool)
    ensures |Flagged(m, s, b)| == (if m then 1 else 0) + (if s then 1 else 0) + (if b then 1 else 0)
  {
    var first: set<City> := if m then {Munich} else {};
    var second: set<City> := if s then {Stuttgart} else {};
    var third: set<City> := if b then {Berlin} else {};
    DisjointSize(first, second);
    DisjointSize(first + second, third);
  }

  lemma DisjointSize(a: set<City>, b: set<City>)
    requires a !! b
    ensures |a + b| == |a| + |b|
  {
  }

  /** Two or three cities mentioned, or none, give `None`. */
  lemma SearchCityNone(table: AliasTable, text: string)
    ensures SearchCity(table, text) == None <==> |Hits(table, text)| != 1
  {
    HitsCount(table, text);
  }

  /** Only the lower-cased text matters: "bErLiN" and "berlin" are the same request. */
  lemma SearchCityCaseInsensitive(table: AliasTable, text: string)
    ensures SearchCity(table, text) == SearchCity(table, Lower(text))
  {
    LowerIdempotent(text);
  }

  /** A text that mentions both Munich and Stuttgart is refused. */
  lemma TwoCitiesRefused(table: AliasTable, text: string, k1: int, i1: int, k2: int, i2: int)
    requires 0 <= k1 < |table.munich| && OccursAt(Lower(table.munich[k1]), Lower(text), i1)
    requires 0 <= k2 < |table.stuttgart| && OccursAt(Lower(table.stuttgart[k2]), Lower(text), i2)
    ensures SearchCity(table, text) == None
  {
  }
}
