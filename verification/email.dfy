/** `search_email`: a leftmost, non-overlapping scan for e-mail addresses
    with the grammar of the HTML living standard's `input type=email`
    (section 4.10.5.1.5, "valid e-mail address"), unanchored. */
module Email {
  import opened Wrappers
  import opened Text

  /** The local-part class ``[a-zA-Z0-9.!#$%&'*+/=?^_`{|}~-]``. */
  predicate IsLocalChar(c: char) {
    IsAlnum(c) || c in ".!#$%&'*+/=?^_`{|}~-"
  }

  /** The class `[a-zA-Z0-9-]` of characters inside a domain label. */
  predicate IsLabelChar(c: char) {
    IsAlnum(c) || c == '-'
  }

  /** A domain label: 1 to 63 characters of `[a-zA-Z0-9-]`, first and last alphanumeric. */
  predicate IsLabel(l: string) {
    1 <= |l| <= 63 && IsAlnum(l[0]) && IsAlnum(l[|l| - 1])
    && forall k :: 0 <= k < |l| ==> IsLabelChar(l[k])
  }

  predicate IsLocalPart(l: string) {
    |l| >= 1 && forall k :: 0 <= k < |l| ==> IsLocalChar(l[k])
  }

  /** Labels joined by dots. */
  function JoinDots(labels: seq<string>): string {
    if labels == [] then []
    else if |labels| == 1 then labels[0]
    else labels[0] + "." + JoinDots(labels[1..])
  }

  /** One match of the pattern: where it starts, its local part and its domain labels. */
  datatype Match = Match(start: nat, local: string, labels: seq<string>) {
    /** The matched text, `local@label.label...`. */
    function Address(): string {
      local + "@" + JoinDots(labels)
    }

    function End(): nat {
      start + |Address()|
    }

    /** The match has the grammar's shape. */
    predicate WellFormed() {
      IsLocalPart(local) && |labels| >= 1 && AllLabels(labels)
    }

    /** The match is the text of `s` between `start` and `End()`. */
    predicate FoundIn(s: string) {
      End() <= |s| && s[start..End()] == Address()
    }
  }

  /** The end of the longest run of characters satisfying `p` from `i`. */
  function SpanEnd(s: string, i: nat, p: char -> bool): (j: nat)
    requires i <= |s|
    ensures i <= j <= |s|
    ensures forall k :: i <= k < j ==> p(s[k])
    ensures j == |s| || !p(s[j])
    decreases |s| - i
  {
    if i == |s| || !p(s[i]) then i else SpanEnd(s, i + 1, p)
  }

  /** Backs off from `e` to the nearest end whose last character is alphanumeric. */
  function BackOff(s: string, i: nat, e: nat): (r: nat)
    requires i < e <= |s| && IsAlnum(s[i])
    ensures i < r <= e && IsAlnum(s[r - 1])
    ensures forall k :: r <= k < e ==> !IsAlnum(s[k])
    decreases e
  {
    if IsAlnum(s[e - 1]) then e else BackOff(s, i, e - 1)
  }

  /** No label starting at `i` reaches beyond `e`. */
  predicate LongestLabel(s: string, i: nat, e: nat)
    requires i <= e <= |s|
  {
    forall e' :: e < e' <= |s| ==> !IsLabel(s[i..e'])
  }

  /** Where the label that starts at `i` ends: the greedy
      `[a-zA-Z0-9](?:[a-zA-Z0-9-]{0,61}[a-zA-Z0-9])?` takes the longest label it can. */
  function LabelEnd(s: string, i: nat): (e: nat)
    requires i < |s| && IsAlnum(s[i])
    ensures i < e <= |s|
    ensures IsLabel(s[i..e])
    ensures LongestLabel(s, i, e)
  {
    var run := SpanEnd(s, i, IsLabelChar);
    var cap := if run - i > 63 then i + 63 else run;
    var e := BackOff(s, i, cap);
    assert forall e' :: e < e' <= |s| ==> !IsLabel(s[i..e']) by {
      forall e' | e < e' <= |s|
        ensures !IsLabel(s[i..e'])
      {
        if e' > run {
          assert s[i..e'][run - i] == s[run];
        } else if e' <= cap {
          assert s[i..e'][e' - i - 1] == s[e' - 1];
        }
      }
    }
    e
  }

  /** A dot followed by an alphanumeric character at `e` would continue the domain. */
  predicate Stops(s: string, e: nat)
    requires e <= |s|
  {
    !(e + 1 < |s| && s[e] == '.' && IsAlnum(s[e + 1]))
  }

  /** `labels` is what the greedy domain group takes from `i`: each label is
      the longest one at its start, and the domain goes on exactly while a dot
      and an alphanumeric character follow. */
  predicate Greedy(s: string, i: nat, labels: seq<string>)
    decreases |labels|
  {
    |labels| >= 1 && i + |labels[0]| <= |s| && s[i..i + |labels[0]|] == labels[0]
    && IsLabel(labels[0]) && LongestLabel(s, i, i + |labels[0]|)
    && var e := i + |labels[0]|;
       if |labels| == 1 then Stops(s, e)
       else e < |s| && s[e] == '.' && Greedy(s, e + 1, labels[1..])
  }

  /** `s` holds the well-formed domain `labels` at `i`. */
  predicate DomainAt(s: string, i: nat, labels: seq<string>) {
    |labels| >= 1 && AllLabels(labels)
    && i + |JoinDots(labels)| <= |s| && s[i..i + |JoinDots(labels)|] == JoinDots(labels)
  }

  /** The domain part from `i`: one label, then `.label` as often as a dot
      followed by an alphanumeric character allows. */
  function ScanDomain(s: string, i: nat): (r: (seq<string>, nat))
    requires i < |s| && IsAlnum(s[i])
    ensures i < r.1 <= |s| && r.1 == i + |JoinDots(r.0)|
    ensures |r.0| >= 1 && AllLabels(r.0)
    ensures s[i..r.1] == JoinDots(r.0)
    ensures Greedy(s, i, r.0) && Stops(s, r.1)
    decreases |s| - i
  {
    var e := LabelEnd(s, i);
    if e + 1 < |s| && s[e] == '.' && IsAlnum(s[e + 1]) then
      var (rest, end) := ScanDomain(s, e + 1);
      DomainStep(s, i, e, rest, end);
      GreedyCons(s, i, e, rest);
      ([s[i..e]] + rest, end)
    else
      GreedyOne(s, i, e);
      ([s[i..e]], e)
  }

  /** A longest label that stops the domain is a greedy domain by itself. */
  lemma GreedyOne(s: string, i: nat, e: nat)
    requires i < e <= |s| && IsLabel(s[i..e]) && LongestLabel(s, i, e) && Stops(s, e)
    ensures Greedy(s, i, [s[i..e]])
  {
  }

  /** A longest label, a dot and a greedy domain make a greedy domain. */
  lemma GreedyCons(s: string, i: nat, e: nat, rest: seq<string>)
    requires i < e < |s| && IsLabel(s[i..e]) && LongestLabel(s, i, e) && s[e] == '.'
    requires Greedy(s, e + 1, rest)
    ensures Greedy(s, i, [s[i..e]] + rest)
  {
    var labels := [s[i..e]] + rest;
    assert labels[0] == s[i..e] && labels[1..] == rest;
  }

  predicate AllLabels(labels: seq<string>) {
    forall k :: 0 <= k < |labels| ==> IsLabel(labels[k])
  }

  /** A label, a dot and a domain make a domain. */
  lemma DomainStep(s: string, i: nat, e: nat, rest: seq<string>, end: nat)
    requires i < e && e + 1 < end <= |s| && s[e] == '.'
    requires IsLabel(s[i..e]) && |rest| >= 1 && AllLabels(rest)
    requires s[e + 1..end] == JoinDots(rest)
    ensures AllLabels([s[i..e]] + rest)
    ensures s[i..end] == JoinDots([s[i..e]] + rest)
  {
    AllLabelsCons(s[i..e], rest);
    JoinDotsCons(s[i..e], rest);
    SliceAround(s, i, e, end);
    assert [s[e]] == ".";
  }

  lemma SliceAround(s: string, i: nat, e: nat, end: nat)
    requires i <= e < end <= |s|
    ensures s[i..end] == s[i..e] + [s[e]] + s[e + 1..end]
  {
  }

  lemma AllLabelsCons(first: string, rest: seq<string>)
    requires IsLabel(first) && AllLabels(rest)
    ensures AllLabels([first] + rest)
  {
    var labels := [first] + rest;
    forall k | 0 <= k < |labels|
      ensures IsLabel(labels[k])
    {
      if k > 0 {
        assert labels[k] == rest[k - 1];
      }
    }
  }

  lemma JoinDotsCons(first: string, rest: seq<string>)
    requires |rest| >= 1
    ensures JoinDots([first] + rest) == first + "." + JoinDots(rest)
  {
    assert ([first] + rest)[1..] == rest;
  }

  /** The match the pattern finds starting exactly at `i`, if any. The
      local-part class has no `@`, so a shorter local part never helps; the
      domain is the greedy one, so no address starting at `i` is longer. */
  function MatchAt(s: string, i: nat): (r: Option<Match>)
    requires i <= |s|
    ensures r.Some? ==> r.value.start == i && r.value.WellFormed() && r.value.FoundIn(s)
    ensures r.None? ==> forall local, labels :: !AddressAt(s, i, local, labels)
    ensures r.Some? ==> forall local, labels :: AddressAt(s, i, local, labels) ==>
              r.value.local == local && Match(i, local, labels).End() <= r.value.End()
  {
    var j := SpanEnd(s, i, IsLocalChar);
    AddressesAt(s, i);
    if i < j && j + 1 < |s| && s[j] == '@' && IsAlnum(s[j + 1]) then Some(GreedyMatch(s, i, j)) else None
  }

  /** The match with the local part `s[i..j]` and the greedy domain after its `@`. */
  function GreedyMatch(s: string, i: nat, j: nat): (m: Match)
    requires i < j && j + 1 < |s| && j == SpanEnd(s, i, IsLocalChar) && s[j] == '@' && IsAlnum(s[j + 1])
    ensures m.start == i && m.WellFormed() && m.FoundIn(s)
    ensures forall local, labels :: AddressAt(s, i, local, labels) ==>
              m.local == local && Match(i, local, labels).End() <= m.End()
  {
    var (labels, end) := ScanDomain(s, j + 1);
    var m := Match(i, s[i..j], labels);
    Assembled(s, i, j, labels, end);
    LongestAddress(s, i, j, m);
    m
  }

  /** A local-part run, its `@` and a domain after it make a match found in `s`. */
  lemma Assembled(s: string, i: nat, j: nat, labels: seq<string>, end: nat)
    requires i < j < end <= |s| && j == SpanEnd(s, i, IsLocalChar) && s[j] == '@'
    requires |labels| >= 1 && AllLabels(labels)
    requires end == j + 1 + |JoinDots(labels)| && s[j + 1..end] == JoinDots(labels)
    ensures var m := Match(i, s[i..j], labels); m.WellFormed() && m.FoundIn(s) && m.End() == end
  {
    var m := Match(i, s[i..j], labels);
    MatchLength(m);
    assert s[i..end] == s[i..j] + "@" + s[j + 1..end];
  }

  /** Where an address starts, the local-part run ends at its `@`, and its
      domain follows. */
  lemma AddressesAt(s: string, i: nat)
    requires i <= |s|
    ensures var j := SpanEnd(s, i, IsLocalChar);
      (exists local, labels :: AddressAt(s, i, local, labels)) ==>
        i < j && j + 1 < |s| && s[j] == '@' && IsAlnum(s[j + 1])
  {
    forall local, labels | AddressAt(s, i, local, labels)
      ensures var j := SpanEnd(s, i, IsLocalChar);
        i < j && j + 1 < |s| && s[j] == '@' && IsAlnum(s[j + 1])
    {
      AddressParts(s, i, local, labels);
    }
  }

  /** No address starting at `i` is longer than the match with the greedy domain. */
  lemma LongestAddress(s: string, i: nat, j: nat, m: Match)
    requires i <= j <= |s| && j == SpanEnd(s, i, IsLocalChar)
    requires m == Match(i, s[i..j], m.labels) && Greedy(s, j + 1, m.labels)
    ensures forall local, labels :: AddressAt(s, i, local, labels) ==>
      m.local == local && Match(i, local, labels).End() <= m.End()
  {
    MatchLength(m);
    forall local, labels | AddressAt(s, i, local, labels)
      ensures m.local == local && Match(i, local, labels).End() <= m.End()
    {
      NotLonger(s, i, j, m.labels, local, labels);
    }
  }

  lemma NotLonger(s: string, i: nat, j: nat, greedy: seq<string>, local: string, labels: seq<string>)
    requires i <= |s| && j == SpanEnd(s, i, IsLocalChar) && Greedy(s, j + 1, greedy)
    requires AddressAt(s, i, local, labels)
    ensures local == s[i..j] && Match(i, local, labels).End() <= j + 1 + |JoinDots(greedy)|
  {
    AddressSpan(s, i, j, local, labels);
    GreedyLongest(s, j + 1, greedy, labels);
    MatchLength(Match(i, local, labels));
  }

  /** Where the parts of an address stand: its local part is the whole run of
      local-part characters, and its domain follows the `@`. */
  lemma AddressSpan(s: string, i: nat, j: nat, local: string, labels: seq<string>)
    requires i <= |s| && j == SpanEnd(s, i, IsLocalChar) && AddressAt(s, i, local, labels)
    ensures j == i + |local| && s[i..j] == local && DomainAt(s, j + 1, labels)
  {
    AddressParts(s, i, local, labels);
  }

  /** `re.findall` from position `i`: scan left to right; after a match,
      resume at its end. */
  function FindAllFrom(s: string, i: nat): (r: seq<Match>)
    requires i <= |s|
    ensures forall k :: 0 <= k < |r| ==> r[k].WellFormed() && r[k].FoundIn(s) && i <= r[k].start
    ensures forall k :: 0 <= k < |r| - 1 ==> r[k].End() <= r[k + 1].start
    decreases |s| - i
  {
    if i == |s| then []
    else
      match MatchAt(s, i)
      case Some(m) => [m] + FindAllFrom(s, m.End())
      case None => FindAllFrom(s, i + 1)
  }

  /** `re.findall` over the whole text. */
  function FindAll(s: string): (r: seq<Match>)
    ensures forall k :: 0 <= k < |r| ==> r[k].WellFormed() && r[k].FoundIn(s)
    ensures forall k :: 0 <= k < |r| ==> r[k].start < |s| && MatchAt(s, r[k].start) == Some(r[k])
    ensures forall k :: 0 <= k < |r| - 1 ==> r[k].End() <= r[k + 1].start
  {
    FindAllFromScans(s, 0);
    FindAllFrom(s, 0)
  }

  /** Every match the scan returns is the one `MatchAt` finds at its start:
      the greedy, longest address there, not merely some address. */
  lemma FindAllFromScans(s: string, i: nat)
    requires i <= |s|
    ensures forall k :: 0 <= k < |FindAllFrom(s, i)| ==>
      FindAllFrom(s, i)[k].start < |s| && MatchAt(s, FindAllFrom(s, i)[k].start) == Some(FindAllFrom(s, i)[k])
  {
    forall k | 0 <= k < |FindAllFrom(s, i)|
      ensures FindAllFrom(s, i)[k].start < |s| && MatchAt(s, FindAllFrom(s, i)[k].start) == Some(FindAllFrom(s, i)[k])
    {
      ScannedAt(s, i, k);
    }
  }

  /** The `k`-th match of a scan from `i` is what `MatchAt` gives at its start. */
  lemma {:induction false} ScannedAt(s: string, i: nat, k: nat)
    requires i <= |s| && k < |FindAllFrom(s, i)|
    ensures FindAllFrom(s, i)[k].start < |s| && MatchAt(s, FindAllFrom(s, i)[k].start) == Some(FindAllFrom(s, i)[k])
    decreases |s| - i
  {
    match MatchAt(s, i)
    case Some(m) =>
      var rest := FindAllFrom(s, m.End());
      assert FindAllFrom(s, i) == [m] + rest;
      if k > 0 {
        ScannedAt(s, m.End(), k - 1);
        assert FindAllFrom(s, i)[k] == rest[k - 1];
      }
    case None =>
      ScannedAt(s, i + 1, k);
  }

  /** `search_email`: the address when the scan finds exactly one, otherwise `None`. */
  function SearchEmail(s: string): (r: Option<string>)
    ensures r.Some? <==> |FindAll(s)| == 1
    ensures r.Some? ==> r == Some(FindAll(s)[0].Address())
  {
    var found := FindAll(s);
    if |found| == 1 then Some(found[0].Address()) else None
  }

  /** `s` holds a well-formed address starting at index `i`. */
  predicate AddressAt(s: string, i: int, local: string, labels: seq<string>) {
    var m := Match(if i < 0 then 0 else i, local, labels);
    0 <= i && m.WellFormed() && m.FoundIn(s)
  }

  /** A returned e-mail is a well-formed address found verbatim in the input. */
  lemma SearchEmailShape(s: string)
    requires SearchEmail(s).Some?
    ensures exists i, local, labels ::
      AddressAt(s, i, local, labels) && SearchEmail(s).value == local + "@" + JoinDots(labels)
  {
    var m := FindAll(s)[0];
    assert AddressAt(s, m.start, m.local, m.labels);
  }

  lemma JoinDotsHead(labels: seq<string>)
    requires |labels| >= 1 && |labels[0]| >= 1
    ensures |JoinDots(labels)| >= 1 && JoinDots(labels)[0] == labels[0][0]
  {
  }

  /** The scan misses nothing: if any well-formed address occurs in the
      input, at least one match is found at or before it. */
  lemma {:induction false} FindAllComplete(s: string, p: nat, i: int, local: string, labels: seq<string>)
    requires AddressAt(s, i, local, labels) && p <= i
    ensures |FindAllFrom(s, p)| >= 1 && FindAllFrom(s, p)[0].start <= i
    decreases i - p
  {
    assert p < |s|;
    match MatchAt(s, p)
    case Some(m) =>
      assert FindAllFrom(s, p) == [m] + FindAllFrom(s, m.End());
    case None =>
      NoMatchHere(s, p, local, labels);
      assert FindAllFrom(s, p) == FindAllFrom(s, p + 1);
      FindAllComplete(s, p + 1, i, local, labels);
  }

  /** Where `MatchAt` finds nothing, no address starts. */
  lemma NoMatchHere(s: string, p: nat, local: string, labels: seq<string>)
    requires p <= |s| && MatchAt(s, p).None?
    ensures !AddressAt(s, p, local, labels)
  {
  }

  /** Where an address starts, the local-part run ends at its `@` and the
      domain follows. */
  lemma AddressParts(s: string, i: int, local: string, labels: seq<string>)
    requires AddressAt(s, i, local, labels)
    ensures var j := i + |local|;
      i < j && j + 1 < |s| && s[j] == '@' && IsAlnum(s[j + 1])
      && SpanEnd(s, i, IsLocalChar) == j && DomainAt(s, j + 1, labels) && s[i..j] == local
  {
    AddressLocal(s, i, local, labels);
    AddressDomain(s, i, local, labels);
  }

  /** The local part of an address is the whole local-part run before its `@`. */
  lemma AddressLocal(s: string, i: int, local: string, labels: seq<string>)
    requires AddressAt(s, i, local, labels)
    ensures var j := i + |local|;
      i < j && j < |s| && s[j] == '@' && SpanEnd(s, i, IsLocalChar) == j && s[i..j] == local
  {
    var a := Match(i, local, labels).Address();
    var j := i + |local|;
    AtParts(local, JoinDots(labels));
    SliceInside(s, i, a, 0, |local|);
    assert s[i..j] == local;
    assert s[j] == s[i..i + |a|][|local|] == '@';
    SpanEndAt(s, i, j);
  }

  /** The local-part run from `i` ends at the first character outside the class. */
  lemma {:induction false} SpanEndAt(s: string, i: nat, j: nat)
    requires i <= j < |s| && !IsLocalChar(s[j]) && (i == j || IsLocalPart(s[i..j]))
    ensures SpanEnd(s, i, IsLocalChar) == j
    decreases j - i
  {
    if i < j {
      assert IsLocalChar(s[i..j][0]);
      var rest := s[i + 1..j];
      forall k | 0 <= k < |rest|
        ensures IsLocalChar(rest[k])
      {
        assert rest[k] == s[i..j][k + 1];
      }
      SpanEndAt(s, i + 1, j);
    }
  }

  /** The first label of a domain, and the domain after its first dot. */
  lemma DomainSplit(s: string, i: nat, labels: seq<string>)
    requires DomainAt(s, i, labels)
    ensures i + |labels[0]| <= |s| && s[i..i + |labels[0]|] == labels[0]
    ensures |labels| == 1 ==> |JoinDots(labels)| == |labels[0]|
    ensures |labels| > 1 ==> DomainRest(s, i + |labels[0]|, labels)
  {
    JoinDotsFirst(labels);
    SliceInside(s, i, JoinDots(labels), 0, |labels[0]|);
    if |labels| > 1 {
      DomainTail(s, i, labels);
    }
  }

  /** The joined labels begin with the first label. */
  lemma JoinDotsFirst(labels: seq<string>)
    requires |labels| >= 1
    ensures |labels[0]| <= |JoinDots(labels)| && JoinDots(labels)[0..|labels[0]|] == labels[0]
  {
    if |labels| > 1 {
      var whole := labels[0] + "." + JoinDots(labels[1..]);
      assert whole[0..|labels[0]|] == labels[0];
    }
  }

  lemma DomainTail(s: string, i: nat, labels: seq<string>)
    requires DomainAt(s, i, labels) && |labels| > 1
    ensures DomainRest(s, i + |labels[0]|, labels)
  {
    var whole := JoinDots(labels);
    var rest := labels[1..];
    var n := |labels[0]|;
    assert whole == labels[0] + "." + JoinDots(rest);
    assert whole[n] == '.';
    AllLabelsTail(labels);
    JoinDotsHead(rest);
    assert whole[n + 1] == JoinDots(rest)[0];
    assert whole[n + 1..] == JoinDots(rest);
    SliceInside(s, i, whole, n, n + 1);
    SliceInside(s, i, whole, n + 1, n + 2);
    SliceInside(s, i, whole, n + 1, |whole|);
  }

  /** After the first label at `e`: a dot, and the rest of the domain. */
  predicate DomainRest(s: string, e: nat, labels: seq<string>)
    requires |labels| > 1
  {
    e + 1 < |s| && s[e] == '.' && IsAlnum(s[e + 1]) && DomainAt(s, e + 1, labels[1..])
    && |JoinDots(labels)| == |labels[0]| + 1 + |JoinDots(labels[1..])|
  }

  /** A slice of a slice is a slice. */
  lemma SliceInside(s: string, i: nat, w: string, a: nat, b: nat)
    requires i + |w| <= |s| && s[i..i + |w|] == w && a <= b <= |w|
    ensures s[i + a..i + b] == w[a..b]
  {
    forall k | 0 <= k < b - a
      ensures s[i + a..i + b][k] == w[a..b][k]
    {
      assert s[i..i + |w|][a + k] == s[i + a + k];
    }
  }

  lemma AllLabelsTail(labels: seq<string>)
    requires |labels| >= 1 && AllLabels(labels)
    ensures AllLabels(labels[1..])
  {
    var rest := labels[1..];
    forall k | 0 <= k < |rest|
      ensures IsLabel(rest[k])
    {
      assert rest[k] == labels[k + 1];
    }
  }

  /** The pieces of `local@domain`. */
  lemma AtParts(local: string, domain: string)
    ensures var a := local + "@" + domain;
      a[0..|local|] == local && a[|local|] == '@' && a[|local| + 1..|a|] == domain
  {
  }

  /** No well-formed domain at `i` is longer than the greedy one. */
  lemma {:induction false} GreedyLongest(s: string, i: nat, greedy: seq<string>, labels: seq<string>)
    requires Greedy(s, i, greedy) && DomainAt(s, i, labels)
    ensures |JoinDots(labels)| <= |JoinDots(greedy)|
    decreases |labels|
  {
    if |labels| == 1 {
      GreedyFirst(s, i, greedy, labels);
    } else {
      GreedyStep(s, i, greedy, labels);
      GreedyLongest(s, i + |greedy[0]| + 1, greedy[1..], labels[1..]);
    }
  }

  /** The greedy first label is at least as long as any first label. */
  lemma GreedyFirst(s: string, i: nat, greedy: seq<string>, labels: seq<string>)
    requires Greedy(s, i, greedy) && DomainAt(s, i, labels)
    ensures |labels[0]| <= |greedy[0]| <= |JoinDots(greedy)|
    ensures |labels| == 1 ==> |JoinDots(labels)| == |labels[0]|
  {
    DomainSplit(s, i, labels);
    GreedyJoin(greedy);
  }

  /** Past a first label that a dot and a further label follow, the greedy
      domain and the other one continue from the same place. */
  lemma GreedyStep(s: string, i: nat, greedy: seq<string>, labels: seq<string>)
    requires Greedy(s, i, greedy) && DomainAt(s, i, labels) && |labels| > 1
    ensures |greedy| > 1 && |greedy[0]| == |labels[0]|
    ensures Greedy(s, i + |greedy[0]| + 1, greedy[1..]) && DomainAt(s, i + |greedy[0]| + 1, labels[1..])
    ensures |JoinDots(labels)| == |labels[0]| + 1 + |JoinDots(labels[1..])|
    ensures |JoinDots(greedy)| == |greedy[0]| + 1 + |JoinDots(greedy[1..])|
  {
    var a, b := |greedy[0]|, |labels[0]|;
    DomainSplit(s, i, labels);
    assert b <= a;
    assert a == b;
    assert |greedy| > 1;
    GreedyJoin(greedy);
  }

  /** The length of joined labels: the first label, then a dot and the rest. */
  lemma GreedyJoin(labels: seq<string>)
    requires |labels| >= 1
    ensures |labels| == 1 ==> |JoinDots(labels)| == |labels[0]|
    ensures |labels| > 1 ==> |JoinDots(labels)| == |labels[0]| + 1 + |JoinDots(labels[1..])|
  {
  }

  /** An address end where neither a label character nor a dot followed by an
      alphanumeric character stands. */
  predicate Boundary(s: string, e: nat)
    requires e <= |s|
  {
    (e == |s| || !IsLabelChar(s[e])) && Stops(s, e)
  }

  /** A domain that ends at a boundary is exactly what the greedy scan takes. */
  lemma {:induction false} DomainGreedy(s: string, i: nat, labels: seq<string>)
    requires DomainAt(s, i, labels) && Boundary(s, i + |JoinDots(labels)|)
    ensures Greedy(s, i, labels)
    decreases |labels|
  {
    var e := i + |labels[0]|;
    DomainSplit(s, i, labels);
    assert e == |s| || !IsLabelChar(s[e]);
    forall e' | e < e' <= |s|
      ensures !IsLabel(s[i..e'])
    {
      assert s[i..e'][e - i] == s[e];
    }
    if |labels| > 1 {
      DomainGreedy(s, e + 1, labels[1..]);
    }
  }

  /** Zero matches means no well-formed address: any address gives a match. */
  lemma NoMatchMeansNoAddress(s: string, i: int, local: string, labels: seq<string>)
    requires AddressAt(s, i, local, labels)
    ensures |FindAll(s)| >= 1
  {
    FindAllComplete(s, 0, i, local, labels);
  }

  /** After the first match, the scan resumes at its end. */
  lemma {:induction false} FindAllFromHead(s: string, p: nat)
    requires p <= |s| && |FindAllFrom(s, p)| >= 1
    ensures FindAllFrom(s, p) == [FindAllFrom(s, p)[0]] + FindAllFrom(s, FindAllFrom(s, p)[0].End())
    decreases |s| - p
  {
    var found := FindAllFrom(s, p);
    assert p < |s|;
    match MatchAt(s, p)
    case Some(m) =>
      assert found == [m] + FindAllFrom(s, m.End());
    case None =>
      assert found == FindAllFrom(s, p + 1);
      FindAllFromHead(s, p + 1);
  }

  /** Every character of joined labels may also stand in a local part. */
  lemma {:induction false} JoinDotsChars(labels: seq<string>)
    requires AllLabels(labels)
    ensures forall q :: 0 <= q < |JoinDots(labels)| ==> IsLocalChar(JoinDots(labels)[q])
  {
    if |labels| > 1 {
      var rest := labels[1..];
      assert AllLabels(rest) by {
        forall k | 0 <= k < |rest|
          ensures IsLabel(rest[k])
        {
          assert rest[k] == labels[k + 1];
        }
      }
      JoinDotsChars(rest);
      var first := labels[0];
      assert IsLabel(first);
      var joined := JoinDots(labels);
      assert joined == first + "." + JoinDots(rest);
      forall q | 0 <= q < |joined|
        ensures IsLocalChar(joined[q])
      {
        if q < |first| {
          assert joined[q] == first[q];
        } else if q > |first| {
          assert joined[q] == JoinDots(rest)[q - |first| - 1];
        }
      }
    } else if |labels| == 1 {
      assert IsLabel(labels[0]);
    }
  }

  /** A found match covers only local-part characters and `@`. */
  lemma FoundChars(s: string, m: Match)
    requires m.WellFormed() && m.FoundIn(s)
    ensures forall q :: m.start <= q < m.End() ==> IsLocalChar(s[q]) || s[q] == '@'
  {
    JoinDotsChars(m.labels);
    var a := m.Address();
    forall q | m.start <= q < m.End()
      ensures IsLocalChar(s[q]) || s[q] == '@'
    {
      assert s[q] == a[q - m.start];
      var r := q - m.start;
      if r > |m.local| {
        assert a[r] == JoinDots(m.labels)[r - |m.local| - 1];
      } else if r < |m.local| {
        assert a[r] == m.local[r];
      }
    }
  }

  /** Two addresses with a separator between them, such as a space, are
      ambiguous: the scan finds two matches and the extractor refuses. */
  lemma TwoAddressesRefused(s: string, i1: int, local1: string, labels1: seq<string>,
                            sep: int, i2: int, local2: string, labels2: seq<string>)
    requires AddressAt(s, i1, local1, labels1) && AddressAt(s, i2, local2, labels2)
    requires i1 <= sep < i2 && !IsLocalChar(s[sep]) && s[sep] != '@'
    ensures |FindAll(s)| >= 2 && SearchEmail(s) == None
  {
    FindAllComplete(s, 0, i1, local1, labels1);
    var first := FindAll(s)[0];
    FoundChars(s, first);
    assert first.End() <= sep;
    FindAllFromHead(s, 0);
    FindAllComplete(s, first.End(), i2, local2, labels2);
  }

  /** A well-formed match placed between any two strings is found there. */
  lemma AddressInContext(pre: string, m: Match, post: string)
    requires m.WellFormed() && m.start == |pre|
    ensures AddressAt(pre + m.Address() + post, |pre|, m.local, m.labels)
  {
    var s := pre + m.Address() + post;
    assert s[|pre|..m.End()] == m.Address();
  }

  /** The first address of the two-address sentence in the repository's tests. */
  lemma GmailAddress()
    ensures Match(19, "maybe.this", ["gmail", "com"]).WellFormed()
    ensures Match(19, "maybe.this", ["gmail", "com"]).Address() == "maybe.this@gmail.com"
  {
    assert JoinDots(["com"]) == "com";
    assert IsLabel("gmail") && IsLabel("com");
  }

  /** The second address of the two-address sentence in the repository's tests. */
  lemma GmxAddress()
    ensures Match(44, "maybe.this.other.one", ["gmx", "de"]).WellFormed()
    ensures Match(44, "maybe.this.other.one", ["gmx", "de"]).Address() == "maybe.this.other.one@gmx.de"
  {
    assert JoinDots(["de"]) == "de";
    assert IsLabel("gmx") && IsLabel("de");
  }

  /** The two-address sentence from the repository's tests yields no e-mail
      (the sentence is written as the concatenation of its parts). */
  lemma TwoEmailsSentence()
    ensures SearchEmail("I have two emails: " + "maybe.this@gmail.com" + " and "
                        + "maybe.this.other.one@gmx.de" + ".") == None
  {
    var m1, m2 := Match(19, "maybe.this", ["gmail", "com"]), Match(44, "maybe.this.other.one", ["gmx", "de"]);
    GmailAddress();
    GmxAddress();
    var pre1, post2 := "I have two emails: ", ".";
    var pre2 := pre1 + m1.Address() + " and ";
    var post1 := " and " + m2.Address() + post2;
    var s := pre2 + m2.Address() + post2;
    assert pre1 + m1.Address() + post1 == s;
    AddressInContext(pre1, m1, post1);
    AddressInContext(pre2, m2, post2);
    assert s == "I have two emails: " + "maybe.this@gmail.com" + " and " + "maybe.this.other.one@gmx.de" + ".";
    TwoAddressesRefused(s, 19, m1.local, m1.labels, 39, 44, m2.local, m2.labels);
  }

  /** Past `p`, text without an `@` holds no match. */
  lemma {:induction false} NoAtNoMatch(s: string, p: nat)
    requires p <= |s| && '@' !in s[p..]
    ensures FindAllFrom(s, p) == []
    decreases |s| - p
  {
    if p < |s| {
      var j := SpanEnd(s, p, IsLocalChar);
      assert j < |s| ==> s[p..][j - p] == s[j];
      assert s[p + 1..] == s[p..][1..];
      SkipOne(s, p);
      NoAtNoMatch(s, p + 1);
    }
  }

  /** Text without an `@` that ends outside the local-part class is passed
      over: the scan resumes after it with nothing found. */
  lemma {:induction false} SkipPrefix(s: string, p: nat, n: nat)
    requires p <= n <= |s| && '@' !in s[p..n]
    requires n == 0 || !IsLocalChar(s[n - 1])
    ensures FindAllFrom(s, p) == FindAllFrom(s, n)
    decreases n - p
  {
    if p < n {
      SkipBefore(s, p, n);
      SkipPrefix(s, p + 1, n);
    }
  }

  lemma SkipBefore(s: string, p: nat, n: nat)
    requires p < n <= |s| && '@' !in s[p..n]
    requires !IsLocalChar(s[n - 1])
    ensures FindAllFrom(s, p) == FindAllFrom(s, p + 1) && '@' !in s[p + 1..n]
  {
    var j := SpanEnd(s, p, IsLocalChar);
    assert j < n;
    assert s[p..n][j - p] == s[j];
    assert s[p + 1..n] == s[p..n][1..];
    SkipOne(s, p);
  }

  /** A position whose local-part run is not followed by `@` starts no
      match, so the scan moves on by one. */
  lemma SkipOne(s: string, p: nat)
    requires p < |s|
    requires var j := SpanEnd(s, p, IsLocalChar); j == |s| || s[j] != '@'
    ensures FindAllFrom(s, p) == FindAllFrom(s, p + 1)
  {
    assert MatchAt(s, p).None?;
  }

  /** The match at the start of an address that ends at a boundary is that
      address, whole. */
  lemma WholeMatch(s: string, i: nat, local: string, labels: seq<string>) returns (g: Match)
    requires AddressAt(s, i, local, labels) && Boundary(s, i + |local| + 1 + |JoinDots(labels)|)
    ensures g.End() == i + |local| + 1 + |JoinDots(labels)| <= |s|
    ensures g.Address() == local + "@" + JoinDots(labels)
    ensures FindAllFrom(s, i) == [g] + FindAllFrom(s, g.End())
  {
    g := MatchAt(s, i).value;
    var a := Match(i, local, labels);
    MatchLength(g);
    MatchLength(a);
    NoLongerDomain(s, i, local, labels, g);
    assert s[i..g.End()] == g.Address() && s[i..a.End()] == a.Address();
    MatchThenResume(s, i, g);
  }

  /** A well-formed match with the same start and local part as an address
      that ends at a boundary has no longer domain. */
  lemma NoLongerDomain(s: string, i: nat, local: string, labels: seq<string>, g: Match)
    requires AddressAt(s, i, local, labels) && Boundary(s, i + |local| + 1 + |JoinDots(labels)|)
    requires g.start == i && g.local == local && g.WellFormed() && g.FoundIn(s)
    ensures |JoinDots(g.labels)| <= |JoinDots(labels)|
  {
    var d := i + |local| + 1;
    assert Boundary(s, d + |JoinDots(labels)|);
    AddressDomain(s, i, local, labels);
    DomainOfMatch(s, g, d);
    BoundedDomain(s, d, labels, g.labels);
  }

  lemma MatchLength(m: Match)
    ensures m.End() == m.start + |m.local| + 1 + |JoinDots(m.labels)|
  {
  }

  lemma AddressDomain(s: string, i: int, local: string, labels: seq<string>)
    requires AddressAt(s, i, local, labels)
    ensures DomainAt(s, i + |local| + 1, labels)
    ensures i + |local| + 1 < |s| && IsAlnum(s[i + |local| + 1])
  {
    var a := Match(i, local, labels).Address();
    AtParts(local, JoinDots(labels));
    JoinDotsHead(labels);
    SliceInside(s, i, a, |local| + 1, |a|);
    assert s[i + |local| + 1] == s[i + |local| + 1..i + |a|][0];
  }

  /** The domain of a match is a domain of the text. */
  lemma DomainOfMatch(s: string, g: Match, d: nat)
    requires g.WellFormed() && g.FoundIn(s) && d == g.start + |g.local| + 1
    ensures DomainAt(s, d, g.labels)
  {
    assert AddressAt(s, g.start, g.local, g.labels);
    AddressDomain(s, g.start, g.local, g.labels);
  }

  /** A domain that ends at a boundary is the longest one at its start. */
  lemma BoundedDomain(s: string, d: nat, labels: seq<string>, other: seq<string>)
    requires DomainAt(s, d, labels) && Boundary(s, d + |JoinDots(labels)|) && DomainAt(s, d, other)
    ensures |JoinDots(other)| <= |JoinDots(labels)|
  {
    DomainGreedy(s, d, labels);
    GreedyLongest(s, d, labels, other);
  }

  /** Text that, placed after an address, neither lengthens its last label
      nor starts another one. */
  predicate CannotExtend(post: string) {
    post == [] || (!IsLabelChar(post[0]) && (post[0] != '.' || |post| == 1 || !IsAlnum(post[1])))
  }

  lemma BoundaryBefore(s: string, e: nat)
    requires e <= |s| && CannotExtend(s[e..])
    ensures Boundary(s, e)
  {
    if e < |s| {
      assert s[e] == s[e..][0];
      if e + 1 < |s| {
        assert s[e + 1] == s[e..][1];
      }
    }
  }

  /** An address alone between text without an `@` that ends outside the
      local-part class, and text without an `@` that cannot extend its
      domain, is the extracted e-mail, verbatim. */
  lemma SoleAddress(pre: string, m: Match, post: string)
    requires m.WellFormed() && m.start == |pre| && Around(pre, post)
    ensures SearchEmail(pre + m.Address() + post) == Some(m.Address())
  {
    SoleLayout(pre, m, post);
    SoleScan(pre + m.Address() + post, |pre|, m.local, m.labels);
  }

  /** Text around an address that neither joins it nor holds another: before
      it, text without `@` that ends outside the local-part class; after it,
      text without `@` that cannot extend the domain. */
  predicate Around(pre: string, post: string) {
    '@' !in pre && (pre == [] || !IsLocalChar(pre[|pre| - 1])) && '@' !in post && CannotExtend(post)
  }

  /** Where the parts of `pre + address + post` stand. */
  lemma SoleLayout(pre: string, m: Match, post: string)
    requires m.WellFormed() && m.start == |pre| && Around(pre, post)
    ensures var s, n := pre + m.Address() + post, |pre|;
      var e := n + |m.local| + 1 + |JoinDots(m.labels)|;
      e <= |s| && AddressAt(s, n, m.local, m.labels) && Boundary(s, e)
      && '@' !in s[..n] && (n == 0 || !IsLocalChar(s[n - 1])) && '@' !in s[e..]
  {
    var s := pre + m.Address() + post;
    var n, e := |pre|, m.End();
    AddressInContext(pre, m, post);
    MatchLength(m);
    assert s[..n] == pre;
    assert s[e..] == post;
    BoundaryBefore(s, e);
  }

  /** The scan of a text whose only address stands at `n`, between text
      without an `@`, finds that address alone. */
  lemma SoleScan(s: string, n: nat, local: string, labels: seq<string>)
    requires var e := n + |local| + 1 + |JoinDots(labels)|;
      e <= |s| && AddressAt(s, n, local, labels) && Boundary(s, e)
      && '@' !in s[..n] && (n == 0 || !IsLocalChar(s[n - 1])) && '@' !in s[e..]
    ensures SearchEmail(s) == Some(local + "@" + JoinDots(labels))
  {
    assert s[0..n] == s[..n];
    SkipPrefix(s, 0, n);
    var g := WholeMatch(s, n, local, labels);
    NoAtNoMatch(s, g.End());
  }

  /** A match where the scan stands is its next result; the scan resumes at its end. */
  lemma MatchThenResume(s: string, p: nat, g: Match)
    requires p < |s| && MatchAt(s, p) == Some(g)
    ensures FindAllFrom(s, p) == [g] + FindAllFrom(s, g.End())
  {
  }

  /** A text that is one address is extracted unchanged. */
  lemma WholeAddress(m: Match)
    requires m.WellFormed() && m.start == 0
    ensures SearchEmail(m.Address()) == Some(m.Address())
  {
    var a := m.Address();
    var t := [] + a + [];
    assert t == a;
    EmptyAround();
    SoleAddress([], m, []);
  }

  lemma EmptyAround()
    ensures Around([], [])
  {
  }

  /** A text that is one address, from the repository's tests, is extracted unchanged. */
  lemma NiceUserAddress()
    ensures SearchEmail("nice.user@hotmail.de") == Some("nice.user@hotmail.de")
  {
    var m := Match(0, "nice.user", ["hotmail", "de"]);
    NiceUserMatch(m);
    WholeAddress(m);
  }

  /** The literal match is passed as a parameter fixed by `requires`, here
      and in the helpers below: written inline, the literal would let the
      verifier unfold every function in the calling lemma's contract on it at
      once, which is far more costly than this one fact. */
  lemma NiceUserMatch(m: Match)
    requires m == Match(0, "nice.user", ["hotmail", "de"])
    ensures m.WellFormed() && m.Address() == "nice.user@hotmail.de"
  {
    assert JoinDots(["de"]) == "de";
    assert IsLabel("hotmail") && IsLabel("de");
  }

  /** An address followed by a comma is extracted on its own. */
  lemma TestmailSentence()
    ensures SearchEmail("My email is " + "testmail@gmx.ch" + ", thank you") == Some("testmail@gmx.ch")
  {
    var m := Match(12, "testmail", ["gmx", "ch"]);
    TestmailMatch(m);
    TestmailAround();
    SoleAddress("My email is ", m, ", thank you");
  }

  lemma TestmailMatch(m: Match)
    requires m == Match(12, "testmail", ["gmx", "ch"])
    ensures m.WellFormed() && m.Address() == "testmail@gmx.ch"
  {
    assert JoinDots(["ch"]) == "ch";
    assert IsLabel("gmx") && IsLabel("ch");
  }

  lemma TestmailAround()
    ensures Around("My email is ", ", thank you")
  {
  }

  /** Surrounding spaces are not part of the extracted address. */
  lemma SpaceLovingSentence()
    ensures SearchEmail(" " + "space.loving.user@nasa.us" + "   ") == Some("space.loving.user@nasa.us")
  {
    var m := Match(1, "space.loving.user", ["nasa", "us"]);
    SpaceLovingMatch(m);
    SpaceLovingAround();
    SoleAddress(" ", m, "   ");
  }

  lemma SpaceLovingMatch(m: Match)
    requires m == Match(1, "space.loving.user", ["nasa", "us"])
    ensures m.WellFormed() && m.Address() == "space.loving.user@nasa.us"
  {
    assert JoinDots(["us"]) == "us";
    assert IsLabel("nasa") && IsLabel("us");
  }

  lemma SpaceLovingAround()
    ensures Around(" ", "   ")
  {
  }

  /** The local-part class includes `!`, so the word before it joins the
      address, and the trailing dot does not; the repository's test expects
      the address without `course!`. */
  lemma MessyWriterSentence()
    ensures SearchEmail("Of " + "course!messy-writer@g-mail.us" + ". That's my email.") == Some("course!messy-writer@g-mail.us")
  {
    var m := Match(3, "course!messy-writer", ["g-mail", "us"]);
    MessyWriterMatch(m);
    MessyWriterAround();
    SoleAddress("Of ", m, ". That's my email.");
  }

  lemma MessyWriterMatch(m: Match)
    requires m == Match(3, "course!messy-writer", ["g-mail", "us"])
    ensures m.WellFormed() && m.Address() == "course!messy-writer@g-mail.us"
  {
    assert JoinDots(["us"]) == "us";
    assert IsLabel("g-mail") && IsLabel("us");
  }

  lemma MessyWriterAround()
    ensures Around("Of ", ". That's my email.")
  {
  }

  /** A word written with `@` is a well-formed address under the pattern and
      is extracted; the repository's test expects no answer. */
  lemma WhatSentence()
    ensures SearchEmail("Sorry I don't know " + "wh@t" + " my email adress is") == Some("wh@t")
  {
    var m := Match(19, "wh", ["t"]);
    WhatMatch(m);
    WhatAround();
    SoleAddress("Sorry I don't know ", m, " my email adress is");
  }

  lemma WhatMatch(m: Match)
    requires m == Match(19, "wh", ["t"])
    ensures m.WellFormed() && m.Address() == "wh@t"
  {
    assert JoinDots(["t"]) == "t";
    assert IsLabel("t");
  }

  lemma WhatAround()
    ensures Around("Sorry I don't know ", " my email adress is")
  {
  }
}
