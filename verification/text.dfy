/** Character classes and string helpers over ASCII text. */
module Text {

  /** `str.isdigit` and the complement of the regex class `\D`, on ASCII. */
  predicate IsDigit(c: char) {
    '0' <= c <= '9'
  }

  predicate IsUpper(c: char) {
    'A' <= c <= 'Z'
  }

  predicate IsLetter(c: char) {
    IsUpper(c) || 'a' <= c <= 'z'
  }

  /** The regex class `[a-zA-Z0-9]`. */
  predicate IsAlnum(c: char) {
    IsLetter(c) || IsDigit(c)
  }

  /** `str.lower` on one ASCII character; every other character is kept. */
  function LowerChar(c: char): (r: char)
    ensures IsUpper(c) ==> r as int == c as int + 32
    ensures !IsUpper(c) ==> r == c
    ensures !IsUpper(r)
  {
    if IsUpper(c) then (c as int + 32) as char else c
  }

  /** `str.lower` on ASCII text. */
  function Lower(s: string): (r: string)
    ensures |r| == |s|
    ensures forall i :: 0 <= i < |s| ==> r[i] == LowerChar(s[i])
  {
    if s == [] then [] else [LowerChar(s[0])] + Lower(s[1..])
  }

  /** Lower-casing twice is lower-casing once. */
  lemma {:induction false} LowerIdempotent(s: string)
    ensures Lower(Lower(s)) == Lower(s)
  {
    var l := Lower(s);
    var ll := Lower(l);
    forall i | 0 <= i < |s|
      ensures ll[i] == l[i]
    {
      assert !IsUpper(l[i]);
    }
  }

  /** Some character of `s` satisfies `p`: a scan from the left. */
  function AnyChar(s: string, p: char -> bool): (r: bool)
    ensures r <==> exists i :: 0 <= i < |s| && p(s[i])
  {
    if s == [] then false
    else if p(s[0]) then true
    else
      var r := AnyChar(s[1..], p);
      assert r ==> exists i :: 0 <= i < |s| && p(s[i]) by {
        if r {
          var i :| 0 <= i < |s[1..]| && p(s[1..][i]);
          assert p(s[i + 1]);
        }
      }
      assert (exists i :: 0 <= i < |s| && p(s[i])) ==> r by {
        if exists i :: 0 <= i < |s| && p(s[i]) {
          var i :| 0 <= i < |s| && p(s[i]);
          assert p(s[1..][i - 1]);
        }
      }
      r
  }

  /** `p` occurs in `t` starting at index `i`. */
  predicate OccursAt(p: string, t: string, i: int) {
    0 <= i && i + |p| <= |t| && t[i..i + |p|] == p
  }

  /** Python's `p in t` for strings: a search from the left. The empty
      pattern occurs in every text. */
  function Occurs(p: string, t: string): (r: bool)
    ensures r <==> exists i :: OccursAt(p, t, i)
    decreases |t|
  {
    if |p| <= |t| && t[..|p|] == p then
      assert OccursAt(p, t, 0);
      true
    else if |t| <= |p| then
      assert forall i :: !OccursAt(p, t, i);
      false
    else
      var r := Occurs(p, t[1..]);
      assert r ==> exists i :: OccursAt(p, t, i) by {
        if r {
          var i :| OccursAt(p, t[1..], i);
          assert t[1..][i..i + |p|] == t[i + 1..i + 1 + |p|];
          assert OccursAt(p, t, i + 1);
        }
      }
      assert (exists i :: OccursAt(p, t, i)) ==> r by {
        if exists i :: OccursAt(p, t, i) {
          var i :| OccursAt(p, t, i);
          assert i != 0;
          assert t[1..][i - 1..i - 1 + |p|] == t[i..i + |p|];
          assert OccursAt(p, t[1..], i - 1);
        }
      }
      r
  }

  /** Python's `any(p in t for p in ps)`. */
  function OccursAny(ps: seq<string>, t: string): (r: bool)
    ensures r <==> exists k, i :: 0 <= k < |ps| && OccursAt(ps[k], t, i)
  {
    if ps == [] then false
    else if Occurs(ps[0], t) then true
    else
      var r := OccursAny(ps[1..], t);
      assert r ==> exists k, i :: 0 <= k < |ps| && OccursAt(ps[k], t, i) by {
        if r {
          var k, i :| 0 <= k < |ps[1..]| && OccursAt(ps[1..][k], t, i);
          assert OccursAt(ps[k + 1], t, i);
        }
      }
      assert (exists k, i :: 0 <= k < |ps| && OccursAt(ps[k], t, i)) ==> r by {
        if exists k, i :: 0 <= k < |ps| && OccursAt(ps[k], t, i) {
          var k, i :| 0 <= k < |ps| && OccursAt(ps[k], t, i);
          assert k != 0;
          assert ps[1..][k - 1] == ps[k];
        }
      }
      r
  }
}
