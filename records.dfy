/** One stop-and-frisk encounter, and the counting and filtering every query is built from. */
module Records {
  import opened Text

  /** An SFRecord: what the CSV row says about one stop. */
  datatype Record = Record(
    description: string,
    arrested: bool,
    frisked: bool,
    gender: string,
    race: string,
    location: string)

  /** How many records satisfy `p`. */
  function Count(rs: seq<Record>, p: Record -> bool): (n: nat)
    ensures n <= |rs|
  {
    if rs == [] then 0
    else Count(rs[..|rs| - 1], p) + (if p(rs[|rs| - 1]) then 1 else 0)
  }

  /** The records satisfying `p`, in their original order. */
  function Filter(rs: seq<Record>, p: Record -> bool): (kept: seq<Record>)
    ensures |kept| == Count(rs, p)
    ensures forall x :: x in kept <==> x in rs && p(x)
  {
    if rs == [] then []
    else
      var rest := Filter(rs[..|rs| - 1], p);
      assert forall x :: x in rs <==> x in rs[..|rs| - 1] || x == rs[|rs| - 1];
      if p(rs[|rs| - 1]) then rest + [rs[|rs| - 1]] else rest
  }

  // The record predicates the queries test.

  predicate IsFrisked(r: Record) { r.frisked }
  predicate IsArrested(r: Record) { r.arrested }
  predicate IsBlack(r: Record) { r.race == "B" }
  predicate IsWhite(r: Record) { r.race == "W" }
  predicate IsBlackFemale(r: Record) { r.race == "B" && r.gender == "F" }
  predicate IsBlackMale(r: Record) { r.race == "B" && r.gender == "M" }
  predicate IsWhiteFemale(r: Record) { r.race == "W" && r.gender == "F" }
  predicate IsWhiteMale(r: Record) { r.race == "W" && r.gender == "M" }

  /** The record's race code is `race`. */
  function HasRace(race: string): Record -> bool
  {
    (r: Record) => r.race == race
  }

  /** The record's description contains `crime` as a substring. */
  function Mentions(crime: string): Record -> bool
  {
    (r: Record) => Contains(r.description, crime)
  }

  /** Scanning one more record adds one to a count exactly when the record satisfies it. */
  lemma CountStep(seen: seq<Record>, r: Record, p: Record -> bool)
    ensures Count(seen + [r], p) == Count(seen, p) + (if p(r) then 1 else 0)
  {
    assert (seen + [r])[..|seen|] == seen;
  }

  /** Filtering one more record keeps it exactly when it satisfies the test. */
  lemma FilterStep(seen: seq<Record>, r: Record, p: Record -> bool)
    ensures Filter(seen + [r], p) == Filter(seen, p) + (if p(r) then [r] else [])
  {
    assert (seen + [r])[..|seen|] == seen;
  }

  /** The records scanned after one more step of an inner loop that follows `done`. */
  lemma PrefixStep(done: seq<Record>, rs: seq<Record>, j: nat)
    requires j < |rs|
    ensures done + rs[..j + 1] == (done + rs[..j]) + [rs[j]]
  {
    assert rs[..j + 1] == rs[..j] + [rs[j]];
  }

  /** A predicate that no record satisfies counts nothing. */
  lemma {:induction false} CountNone(rs: seq<Record>, p: Record -> bool)
    requires forall x :: x in rs ==> !p(x)
    ensures Count(rs, p) == 0
    decreases |rs|
  {
    if rs != [] {
      CountNone(rs[..|rs| - 1], p);
    }
  }

  /** Two predicates that never hold together and each imply `whole` count, together,
      at most as many records as `whole`. */
  lemma {:induction false} CountDisjoint(rs: seq<Record>, p: Record -> bool, q: Record -> bool, whole: Record -> bool)
    requires forall x :: p(x) ==> whole(x) && !q(x)
    requires forall x :: q(x) ==> whole(x)
    ensures Count(rs, p) + Count(rs, q) <= Count(rs, whole)
    decreases |rs|
  {
    if rs != [] {
      CountDisjoint(rs[..|rs| - 1], p, q, whole);
    }
  }

  /** Among black records, the female and male counts never exceed the black count; the
      same holds for white records. */
  lemma GenderWithinRace(rs: seq<Record>)
    ensures Count(rs, IsBlackFemale) + Count(rs, IsBlackMale) <= Count(rs, IsBlack)
    ensures Count(rs, IsWhiteFemale) + Count(rs, IsWhiteMale) <= Count(rs, IsWhite)
  {
    assert "F" != "M" by { assert "F"[0] != "M"[0]; }
    CountDisjoint(rs, IsBlackFemale, IsBlackMale, IsBlack);
    CountDisjoint(rs, IsWhiteFemale, IsWhiteMale, IsWhite);
  }
}
