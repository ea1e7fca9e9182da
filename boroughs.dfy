/** The five boroughs `mostCommonBorough` tallies, the case-insensitive else-if chain that
    picks a record's counter, and the strict-greater argmax over the five counters. */
module Boroughs {
  import opened Text
  import opened Records
  import opened Buckets

  /** The names returned, in counter order. */
  const BoroughNames: seq<string> := ["Brooklyn", "Manhattan", "Bronx", "Queens", "Staten Island"]

  /** The names the locations are compared with, in the order of the else-if chain. */
  const BoroughKeys: seq<string> := ["BROOKLYN", "MANHATTAN", "BRONX", "QUEENS", "STATEN ISLAND"]

  /** The counter a location bumps: the first key it equals ignoring case, if any. */
  function BoroughOf(location: string): (k: Option<nat>)
    ensures k.Some? ==> k.value < 5 && EqualsIgnoreCase(location, BoroughKeys[k.value])
  {
    if EqualsIgnoreCase(location, BoroughKeys[0]) then Some(0)
    else if EqualsIgnoreCase(location, BoroughKeys[1]) then Some(1)
    else if EqualsIgnoreCase(location, BoroughKeys[2]) then Some(2)
    else if EqualsIgnoreCase(location, BoroughKeys[3]) then Some(3)
    else if EqualsIgnoreCase(location, BoroughKeys[4]) then Some(4)
    else None
  }

  /** The record was stopped in borough `k`. */
  function AtBorough(k: nat): Record -> bool
  {
    (r: Record) => BoroughOf(r.location) == Some(k)
  }

  /** The five counters after a scan of `rs`. */
  function Tally(rs: seq<Record>): (counts: seq<int>)
    ensures |counts| == 5
  {
    [Count(rs, AtBorough(0)), Count(rs, AtBorough(1)), Count(rs, AtBorough(2)),
     Count(rs, AtBorough(3)), Count(rs, AtBorough(4))]
  }

  /** The counters after one more location: the counter of the borough it names, if
      any, goes up by one. */
  function Bumped(counts: seq<int>, location: string): seq<int>
    requires |counts| == 5
  {
    match BoroughOf(location)
    case Some(k) => counts[k := counts[k] + 1]
    case None => counts
  }

  /** Scanning one more record bumps the counter of its borough, if it has one, and leaves
      the others as they were. */
  lemma TallyStep(seen: seq<Record>, r: Record)
    ensures Tally(seen + [r]) == Bumped(Tally(seen), r.location)
  {
    assert (seen + [r])[..|seen|] == seen;
  }

  /** The index the argmax loop settles on: a largest element, the first one among equals,
      because a later element replaces the candidate only when strictly greater. */
  function FirstMaxIndex(s: seq<int>): (m: nat)
    requires |s| > 0
    ensures m < |s|
    ensures forall j :: 0 <= j < |s| ==> s[j] <= s[m]
    ensures forall j :: 0 <= j < m ==> s[j] < s[m]
  {
    if |s| == 1 then 0
    else
      var m := FirstMaxIndex(s[..|s| - 1]);
      assert forall j :: 0 <= j < |s| - 1 ==> s[..|s| - 1][j] == s[j];
      if s[|s| - 1] > s[m] then |s| - 1 else m
  }

  /** Each returned name is its key up to case. */
  lemma NameMatchesKey(k: nat)
    requires k < 5
    ensures EqualsIgnoreCase(BoroughNames[k], BoroughKeys[k])
  {
    var name, key := BoroughNames[k], BoroughKeys[k];
    assert |name| == |key|;
    forall i | 0 <= i < |name| ensures Upper(name[i]) == Upper(key[i]) {
      if k == 0 {
        assert name == "Brooklyn" && key == "BROOKLYN";
      } else if k == 1 {
        assert name == "Manhattan" && key == "MANHATTAN";
      } else if k == 2 {
        assert name == "Bronx" && key == "BRONX";
      } else if k == 3 {
        assert name == "Queens" && key == "QUEENS";
      } else {
        assert name == "Staten Island" && key == "STATEN ISLAND";
      }
    }
  }

  /** A location is counted for a borough only when it names that borough, ignoring case. */
  lemma BoroughOfMatches(location: string)
    ensures BoroughOf(location).Some? ==>
      BoroughOf(location).value < 5 && EqualsIgnoreCase(location, BoroughNames[BoroughOf(location).value])
  {
    if BoroughOf(location).Some? {
      var k := BoroughOf(location).value;
      NameMatchesKey(k);
      EqualsIgnoreCaseTrans(location, BoroughKeys[k], BoroughNames[k]) by {
        var name, key := BoroughNames[k], BoroughKeys[k];
        assert EqualsIgnoreCase(key, name) by {
          assert forall i :: 0 <= i < |key| ==> Upper(key[i]) == Upper(name[i]);
        }
      }
    }
  }

  /** A location is counted for no borough exactly when it names none of them, and since
      the keys have pairwise different lengths, the order of the else-if chain does not
      matter: a location naming a borough is counted for that one. */
  lemma BoroughOfExclusive(location: string)
    ensures BoroughOf(location).None? <==> forall k :: 0 <= k < 5 ==> !EqualsIgnoreCase(location, BoroughKeys[k])
    ensures forall k :: 0 <= k < 5 && EqualsIgnoreCase(location, BoroughKeys[k]) ==> BoroughOf(location) == Some(k)
  {
    assert |BoroughKeys[0]| == 8 && |BoroughKeys[1]| == 9 && |BoroughKeys[2]| == 5;
    assert |BoroughKeys[3]| == 6 && |BoroughKeys[4]| == 13;
  }

  /** Each record bumps at most one counter, so the counters add up to at most the number
      of records scanned. */
  lemma {:induction false} TallyWithinRecords(rs: seq<Record>)
    ensures Tally(rs)[0] + Tally(rs)[1] + Tally(rs)[2] + Tally(rs)[3] + Tally(rs)[4] <= |rs|
    decreases |rs|
  {
    if rs != [] {
      TallyWithinRecords(rs[..|rs| - 1]);
    }
  }

  /** When no record names a borough every counter stays 0, and the first borough,
      Brooklyn, is the answer. */
  lemma QuietYearIsBrooklyn(rs: seq<Record>)
    requires forall r :: r in rs ==> BoroughOf(r.location).None?
    ensures Tally(rs) == [0, 0, 0, 0, 0]
    ensures BoroughNames[FirstMaxIndex(Tally(rs))] == "Brooklyn"
  {
    forall k | 0 <= k < 5 ensures Count(rs, AtBorough(k)) == 0 {
      CountNone(rs, AtBorough(k));
    }
    var counts := Tally(rs);
    assert counts[0] == counts[FirstMaxIndex(counts)];
  }
}
