/** The StopAndFrisk store: the `database` list of year buckets, the loader's find-or-create
    insertion, and the five read-only queries reduced to the integers they compute. */
module Store {
  import opened Text
  import opened Records
  import opened Buckets
  import opened Boroughs

  /** The counters of `friskedVSArrested`: frisked and arrested records of the year, and the
      size of the bucket the scan saw last (the denominator of both percentages). */
  datatype FriskCounts = FriskCounts(frisked: nat, arrested: nat, total: nat)

  /** The counters of `genderBias`. */
  datatype GenderCounts = GenderCounts(black: nat, white: nat, blackF: nat, blackM: nat, whiteF: nat, whiteM: nat)

  /** The counters of `crimeIncrease`: matching records and records of each year. */
  datatype Trend = Trend(count1: nat, total1: nat, count2: nat, total2: nat)

  /** One pass of the `genderBias` loop body: the two race tests, then the else-if chain
      that picks at most one gender cell. */
  function GenderStep(g: GenderCounts, r: Record): (next: GenderCounts)
    ensures next.blackF + next.blackM + next.whiteF + next.whiteM <= g.blackF + g.blackM + g.whiteF + g.whiteM + 1
    ensures next.blackF + next.blackM - g.blackF - g.blackM <= next.black - g.black
    ensures next.whiteF + next.whiteM - g.whiteF - g.whiteM <= next.white - g.white
  {
    var raced := g.(black := if r.race == "B" then g.black + 1 else g.black,
                    white := if r.race == "W" then g.white + 1 else g.white);
    if r.race == "B" && r.gender == "F" then raced.(blackF := raced.blackF + 1)
    else if r.race == "B" && r.gender == "M" then raced.(blackM := raced.blackM + 1)
    else if r.race == "W" && r.gender == "F" then raced.(whiteF := raced.whiteF + 1)
    else if r.race == "W" && r.gender == "M" then raced.(whiteM := raced.whiteM + 1)
    else raced
  }

  /** The `genderBias` counters after a scan of `rs`. */
  function GenderTally(rs: seq<Record>): (t: GenderCounts)
    ensures t.blackF + t.blackM + t.whiteF + t.whiteM <= |rs|
    ensures t.blackF + t.blackM <= t.black && t.whiteF + t.whiteM <= t.white
  {
    if rs == [] then GenderCounts(0, 0, 0, 0, 0, 0)
    else GenderStep(GenderTally(rs[..|rs| - 1]), rs[|rs| - 1])
  }

  lemma GenderTallyStep(seen: seq<Record>, r: Record)
    ensures GenderTally(seen + [r]) == GenderStep(GenderTally(seen), r)
  {
    assert (seen + [r])[..|seen|] == seen;
  }

  /** Because no record is both black and white, nor both female and male, the else-if
      chain bumps each gender cell exactly for the records of that race and gender. */
  lemma {:induction false} GenderTallyCounts(rs: seq<Record>)
    ensures GenderTally(rs) == GenderCounts(
      Count(rs, IsBlack), Count(rs, IsWhite), Count(rs, IsBlackFemale),
      Count(rs, IsBlackMale), Count(rs, IsWhiteFemale), Count(rs, IsWhiteMale))
    decreases |rs|
  {
    if rs != [] {
      assert "F" != "M" by { assert "F"[0] != "M"[0]; }
      assert "B" != "W" by { assert "B"[0] != "W"[0]; }
      GenderTallyCounts(rs[..|rs| - 1]);
    }
  }

  /** The bucket `crimeIncrease` dereferences while it is still null: the first year's or
      the second year's. */
  datatype Fault = NullYear1 | NullYear2

  datatype TrendResult = Computed(trend: Trend) | Crashed(fault: Fault)

  /** The size of the last bucket for the year, 0 when there is none. */
  function LastSize(db: seq<YearBucket>, year: int): nat
  {
    match LastWithYear(db, year)
    case None => 0
    case Some(b) => |b.records|
  }

  /** The bucket lookup of `crimeIncrease` as written, as (sfYear1, sfYear2): every bucket
      of the first year overwrites sfYear1, and only a bucket that is NOT of the first year
      can overwrite sfYear2 (an `else if`). */
  function LookupYears(db: seq<YearBucket>, year1: int, year2: int): (found: (Option<YearBucket>, Option<YearBucket>))
    ensures found.0.Some? ==> found.0.value in db && found.0.value.year == year1
    ensures found.1.Some? ==> found.1.value in db && found.1.value.year == year2 && year2 != year1
  {
    if db == [] then (None, None)
    else
      var found := LookupYears(db[..|db| - 1], year1, year2);
      var b := db[|db| - 1];
      assert forall x :: x in db[..|db| - 1] ==> x in db;
      if b.year == year1 then (Some(b), found.1)
      else if b.year == year2 then (found.0, Some(b))
      else found
  }

  /** The lookup as the method's documentation intends it: the two years looked up
      independently, so that they may be equal. */
  function LookupYearsFixed(db: seq<YearBucket>, year1: int, year2: int): (found: (Option<YearBucket>, Option<YearBucket>))
    ensures found.0.Some? ==> found.0.value in db && found.0.value.year == year1
    ensures found.1.Some? ==> found.1.value in db && found.1.value.year == year2
  {
    if db == [] then (None, None)
    else
      var found := LookupYearsFixed(db[..|db| - 1], year1, year2);
      var b := db[|db| - 1];
      assert forall x :: x in db[..|db| - 1] ==> x in db;
      (if b.year == year1 then Some(b) else found.0, if b.year == year2 then Some(b) else found.1)
  }

  /** The counters `crimeIncrease` computes from the two buckets' record lists. */
  function TrendOf(records1: seq<Record>, records2: seq<Record>, crime: string): Trend
  {
    Trend(Count(records1, Mentions(crime)), |records1|, Count(records2, Mentions(crime)), |records2|)
  }

  /** The as-written lookup finds the last bucket of the first year, and the last bucket of
      the second year only when the two years differ. */
  lemma {:induction false} LookupYearsAsWritten(db: seq<YearBucket>, year1: int, year2: int)
    ensures LookupYears(db, year1, year2)
         == (LastWithYear(db, year1), if year1 == year2 then None else LastWithYear(db, year2))
    decreases |db|
  {
    if db != [] {
      LookupYearsAsWritten(db[..|db| - 1], year1, year2);
    }
  }

  /** With the same year twice the as-written lookup never fills sfYear2, however the store
      looks; a one-bucket store for 2012 queried with (2012, 2012) is a concrete case. */
  lemma SameYearLeavesSecondNull(db: seq<YearBucket>, year: int)
    ensures LookupYears(db, year, year).1 == None
    ensures var b := YearBucket(2012, []); LookupYears([b], 2012, 2012) == (Some(b), None)
  {
    LookupYearsAsWritten(db, year, year);
  }

  /** The corrected lookup finds the last bucket of each year, equal years included. */
  lemma {:induction false} LookupYearsFixedFindsBoth(db: seq<YearBucket>, year1: int, year2: int)
    ensures LookupYearsFixed(db, year1, year2) == (LastWithYear(db, year1), LastWithYear(db, year2))
    decreases |db|
  {
    if db != [] {
      LookupYearsFixedFindsBoth(db[..|db| - 1], year1, year2);
    }
  }

  /** The percentage the source computes in floating point, as an exact real. */
  ghost function Percent(part: nat, whole: nat): real
    requires whole > 0
  {
    part as real / whole as real * 100.0
  }

  /** The percentage-point change `crimeIncrease` returns. */
  ghost function TrendDelta(t: Trend): real
    requires t.total1 > 0 && t.total2 > 0
  {
    Percent(t.count2, t.total2) - Percent(t.count1, t.total1)
  }

  /** A count out of a non-empty total is a percentage between 0 and 100. */
  lemma PercentInRange(part: nat, whole: nat)
    requires 0 < whole && part <= whole
    ensures 0.0 <= Percent(part, whole) <= 100.0
  {
    assert part as real / whole as real <= 1.0;
  }

  /** A cell of the `genderBias` table: half the share of a race's records that fall in
      the cell, as a percentage. */
  ghost function HalfPercent(part: nat, whole: nat): real
    requires whole > 0
  {
    part as real / whole as real * 0.5 * 100.0
  }

  /** The female and male cells of one race add up to at most 50, so each column total of
      the table (female, male) is at most 100. */
  lemma GenderCellsWithinHalf(female: nat, male: nat, whole: nat)
    requires 0 < whole && female + male <= whole
    ensures 0.0 <= HalfPercent(female, whole) + HalfPercent(male, whole) <= 50.0
  {
    assert HalfPercent(female, whole) + HalfPercent(male, whole) == (female + male) as real / whole as real * 50.0;
    assert (female + male) as real / whole as real <= 1.0;
  }

  /** The shared inner loop of `crimeIncrease`: how many records mention `crimeDescription`. */
  method CountMentions(records: seq<Record>, crimeDescription: string) returns (count: nat)
    ensures count == Count(records, Mentions(crimeDescription))
    ensures count <= |records|
  {
    count := 0;
    for j := 0 to |records|
      invariant count == Count(records[..j], Mentions(crimeDescription))
    {
      assert records[..j + 1][..j] == records[..j];
      if IndexOf(records[j].description, crimeDescription, 0) >= 0 {
        count := count + 1;
      }
    }
    assert records[..|records|] == records;
  }

  /** The body of the `genderBias` loop for one record: bump the race totals, then the
      first gender cell of the else-if chain that the record fits, if any. */
  method BumpGender(g: GenderCounts, r: Record) returns (next: GenderCounts)
    ensures next == GenderStep(g, r)
  {
    var black, white, blackF, blackM, whiteF, whiteM := g.black, g.white, g.blackF, g.blackM, g.whiteF, g.whiteM;
    if r.race == "B" {
      black := black + 1;
    }
    if r.race == "W" {
      white := white + 1;
    }
    if r.race == "B" && r.gender == "F" {
      blackF := blackF + 1;
    } else if r.race == "B" && r.gender == "M" {
      blackM := blackM + 1;
    } else if r.race == "W" && r.gender == "F" {
      whiteF := whiteF + 1;
    } else if r.race == "W" && r.gender == "M" {
      whiteM := whiteM + 1;
    }
    next := GenderCounts(black, white, blackF, blackM, whiteF, whiteM);
  }

  /** The else-if chain of `mostCommonBorough` for one record: bump the counter of the
      first borough the location names, ignoring case, if any. */
  method BumpBorough(counts: array<int>, location: string)
    requires counts.Length == 5
    modifies counts
    ensures counts[..] == Bumped(old(counts[..]), location)
  {
    if EqualsIgnoreCase(location, "BROOKLYN") {
      counts[0] := counts[0] + 1;
    } else if EqualsIgnoreCase(location, "MANHATTAN") {
      counts[1] := counts[1] + 1;
    } else if EqualsIgnoreCase(location, "BRONX") {
      counts[2] := counts[2] + 1;
    } else if EqualsIgnoreCase(location, "QUEENS") {
      counts[3] := counts[3] + 1;
    } else if EqualsIgnoreCase(location, "STATEN ISLAND") {
      counts[4] := counts[4] + 1;
    }
  }

  /** The argmax loop of `mostCommonBorough`: the index of a largest counter, the first
      one among equals because only a strictly greater counter replaces the candidate. */
  method FirstMax(counts: array<int>) returns (maxIndex: nat)
    requires counts.Length > 0
    ensures maxIndex < counts.Length
    ensures forall k :: 0 <= k < counts.Length ==> counts[k] <= counts[maxIndex]
    ensures forall k :: 0 <= k < maxIndex ==> counts[k] < counts[maxIndex]
    ensures maxIndex == FirstMaxIndex(counts[..])
  {
    maxIndex := 0;
    for i := 0 to counts.Length
      invariant maxIndex < counts.Length
      invariant i == 0 ==> maxIndex == 0
      invariant i > 0 ==> maxIndex == FirstMaxIndex(counts[..i])
    {
      assert counts[..i + 1][..i] == counts[..i];
      if counts[i] > counts[maxIndex] {
        maxIndex := i;
      }
    }
    assert counts[..counts.Length] == counts[..];
  }

  class StopAndFrisk {
    /** The year buckets in the order their years first appeared. */
    var database: seq<YearBucket>

    /** The store's invariant: at most one bucket per year, and no bucket without records. */
    ghost predicate Valid()
      reads this
    {
      UniqueYears(database) && NonEmptyBuckets(database)
    }

    constructor ()
      ensures database == [] && Valid()
    {
      database := [];
    }

    /** The find-or-create step of `readFile`: scan for the year's bucket and append the
        record to it, or append a new one-record bucket when the year is new. */
    method Insert(year: int, record: Record)
      modifies this
      ensures database == Inserted(old(database), year, record)
      ensures old(Valid()) ==> Valid()
    {
      ghost var before := database;
      var yearExists := false;
      var i := 0;
      while i < |database|
        invariant 0 <= i <= |database|
        invariant database == before && !yearExists
        invariant forall k :: 0 <= k < i ==> database[k].year != year
      {
        if database[i].year == year {
          database := database[i := database[i].(records := database[i].records + [record])];
          yearExists := true;
          break;
        }
        i := i + 1;
      }
      if !yearExists {
        database := database + [YearBucket(year, [record])];
      }
      InsertedAt(before, year, record, i);
      if UniqueYears(before) {
        InsertedUnique(before, year, record);
      }
      if NonEmptyBuckets(before) {
        InsertedNonEmpty(before, year, record);
      }
    }

    /** The loop of `readFile` once each line has been parsed into a year and a record:
        every row is inserted in file order. */
    method ReadFile(rows: seq<(int, Record)>)
      modifies this
      ensures database == LoadAll(old(database), rows)
      ensures old(Valid()) ==> Valid()
      ensures old(Valid()) ==> forall year :: RecordsOf(database, year) == RecordsOf(old(database), year) + RowsOfYear(rows, year)
    {
      ghost var before := database;
      for i := 0 to |rows|
        invariant database == LoadAll(before, rows[..i])
      {
        assert rows[..i + 1][..i] == rows[..i];
        Insert(rows[i].0, rows[i].1);
      }
      assert rows[..|rows|] == rows;
      if UniqueYears(before) {
        forall year ensures RecordsOf(database, year) == RecordsOf(before, year) + RowsOfYear(rows, year) {
          LoadAllGroups(before, rows, year);
        }
        LoadAllGroups(before, rows, 0);
      }
      if NonEmptyBuckets(before) {
        LoadAllNonEmpty(before, rows);
      }
    }

    /** `populationStopped`: the records of the year whose race code is `race`, in order. */
    method PopulationStopped(year: int, race: string) returns (records: seq<Record>)
      ensures records == Filter(RecordsOf(database, year), HasRace(race))
    {
      records := [];
      for i := 0 to |database|
        invariant records == Filter(RecordsOf(database[..i], year), HasRace(race))
      {
        RecordsOfStep(database, i, year);
        if database[i].year == year {
          var yearRecords := database[i].records;
          ghost var done := RecordsOf(database[..i], year);
          assert done + yearRecords[..0] == done;
          for j := 0 to |yearRecords|
            invariant records == Filter(done + yearRecords[..j], HasRace(race))
          {
            PrefixStep(done, yearRecords, j);
            FilterStep(done + yearRecords[..j], yearRecords[j], HasRace(race));
            if yearRecords[j].race == race {
              records := records + [yearRecords[j]];
            }
          }
          assert yearRecords[..|yearRecords|] == yearRecords;
        } else {
          assert RecordsOf(database[..i], year) + [] == RecordsOf(database[..i], year);
        }
      }
      assert database[..|database|] == database;
    }

    /** The integer part of `friskedVSArrested`. */
    method FriskedVsArrested(year: int) returns (counts: FriskCounts)
      ensures counts.frisked == Count(RecordsOf(database, year), IsFrisked)
      ensures counts.arrested == Count(RecordsOf(database, year), IsArrested)
      ensures counts.total == LastSize(database, year)
    {
      var frisked, arrested, numOfRecords := 0, 0, 0;
      for i := 0 to |database|
        invariant frisked == Count(RecordsOf(database[..i], year), IsFrisked)
        invariant arrested == Count(RecordsOf(database[..i], year), IsArrested)
        invariant numOfRecords == LastSize(database[..i], year)
      {
        RecordsOfStep(database, i, year);
        assert database[..i + 1][..i] == database[..i];
        if database[i].year == year {
          var yearRecords := database[i].records;
          numOfRecords := |yearRecords|;
          ghost var done := RecordsOf(database[..i], year);
          assert done + yearRecords[..0] == done;
          for j := 0 to |yearRecords|
            invariant frisked == Count(done + yearRecords[..j], IsFrisked)
            invariant arrested == Count(done + yearRecords[..j], IsArrested)
          {
            PrefixStep(done, yearRecords, j);
            CountStep(done + yearRecords[..j], yearRecords[j], IsFrisked);
            CountStep(done + yearRecords[..j], yearRecords[j], IsArrested);
            if yearRecords[j].frisked {
              frisked := frisked + 1;
            }
            if yearRecords[j].arrested {
              arrested := arrested + 1;
            }
          }
          assert yearRecords[..|yearRecords|] == yearRecords;
        } else {
          assert RecordsOf(database[..i], year) + [] == RecordsOf(database[..i], year);
        }
      }
      assert database[..|database|] == database;
      counts := FriskCounts(frisked, arrested, numOfRecords);
    }

    /** The integer part of `genderBias`: the race totals and the four gender cells, filled
        by an else-if chain. */
    method GenderBias(year: int) returns (counts: GenderCounts)
      ensures counts.black == Count(RecordsOf(database, year), IsBlack)
      ensures counts.white == Count(RecordsOf(database, year), IsWhite)
      ensures counts.blackF == Count(RecordsOf(database, year), IsBlackFemale)
      ensures counts.blackM == Count(RecordsOf(database, year), IsBlackMale)
      ensures counts.whiteF == Count(RecordsOf(database, year), IsWhiteFemale)
      ensures counts.whiteM == Count(RecordsOf(database, year), IsWhiteMale)
      ensures counts.blackF + counts.blackM <= counts.black
      ensures counts.whiteF + counts.whiteM <= counts.white
    {
      counts := GenderCounts(0, 0, 0, 0, 0, 0);
      for i := 0 to |database|
        invariant counts == GenderTally(RecordsOf(database[..i], year))
      {
        RecordsOfStep(database, i, year);
        if database[i].year == year {
          var yearRecords := database[i].records;
          ghost var done := RecordsOf(database[..i], year);
          assert done + yearRecords[..0] == done;
          for j := 0 to |yearRecords|
            invariant counts == GenderTally(done + yearRecords[..j])
          {
            PrefixStep(done, yearRecords, j);
            GenderTallyStep(done + yearRecords[..j], yearRecords[j]);
            counts := BumpGender(counts, yearRecords[j]);
          }
          assert yearRecords[..|yearRecords|] == yearRecords;
        } else {
          assert RecordsOf(database[..i], year) + [] == RecordsOf(database[..i], year);
        }
      }
      assert database[..|database|] == database;
      GenderTallyCounts(RecordsOf(database, year));
      GenderWithinRace(RecordsOf(database, year));
    }

    /** The integer part of `crimeIncrease` as written. It fails, as the source does with a
        null dereference, when the first year has no bucket, and otherwise when the second
        year has none or equals the first. */
    method CrimeIncrease(crimeDescription: string, year1: int, year2: int) returns (result: TrendResult)
      ensures result == Crashed(NullYear1) <==> !HasYear(database, year1)
      ensures result == Crashed(NullYear2) <==> HasYear(database, year1) && (year1 == year2 || !HasYear(database, year2))
      ensures result.Computed? ==> result.trend == TrendOf(
        LastWithYear(database, year1).value.records, LastWithYear(database, year2).value.records, crimeDescription)
      ensures Valid() && result.Computed? ==> 0 < result.trend.total1 && 0 < result.trend.total2
    {
      var sfYear1: Option<YearBucket> := None;
      var sfYear2: Option<YearBucket> := None;
      for i := 0 to |database|
        invariant (sfYear1, sfYear2) == LookupYears(database[..i], year1, year2)
      {
        assert database[..i + 1][..i] == database[..i];
        if database[i].year == year1 {
          sfYear1 := Some(database[i]);
        } else if database[i].year == year2 {
          sfYear2 := Some(database[i]);
        }
      }
      assert database[..|database|] == database;
      LookupYearsAsWritten(database, year1, year2);
      if sfYear1.None? {
        return Crashed(NullYear1);
      }
      var year1Records := sfYear1.value.records;
      var count1 := CountMentions(year1Records, crimeDescription);
      if sfYear2.None? {
        return Crashed(NullYear2);
      }
      var year2Records := sfYear2.value.records;
      var count2 := CountMentions(year2Records, crimeDescription);
      if NonEmptyBuckets(database) {
        LastWithYearNonEmpty(database, year1);
        LastWithYearNonEmpty(database, year2);
      }
      result := Computed(Trend(count1, |year1Records|, count2, |year2Records|));
    }

    /** `crimeIncrease` with the lookup its documentation intends: it fails only when a year
        has no bucket, and with the same year twice both counters come from one bucket. */
    method CrimeIncreaseFixed(crimeDescription: string, year1: int, year2: int) returns (result: TrendResult)
      ensures result == Crashed(NullYear1) <==> !HasYear(database, year1)
      ensures result == Crashed(NullYear2) <==> HasYear(database, year1) && !HasYear(database, year2)
      ensures result.Computed? ==> result.trend == TrendOf(
        LastWithYear(database, year1).value.records, LastWithYear(database, year2).value.records, crimeDescription)
      ensures Valid() && result.Computed? ==> 0 < result.trend.total1 && 0 < result.trend.total2
      ensures result.Computed? && year1 == year2 ==>
        result.trend.count1 == result.trend.count2 && result.trend.total1 == result.trend.total2
    {
      var sfYear1: Option<YearBucket> := None;
      var sfYear2: Option<YearBucket> := None;
      for i := 0 to |database|
        invariant (sfYear1, sfYear2) == LookupYearsFixed(database[..i], year1, year2)
      {
        assert database[..i + 1][..i] == database[..i];
        if database[i].year == year1 {
          sfYear1 := Some(database[i]);
        }
        if database[i].year == year2 {
          sfYear2 := Some(database[i]);
        }
      }
      assert database[..|database|] == database;
      LookupYearsFixedFindsBoth(database, year1, year2);
      if sfYear1.None? {
        return Crashed(NullYear1);
      }
      var year1Records := sfYear1.value.records;
      var count1 := CountMentions(year1Records, crimeDescription);
      if sfYear2.None? {
        return Crashed(NullYear2);
      }
      var year2Records := sfYear2.value.records;
      var count2 := CountMentions(year2Records, crimeDescription);
      if NonEmptyBuckets(database) {
        LastWithYearNonEmpty(database, year1);
        LastWithYearNonEmpty(database, year2);
      }
      result := Computed(Trend(count1, |year1Records|, count2, |year2Records|));
    }

    /** `mostCommonBorough`: tally the year's records over the five boroughs, then take the
        first borough with the largest count. */
    method MostCommonBorough(year: int) returns (borough: string)
      ensures borough in BoroughNames
      ensures borough == BoroughNames[FirstMaxIndex(Tally(RecordsOf(database, year)))]
    {
      var boroughs := BoroughNames;
      var counts := new int[5](_ => 0);
      for i := 0 to |database|
        invariant counts[..] == Tally(RecordsOf(database[..i], year))
      {
        RecordsOfStep(database, i, year);
        if database[i].year == year {
          var yearRecords := database[i].records;
          ghost var done := RecordsOf(database[..i], year);
          assert done + yearRecords[..0] == done;
          for j := 0 to |yearRecords|
            invariant counts[..] == Tally(done + yearRecords[..j])
          {
            PrefixStep(done, yearRecords, j);
            TallyStep(done + yearRecords[..j], yearRecords[j]);
            BumpBorough(counts, yearRecords[j].location);
          }
          assert yearRecords[..|yearRecords|] == yearRecords;
        } else {
          assert RecordsOf(database[..i], year) + [] == RecordsOf(database[..i], year);
        }
      }
      assert database[..|database|] == database;
      var maxIndex := FirstMax(counts);
      borough := boroughs[maxIndex];
    }
  }

  // ---------------------------------------------------------------------------
  // What the queries return on a store with one bucket per year

  /** `populationStopped` returns the year's bucket filtered by race, and nothing for a
      year without a bucket. */
  lemma PopulationStoppedOfBucket(db: seq<YearBucket>, year: int, race: string)
    requires UniqueYears(db)
    ensures !HasYear(db, year) ==> Filter(RecordsOf(db, year), HasRace(race)) == []
    ensures forall i :: 0 <= i < |db| && db[i].year == year ==>
      Filter(RecordsOf(db, year), HasRace(race)) == Filter(db[i].records, HasRace(race))
  {
    if !HasYear(db, year) {
      RecordsOfAbsent(db, year);
    }
    forall i | 0 <= i < |db| && db[i].year == year
      ensures Filter(RecordsOf(db, year), HasRace(race)) == Filter(db[i].records, HasRace(race))
    {
      RecordsOfUnique(db, i, year);
    }
  }

  /** The frisked and arrested counters each lie between 0 and the year's record count,
      and all three are 0 for a year without a bucket. */
  lemma FriskedVsArrestedBounds(db: seq<YearBucket>, year: int)
    requires UniqueYears(db)
    ensures Count(RecordsOf(db, year), IsFrisked) <= LastSize(db, year)
    ensures Count(RecordsOf(db, year), IsArrested) <= LastSize(db, year)
    ensures LastSize(db, year) == |RecordsOf(db, year)|
    ensures !HasYear(db, year) ==>
      LastSize(db, year) == 0 && Count(RecordsOf(db, year), IsFrisked) == 0 && Count(RecordsOf(db, year), IsArrested) == 0
  {
    if HasYear(db, year) {
      var i :| 0 <= i < |db| && db[i].year == year;
      RecordsOfUnique(db, i, year);
      LastWithYearUnique(db, i, year);
    } else {
      RecordsOfAbsent(db, year);
    }
  }

  /** For a year the store holds, the denominator of `friskedVSArrested` is positive, so
      both percentages are defined and lie in [0, 100]. */
  lemma FriskedVsArrestedPercents(db: seq<YearBucket>, year: int)
    requires UniqueYears(db) && NonEmptyBuckets(db) && HasYear(db, year)
    ensures LastSize(db, year) > 0
    ensures 0.0 <= Percent(Count(RecordsOf(db, year), IsFrisked), LastSize(db, year)) <= 100.0
    ensures 0.0 <= Percent(Count(RecordsOf(db, year), IsArrested), LastSize(db, year)) <= 100.0
  {
    LastWithYearNonEmpty(db, year);
    FriskedVsArrestedBounds(db, year);
    PercentInRange(Count(RecordsOf(db, year), IsFrisked), LastSize(db, year));
    PercentInRange(Count(RecordsOf(db, year), IsArrested), LastSize(db, year));
  }

  /** For two years the store holds, both buckets `crimeIncrease` reads have records, so
      each year's match count is at most a positive total and the returned change lies
      between -100 and 100 percentage points. */
  lemma TrendBounds(db: seq<YearBucket>, year1: int, year2: int, crime: string)
    requires NonEmptyBuckets(db) && HasYear(db, year1) && HasYear(db, year2)
    ensures var t := TrendOf(LastWithYear(db, year1).value.records, LastWithYear(db, year2).value.records, crime);
      0 < t.total1 && 0 < t.total2 && t.count1 <= t.total1 && t.count2 <= t.total2
    ensures var t := TrendOf(LastWithYear(db, year1).value.records, LastWithYear(db, year2).value.records, crime);
      -100.0 <= TrendDelta(t) <= 100.0
  {
    LastWithYearNonEmpty(db, year1);
    LastWithYearNonEmpty(db, year2);
    var t := TrendOf(LastWithYear(db, year1).value.records, LastWithYear(db, year2).value.records, crime);
    PercentInRange(t.count1, t.total1);
    PercentInRange(t.count2, t.total2);
  }

  /** `mostCommonBorough` picks a borough whose count is at least every other count, and
      every borough listed before it has a strictly smaller count. */
  lemma MostCommonBoroughIsFirstMax(db: seq<YearBucket>, year: int)
    ensures var counts, m := Tally(RecordsOf(db, year)), FirstMaxIndex(Tally(RecordsOf(db, year)));
      m < 5 && (forall k :: 0 <= k < 5 ==> counts[k] <= counts[m]) && (forall k :: 0 <= k < m ==> counts[k] < counts[m])
    ensures var counts := Tally(RecordsOf(db, year));
      counts[0] + counts[1] + counts[2] + counts[3] + counts[4] <= |RecordsOf(db, year)|
  {
    TallyWithinRecords(RecordsOf(db, year));
  }

  /** `mostCommonBorough` of a year without a bucket is Brooklyn. */
  lemma MostCommonBoroughOfAbsentYear(db: seq<YearBucket>, year: int)
    requires !HasYear(db, year)
    ensures BoroughNames[FirstMaxIndex(Tally(RecordsOf(db, year)))] == "Brooklyn"
  {
    RecordsOfAbsent(db, year);
    QuietYearIsBrooklyn(RecordsOf(db, year));
  }
}
