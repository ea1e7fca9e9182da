/** The year-partitioned store: SFYear buckets in a list, the find-or-create insertion the
    loader performs for every row, and what a sequence of insertions builds. */
module Buckets {
  import opened Records

  datatype Option<T> = None | Some(value: T)

  /** An SFYear: the records of one year, in the order they were added. */
  datatype YearBucket = YearBucket(year: int, records: seq<Record>)

  /** The year of each bucket, in list order. */
  function Years(db: seq<YearBucket>): (ys: seq<int>)
    ensures |ys| == |db| && forall i :: 0 <= i < |db| ==> ys[i] == db[i].year
  {
    seq(|db|, i requires 0 <= i < |db| => db[i].year)
  }

  predicate HasYear(db: seq<YearBucket>, year: int)
  {
    exists i :: 0 <= i < |db| && db[i].year == year
  }

  /** The store's invariant: at most one bucket per year. */
  predicate UniqueYears(db: seq<YearBucket>)
  {
    forall i, j :: 0 <= i < j < |db| ==> db[i].year != db[j].year
  }

  /** Every bucket holds at least one record: the loader only creates a bucket together
      with the record that needs it. */
  predicate NonEmptyBuckets(db: seq<YearBucket>)
  {
    forall i :: 0 <= i < |db| ==> |db[i].records| > 0
  }

  /** The records of every bucket for `year`, bucket after bucket, as the queries'
      outer loop over the whole list visits them. */
  function RecordsOf(db: seq<YearBucket>, year: int): seq<Record>
  {
    if db == [] then []
    else RecordsOf(db[..|db| - 1], year) + (if db[|db| - 1].year == year then db[|db| - 1].records else [])
  }

  /** The number of records in the whole store. */
  function TotalRecords(db: seq<YearBucket>): nat
  {
    if db == [] then 0 else TotalRecords(db[..|db| - 1]) + |db[|db| - 1].records|
  }

  /** The last bucket for `year` in list order: the one a scan that overwrites its
      candidate on every match ends up holding. */
  function LastWithYear(db: seq<YearBucket>, year: int): (found: Option<YearBucket>)
    ensures found.Some? ==> found.value in db && found.value.year == year
    ensures found.None? <==> !HasYear(db, year)
  {
    if db == [] then None
    else if db[|db| - 1].year == year then Some(db[|db| - 1])
    else
      var prefix := db[..|db| - 1];
      var found := LastWithYear(prefix, year);
      assert forall i :: 0 <= i < |prefix| ==> prefix[i] == db[i];
      found
  }

  /** The find-or-create step of the loader: append `r` to the first bucket for `year`,
      or, when there is none, add a one-record bucket for `year` at the end of the list. */
  function Inserted(db: seq<YearBucket>, year: int, r: Record): (ins: seq<YearBucket>)
    ensures |db| <= |ins| <= |db| + 1
    ensures |ins| == |db| + 1 ==> ins[|db|] == YearBucket(year, [r])
  {
    if db == [] then [YearBucket(year, [r])]
    else if db[0].year == year then [db[0].(records := db[0].records + [r])] + db[1..]
    else [db[0]] + Inserted(db[1..], year, r)
  }

  /** The loader's outer loop: every row inserted in file order. */
  function LoadAll(db: seq<YearBucket>, rows: seq<(int, Record)>): (loaded: seq<YearBucket>)
    ensures |db| <= |loaded| <= |db| + |rows|
  {
    if rows == [] then db
    else Inserted(LoadAll(db, rows[..|rows| - 1]), rows[|rows| - 1].0, rows[|rows| - 1].1)
  }

  /** The records of the rows dated `year`, in file order. */
  function RowsOfYear(rows: seq<(int, Record)>, year: int): seq<Record>
  {
    if rows == [] then []
    else RowsOfYear(rows[..|rows| - 1], year) + (if rows[|rows| - 1].0 == year then [rows[|rows| - 1].1] else [])
  }

  // ---------------------------------------------------------------------------
  // What the year's records are

  lemma {:induction false} RecordsOfAppend(a: seq<YearBucket>, b: seq<YearBucket>, year: int)
    ensures RecordsOf(a + b, year) == RecordsOf(a, year) + RecordsOf(b, year)
    decreases |b|
  {
    if b == [] {
      assert a + b == a;
    } else {
      assert (a + b)[..|a + b| - 1] == a + b[..|b| - 1];
      RecordsOfAppend(a, b[..|b| - 1], year);
    }
  }

  /** The scan over the first `i + 1` buckets collects what the scan over the first `i`
      collected, then bucket `i`'s records if it is of the year. */
  lemma RecordsOfStep(db: seq<YearBucket>, i: nat, year: int)
    requires i < |db|
    ensures RecordsOf(db[..i + 1], year) == RecordsOf(db[..i], year) + (if db[i].year == year then db[i].records else [])
  {
    assert db[..i + 1][..i] == db[..i];
  }

  lemma {:induction false} TotalRecordsAppend(a: seq<YearBucket>, b: seq<YearBucket>)
    ensures TotalRecords(a + b) == TotalRecords(a) + TotalRecords(b)
    decreases |b|
  {
    if b == [] {
      assert a + b == a;
    } else {
      assert (a + b)[..|a + b| - 1] == a + b[..|b| - 1];
      TotalRecordsAppend(a, b[..|b| - 1]);
    }
  }

  /** A year without a bucket has no records. */
  lemma {:induction false} RecordsOfAbsent(db: seq<YearBucket>, year: int)
    requires !HasYear(db, year)
    ensures RecordsOf(db, year) == []
    decreases |db|
  {
    if db != [] {
      var prefix := db[..|db| - 1];
      assert !HasYear(prefix, year) by {
        forall i | 0 <= i < |prefix| ensures prefix[i].year != year {
          assert prefix[i] == db[i];
        }
      }
      RecordsOfAbsent(prefix, year);
    }
  }

  /** In a store with one bucket per year, the year's records are exactly its bucket's. */
  lemma RecordsOfUnique(db: seq<YearBucket>, i: nat, year: int)
    requires UniqueYears(db) && i < |db| && db[i].year == year
    ensures RecordsOf(db, year) == db[i].records
  {
    var before, after := db[..i], db[i + 1..];
    assert db == before + [db[i]] + after;
    assert !HasYear(before, year) by {
      forall k | 0 <= k < |before| ensures before[k].year != year {
        assert before[k] == db[k];
      }
    }
    assert !HasYear(after, year) by {
      forall k | 0 <= k < |after| ensures after[k].year != year {
        assert after[k] == db[i + 1 + k];
      }
    }
    RecordsOfAbsent(before, year);
    RecordsOfAbsent(after, year);
    RecordsOfAppend(before + [db[i]], after, year);
    RecordsOfAppend(before, [db[i]], year);
    assert RecordsOf([db[i]], year) == db[i].records by {
      assert [db[i]][..0] == [];
    }
  }

  /** In a store with one bucket per year, the last bucket for a year is its only one. */
  lemma {:induction false} LastWithYearUnique(db: seq<YearBucket>, i: nat, year: int)
    requires UniqueYears(db) && i < |db| && db[i].year == year
    ensures LastWithYear(db, year) == Some(db[i])
    decreases |db|
  {
    if i < |db| - 1 {
      assert db[|db| - 1].year != year;
      assert UniqueYears(db[..|db| - 1]);
      assert db[..|db| - 1][i] == db[i];
      LastWithYearUnique(db[..|db| - 1], i, year);
    }
  }

  // ---------------------------------------------------------------------------
  // What one insertion does

  /** Insertion keeps the years and their order; a new year goes at the end. */
  lemma {:induction false} InsertedYears(db: seq<YearBucket>, year: int, r: Record)
    ensures Years(Inserted(db, year, r)) == if HasYear(db, year) then Years(db) else Years(db) + [year]
    decreases |db|
  {
    if db != [] && db[0].year != year {
      InsertedYears(db[1..], year, r);
      assert HasYear(db, year) <==> HasYear(db[1..], year) by {
        if HasYear(db, year) {
          var i :| 0 <= i < |db| && db[i].year == year;
          assert db[1..][i - 1] == db[i];
        }
        if HasYear(db[1..], year) {
          var i :| 0 <= i < |db| - 1 && db[1..][i].year == year;
          assert db[i + 1] == db[1..][i];
        }
      }
    }
    var ys, ys' := Years(db), Years(Inserted(db, year, r));
    if HasYear(db, year) {
      assert ys' == ys;
    } else {
      assert ys' == ys + [year];
    }
  }

  /** Insertion seen from the index of the first bucket for the year, as the loader's scan
      finds it: that bucket gains the record, or, when the scan runs off the end, a new
      bucket is appended. */
  lemma {:induction false} InsertedAt(db: seq<YearBucket>, year: int, r: Record, i: nat)
    requires i <= |db| && forall k :: 0 <= k < i ==> db[k].year != year
    requires i < |db| ==> db[i].year == year
    ensures i < |db| ==> Inserted(db, year, r) == db[i := db[i].(records := db[i].records + [r])]
    ensures i == |db| ==> Inserted(db, year, r) == db + [YearBucket(year, [r])]
    decreases i
  {
    if i > 0 {
      InsertedAt(db[1..], year, r, i - 1);
      if i < |db| {
        assert db[i := db[i].(records := db[i].records + [r])]
          == [db[0]] + db[1..][i - 1 := db[i].(records := db[i].records + [r])];
      } else {
        assert db + [YearBucket(year, [r])] == [db[0]] + (db[1..] + [YearBucket(year, [r])]);
      }
    } else if i < |db| {
      assert db[0 := db[0].(records := db[0].records + [r])] == [db[0].(records := db[0].records + [r])] + db[1..];
    }
  }

  /** Insertion leaves every bucket of another year exactly as it was, at the same place. */
  lemma {:induction false} InsertedKeepsOthers(db: seq<YearBucket>, year: int, r: Record, k: nat)
    requires k < |db| && db[k].year != year
    ensures k < |Inserted(db, year, r)| && Inserted(db, year, r)[k] == db[k]
    decreases |db|
  {
    if k > 0 && db[0].year != year {
      InsertedKeepsOthers(db[1..], year, r, k - 1);
    }
  }

  /** Insertion adds exactly one record to the store. */
  lemma {:induction false} InsertedTotal(db: seq<YearBucket>, year: int, r: Record)
    ensures TotalRecords(Inserted(db, year, r)) == TotalRecords(db) + 1
    decreases |db|
  {
    if db == [] {
      assert TotalRecords([YearBucket(year, [r])]) == 1 by {
        assert [YearBucket(year, [r])][..0] == [];
      }
    } else {
      var b := db[0];
      assert db == [b] + db[1..];
      TotalRecordsAppend([b], db[1..]);
      assert TotalRecords([b]) == |b.records| by { assert [b][..0] == []; }
      if b.year == year {
        var b' := b.(records := b.records + [r]);
        TotalRecordsAppend([b'], db[1..]);
        assert TotalRecords([b']) == |b'.records| by { assert [b'][..0] == []; }
      } else {
        InsertedTotal(db[1..], year, r);
        TotalRecordsAppend([b], Inserted(db[1..], year, r));
      }
    }
  }

  /** The records of any other year are unchanged by an insertion. */
  lemma {:induction false} InsertedOtherYear(db: seq<YearBucket>, year: int, r: Record, other: int)
    requires other != year
    ensures RecordsOf(Inserted(db, year, r), other) == RecordsOf(db, other)
    decreases |db|
  {
    if db == [] {
      assert RecordsOf([YearBucket(year, [r])], other) == [] by {
        assert [YearBucket(year, [r])][..0] == [];
      }
    } else {
      var b := db[0];
      assert db == [b] + db[1..];
      RecordsOfAppend([b], db[1..], other);
      if b.year == year {
        var b' := b.(records := b.records + [r]);
        RecordsOfAppend([b'], db[1..], other);
        assert RecordsOf([b], other) == [] == RecordsOf([b'], other) by {
          assert [b][..0] == [] && [b'][..0] == [];
        }
      } else {
        InsertedOtherYear(db[1..], year, r, other);
        RecordsOfAppend([b], Inserted(db[1..], year, r), other);
      }
    }
  }

  /** In a store with one bucket per year, an insertion puts the record at the end of
      that year's records. */
  lemma {:induction false} InsertedSameYear(db: seq<YearBucket>, year: int, r: Record)
    requires UniqueYears(db)
    ensures RecordsOf(Inserted(db, year, r), year) == RecordsOf(db, year) + [r]
    decreases |db|
  {
    if db == [] {
      assert RecordsOf([YearBucket(year, [r])], year) == [r] by {
        assert [YearBucket(year, [r])][..0] == [];
      }
    } else {
      var b := db[0];
      assert db == [b] + db[1..];
      RecordsOfAppend([b], db[1..], year);
      assert RecordsOf([b], year) == (if b.year == year then b.records else []) by {
        assert [b][..0] == [];
      }
      if b.year == year {
        var b' := b.(records := b.records + [r]);
        RecordsOfAppend([b'], db[1..], year);
        assert RecordsOf([b'], year) == b'.records by { assert [b'][..0] == []; }
        assert !HasYear(db[1..], year) by {
          forall k | 0 <= k < |db| - 1 ensures db[1..][k].year != year {
            assert db[1..][k] == db[k + 1];
          }
        }
        RecordsOfAbsent(db[1..], year);
      } else {
        InsertedSameYear(db[1..], year, r);
        RecordsOfAppend([b], Inserted(db[1..], year, r), year);
      }
    }
  }

  /** Insertion keeps the store at one bucket per year, and afterwards the year has one. */
  lemma InsertedUnique(db: seq<YearBucket>, year: int, r: Record)
    requires UniqueYears(db)
    ensures UniqueYears(Inserted(db, year, r))
    ensures HasYear(Inserted(db, year, r), year)
  {
    var db' := Inserted(db, year, r);
    InsertedYears(db, year, r);
    var ys, ys' := Years(db), Years(db');
    forall i, j | 0 <= i < j < |db'| ensures db'[i].year != db'[j].year {
      assert ys'[i] == db'[i].year && ys'[j] == db'[j].year;
      if j < |db| {
        assert ys'[i] == ys[i] && ys'[j] == ys[j];
      }
    }
    if HasYear(db, year) {
      var i :| 0 <= i < |db| && db[i].year == year;
      assert ys'[i] == year;
    } else {
      assert ys'[|db|] == year;
    }
  }

  /** Insertion never leaves an empty bucket behind: it either extends a bucket or adds a
      one-record bucket. */
  lemma {:induction false} InsertedNonEmpty(db: seq<YearBucket>, year: int, r: Record)
    requires NonEmptyBuckets(db)
    ensures NonEmptyBuckets(Inserted(db, year, r))
    decreases |db|
  {
    if db != [] && db[0].year != year {
      assert NonEmptyBuckets(db[1..]) by {
        forall k | 0 <= k < |db| - 1 ensures |db[1..][k].records| > 0 {
          assert db[1..][k] == db[k + 1];
        }
      }
      InsertedNonEmpty(db[1..], year, r);
      var rest := Inserted(db[1..], year, r);
      forall k | 0 <= k < |rest| + 1 ensures |([db[0]] + rest)[k].records| > 0 {
        if k > 0 {
          assert ([db[0]] + rest)[k] == rest[k - 1];
        }
      }
    }
  }

  /** The bucket a scan for a present year ends on holds records. */
  lemma LastWithYearNonEmpty(db: seq<YearBucket>, year: int)
    requires NonEmptyBuckets(db) && HasYear(db, year)
    ensures |LastWithYear(db, year).value.records| > 0
  {
    var b := LastWithYear(db, year).value;
    var i :| 0 <= i < |db| && db[i] == b;
  }

  // ---------------------------------------------------------------------------
  // What the whole load builds

  /** Loading rows into a store with one bucket per year keeps one bucket per year, and
      each year's records become the old ones followed by that year's rows in file order. */
  lemma {:induction false} LoadAllGroups(db: seq<YearBucket>, rows: seq<(int, Record)>, year: int)
    requires UniqueYears(db)
    ensures UniqueYears(LoadAll(db, rows))
    ensures RecordsOf(LoadAll(db, rows), year) == RecordsOf(db, year) + RowsOfYear(rows, year)
    decreases |rows|
  {
    if rows == [] {
      assert RecordsOf(db, year) + [] == RecordsOf(db, year);
    } else {
      var prefix, last := rows[..|rows| - 1], rows[|rows| - 1];
      LoadAllGroups(db, prefix, year);
      var mid := LoadAll(db, prefix);
      InsertedUnique(mid, last.0, last.1);
      if last.0 == year {
        InsertedSameYear(mid, year, last.1);
      } else {
        InsertedOtherYear(mid, last.0, last.1, year);
      }
    }
  }

  /** Loading rows adds exactly one record per row. */
  lemma {:induction false} LoadAllTotal(db: seq<YearBucket>, rows: seq<(int, Record)>)
    ensures TotalRecords(LoadAll(db, rows)) == TotalRecords(db) + |rows|
    decreases |rows|
  {
    if rows != [] {
      LoadAllTotal(db, rows[..|rows| - 1]);
      InsertedTotal(LoadAll(db, rows[..|rows| - 1]), rows[|rows| - 1].0, rows[|rows| - 1].1);
    }
  }

  /** Loading rows never leaves an empty bucket behind. */
  lemma {:induction false} LoadAllNonEmpty(db: seq<YearBucket>, rows: seq<(int, Record)>)
    requires NonEmptyBuckets(db)
    ensures NonEmptyBuckets(LoadAll(db, rows))
    decreases |rows|
  {
    if rows != [] {
      LoadAllNonEmpty(db, rows[..|rows| - 1]);
      InsertedNonEmpty(LoadAll(db, rows[..|rows| - 1]), rows[|rows| - 1].0, rows[|rows| - 1].1);
    }
  }
}
