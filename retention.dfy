/**
 * The retention sweep (Server.cleanupOldLogs): from a listing of the log
 * directory, remove every file that is not a directory, ends in ".log",
 * parses as an hour bucket and starts strictly before `now` minus the
 * retention window.
 *
 * Time is the wall clock of the log zone: an hour bucket is numbered by
 * the hours since 0000-01-01T00 of the proleptic Gregorian calendar, and
 * instants are nanoseconds on the same scale.
 */
module Retention {
  import opened Strings
  import opened Wrappers
  import opened LogNames

  /** `retentionHours` of the server: seven days. */
  const RetentionHours := 168

  /** Days from 0000-01-01 to January 1 of `year`. */
  function DaysBeforeYear(year: int): int
    requires year >= 0
  {
    if year == 0 then 0 else DaysBeforeYear(year - 1) + (if IsLeap(year - 1) then 366 else 365)
  }

  /** Days from January 1 to the first of `month` in `year`; month 13 gives the year's length. */
  function DaysBeforeMonth(month: int, year: int): int
    requires 1 <= month <= 13
    decreases month
  {
    if month == 1 then 0 else DaysBeforeMonth(month - 1, year) + DaysIn(month - 1, year)
  }

  /** The number of the hour `b` on the wall-clock scale. */
  function HourNumber(b: Bucket): int
    requires ValidBucket(b)
  {
    (DaysBeforeYear(b.year) + DaysBeforeMonth(b.month, b.year) + b.day - 1) * 24 + b.hour
  }

  /** The hour after `b` on the calendar. */
  function NextHour(b: Bucket): (n: Bucket)
    requires ValidBucket(b) && b.year < 9999
    ensures ValidBucket(n)
  {
    if b.hour < 23 then b.(hour := b.hour + 1)
    else if b.day < DaysIn(b.month, b.year) then b.(day := b.day + 1, hour := 0)
    else if b.month < 12 then Bucket(b.year, b.month + 1, 1, 0)
    else Bucket(b.year + 1, 1, 1, 0)
  }

  /** The months of a year add up to 366 days in a leap year and 365 otherwise. */
  lemma YearLength(year: int)
    ensures DaysBeforeMonth(13, year) == if IsLeap(year) then 366 else 365
  {
    assert DaysBeforeMonth(2, year) == 31;
    assert DaysBeforeMonth(4, year) == 59 + (if IsLeap(year) then 1 else 0) + 31;
    assert DaysBeforeMonth(7, year) == DaysBeforeMonth(4, year) + 30 + 31 + 30;
    assert DaysBeforeMonth(10, year) == DaysBeforeMonth(7, year) + 31 + 31 + 30;
  }

  /** Consecutive hours on the calendar have consecutive numbers: the numbering skips and repeats nothing. */
  lemma NextHourNumber(b: Bucket)
    requires ValidBucket(b) && b.year < 9999
    ensures HourNumber(NextHour(b)) == HourNumber(b) + 1
  {
    if b.hour == 23 && b.day == DaysIn(b.month, b.year) && b.month == 12 {
      YearLength(b.year);
    }
  }

  /** The instant `m` on the nanosecond scale. */
  function Instant(m: Moment): int
    requires ValidMoment(m)
  {
    HourNumber(m.bucket) * NanosPerHour + m.nanos
  }

  /** `now.Add(-retentionHours * time.Hour)`: the instant lying the retention window before now. */
  function Cutoff(now: Moment, retentionHours: int): (c: int)
    requires ValidMoment(now)
    ensures Instant(now) - c == retentionHours * NanosPerHour
    ensures retentionHours >= 0 ==> c <= Instant(now)
  {
    Instant(now) - retentionHours * NanosPerHour
  }

  /** `t.Before(cutoff)` for the time a bucket's name parses to, the start of its hour. */
  predicate Expired(b: Bucket, now: Moment, retentionHours: int)
    requires ValidBucket(b) && ValidMoment(now)
  {
    HourNumber(b) * NanosPerHour < Cutoff(now, retentionHours)
  }

  /**
   * In whole hours: a bucket expires when it is more than the window older
   * than the current hour, or exactly the window older once the current
   * hour has begun to run.
   */
  lemma ExpiredInHours(b: Bucket, now: Moment, retentionHours: int)
    requires ValidBucket(b) && ValidMoment(now)
    ensures Expired(b, now, retentionHours) <==>
      || HourNumber(b) + retentionHours < HourNumber(now.bucket)
      || (HourNumber(b) + retentionHours == HourNumber(now.bucket) && now.nanos > 0)
  {
    var x := HourNumber(b) + retentionHours - HourNumber(now.bucket);
    assert HourNumber(b) * NanosPerHour - Cutoff(now, retentionHours) == x * NanosPerHour - now.nanos;
    if x >= 1 {
      assert x * NanosPerHour >= NanosPerHour;
    } else if x <= -1 {
      assert x * NanosPerHour <= -NanosPerHour;
    }
  }

  /** The bucket the writer is appending to at `now` is never expired when the window is an hour or more. */
  lemma CurrentBucketNotExpired(now: Moment, retentionHours: int)
    requires ValidMoment(now) && retentionHours >= 1
    ensures !Expired(now.bucket, now, retentionHours)
  {
    ExpiredInHours(now.bucket, now, retentionHours);
  }

  /** One entry of os.ReadDir. */
  datatype DirEntry = DirEntry(name: string, isDir: bool)

  /** The loop's tests on one entry, in the order the source makes them. */
  predicate ShouldRemove(e: DirEntry, now: Moment, retentionHours: int)
    requires ValidMoment(now)
  {
    && !e.isDir
    && HasSuffix(e.name, ".log")
    && ParseBucket(e.name).Some?
    && Expired(ParseBucket(e.name).value, now, retentionHours)
  }

  /** The names the sweep tries to remove, in listing order. */
  function Selected(entries: seq<DirEntry>, now: Moment, retentionHours: int): seq<string>
    requires ValidMoment(now)
  {
    if |entries| == 0 then []
    else
      var e := entries[|entries| - 1];
      Selected(entries[..|entries| - 1], now, retentionHours) + (if ShouldRemove(e, now, retentionHours) then [e.name] else [])
  }

  /** The names among `names` whose removal succeeded. */
  function Succeeded(names: seq<string>, removeOk: string -> bool): seq<string>
  {
    if |names| == 0 then []
    else Succeeded(names[..|names| - 1], removeOk) + (if removeOk(names[|names| - 1]) then [names[|names| - 1]] else [])
  }

  /** The listing once the names `removed` are gone. */
  function Remaining(entries: seq<DirEntry>, removed: seq<string>): seq<DirEntry>
  {
    if |entries| == 0 then []
    else
      var e := entries[|entries| - 1];
      Remaining(entries[..|entries| - 1], removed) + (if e.name in removed then [] else [e])
  }

  /**
   * Server.cleanupOldLogs over the listing os.ReadDir returned (None when
   * it failed); `removeOk` says which os.Remove calls succeed. Returns the
   * names it tried to remove and those it removed.
   */
  method CleanupOldLogs(listing: Option<seq<DirEntry>>, now: Moment, retentionHours: int, removeOk: string -> bool)
    returns (attempted: seq<string>, removed: seq<string>)
    requires ValidMoment(now)
    ensures listing.None? ==> attempted == [] && removed == []
    ensures listing.Some? ==> attempted == Selected(listing.value, now, retentionHours)
    ensures removed == Succeeded(attempted, removeOk)
  {
    attempted, removed := [], [];
    if listing.None? {
      return;
    }
    var entries := listing.value;
    var cutoff := Cutoff(now, retentionHours);
    for i := 0 to |entries|
      invariant attempted == Selected(entries[..i], now, retentionHours)
      invariant removed == Succeeded(attempted, removeOk)
    {
      assert entries[..i + 1][..i] == entries[..i];
      var entry := entries[i];
      if entry.isDir {
        continue;
      }
      var name := entry.name;
      if !HasSuffix(name, ".log") {
        continue;
      }
      var t := ParseBucket(name);
      if t.None? {
        continue;
      }
      if HourNumber(t.value) * NanosPerHour < cutoff {
        attempted := attempted + [name];
        if removeOk(name) {
          removed := removed + [name];
        }
      }
    }
    assert entries[..|entries|] == entries;
  }

  /** The sweep tries to remove a name exactly when some entry of that name passes every test. */
  lemma {:induction false} SelectedExactly(entries: seq<DirEntry>, now: Moment, retentionHours: int, name: string)
    requires ValidMoment(now)
    ensures name in Selected(entries, now, retentionHours) <==>
      exists e :: e in entries && e.name == name && ShouldRemove(e, now, retentionHours)
    decreases |entries|
  {
    if |entries| > 0 {
      var init := entries[..|entries| - 1];
      var last := entries[|entries| - 1];
      SelectedExactly(init, now, retentionHours, name);
      assert entries == init + [last];
      var before := Selected(init, now, retentionHours);
      var keep := ShouldRemove(last, now, retentionHours);
      assert Selected(entries, now, retentionHours) == before + (if keep then [last.name] else []);
      if name in Selected(entries, now, retentionHours) {
        if name in before {
          var e :| e in init && e.name == name && ShouldRemove(e, now, retentionHours);
          assert e in entries;
        } else {
          assert last in entries && last.name == name && keep;
        }
      } else {
        forall e | e in entries && e.name == name
          ensures !ShouldRemove(e, now, retentionHours)
        {
          if e !in init {
            assert e == last;
          }
        }
      }
    }
  }

  /** Entry names are unique, as in a directory. */
  predicate UniqueNames(entries: seq<DirEntry>)
  {
    forall i, j :: 0 <= i < j < |entries| ==> entries[i].name != entries[j].name
  }

  /** Directories, names without ".log", unparsable names and recent buckets are never touched. */
  lemma Untouched(entries: seq<DirEntry>, now: Moment, retentionHours: int, e: DirEntry)
    requires ValidMoment(now) && UniqueNames(entries) && e in entries
    requires || e.isDir
             || !HasSuffix(e.name, ".log")
             || ParseBucket(e.name).None?
             || !Expired(ParseBucket(e.name).value, now, retentionHours)
    ensures e.name !in Selected(entries, now, retentionHours)
  {
    forall f | f in entries && f.name == e.name ensures f == e {
      var i :| 0 <= i < |entries| && entries[i] == e;
      var j :| 0 <= j < |entries| && entries[j] == f;
    }
    SelectedExactly(entries, now, retentionHours, e.name);
  }

  /** The succeeded names are those of `names` whose removal succeeded. */
  lemma {:induction false} SucceededExactly(names: seq<string>, removeOk: string -> bool, n: string)
    ensures n in Succeeded(names, removeOk) <==> n in names && removeOk(n)
    decreases |names|
  {
    if |names| > 0 {
      var init := names[..|names| - 1];
      SucceededExactly(init, removeOk, n);
      assert names == init + [names[|names| - 1]];
    }
  }

  /** An entry survives removal exactly when its name was not removed. */
  lemma {:induction false} RemainingExactly(entries: seq<DirEntry>, removed: seq<string>, e: DirEntry)
    ensures e in Remaining(entries, removed) <==> e in entries && e.name !in removed
    decreases |entries|
  {
    if |entries| > 0 {
      var init := entries[..|entries| - 1];
      RemainingExactly(init, removed, e);
      assert entries == init + [entries[|entries| - 1]];
    }
  }

  /**
   * A second sweep with the same `now` over what the first left behind
   * tries only the names whose removal failed; when every removal
   * succeeded it removes nothing.
   */
  lemma SecondSweep(entries: seq<DirEntry>, now: Moment, retentionHours: int, removeOk: string -> bool)
    requires ValidMoment(now)
    ensures var first := Selected(entries, now, retentionHours);
      var rest := Remaining(entries, Succeeded(first, removeOk));
      forall n :: n in Selected(rest, now, retentionHours) ==> n in first && !removeOk(n)
  {
    var first := Selected(entries, now, retentionHours);
    var removed := Succeeded(first, removeOk);
    var rest := Remaining(entries, removed);
    forall n | n in Selected(rest, now, retentionHours) ensures n in first && !removeOk(n) {
      SelectedExactly(rest, now, retentionHours, n);
      var e :| e in rest && e.name == n && ShouldRemove(e, now, retentionHours);
      RemainingExactly(entries, removed, e);
      SelectedExactly(entries, now, retentionHours, n);
      SucceededExactly(first, removeOk, n);
    }
  }

  /**
   * Once every name the sweep selects is gone, sweeping again with the same
   * `now` selects nothing.
   */
  lemma {:induction false} SweepIdempotent(entries: seq<DirEntry>, now: Moment, retentionHours: int, removed: seq<string>)
    requires ValidMoment(now)
    requires forall n :: n in Selected(entries, now, retentionHours) ==> n in removed
    ensures Selected(Remaining(entries, removed), now, retentionHours) == []
    decreases |entries|
  {
    if |entries| > 0 {
      var init := entries[..|entries| - 1];
      var last := entries[|entries| - 1];
      var sel := Selected(entries, now, retentionHours);
      assert sel == Selected(init, now, retentionHours) + (if ShouldRemove(last, now, retentionHours) then [last.name] else []);
      SweepIdempotent(init, now, retentionHours, removed);
      var rest := Remaining(entries, removed);
      if last.name !in removed {
        assert !ShouldRemove(last, now, retentionHours) by {
          assert ShouldRemove(last, now, retentionHours) ==> last.name in sel;
        }
        assert rest == Remaining(init, removed) + [last];
        assert rest[..|rest| - 1] == Remaining(init, removed);
        assert rest[|rest| - 1] == last;
      } else {
        assert rest == Remaining(init, removed) + [];
        assert rest == Remaining(init, removed);
      }
    }
  }

  /** The file the writer is appending to in the current hour is never swept. */
  lemma CurrentFileKept(now: Moment, retentionHours: int)
    requires ValidMoment(now) && retentionHours >= 1
    ensures !ShouldRemove(DirEntry(CurrentLogName(now), false), now, retentionHours)
  {
    ParseBucketName(now.bucket);
    CurrentBucketNotExpired(now, retentionHours);
  }
}
