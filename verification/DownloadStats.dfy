/** Daily download counters (`app/repositories/download_stat_repository.py`). */
module DownloadStats {
  import opened Prelude

  /** A download_stats row, without its keys. */
  datatype Daily = Daily(downloads: nat, successful: nat, blocked: nat) {
    function Plus(that: Daily): Daily {
      Daily(downloads + that.downloads, successful + that.successful, blocked + that.blocked)
    }
  }

  const ZERO := Daily(0, 0, 0)
  const AUTHORIZED := Daily(1, 1, 0)
  const BLOCKED := Daily(0, 0, 1)

  /** The rows of one file, by day. */
  type Days = map<int, Daily>

  /** The table, by file and then by day: the pair of file and day is unique. */
  type Stats = map<nat, Days>

  function DaysOf(stats: Stats, file: nat): Days {
    if file in stats then stats[file] else map[]
  }

  /** The rows left when a file is deleted: the foreign key cascades. */
  function WithoutFile(stats: Stats, file: nat): Stats {
    stats - {file}
  }

  function Upserted(stats: Stats, file: nat, day: int, increment: Daily): Stats {
    stats[file := Bumped(DaysOf(stats, file), day, increment)]
  }

  /** The effect of one increment on the rows of a file. */
  function Bumped(days: Days, day: int, increment: Daily): Days {
    days[day := (if day in days then days[day] else ZERO).Plus(increment)]
  }

  /** Column sums over the given days. */
  ghost function Sum(days: Days, over: set<int>): Daily
    requires over <= days.Keys
  {
    if over == {} then ZERO else
      var day := Pick(over);
      days[day].Plus(Sum(days, over - {day}))
  }

  ghost function Total(days: Days): Daily {
    Sum(days, days.Keys)
  }

  /** The sum does not depend on the order in which the days are taken. */
  lemma {:induction false} SumWithout(days: Days, over: set<int>, day: int)
    requires day in over && over <= days.Keys
    ensures Sum(days, over) == days[day].Plus(Sum(days, over - {day}))
    decreases over
  {
    var first := Pick(over);
    if first != day {
      SumWithout(days, over - {first}, day);
      SumWithout(days, over - {day}, first);
      assert over - {first} - {day} == over - {day} - {first};
    }
  }

  lemma {:induction false} SumDependsOnDays(days: Days, others: Days, over: set<int>)
    requires over <= days.Keys && over <= others.Keys
    requires forall d :: d in over ==> days[d] == others[d]
    ensures Sum(days, over) == Sum(others, over)
    decreases over
  {
    if over != {} {
      var day := Pick(over);
      SumWithout(days, over, day);
      SumWithout(others, over, day);
      SumDependsOnDays(days, others, over - {day});
    }
  }

  /** The days other than the one counted are summed as before. */
  lemma OtherDaysStay(days: Days, day: int, increment: Daily)
    ensures var after, others := Bumped(days, day, increment), days.Keys - {day};
            && after.Keys - {day} == others
            && Total(after) == after[day].Plus(Sum(days, others))
  {
    var after, others := Bumped(days, day, increment), days.Keys - {day};
    assert after.Keys - {day} == others;
    SumWithout(after, after.Keys, day);
    SumDependsOnDays(days, after, others);
  }

  lemma SumOfEqualSets(days: Days, a: set<int>, b: set<int>)
    requires a == b && a <= days.Keys
    ensures Sum(days, a) == Sum(days, b)
  {
  }

  lemma AbsentDay(days: Days, day: int)
    requires day !in days
    ensures Total(days) == Sum(days, days.Keys - {day})
  {
    hide Sum;
    SumOfEqualSets(days, days.Keys, days.Keys - {day});
  }

  lemma PresentDay(days: Days, day: int)
    requires day in days
    ensures Total(days) == days[day].Plus(Sum(days, days.Keys - {day}))
  {
    SumWithout(days, days.Keys, day);
  }

  lemma TotalSplits(days: Days, day: int)
    ensures Total(days) == (if day in days then days[day] else ZERO).Plus(Sum(days, days.Keys - {day}))
  {
    hide Total, Sum;
    if day in days {
      PresentDay(days, day);
    } else {
      AbsentDay(days, day);
    }
  }

  /** An increment adds exactly itself to the totals, whether or not the day already had a row. */
  lemma BumpAddsToTotal(days: Days, day: int, increment: Daily)
    ensures Total(Bumped(days, day, increment)) == Total(days).Plus(increment)
  {
    hide Total, Sum;
    OtherDaysStay(days, day, increment);
    TotalSplits(days, day);
  }

  class DownloadStatRepository {
    var rows: Stats

    constructor ()
      ensures rows == map[]
    {
      rows := map[];
    }

    /** _upsert_daily. The two dialects take different routes to the same rows. */
    method UpsertDaily(file: nat, day: int, increment: Daily, sqlite: bool)
      modifies this
      ensures rows == Upserted(old(rows), file, day, increment)
    {
      var days := DaysOf(rows, file);
      if sqlite {
        // INSERT ... ON CONFLICT DO UPDATE
        if day !in days {
          rows := rows[file := days[day := increment]];
        } else {
          rows := rows[file := days[day := Daily(days[day].downloads + increment.downloads,
                                                 days[day].successful + increment.successful,
                                                 days[day].blocked + increment.blocked)]];
        }
        return;
      }
      if day !in days {
        rows := rows[file := days[day := increment]];
        return;
      }
      var current := days[day];
      current := current.(downloads := current.downloads + increment.downloads);
      current := current.(successful := current.successful + increment.successful);
      current := current.(blocked := current.blocked + increment.blocked);
      rows := rows[file := days[day := current]];
    }
  }
}
