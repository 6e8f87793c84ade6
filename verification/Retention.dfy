/** Which backups retention keeps, on a ranking of the valid ones (`app/services/backup_service.py`). */
module Retention {
  import opened BackupVerify

  ghost predicate NewestFirst(ranking: seq<BackupReport>) {
    forall i, j :: 0 <= i < j < |ranking| ==> ranking[i].createdAt >= ranking[j].createdAt
  }

  /** Stable insertion by descending creation time. */
  function Inserted(ranking: seq<BackupReport>, report: BackupReport): seq<BackupReport> {
    if ranking == [] then [report]
    else if ranking[0].createdAt >= report.createdAt then [ranking[0]] + Inserted(ranking[1..], report)
    else [report] + ranking
  }

  /** Where a report is inserted: before the first older one. */
  lemma {:induction false} InsertedAt(ranking: seq<BackupReport>, report: BackupReport) returns (k: nat)
    ensures k <= |ranking| && Inserted(ranking, report) == ranking[..k] + [report] + ranking[k..]
    ensures forall i :: 0 <= i < k ==> ranking[i].createdAt >= report.createdAt
    ensures k < |ranking| ==> ranking[k].createdAt < report.createdAt
  {
    k := 0;
    if ranking != [] && ranking[0].createdAt >= report.createdAt {
      k := InsertedAt(ranking[1..], report);
      assert ranking[1..][..k] == ranking[1..k + 1] && ranking[1..][k..] == ranking[k + 1..];
      assert ranking[..k + 1] == [ranking[0]] + ranking[1..k + 1];
      assert k < |ranking[1..]| ==> ranking[1..][k] == ranking[k + 1];
      forall i | 0 < i < k + 1
        ensures ranking[i].createdAt >= report.createdAt
      {
        assert ranking[i] == ranking[1..][i - 1];
      }
      k := k + 1;
    }
  }

  lemma InsertedPositions(ranking: seq<BackupReport>, report: BackupReport) returns (k: nat, placed: seq<BackupReport>)
    ensures placed == Inserted(ranking, report) && |placed| == |ranking| + 1 && k <= |ranking| && placed[k] == report
    ensures forall i :: 0 <= i < k ==> placed[i] == ranking[i] && ranking[i].createdAt >= report.createdAt
    ensures forall i {:trigger placed[i]} :: k < i <= |ranking| ==> placed[i] == ranking[i - 1]
    ensures forall i {:trigger ranking[i]} :: k <= i < |ranking| ==> placed[i + 1] == ranking[i]
    ensures k < |ranking| ==> ranking[k].createdAt < report.createdAt
  {
    k := InsertedAt(ranking, report);
    placed := Inserted(ranking, report);
  }

  /** Insertion keeps the order. */
  lemma InsertionSorts(ranking: seq<BackupReport>, report: BackupReport)
    requires NewestFirst(ranking)
    ensures NewestFirst(Inserted(ranking, report))
  {
    var k, placed := InsertedPositions(ranking, report);
    assert NewestFirst(placed);
  }

  lemma InsertionKeepsIdsDistinct(ranking: seq<BackupReport>, report: BackupReport)
    requires DistinctIds(ranking) && !Holds(ranking, 0, report.backupId)
    ensures DistinctIds(Inserted(ranking, report))
  {
    var k, placed := InsertedPositions(ranking, report);
    assert DistinctIds(placed);
  }

  lemma InsertionAdds(ranking: seq<BackupReport>, report: BackupReport, other: BackupReport)
    ensures other in Inserted(ranking, report) <==> other in ranking || other == report
  {
    var k, placed := InsertedPositions(ranking, report);
    if other in ranking {
      var i :| 0 <= i < |ranking| && ranking[i] == other;
      assert placed[if i < k then i else i + 1] == other;
    }
  }

  /** Some report from position `lo` on has this identifier. */
  ghost predicate Holds(ranking: seq<BackupReport>, lo: nat, id: string) {
    exists i :: lo <= i < |ranking| && ranking[i].backupId == id
  }

  ghost predicate DistinctIds(ranking: seq<BackupReport>) {
    forall i, j :: 0 <= i < j < |ranking| ==> ranking[i].backupId != ranking[j].backupId
  }

  function Unprotected(ranking: seq<BackupReport>, protected: set<string>): seq<string> {
    if ranking == [] then []
    else (if ranking[0].backupId in protected then [] else [ranking[0].backupId]) + Unprotected(ranking[1..], protected)
  }

  /** The backups beyond the newest `keep`, except the protected ones. */
  function Eligible(ranking: seq<BackupReport>, keep: nat, protected: set<string>): seq<string> {
    if |ranking| <= keep then [] else Unprotected(ranking[keep..], protected)
  }

  lemma {:induction false} UnprotectedMembers(ranking: seq<BackupReport>, protected: set<string>, id: string)
    ensures id in Unprotected(ranking, protected) <==> id !in protected && Holds(ranking, 0, id)
  {
    if ranking != [] {
      UnprotectedMembers(ranking[1..], protected, id);
      HoldsInTail(ranking, 1, id);
      assert Holds(ranking, 0, id) <==> ranking[0].backupId == id || Holds(ranking, 1, id);
    }
  }

  lemma HoldsInTail(ranking: seq<BackupReport>, lo: nat, id: string)
    requires lo <= |ranking|
    ensures Holds(ranking[lo..], 0, id) <==> Holds(ranking, lo, id)
  {
    if Holds(ranking, lo, id) {
      var i :| lo <= i < |ranking| && ranking[i].backupId == id;
      assert ranking[lo..][i - lo].backupId == id;
    }
  }

  /** What is eligible: the unprotected backups beyond the newest `keep`. */
  lemma EligibleExactly(ranking: seq<BackupReport>, keep: nat, protected: set<string>, id: string)
    ensures id in Eligible(ranking, keep, protected) <==> id !in protected && Holds(ranking, keep, id)
  {
    if keep < |ranking| {
      UnprotectedMembers(ranking[keep..], protected, id);
      HoldsInTail(ranking, keep, id);
    }
  }

  /** Each of the newest `keep` stays, and so does every protected backup; nothing that is deleted is
      newer than one of the newest `keep`. */
  lemma RetentionKeepsTheNewest(ranking: seq<BackupReport>, keep: nat, protected: set<string>, i: nat, id: string)
    requires NewestFirst(ranking) && DistinctIds(ranking) && i < keep && i < |ranking|
    ensures ranking[i].backupId !in Eligible(ranking, keep, protected)
    ensures id in protected ==> id !in Eligible(ranking, keep, protected)
    ensures id in Eligible(ranking, keep, protected) ==>
              exists j :: i < j < |ranking| && ranking[j].backupId == id && ranking[j].createdAt <= ranking[i].createdAt
  {
    EligibleExactly(ranking, keep, protected, ranking[i].backupId);
    EligibleExactly(ranking, keep, protected, id);
  }

  // ---- A second pass ----

  ghost predicate StrictlyNewestFirst(ranking: seq<BackupReport>) {
    forall i, j :: 0 <= i < j < |ranking| ==> ranking[i].createdAt > ranking[j].createdAt
  }

  function Survivors(ranking: seq<BackupReport>, gone: seq<string>): seq<BackupReport> {
    if ranking == [] then []
    else (if ranking[0].backupId in gone then [] else [ranking[0]]) + Survivors(ranking[1..], gone)
  }

  lemma {:induction false} SurvivorMembers(ranking: seq<BackupReport>, gone: seq<string>, report: BackupReport)
    ensures report in Survivors(ranking, gone) <==> report in ranking && report.backupId !in gone
  {
    if ranking != [] {
      SurvivorMembers(ranking[1..], gone, report);
      assert ranking == [ranking[0]] + ranking[1..];
    }
  }

  lemma {:induction false} SurvivorsStayRanked(ranking: seq<BackupReport>, gone: seq<string>)
    requires StrictlyNewestFirst(ranking)
    ensures StrictlyNewestFirst(Survivors(ranking, gone))
    ensures forall i :: 0 <= i < |Survivors(ranking, gone)| ==> Survivors(ranking, gone)[i].createdAt <= ranking[0].createdAt
  {
    if ranking != [] {
      SurvivorsStayRanked(ranking[1..], gone);
    }
  }

  lemma SameTail(a: seq<BackupReport>, r: BackupReport)
    requires a != [] && StrictlyNewestFirst(a)
    ensures r in a[1..] <==> r in a && r != a[0]
  {
    assert a == [a[0]] + a[1..];
  }

  lemma SameFirst(a: seq<BackupReport>, b: seq<BackupReport>)
    requires StrictlyNewestFirst(a) && StrictlyNewestFirst(b) && a != [] && b != []
    requires a[0] in b && b[0] in a
    ensures a[0] == b[0]
  {
    var i :| 0 <= i < |b| && b[i] == a[0];
    var j :| 0 <= j < |a| && a[j] == b[0];
  }

  /** A strict ranking is determined by its members. */
  lemma {:induction false} StrictRankingsAgree(a: seq<BackupReport>, b: seq<BackupReport>)
    requires StrictlyNewestFirst(a) && StrictlyNewestFirst(b) && forall r :: r in a <==> r in b
    ensures a == b
  {
    assert a != [] ==> a[0] in a;
    assert b != [] ==> b[0] in b;
    if a != [] && b != [] {
      SameFirst(a, b);
      forall r
        ensures r in a[1..] <==> r in b[1..]
      {
        SameTail(a, r);
        SameTail(b, r);
      }
      StrictRankingsAgree(a[1..], b[1..]);
      assert a == [a[0]] + a[1..] && b == [b[0]] + b[1..];
    }
  }

  lemma {:induction false} SurvivorsConcat(a: seq<BackupReport>, b: seq<BackupReport>, gone: seq<string>)
    ensures Survivors(a + b, gone) == Survivors(a, gone) + Survivors(b, gone)
  {
    if a == [] {
      assert a + b == b;
    } else {
      assert (a + b)[1..] == a[1..] + b;
      SurvivorsConcat(a[1..], b, gone);
    }
  }

  lemma {:induction false} AllSurvive(a: seq<BackupReport>, gone: seq<string>)
    requires forall i :: 0 <= i < |a| ==> a[i].backupId !in gone
    ensures Survivors(a, gone) == a
  {
    if a != [] {
      AllSurvive(a[1..], gone);
      assert a == [a[0]] + a[1..];
    }
  }

  lemma {:induction false} NothingUnprotected(a: seq<BackupReport>, protected: set<string>)
    requires forall i :: 0 <= i < |a| ==> a[i].backupId in protected
    ensures Unprotected(a, protected) == []
  {
    if a != [] {
      NothingUnprotected(a[1..], protected);
    }
  }

  /** What survives of a ranking: the newest `keep`, then only protected backups. */
  lemma SurvivorsSplit(ranking: seq<BackupReport>, keep: nat, protected: set<string>)
    requires DistinctIds(ranking) && keep <= |ranking|
    ensures var gone := Eligible(ranking, keep, protected);
            Survivors(ranking, gone) == ranking[..keep] + Survivors(ranking[keep..], gone)
    ensures forall i :: 0 <= i < |Survivors(ranking[keep..], Eligible(ranking, keep, protected))| ==>
              Survivors(ranking[keep..], Eligible(ranking, keep, protected))[i].backupId in protected
  {
    hide Eligible, Unprotected, Survivors;
    var gone := Eligible(ranking, keep, protected);
    var top, older := ranking[..keep], ranking[keep..];
    assert ranking == top + older;
    SurvivorsConcat(top, older, gone);
    forall i | 0 <= i < |top|
      ensures top[i].backupId !in gone
    {
      EligibleExactly(ranking, keep, protected, top[i].backupId);
    }
    AllSurvive(top, gone);
    var left := Survivors(older, gone);
    forall i | 0 <= i < |left|
      ensures left[i].backupId in protected
    {
      SurvivorMembers(older, gone, left[i]);
      var k :| 0 <= k < |older| && older[k] == left[i];
      assert ranking[keep + k] == left[i];
      EligibleExactly(ranking, keep, protected, left[i].backupId);
    }
  }

  /** With distinct creation times, a second pass with the same protected set has nothing to delete:
      `second` ranks what the first pass left. */
  lemma SecondPassDeletesNothing(first: seq<BackupReport>, second: seq<BackupReport>, keep: nat, protected: set<string>)
    requires StrictlyNewestFirst(first) && StrictlyNewestFirst(second) && DistinctIds(first)
    requires forall r :: r in second <==> r in first && r.backupId !in Eligible(first, keep, protected)
    ensures Eligible(second, keep, protected) == []
  {
    hide Survivors, Unprotected;
    var gone := Eligible(first, keep, protected);
    SurvivorsStayRanked(first, gone);
    forall r
      ensures r in second <==> r in Survivors(first, gone)
    {
      SurvivorMembers(first, gone, r);
    }
    StrictRankingsAgree(second, Survivors(first, gone));
    if keep < |first| {
      SurvivorsSplit(first, keep, protected);
      var left := Survivors(first[keep..], gone);
      NothingUnprotected(left, protected);
      assert second[keep..] == left;
    } else {
      AllSurvive(first, gone);
    }
  }
}
