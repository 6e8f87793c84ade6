/** The destructive maintenance passes (`app/services/reconciliation_service.py`,
    `app/storage/cleanup.py`). */
module Maintenance {
  import opened Prelude
  import opened StorageState
  import opened Lifecycle
  import opened Interruptions
  import opened FileService
  import opened Reconciliation

  // ---- Orphans ----

  /** What goes wrong with the n-th orphan, the staging name it gets, and where the process stops:
      after staging orphan n, at step 2n, or after removing it, at step 2n + 1. */
  datatype OrphanPlan = OrphanPlan(token: nat -> string, moveFails: nat -> bool, unlinkFails: nat -> bool, stop: Option<nat>) {
    /** Nothing goes wrong, and the staging names are free. */
    ghost predicate Quiet(files: Files) {
      stop == None && forall n :: !moveFails(n) && !unlinkFails(n) && StagingPlace(token(n)) !in files
    }
  }

  datatype OrphanReport = OrphanReport(discovered: seq<Place>, deleted: nat, errors: nat, stopped: bool)

  function Without(s: Snapshot, gone: set<Place>): Snapshot {
    s.(disk := Disk(s.disk.files - gone, s.disk.origin - gone), abandoned := s.abandoned - gone)
  }

  /** One orphan is staged and removed; either step may fail, and the process may stop in between. */
  method CleanOneOrphan(hub: Hub, place: Place, staged: Place, moveFails: bool, unlinkFails: bool, stops: bool)
    returns (deleted: bool)
    requires hub.Valid() && IsStagingPlace(staged) && place in hub.files && IsOrphan(hub.rows, place)
    modifies hub`files, hub`origin, hub`abandoned
    ensures hub.Valid()
    ensures forall other :: other in old(hub.files) && other != place ==>
              other in hub.files && hub.files[other] == old(hub.files[other])
    ensures deleted ==> hub.State() == Without(old(hub.State()), {place})
    ensures !deleted ==>
              || hub.State() == old(hub.State())
              || (CanMove(old(hub.Storage()), place, staged)
                  && hub.State() == old(hub.State()).(disk := Moved(old(hub.Storage()), place, staged), abandoned := old(hub.abandoned) - {place}))
    ensures hub.State() == old(hub.State()) || OrphanStepAt(old(hub.State()), place, staged, hub.State())
    ensures old(Survives(hub.env, hub.rows, hub.Storage())) ==> Survives(hub.env, hub.rows, hub.Storage())
    ensures old(Consistent(hub.env, hub.State())) ==> Consistent(hub.env, hub.State())
    ensures !moveFails && !unlinkFails && !stops && staged !in old(hub.files) ==> deleted
  {
    hide Survives, Consistent, WellFormed;
    ghost var before := hub.State();
    var moved := hub.AtomicMove(place, staged, moveFails);
    if !moved {
      return false;
    }
    OrphanStepsAreSafe(hub.env, before, place, staged);
    hub.abandoned := hub.abandoned - {place};
    if stops {
      return false;
    }
    deleted := hub.UnlinkStaged(staged, unlinkFails);
    StagedAndGone(before.disk, place, staged);
  }

  /** Staging an orphan and removing it take nothing from any row. */
  lemma OrphanStepsAreSafe(env: Env, s: Snapshot, place: Place, staged: Place)
    requires WellFormed(s.disk) && CanMove(s.disk, place, staged) && IsStagingPlace(staged) && IsOrphan(s.rows, place)
    ensures var t := Moved(s.disk, place, staged);
            && (Survives(env, s.rows, s.disk) ==> Survives(env, s.rows, t) && Survives(env, s.rows, Unlinked(t, staged)))
            && (Consistent(env, s) ==>
                  && Consistent(env, s.(disk := t, abandoned := s.abandoned - {place}))
                  && Consistent(env, s.(disk := Unlinked(t, staged), abandoned := s.abandoned - {place})))
  {
    hide Consistent;
    var t := Moved(s.disk, place, staged);
    if Survives(env, s.rows, s.disk) {
      MoveKeepsSurvival(env, s.rows, s.disk, place, staged);
      UnlinkKeepsSurvival(env, s.rows, t, staged);
    }
    if Consistent(env, s) {
      StagingOrphanKeepsConsistency(env, s, place, staged);
      StagedAndGone(s.disk, place, staged);
      RemovingOrphanKeepsConsistency(env, s, place);
    }
  }

  lemma StagingOrphanKeepsConsistency(env: Env, s: Snapshot, place: Place, staged: Place)
    requires Consistent(env, s) && CanMove(s.disk, place, staged) && IsStagingPlace(staged) && IsOrphan(s.rows, place)
    ensures Consistent(env, s.(disk := Moved(s.disk, place, staged), abandoned := s.abandoned - {place}))
  {
    var t := Moved(s.disk, place, staged);
    forall id | id in s.rows
      ensures Settled(env, t, s.rows[id])
    {
      assert Settled(env, s.disk, s.rows[id]) && s.rows[id].path != place.path;
    }
    assert OrphansAreAbandoned(s.rows, t.files, s.abandoned - {place});
  }

  lemma RemovingOrphanKeepsConsistency(env: Env, s: Snapshot, place: Place)
    requires Consistent(env, s) && IsOrphan(s.rows, place)
    ensures Consistent(env, s.(disk := Unlinked(s.disk, place), abandoned := s.abandoned - {place}))
  {
    var t := Unlinked(s.disk, place);
    forall id | id in s.rows
      ensures Settled(env, t, s.rows[id])
    {
      assert Settled(env, s.disk, s.rows[id]) && s.rows[id].path != place.path;
      SettledFrame(env, s.disk, t, s.rows[id]);
    }
    assert OrphansAreAbandoned(s.rows, t.files, s.abandoned - {place});
  }

  /** The loop of cleanup_orphans. */
  method CleanAll(hub: Hub, orphans: seq<Place>, plan: OrphanPlan) returns (deleted: nat, errors: nat, stopped: bool)
    requires hub.Valid()
    requires forall i :: 0 <= i < |orphans| ==> orphans[i] in hub.files && IsOrphan(hub.rows, orphans[i])
    requires forall i, j :: 0 <= i < j < |orphans| ==> orphans[i] != orphans[j]
    modifies hub`files, hub`origin, hub`abandoned
    ensures hub.Valid()
    ensures !stopped ==> deleted + errors == |orphans|
    ensures !stopped && errors == 0 ==> hub.State() == Without(old(hub.State()), set place | place in orphans)
    ensures plan.Quiet(old(hub.files)) ==> !stopped && errors == 0
    ensures OrphansPartly(old(hub.State()), hub.State())
    ensures forall place :: place in old(hub.files) && place !in orphans ==>
              place in hub.files && hub.files[place] == old(hub.files[place])
    ensures stopped ==> plan.stop.Some?
    ensures old(Survives(hub.env, hub.rows, hub.Storage())) ==> Survives(hub.env, hub.rows, hub.Storage())
    ensures old(Consistent(hub.env, hub.State())) ==> Consistent(hub.env, hub.State())
  {
    hide Survives, Consistent, WellFormed, CanMove, Moved, Referenced, Without, OrphansPartly, OrphanStepAt;
    ghost var before := hub.State();
    NoOrphanYet(before);
    WithoutMore(before, {}, {});
    ghost var gone: set<Place> := {};
    deleted, errors := 0, 0;
    for i := 0 to |orphans|
      invariant hub.Valid() && hub.rows == before.rows
      invariant deleted + errors == i
      invariant forall place :: place in gone <==> place in orphans[..i]
      invariant forall place :: place in before.disk.files && place !in gone ==>
                  place in hub.files && hub.files[place] == before.disk.files[place]
      invariant errors == 0 ==> hub.State() == Without(before, gone)
      invariant plan.Quiet(before.disk.files) ==> errors == 0
      invariant OrphansPartly(before, hub.State())
      invariant Survives(hub.env, before.rows, before.disk) ==> Survives(hub.env, hub.rows, hub.Storage())
      invariant Consistent(hub.env, before) ==> Consistent(hub.env, hub.State())
    {
      assert orphans[..i + 1] == orphans[..i] + [orphans[i]];
      var stops := plan.stop == Some(2 * i);
      ghost var previous := hub.State();
      WithoutIsSmaller(before, gone);
      var ok := CleanOneOrphan(hub, orphans[i], StagingPlace(plan.token(i)), plan.moveFails(i), plan.unlinkFails(i), stops);
      if hub.State() != previous {
        OneOrphanMore(before, previous, orphans[i], StagingPlace(plan.token(i)), hub.State());
      }
      WithoutMore(before, gone, {orphans[i]});
      gone := gone + {orphans[i]};
      if stops || plan.stop == Some(2 * i + 1) {
        return deleted, errors, true;
      }
      if ok {
        deleted := deleted + 1;
      } else {
        errors := errors + 1;
      }
    }
    assert orphans[..|orphans|] == orphans;
    assert gone == set place | place in orphans;
    stopped := false;
  }

  /** cleanup_orphans. Every orphan found is either deleted or counted as an error; without errors
      all of them are gone and nothing else has changed. */
  method CleanupOrphans(hub: Hub, dryRun: bool, plan: OrphanPlan) returns (report: OrphanReport)
    requires hub.Valid()
    modifies hub`files, hub`origin, hub`abandoned
    ensures hub.Valid()
    ensures Enumerates(report.discovered, OrphanSet(old(hub.rows), old(hub.files)))
    ensures dryRun ==> hub.State() == old(hub.State()) && report.deleted == report.errors == 0
    ensures !dryRun && !report.stopped ==> report.deleted + report.errors == |report.discovered|
    ensures !dryRun && !report.stopped && report.errors == 0 ==> hub.State() == OrphansCleaned(old(hub.State()))
    ensures forall place :: place in old(hub.files) && !IsOrphan(old(hub.rows), place) ==>
              place in hub.files && hub.files[place] == old(hub.files[place])
    ensures report.stopped ==> plan.stop.Some?
    ensures !dryRun && plan.Quiet(old(hub.files)) ==> !report.stopped && report.errors == 0
    ensures OrphansPartly(old(hub.State()), hub.State())
    ensures old(Survives(hub.env, hub.rows, hub.Storage())) ==> Survives(hub.env, hub.rows, hub.Storage())
    ensures old(Consistent(hub.env, hub.State())) ==> Consistent(hub.env, hub.State())
  {
    hide Survives, Consistent, Without, OrphansCleaned, OrphansPartly;
    ghost var before := hub.State();
    NoOrphanYet(before);
    var orphans := FindOrphans(hub.rows, hub.files);
    report := OrphanReport(orphans, 0, 0, false);
    if dryRun {
      return;
    }
    var deleted, errors, stopped := CleanAll(hub, orphans, plan);
    report := OrphanReport(orphans, deleted, errors, stopped);
    assert (set place | place in orphans) == OrphanSet(before.rows, before.disk.files);
    NoStagedOrphans(before);
  }

  lemma WithoutIsSmaller(s: Snapshot, gone: set<Place>)
    ensures Without(s, gone).disk.files.Keys <= s.disk.files.Keys
  {
  }

  lemma WithoutMore(s: Snapshot, gone: set<Place>, more: set<Place>)
    ensures Without(Without(s, gone), more) == Without(s, gone + more)
    ensures Without(s, {}) == s
  {
    assert s.disk.files - gone - more == s.disk.files - (gone + more);
    assert s.disk.origin - gone - more == s.disk.origin - (gone + more);
    assert s.disk.files - {} == s.disk.files && s.disk.origin - {} == s.disk.origin;
  }

  /** Taking all orphans away at once is what the cleaned state is. */
  lemma NoStagedOrphans(s: Snapshot)
    requires WellFormed(s.disk)
    ensures Without(s, OrphanSet(s.rows, s.disk.files)) == OrphansCleaned(s)
  {
    var gone := OrphanSet(s.rows, s.disk.files);
    assert s.disk.origin - gone == s.disk.origin;
    assert s.disk.files - gone == OrphansCleaned(s).disk.files;
    assert gone == set place | place in s.disk.files && IsOrphan(s.rows, place);
  }

  // ---- Temporary uploads ----

  /** Modification times, and the I/O errors of one pass: reading metadata and unlinking. */
  datatype WalkOracle = WalkOracle(modified: Place -> int, statFails: Place -> bool, unlinkFails: Place -> bool)

  datatype CleanupReport = CleanupReport(examined: nat, eligible: nat, deleted: nat, skipped: nat, errors: nat)

  predicate IsStale(oracle: WalkOracle, cutoff: int, place: Place) {
    && place.Temporary?
    && !oracle.statFails(place)
    && IsTemporaryFilename(place.name)
    && oracle.modified(place) <= cutoff
  }

  function TemporaryFiles(files: Files): set<Place> {
    set place | place in files && place.Temporary?
  }

  function StaleFiles(files: Files, oracle: WalkOracle, cutoff: int): set<Place> {
    set place | place in files && IsStale(oracle, cutoff, place)
  }

  function Unlinkable(places: set<Place>, oracle: WalkOracle): set<Place> {
    set place | place in places && !oracle.unlinkFails(place)
  }

  /** The counters account for every file met. */
  ghost predicate Accounts(r: CleanupReport, met: set<Place>, oracle: WalkOracle, cutoff: int, dryRun: bool) {
    && r.examined == |met|
    && r.eligible == |Stale(met, oracle, cutoff)|
    && r.deleted == (if dryRun then 0 else |Unlinkable(Stale(met, oracle, cutoff), oracle)|)
    && r.skipped + r.errors + (if dryRun then r.eligible else r.deleted) == r.examined
  }

  /** Exactly the uploads old enough, whose metadata can be read and that can be unlinked, are gone,
      and the report counts them. */
  ghost predicate RemovesStale(report: CleanupReport, before: Files, after: Files, oracle: WalkOracle, cutoff: int, dryRun: bool) {
    && (forall place :: place in before ==>
          (place !in after
           <==> && !dryRun && place.Temporary? && IsTemporaryFilename(place.name) && oracle.modified(place) <= cutoff
                && !oracle.statFails(place) && !oracle.unlinkFails(place)))
    && (forall place :: place in after ==> place in before && after[place] == before[place])
    && report.deleted == |before| - |after|
    && report.examined == |set place | place in before && place.Temporary?|
    && report.skipped + report.errors + (if dryRun then report.eligible else report.deleted) == report.examined
    && (!dryRun ==> report.deleted <= report.eligible)
  }

  /** The walk of cleanup_temporary_files. */
  method WalkTemporary(hub: Hub, cutoff: int, dryRun: bool, oracle: WalkOracle) returns (report: CleanupReport)
    modifies hub`files
    ensures hub.files == old(hub.files) - if dryRun then {} else Unlinkable(StaleFiles(old(hub.files), oracle, cutoff), oracle)
    ensures Accounts(report, TemporaryFiles(old(hub.files)), oracle, cutoff, dryRun)
    ensures RemovesStale(report, old(hub.files), hub.files, oracle, cutoff, dryRun)
  {
    hide Stale, Unlinkable, StaleFiles, TemporaryFiles, IsTemporaryFilename, RemovesStale;
    ghost var before := hub.files;
    var unseen := TemporaryFiles(hub.files);
    ghost var seen: set<Place> := {};
    report := CleanupReport(0, 0, 0, 0, 0);
    NothingStale(before, oracle, cutoff);
    while unseen != {}
      invariant forall place: Place :: place in unseen ==> place.Temporary?
      invariant seen !! unseen && seen + unseen == TemporaryFiles(before)
      invariant hub.files == before - if dryRun then {} else Unlinkable(Stale(seen, oracle, cutoff), oracle)
      invariant Accounts(report, seen, oracle, cutoff, dryRun)
      decreases unseen
    {
      var place :| place in unseen;
      unseen := unseen - {place};
      report := VisitTemporary(hub, report, before, seen, place, cutoff, dryRun, oracle);
      seen := seen + {place};
    }
    assert seen == TemporaryFiles(before);
    StaleTemporaries(before, oracle, cutoff);
    RemovalsAreExact(report, before, oracle, cutoff, dryRun);
  }

  /** One file of the walk. */
  method VisitTemporary(hub: Hub, report: CleanupReport, ghost before: Files, ghost seen: set<Place>, place: Place,
                        cutoff: int, dryRun: bool, oracle: WalkOracle) returns (next: CleanupReport)
    requires place !in seen && place.Temporary? && Accounts(report, seen, oracle, cutoff, dryRun)
    requires hub.files == before - if dryRun then {} else Unlinkable(Stale(seen, oracle, cutoff), oracle)
    modifies hub`files
    ensures Accounts(next, seen + {place}, oracle, cutoff, dryRun)
    ensures hub.files == before - if dryRun then {} else Unlinkable(Stale(seen + {place}, oracle, cutoff), oracle)
  {
    hide Accounts, Stale, Unlinkable, IsTemporaryFilename;
    next := report.(examined := report.examined + 1);
    if oracle.statFails(place) {
      next := next.(errors := report.errors + 1);
    } else if !IsTemporaryFilename(place.name) || oracle.modified(place) > cutoff {
      next := next.(skipped := report.skipped + 1);
    } else {
      next := next.(eligible := report.eligible + 1);
      if !dryRun {
        if oracle.unlinkFails(place) {
          next := next.(errors := report.errors + 1);
        } else {
          hub.files := hub.files - {place};
          next := next.(deleted := report.deleted + 1);
        }
      }
    }
    AccountsForOneMore(report, next, before, seen, place, cutoff, dryRun, oracle);
  }

  lemma AccountsForOneMore(report: CleanupReport, next: CleanupReport, files: Files, seen: set<Place>, place: Place,
                           cutoff: int, dryRun: bool, oracle: WalkOracle)
    requires place !in seen && place.Temporary? && Accounts(report, seen, oracle, cutoff, dryRun)
    requires var stale := IsStale(oracle, cutoff, place);
             var CleanupReport(examined, eligible, deleted, skipped, errors) := report;
             next == if !stale then
                       if oracle.statFails(place) then CleanupReport(examined + 1, eligible, deleted, skipped, errors + 1)
                       else CleanupReport(examined + 1, eligible, deleted, skipped + 1, errors)
                     else if dryRun then CleanupReport(examined + 1, eligible + 1, deleted, skipped, errors)
                     else if oracle.unlinkFails(place) then CleanupReport(examined + 1, eligible + 1, deleted, skipped, errors + 1)
                     else CleanupReport(examined + 1, eligible + 1, deleted + 1, skipped, errors)
    ensures Accounts(next, seen + {place}, oracle, cutoff, dryRun)
    ensures files - Unlinkable(Stale(seen + {place}, oracle, cutoff), oracle)
            == if IsStale(oracle, cutoff, place) && !oracle.unlinkFails(place)
               then files - Unlinkable(Stale(seen, oracle, cutoff), oracle) - {place}
               else files - Unlinkable(Stale(seen, oracle, cutoff), oracle)
  {
    hide Stale, Unlinkable, IsStale;
    OneMoreStale(seen, oracle, cutoff, place);
    RemoveOneMore(files, Unlinkable(Stale(seen, oracle, cutoff), oracle), place);
  }

  /** cleanup_temporary_files: a refusal, or a walk that deletes exactly the stale uploads that can
      be deleted, and takes nothing from any row. */
  method CleanupTemporaryFiles(hub: Hub, maxAge: int, now: int, dryRun: bool, oracle: WalkOracle)
    returns (report: Option<CleanupReport>)
    requires hub.Valid()
    modifies hub`files
    ensures hub.Valid()
    ensures report.None? <==> maxAge <= 0
    ensures report.None? || dryRun ==> hub.State() == old(hub.State())
    ensures report.Some? && !dryRun ==>
              hub.Storage() == TemporaryCleaned(old(hub.Storage()), Unlinkable(StaleFiles(old(hub.files), oracle, now - maxAge), oracle))
    ensures report.Some? ==> Accounts(report.value, TemporaryFiles(old(hub.files)), oracle, now - maxAge, dryRun)
    ensures report.Some? ==> RemovesStale(report.value, old(hub.files), hub.files, oracle, now - maxAge, dryRun)
    ensures old(Survives(hub.env, hub.rows, hub.Storage())) ==> Survives(hub.env, hub.rows, hub.Storage())
    ensures old(Consistent(hub.env, hub.State())) ==> Consistent(hub.env, hub.State())
  {
    hide Survives, Consistent, WellFormed, Accounts, Unlinkable, StaleFiles, TemporaryCleaned, RemovesStale;
    if maxAge <= 0 {
      return None;
    }
    ghost var before := hub.State();
    var counted := WalkTemporary(hub, now - maxAge, dryRun, oracle);
    ghost var gone := Unlinkable(StaleFiles(before.disk.files, oracle, now - maxAge), oracle);
    StaleTemporaries(before.disk.files, oracle, now - maxAge);
    CleaningStaleIsSafe(hub.env, before, gone);
    assert before.disk.files - {} == before.disk.files;
    report := Some(counted);
  }

  lemma FewerFiles(files: Files, gone: set<Place>)
    requires gone <= files.Keys
    ensures |files - gone| == |files| - |gone|
  {
    assert (files - gone).Keys == files.Keys - gone;
    assert |(files - gone).Keys| == |files.Keys| - |gone|;
  }

  lemma GoneExactly(files: Files, oracle: WalkOracle, cutoff: int)
    ensures forall place :: place in Unlinkable(StaleFiles(files, oracle, cutoff), oracle) <==>
              && place in files && place.Temporary? && IsTemporaryFilename(place.name) && oracle.modified(place) <= cutoff
              && !oracle.statFails(place) && !oracle.unlinkFails(place)
  {
    hide IsTemporaryFilename;
  }

  lemma CountsOfCleaning(report: CleanupReport, files: Files, oracle: WalkOracle, cutoff: int, dryRun: bool)
    requires Accounts(report, TemporaryFiles(files), oracle, cutoff, dryRun)
    ensures report.deleted == |files| - |files - if dryRun then {} else Unlinkable(StaleFiles(files, oracle, cutoff), oracle)|
    ensures report.examined == |set place | place in files && place.Temporary?|
    ensures report.skipped + report.errors + (if dryRun then report.eligible else report.deleted) == report.examined
    ensures !dryRun ==> report.deleted <= report.eligible
  {
    hide IsStale;
    var stale := Stale(TemporaryFiles(files), oracle, cutoff);
    StaleTemporaries(files, oracle, cutoff);
    FewerFiles(files, {});
    FewerFiles(files, Unlinkable(stale, oracle));
    Fewer(Unlinkable(stale, oracle), stale);
  }

  lemma RemovalsAreExact(report: CleanupReport, files: Files, oracle: WalkOracle, cutoff: int, dryRun: bool)
    requires Accounts(report, TemporaryFiles(files), oracle, cutoff, dryRun)
    ensures RemovesStale(report, files, files - if dryRun then {} else Unlinkable(StaleFiles(files, oracle, cutoff), oracle),
                         oracle, cutoff, dryRun)
  {
    hide IsTemporaryFilename, Accounts, Unlinkable, StaleFiles;
    GoneExactly(files, oracle, cutoff);
    CountsOfCleaning(report, files, oracle, cutoff, dryRun);
  }

  lemma Fewer(some: set<Place>, all: set<Place>)
    requires some <= all
    ensures |some| <= |all|
  {
    assert |all - some| == |all| - |some|;
  }

  function Stale(places: set<Place>, oracle: WalkOracle, cutoff: int): set<Place> {
    set place | place in places && IsStale(oracle, cutoff, place)
  }

  lemma NothingStale(files: Files, oracle: WalkOracle, cutoff: int)
    ensures Stale({}, oracle, cutoff) == {} == Unlinkable({}, oracle) && files - {} == files
    ensures forall place: Place :: place in TemporaryFiles(files) ==> place.Temporary?
  {
    assert files - {} == files;
  }

  lemma StaleTemporaries(files: Files, oracle: WalkOracle, cutoff: int)
    ensures Stale(TemporaryFiles(files), oracle, cutoff) == StaleFiles(files, oracle, cutoff)
    ensures forall place :: place in Unlinkable(StaleFiles(files, oracle, cutoff), oracle) ==>
              place.Temporary? && IsTemporaryFilename(place.name)
  {
  }

  lemma OneMoreStale(seen: set<Place>, oracle: WalkOracle, cutoff: int, place: Place)
    requires place !in seen && place.Temporary?
    ensures var before, after := Stale(seen, oracle, cutoff), Stale(seen + {place}, oracle, cutoff);
            if !IsStale(oracle, cutoff, place) then after == before
            else
              && after == before + {place} && place !in before
              && (oracle.unlinkFails(place) ==> Unlinkable(after, oracle) == Unlinkable(before, oracle))
              && (!oracle.unlinkFails(place) ==>
                    && Unlinkable(after, oracle) == Unlinkable(before, oracle) + {place}
                    && place !in Unlinkable(before, oracle))
  {
    hide IsStale;
  }

  lemma RemoveOneMore(files: Files, gone: set<Place>, place: Place)
    ensures files - (gone + {place}) == files - gone - {place}
  {
  }

  lemma CleaningStaleIsSafe(env: Env, s: Snapshot, gone: set<Place>)
    requires WellFormed(s.disk)
    requires forall place :: place in gone ==> place.Temporary? && IsTemporaryFilename(place.name)
    ensures TemporaryCleaned(s.disk, gone) == s.disk.(files := s.disk.files - gone)
    ensures WellFormed(TemporaryCleaned(s.disk, gone))
    ensures Survives(env, s.rows, s.disk) ==> Survives(env, s.rows, TemporaryCleaned(s.disk, gone))
    ensures Consistent(env, s) ==> Consistent(env, s.(disk := TemporaryCleaned(s.disk, gone)))
  {
    assert gone == set place | place in gone && place.Temporary? && IsTemporaryFilename(place.name);
    TemporaryCleanupSparesStaged(s.disk, gone);
    if Survives(env, s.rows, s.disk) {
      TemporaryCleanupKeepsSurvival(env, s.rows, s.disk, gone);
    }
    if Consistent(env, s) {
      TemporaryCleanupKeepsConsistency(env, s, gone);
    }
  }
}
