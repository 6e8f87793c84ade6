/** The states between "nothing happened" and "it is done": what an operation leaves behind when the
    process stops inside it, or when its compensation or last unlink fails. */
module Interruptions {
  import opened Policies
  import opened StorageState
  import opened Lifecycle

  /** The file was moved and its row not yet changed. */
  ghost predicate MovedOnly(s: Snapshot, id: nat, src: Area, dst: Area, t: Snapshot) {
    && id in s.rows
    && var from, to := Stored(src, s.rows[id].path), Stored(dst, s.rows[id].path);
       CanMove(s.disk, from, to) && t == s.(disk := Moved(s.disk, from, to))
  }

  /** The file was staged for deletion and not yet removed; the row is still there, or gone. */
  ghost predicate StagedOnly(s: Snapshot, id: nat, staged: Place, rowGone: bool, t: Snapshot) {
    && id in s.rows && Locate(s.disk.files, s.rows[id].path).Some?
    && var place := Stored(Locate(s.disk.files, s.rows[id].path).value, s.rows[id].path);
       CanMove(s.disk, place, staged)
       && t == (if rowGone then WithoutRow(s, id) else s).(disk := Moved(s.disk, place, staged))
  }

  /** A new temporary file holds some of the upload, or the upload lies in quarantine without a row. */
  ghost predicate UploadOnly(s: Snapshot, r: UploadRequest, t: Snapshot) {
    || (UploadPlace(r.token) !in s.disk.files
        && exists written :: written <= r.data && t == s.(disk := WithFile(s.disk, UploadPlace(r.token), written)))
    || (UploadPlace(r.token) !in s.disk.files && Stored(Quarantine, r.path) !in s.disk.files
        && t == s.(disk := WithFile(s.disk, Stored(Quarantine, r.path), r.data)))
  }

  /** An upload that meets an existing temporary file of its own name removes that file. */
  ghost predicate UploadRemovesOther(s: Snapshot, r: UploadRequest, t: Snapshot) {
    UploadPlace(r.token) in s.disk.files && t == s.(disk := Unlinked(s.disk, UploadPlace(r.token)))
  }

  /** One orphan is staged, or staged and removed. */
  ghost predicate OrphanStep(s: Snapshot, t: Snapshot) {
    exists place, staged :: OrphanStepAt(s, place, staged, t)
  }

  ghost predicate OrphanStepAt(s: Snapshot, place: Place, staged: Place, t: Snapshot) {
    && place in s.disk.files && IsOrphan(s.rows, place) && IsStagingPlace(staged) && CanMove(s.disk, place, staged)
    && t.disk in {Moved(s.disk, place, staged), Unlinked(s.disk, place)}
    && t == s.(disk := t.disk, abandoned := s.abandoned - {place})
  }

  ghost predicate OrphanTrace(trace: seq<Snapshot>) {
    forall i :: 0 <= i < |trace| - 1 ==> OrphanStep(trace[i], trace[i + 1])
  }

  /** Some of the orphans were staged, or staged and removed. */
  ghost predicate OrphansPartly(s: Snapshot, t: Snapshot) {
    exists trace :: TraceLeads(trace, s, t)
  }

  ghost predicate TraceLeads(trace: seq<Snapshot>, s: Snapshot, t: Snapshot) {
    trace != [] && trace[0] == s && trace[|trace| - 1] == t && OrphanTrace(trace)
  }

  lemma NoOrphanYet(s: Snapshot)
    ensures OrphansPartly(s, s)
  {
    assert TraceLeads([s], s, s);
  }

  lemma OneOrphanMore(s: Snapshot, t: Snapshot, place: Place, staged: Place, u: Snapshot)
    requires OrphansPartly(s, t) && OrphanStepAt(t, place, staged, u)
    ensures OrphansPartly(s, u)
  {
    var trace :| TraceLeads(trace, s, t);
    assert TraceLeads(trace + [u], s, u);
  }

  ghost predicate Partway(s: Snapshot, command: Command, t: Snapshot) {
    match command
    case Upload(r, _) => UploadOnly(s, r, t) || UploadRemovesOther(s, r, t)
    case Publish(id) => id in s.rows && s.rows[id].status == Ready && MovedOnly(s, id, Quarantine, SoftwareArea, t)
    case RestoreReady(id) => MovedOnly(s, id, SoftwareArea, Quarantine, t)
    case PermanentlyDelete(id, token) =>
      && id in s.rows && s.rows[id].status != Published
      && (StagedOnly(s, id, StagingPlace(token), false, t) || StagedOnly(s, id, StagingPlace(token), true, t))
    case CleanOrphans => OrphansPartly(s, t)
    case _ => false
  }

  /** Of these, the ones that do not need a stop or a failed compensation: a deleted row whose file
      could not be unlinked, orphans that could not be moved or unlinked, a name met twice. */
  ghost predicate Leftover(s: Snapshot, command: Command, t: Snapshot) {
    match command
    case Upload(r, _) => UploadRemovesOther(s, r, t)
    case PermanentlyDelete(id, token) =>
      id in s.rows && s.rows[id].status != Published && StagedOnly(s, id, StagingPlace(token), true, t)
    case CleanOrphans => OrphansPartly(s, t)
    case _ => false
  }
}
