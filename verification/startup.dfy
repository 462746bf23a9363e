/**
  What the Android application does on start, off the main thread: drop the
  records of packages the system no longer has, then run the update sweep.
  The system's package list and the table listing are parameters, and so is
  the point at which an exception ends the pruning early.
 */
module Startup {
  import opened Wrappers
  import opened InstalledApps

  /** `listed` is a listing of the table: every record's package, and nothing else. */
  ghost predicate Lists(listed: seq<string>, db: Db) {
    forall p :: p in db.apps <==> p in listed
  }

  /** No package is listed twice. */
  ghost predicate Distinct(listed: seq<string>) {
    forall i, j :: 0 <= i < j < |listed| ==> listed[i] != listed[j]
  }

  /**
    The pruning loop: each listed package the system does not have is
    deleted. `failAfter` is `Some(k)` when an exception is thrown after `k`
    deletions (0 when reading the lists fails), which ends the loop.
   */
  function Prune(db: Db, listed: seq<string>, system: set<string>, failAfter: Option<nat>): (r: Db)
    requires WellKeyed(db)
    ensures WellKeyed(r) && r.history == db.history
    ensures r.apps.Keys <= db.apps.Keys
    // a package the system has keeps its record, untouched
    ensures forall p :: p in db.apps && p in system ==> p in r.apps && r.apps[p] == db.apps[p]
    // only listed packages are deleted
    ensures forall p :: p in db.apps && p !in listed ==> p in r.apps && r.apps[p] == db.apps[p]
    // without an exception, no listed package outside the system survives
    ensures failAfter.None? ==> forall p :: p in r.apps && p in listed ==> p in system
    decreases |listed|
  {
    if |listed| == 0 then db
    else
      assert forall p :: p in listed[1..] ==> p in listed;
      assert forall p :: p in listed && p != listed[0] ==> p in listed[1..];
      if listed[0] in system then Prune(db, listed[1..], system, failAfter)
      else if failAfter == Some(0) then db
      else
        var budget := if failAfter.Some? then Some(failAfter.value - 1) else None;
        Prune(DeleteInstalledApp(db, listed[0]), listed[1..], system, budget)
  }

  /**
    `onCreate`'s background job: prune (an exception is logged and
    swallowed), then sweep over the same listing of the table.
   */
  function OnStart(db: Db, listed: seq<string>, system: set<string>, failAfter: Option<nat>,
                   outcome: string -> FetchOutcome, installer: Installer, now: int): (r: Db)
    requires WellKeyed(db)
    ensures WellKeyed(r) && r.history == db.history
    // the sweep adds no record back: what pruning removed stays removed
    ensures r.apps.Keys == Prune(db, listed, system, failAfter).apps.Keys
    ensures failAfter.None? && Lists(listed, db) ==> r.apps.Keys == db.apps.Keys * system
  {
    var pruned := Prune(db, listed, system, failAfter);
    CheckAllForUpdates(pruned, listed, outcome, installer, now)
  }

  /**
    Whether or not pruning failed, the sweep still runs: an app the system
    has, with checks enabled, ends as checking it alone would leave it.
   */
  lemma SweepRunsAfterPruning(db: Db, listed: seq<string>, system: set<string>, failAfter: Option<nat>,
                              outcome: string -> FetchOutcome, installer: Installer, now: int, i: int)
    requires WellKeyed(db) && Distinct(listed)
    requires 0 <= i < |listed| && listed[i] in db.apps && listed[i] in system
    requires db.apps[listed[i]].updateCheckEnabled
    ensures var p := listed[i];
            var c := CheckForUpdates(db, p, outcome(p), installer, now);
            OnStart(db, listed, system, failAfter, outcome, installer, now).apps[p]
              == if c.Ok? then c.value.db.apps[p] else db.apps[p]
  {
    var pruned := Prune(db, listed, system, failAfter);
    SweepChecksEachOnce(pruned, listed, outcome, installer, now, i);
  }
}
