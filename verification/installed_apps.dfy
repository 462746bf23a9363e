/**
  The installed-apps repository: the `installed_apps` table as a map from
  package name to record, the `update_history` table beside it, and the
  update check that compares an app's installed tag with the latest
  release. The details repository, the installer's asset choice and the
  clock are parameters.
 */
module InstalledApps {
  import opened Wrappers
  import opened UpdateHistoryDao
  import opened Details

  /** One row of `installed_apps`. */
  datatype InstalledApp = InstalledApp(
    packageName: string,
    repoId: int,
    repoName: string,
    repoOwner: string,
    repoOwnerAvatarUrl: string,
    repoDescription: Option<string>,
    primaryLanguage: Option<string>,
    repoUrl: string,
    installedVersion: string,
    installedAssetName: Option<string>,
    installedAssetUrl: Option<string>,
    latestVersion: Option<string>,
    latestAssetName: Option<string>,
    latestAssetUrl: Option<string>,
    latestAssetSize: Option<int>,
    appName: string,
    installSource: InstallSource,
    installedAt: int,
    lastCheckedAt: int,
    lastUpdatedAt: int,
    isUpdateAvailable: bool,
    updateCheckEnabled: bool,
    releaseNotes: Option<string>,
    systemArchitecture: string,
    fileExtension: string,
    isPendingInstall: bool
  )

  /** The two tables: records keyed by package name, and the history rows. */
  datatype Db = Db(apps: map<string, InstalledApp>, history: Table)

  /** Every record sits under its own package name. */
  ghost predicate WellKeyed(db: Db) {
    forall p :: p in db.apps ==> db.apps[p].packageName == p
  }

  /** The installer's two questions: is an asset installable here, and which asset to install. */
  datatype Installer = Installer(isAssetInstallable: string -> bool, choosePrimaryAsset: seq<GithubAsset> -> Option<GithubAsset>)

  /**
    How one check went. `Fetched` is the details repository's answer, with
    or without a release. `FetchFailed` is an `Exception` thrown inside the
    `try`, such as a failed fetch: `checkForUpdates` catches it and stamps
    `lastCheckedAt`. `Crashed` is a database `Exception` that escapes
    `checkForUpdates`: thrown by the lookup before the `try`, or by
    `updateLastChecked` inside the catch. Either way the record is left
    unwritten, and only the sweep catches it. A `Throwable` that is no
    `Exception` is not modelled: it escapes both catches and ends the sweep.
   */
  datatype FetchOutcome = Fetched(latest: Option<GithubRelease>) | FetchFailed | Crashed

  /** `getAppByPackage`. */
  function GetAppByPackage(db: Db, packageName: string): (r: Option<InstalledApp>)
    ensures r.Some? <==> packageName in db.apps
    ensures r.Some? ==> r.value == db.apps[packageName]
  {
    if packageName in db.apps then Some(db.apps[packageName]) else None
  }

  /** `saveInstalledApp`: the record is stored under its package name, replacing any earlier one. */
  function SaveInstalledApp(db: Db, app: InstalledApp): (r: Db)
    requires WellKeyed(db)
    ensures WellKeyed(r)
    ensures GetAppByPackage(r, app.packageName) == Some(app)
    ensures forall p :: p != app.packageName ==> GetAppByPackage(r, p) == GetAppByPackage(db, p)
    ensures r.history == db.history
  {
    db.(apps := db.apps[app.packageName := app])
  }

  /** `deleteInstalledApp`: removes only that record; the history stays. */
  function DeleteInstalledApp(db: Db, packageName: string): (r: Db)
    requires WellKeyed(db)
    ensures WellKeyed(r)
    ensures GetAppByPackage(r, packageName) == None
    ensures forall p :: p != packageName ==> GetAppByPackage(r, p) == GetAppByPackage(db, p)
    ensures r.history == db.history
  {
    db.(apps := db.apps - {packageName})
  }

  /** `xs` is `ys` with some elements left out, the others kept in their order. */
  ghost predicate Subsequence<T>(xs: seq<T>, ys: seq<T>)
    decreases |ys|
  {
    |xs| == 0 || (|ys| > 0 && ((xs[0] == ys[0] && Subsequence(xs[1..], ys[1..])) || Subsequence(xs, ys[1..])))
  }

  /**
    The assets the installer can install, in the release's order: each
    accepted asset as often as the release lists it, no other.
   */
  function Installable(assets: seq<GithubAsset>, installer: Installer): (r: seq<GithubAsset>)
    ensures forall a :: a in r <==> a in assets && installer.isAssetInstallable(a.name)
    ensures forall a :: multiset(r)[a] == if installer.isAssetInstallable(a.name) then multiset(assets)[a] else 0
    ensures Subsequence(r, assets)
    decreases |assets|
  {
    if |assets| == 0 then []
    else
      var rest := Installable(assets[1..], installer);
      assert forall a :: a in assets <==> a == assets[0] || a in assets[1..];
      assert assets == [assets[0]] + assets[1..];
      assert multiset(assets) == multiset{assets[0]} + multiset(assets[1..]);
      if installer.isAssetInstallable(assets[0].name) then
        assert ([assets[0]] + rest)[1..] == rest;
        [assets[0]] + rest
      else
        rest
  }

  /** What one check did: the record after it, and what it returned. */
  datatype Checked = Checked(app: InstalledApp, updateAvailable: bool)

  /**
    The part of `checkForUpdates` that follows the lookup, on the record
    found: with a latest release, the update flag and the latest-version
    columns are written and the flag returned; without one, nothing is
    written; when fetching failed, only `lastCheckedAt` is stamped.
   */
  function CheckApp(app: InstalledApp, outcome: FetchOutcome, installer: Installer, now: int): (r: Checked)
    requires !outcome.Crashed?
    ensures outcome.Fetched? && outcome.latest.Some? ==>
              var release := outcome.latest.value;
              var primary := installer.choosePrimaryAsset(Installable(release.assets, installer));
              && r.updateAvailable == (release.tagName != app.installedVersion)
              && r.app == app.(isUpdateAvailable := r.updateAvailable,
                               latestVersion := Some(release.tagName),
                               latestAssetName := if primary.Some? then Some(primary.value.name) else None,
                               latestAssetUrl := if primary.Some? then Some(primary.value.downloadUrl) else None,
                               latestAssetSize := if primary.Some? then Some(primary.value.size) else None,
                               releaseNotes := Some(release.description.GetOr("")),
                               lastCheckedAt := now)
    ensures outcome.Fetched? && outcome.latest.None? ==> r == Checked(app, false)
    ensures outcome.FetchFailed? ==> r == Checked(app.(lastCheckedAt := now), false)
    // a check never touches what is installed, the package, or the user's switches
    ensures r.app.packageName == app.packageName && r.app.installedVersion == app.installedVersion
    ensures r.app.updateCheckEnabled == app.updateCheckEnabled && r.app.isPendingInstall == app.isPendingInstall
    ensures r.updateAvailable ==> r.app.isUpdateAvailable
  {
    match outcome
    case FetchFailed => Checked(app.(lastCheckedAt := now), false)
    case Fetched(None) => Checked(app, false)
    case Fetched(Some(release)) =>
      var available := release.tagName != app.installedVersion;
      var primary := installer.choosePrimaryAsset(Installable(release.assets, installer));
      Checked(
        app.(isUpdateAvailable := available,
             latestVersion := Some(release.tagName),
             latestAssetName := if primary.Some? then Some(primary.value.name) else None,
             latestAssetUrl := if primary.Some? then Some(primary.value.downloadUrl) else None,
             latestAssetSize := if primary.Some? then Some(primary.value.size) else None,
             releaseNotes := Some(release.description.GetOr("")),
             lastCheckedAt := now),
        available)
  }

  /** Checking again against the same answer changes nothing more. */
  lemma CheckAppIdempotent(app: InstalledApp, outcome: FetchOutcome, installer: Installer, now: int)
    requires !outcome.Crashed?
    ensures var once := CheckApp(app, outcome, installer, now);
            CheckApp(once.app, outcome, installer, now) == once
  {
  }

  /** When the installer picks among the assets it is given, the asset written is an installable asset of the release. */
  lemma CheckAppWritesInstallable(app: InstalledApp, release: GithubRelease, installer: Installer, now: int)
    requires forall xs :: installer.choosePrimaryAsset(xs).Some? ==> installer.choosePrimaryAsset(xs).value in xs
    ensures var r := CheckApp(app, Fetched(Some(release)), installer, now);
            r.app.latestAssetName.Some? ==>
              exists a :: a in release.assets && installer.isAssetInstallable(a.name) && a.name == r.app.latestAssetName.value
  {
    var primary := installer.choosePrimaryAsset(Installable(release.assets, installer));
    if primary.Some? {
      assert primary.value in Installable(release.assets, installer);
    }
  }

  /** What `checkForUpdates(p)` did: the tables after it and its answer, or the failure that escaped it. */
  datatype CheckResult = CheckResult(db: Db, updateAvailable: bool)

  /** `checkForUpdates(p)`: an unknown package answers `false` and writes nothing. */
  function CheckForUpdates(db: Db, packageName: string, outcome: FetchOutcome, installer: Installer, now: int)
    : (r: Result<CheckResult, FetchOutcome>)
    requires WellKeyed(db)
    ensures packageName !in db.apps ==> r == Ok(CheckResult(db, false))
    ensures packageName in db.apps && outcome.Crashed? ==> r.Err?
    ensures packageName in db.apps && !outcome.Crashed? ==>
              var c := CheckApp(db.apps[packageName], outcome, installer, now);
              r == Ok(CheckResult(db.(apps := db.apps[packageName := c.app]), c.updateAvailable))
    ensures r.Ok? ==> WellKeyed(r.value.db) && r.value.db.history == db.history
    ensures r.Ok? ==> r.value.db.apps.Keys == db.apps.Keys
    ensures r.Ok? ==> forall p :: p in db.apps && p != packageName ==> r.value.db.apps[p] == db.apps[p]
  {
    if packageName !in db.apps then Ok(CheckResult(db, false))
    else if outcome.Crashed? then Err(outcome)
    else
      var c := CheckApp(db.apps[packageName], outcome, installer, now);
      Ok(CheckResult(db.(apps := db.apps[packageName := c.app]), c.updateAvailable))
  }

  /** `updatePendingStatus(p, pending)`: sets that one flag of an existing record. */
  function UpdatePendingStatus(db: Db, packageName: string, isPending: bool): (r: Db)
    requires WellKeyed(db)
    ensures WellKeyed(r) && r.history == db.history && r.apps.Keys == db.apps.Keys
    ensures packageName in db.apps ==> r.apps[packageName] == db.apps[packageName].(isPendingInstall := isPending)
    ensures forall p :: p in db.apps && p != packageName ==> r.apps[p] == db.apps[p]
    ensures packageName !in db.apps ==> r == db
  {
    if packageName !in db.apps then db
    else db.(apps := db.apps[packageName := db.apps[packageName].(isPendingInstall := isPending)])
  }

  /** Setting the pending flag back to what it was restores the tables. */
  lemma PendingStatusRestores(db: Db, packageName: string, isPending: bool)
    requires WellKeyed(db) && packageName in db.apps
    ensures UpdatePendingStatus(UpdatePendingStatus(db, packageName, isPending), packageName,
                                db.apps[packageName].isPendingInstall) == db
  {
    var r := UpdatePendingStatus(UpdatePendingStatus(db, packageName, isPending), packageName,
                                 db.apps[packageName].isPendingInstall);
    assert r.apps == db.apps;
  }

  /** The history row `updateAppVersion` writes for moving `app` to `newVersion`. */
  function VersionRow(app: InstalledApp, newVersion: string, now: int): UpdateHistory {
    UpdateHistory(0, app.packageName, app.appName, app.repoOwner, app.repoName,
                  app.installedVersion, newVersion, now, ThisApp, true, None)
  }

  /**
    `updateAppVersion(p, v, name, url)`: for a known package, one history row
    from the installed version to `v`, then the record shows `v` installed
    and latest, with no update pending.
   */
  function UpdateAppVersion(db: Db, packageName: string, newVersion: string, newAssetName: string,
                            newAssetUrl: string, now: int): (r: Db)
    requires WellKeyed(db)
    ensures WellKeyed(r) && r.apps.Keys == db.apps.Keys
    ensures packageName !in db.apps ==> r == db
    ensures packageName in db.apps ==> |r.history| == |db.history| + 1
    ensures packageName in db.apps ==>
              var old_ := db.apps[packageName];
              var row := r.history[|db.history|];
              && r.history == Insert(db.history, row)
              && row.packageName == packageName && row.fromVersion == old_.installedVersion
              && row.toVersion == newVersion && row.success && row.updateSource == ThisApp
              && row.updatedAt == now
              && r.apps[packageName] == old_.(installedVersion := newVersion,
                                              installedAssetName := Some(newAssetName),
                                              installedAssetUrl := Some(newAssetUrl),
                                              latestVersion := Some(newVersion),
                                              latestAssetName := Some(newAssetName),
                                              latestAssetUrl := Some(newAssetUrl),
                                              isUpdateAvailable := false,
                                              lastUpdatedAt := now,
                                              lastCheckedAt := now)
    ensures forall p :: p in db.apps && p != packageName ==> r.apps[p] == db.apps[p]
  {
    if packageName !in db.apps then db
    else
      var app := db.apps[packageName];
      var updated := app.(installedVersion := newVersion,
                          installedAssetName := Some(newAssetName),
                          installedAssetUrl := Some(newAssetUrl),
                          latestVersion := Some(newVersion),
                          latestAssetName := Some(newAssetName),
                          latestAssetUrl := Some(newAssetUrl),
                          isUpdateAvailable := false,
                          lastUpdatedAt := now,
                          lastCheckedAt := now);
      Db(db.apps[packageName := updated], Insert(db.history, VersionRow(app, newVersion, now)))
  }

  /** After updating to a release's tag, checking against that release finds no update. */
  lemma UpdatedAppIsCurrent(db: Db, packageName: string, release: GithubRelease, newAssetName: string,
                            newAssetUrl: string, installer: Installer, now: int, later: int)
    requires WellKeyed(db) && packageName in db.apps
    ensures var r := UpdateAppVersion(db, packageName, release.tagName, newAssetName, newAssetUrl, now);
            var c := CheckForUpdates(r, packageName, Fetched(Some(release)), installer, later);
            c.Ok? && !c.value.updateAvailable && !c.value.db.apps[packageName].isUpdateAvailable
  {
  }

  /** Whether the sweep checks the listed package. */
  predicate SweepChecks(db: Db, packageName: string) {
    packageName in db.apps && db.apps[packageName].updateCheckEnabled
  }

  /**
    `checkAllForUpdates()`: in list order, every app with checks enabled is
    checked; a failure escaping one check is caught and the sweep goes on.
   */
  function CheckAllForUpdates(db: Db, listed: seq<string>, outcome: string -> FetchOutcome,
                              installer: Installer, now: int): (r: Db)
    requires WellKeyed(db)
    ensures WellKeyed(r) && r.history == db.history && r.apps.Keys == db.apps.Keys
    // what is not listed, and what has checks switched off, is untouched
    ensures forall p :: p in db.apps && (p !in listed || !db.apps[p].updateCheckEnabled) ==> r.apps[p] == db.apps[p]
    decreases |listed|
  {
    if |listed| == 0 then db
    else
      var next := SweepStep(db, listed[0], outcome(listed[0]), installer, now);
      assert forall q :: q in listed[1..] ==> q in listed;
      CheckAllForUpdates(next, listed[1..], outcome, installer, now)
  }

  /**
    One turn of the sweep: a package with checks enabled is checked, and a
    failure escaping the check is caught, leaving the tables as they were.
   */
  function SweepStep(db: Db, packageName: string, outcome: FetchOutcome, installer: Installer, now: int): (r: Db)
    requires WellKeyed(db)
    ensures WellKeyed(r) && r.history == db.history && r.apps.Keys == db.apps.Keys
    ensures forall q :: q in db.apps && q != packageName ==> r.apps[q] == db.apps[q]
    ensures !SweepChecks(db, packageName) ==> r == db
    ensures SweepChecks(db, packageName) ==>
              var c := CheckForUpdates(db, packageName, outcome, installer, now);
              r.apps[packageName] == if c.Ok? then c.value.db.apps[packageName] else db.apps[packageName]
  {
    if SweepChecks(db, packageName) then
      match CheckForUpdates(db, packageName, outcome, installer, now)
      case Ok(c) => c.db
      case Err(_) => db
    else db
  }

  /** The record of a package the sweep lists once is what checking it alone would give. */
  lemma {:induction false} SweepChecksEachOnce(db: Db, listed: seq<string>, outcome: string -> FetchOutcome,
                                               installer: Installer, now: int, i: int)
    requires WellKeyed(db)
    requires 0 <= i < |listed| && SweepChecks(db, listed[i])
    requires forall j :: 0 <= j < |listed| && j != i ==> listed[j] != listed[i]
    ensures var c := CheckForUpdates(db, listed[i], outcome(listed[i]), installer, now);
            CheckAllForUpdates(db, listed, outcome, installer, now).apps[listed[i]]
              == if c.Ok? then c.value.db.apps[listed[i]] else db.apps[listed[i]]
    decreases |listed|
  {
    var next := SweepStep(db, listed[0], outcome(listed[0]), installer, now);
    if i == 0 {
      HeadNotInTail(listed);
    } else {
      assert next.apps[listed[i]] == db.apps[listed[i]];
      assert listed[1..][i - 1] == listed[i];
      SweepChecksEachOnce(next, listed[1..], outcome, installer, now, i - 1);
    }
  }

  /** The first of a list whose first element occurs once is not in the rest. */
  lemma HeadNotInTail(listed: seq<string>)
    requires |listed| > 0
    requires forall j :: 0 < j < |listed| ==> listed[j] != listed[0]
    ensures listed[0] !in listed[1..]
  {
    forall j | 0 <= j < |listed[1..]|
      ensures listed[1..][j] != listed[0]
    {
      assert listed[1..][j] == listed[j + 1];
    }
  }
}
