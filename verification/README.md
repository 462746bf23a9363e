# GitHub Store core, modelled in Dafny

GitHub Store is a Kotlin Multiplatform client that installs and updates
applications from GitHub releases. This project models the parts of it that
carry decisions, as pure functions over immutable data, and proves properties
of them:

- **Device sign-in** (`DeviceFlow`). The client side of the OAuth 2.0 Device
  Authorization Grant, following section 3.5 of RFC 8628. It covers the start
  request, the classification of token-endpoint errors by lower-cased
  substring, and the polling loop with its millisecond budget and widening
  interval. The token endpoint is a function from the poll number to its
  answer.
- **Login screen** (`AuthViewModel`). Each action is one serialised step that
  publishes states, events and platform requests.
- **Release selection and repository stats** (`Details`):
  - the newest non-draft, non-prerelease release, chosen under a stable
    descending sort on `publishedAt ?: createdAt ?: ""`;
  - the mapping from network to domain models;
  - the contributors count read from the `Link` header (RFC 8288). `getRepoStats`
    is modelled as written (`GetRepoStats`), beside a corrected version
    (`GetRepoStatsCorrected`); see Findings.
- **Update history table** (`UpdateHistoryDao`). The four SQL statements of
  the DAO, over the table as a sequence of rows.
- **Installed apps** (`InstalledApps`):
  - the `installed_apps` table as a map from package name to record;
  - the update check, which compares the installed tag with the latest
    release's tag;
  - the sweep over all apps;
  - version updates and the pending-install flag.
- **Startup** (`Startup`). On application start, pruning drops records of
  packages the system no longer has, then the update sweep runs.
- **Home screen paging** (`HomeViewModel`). The page counter and the screen
  state under Refresh, Retry, LoadMore and SwitchCategory.
- **"Updated …" line** (`UpdatedAt`). The bucket chosen from whole hours and
  whole days elapsed.
- **Desktop platform** (`Platform`). The OS-name classifier.

Supporting modules:

- `Wrappers` writes Kotlin's nullable types and thrown exceptions as `Option`
  and `Result`.
- `Strings` models the Kotlin string functions the code relies on:
  - `contains` and `indexOf`;
  - `substringAfter` and `substringBefore`, which return the whole string when
    the delimiter is missing;
  - `split`, `lowercase`, `isBlank` and `ifBlank`;
  - `toIntOrNull`;
  - `compareTo`.

The collaborators are parameters. These are:

- the HTTP answers;
- the installer's two functions;
- the clipboard's and the browser's success;
- the clock, as a `now` argument;
- the system's package set.

## Model

| member | source | states |
|---|---|---|
| DeviceFlow.StartDeviceFlow | composeApp/src/commonMain/kotlin/zed/rainxch/githubstore/feature/auth/data/repository/AuthRepositoryImpl.kt:24-29 | The start request fails with `IllegalArgumentException` and the missing-client-id text exactly when the client id is blank. Otherwise it carries that client id, and the caller's scope unless that scope is blank, in which case it carries the configured scope. |
| DeviceFlow.StartScopeNeverBlank | composeApp/src/commonMain/kotlin/zed/rainxch/githubstore/feature/auth/data/repository/AuthRepositoryImpl.kt:28 | With the default scope `read:user repo`, the scope sent is never blank, and a blank caller scope sends exactly the default. |
| DeviceFlow.ClassifyIgnoresCase | composeApp/src/commonMain/kotlin/zed/rainxch/githubstore/feature/auth/data/repository/AuthRepositoryImpl.kt:47 | How an error is treated depends on its message only up to letter case. |
| DeviceFlow.ClassifyLowercaseCode | composeApp/src/commonMain/kotlin/zed/rainxch/githubstore/feature/auth/data/repository/AuthRepositoryImpl.kt:47-65 | A message without upper-case letters is matched as it is against the five substring rules, in their order. |
| DeviceFlow.ClassifyPendingCode | composeApp/src/commonMain/kotlin/zed/rainxch/githubstore/feature/auth/data/repository/AuthRepositoryImpl.kt:49 | `authorization_pending` keeps the loop waiting at the same interval. |
| DeviceFlow.ClassifySlowDownCode | composeApp/src/commonMain/kotlin/zed/rainxch/githubstore/feature/auth/data/repository/AuthRepositoryImpl.kt:54 | `slow_down` widens the interval. |
| DeviceFlow.ClassifyMissingMessage | composeApp/src/commonMain/kotlin/zed/rainxch/githubstore/feature/auth/data/repository/AuthRepositoryImpl.kt:47-65 | A failure without a message reads as the empty text and is an unexpected error. |
| DeviceFlow.ErrorNeverSucceeds | composeApp/src/commonMain/kotlin/zed/rainxch/githubstore/feature/auth/data/repository/AuthRepositoryImpl.kt:40-47 | No error answer is ever taken for a token. |
| DeviceFlow.Finish | composeApp/src/commonMain/kotlin/zed/rainxch/githubstore/feature/auth/data/repository/AuthRepositoryImpl.kt:40-65 | An answer that ends the loop returns a token exactly when it is one, and returns that token. |
| DeviceFlow.InitialIntervalMs | composeApp/src/commonMain/kotlin/zed/rainxch/githubstore/feature/auth/data/repository/AuthRepositoryImpl.kt:36 | The first interval is at least 1000 ms, and `intervalSec * 1000` when `intervalSec >= 1`. |
| DeviceFlow.Widening | composeApp/src/commonMain/kotlin/zed/rainxch/githubstore/feature/auth/data/repository/AuthRepositoryImpl.kt:49-58 | The interval grows by exactly 2000 ms on `slow_down` and by nothing otherwise. |
| DeviceFlow.Poll | composeApp/src/commonMain/kotlin/zed/rainxch/githubstore/feature/auth/data/repository/AuthRepositoryImpl.kt:38-67 | The loop sends no poll exactly when no budget remains. It takes one wait per poll that kept it going: as many waits as polls, or one fewer when an answer ended it. |
| DeviceFlow.PollKeepsGoing | composeApp/src/commonMain/kotlin/zed/rainxch/githubstore/feature/auth/data/repository/AuthRepositoryImpl.kt:48-58 | Every answer that caused a wait was `authorization_pending` or `slow_down`. |
| DeviceFlow.PollSteps | composeApp/src/commonMain/kotlin/zed/rainxch/githubstore/feature/auth/data/repository/AuthRepositoryImpl.kt:49-58 | Each wait is the previous interval, widened by 2000 ms when its answer was `slow_down`. |
| DeviceFlow.PollWaitsGrow | composeApp/src/commonMain/kotlin/zed/rainxch/githubstore/feature/auth/data/repository/AuthRepositoryImpl.kt:49-58 | The waits never shrink and are never shorter than the first interval. |
| DeviceFlow.PollStopsAtAnswer | composeApp/src/commonMain/kotlin/zed/rainxch/githubstore/feature/auth/data/repository/AuthRepositoryImpl.kt:40-65 | A loop ended by an answer stops at the first answer that neither waits nor widens, and returns that answer's outcome. |
| DeviceFlow.PollExpires | composeApp/src/commonMain/kotlin/zed/rainxch/githubstore/feature/auth/data/repository/AuthRepositoryImpl.kt:38-39 | A loop that runs out of budget fails with "Device code expired". Its waits cover the budget, and its last poll was sent while budget remained. |
| DeviceFlow.PollAnswerWithinBudget | composeApp/src/commonMain/kotlin/zed/rainxch/githubstore/feature/auth/data/repository/AuthRepositoryImpl.kt:38-58 | A poll is sent only while budget remains: in a run ended by an answer, the waits before it sum to less than the starting budget. |
| DeviceFlow.PollEnding | composeApp/src/commonMain/kotlin/zed/rainxch/githubstore/feature/auth/data/repository/AuthRepositoryImpl.kt:38-67 | Every run ends one of those two ways. A run ended by an answer asked for it while budget remained: its waits sum to less than the budget. |
| DeviceFlow.PollBound | composeApp/src/commonMain/kotlin/zed/rainxch/githubstore/feature/auth/data/repository/AuthRepositoryImpl.kt:36-58 | When the interval is at least a second, the number of polls is bounded by the budget in seconds. |
| DeviceFlow.PollAllPending | composeApp/src/commonMain/kotlin/zed/rainxch/githubstore/feature/auth/data/repository/AuthRepositoryImpl.kt:49-52 | When every answer is `authorization_pending`, the loop expires and every wait equals the interval. |
| DeviceFlow.PollAllPendingCount | composeApp/src/commonMain/kotlin/zed/rainxch/githubstore/feature/auth/data/repository/AuthRepositoryImpl.kt:34-52 | When every answer is `authorization_pending`, the loop sends exactly ceil(budget / interval) polls. |
| DeviceFlow.PendingRun | composeApp/src/commonMain/kotlin/zed/rainxch/githubstore/feature/auth/data/repository/AuthRepositoryImpl.kt:34-52 | From the start, an all-pending endpoint gets ceil(expiresInSec·1000 / initial interval) polls, and the result is "Device code expired". |
| DeviceFlow.AwaitDeviceToken | composeApp/src/commonMain/kotlin/zed/rainxch/githubstore/feature/auth/data/repository/AuthRepositoryImpl.kt:31-69 | `awaitDeviceToken` polls not at all exactly when `expiresInSec <= 0`, and then fails with "Device code expired". The number of polls is at most `expiresInSec`. A token is saved exactly once and only on success, and it is the answer to the last poll; a failure leaves the store as it was. |
| DeviceFlow.AwaitWaits | composeApp/src/commonMain/kotlin/zed/rainxch/githubstore/feature/auth/data/repository/AuthRepositoryImpl.kt:48-58 | Every answer that caused a wait kept the loop going. The waits start from max(intervalSec, 1)·1000 ms, grow by 2000 ms per `slow_down`, and never shrink. |
| DeviceFlow.AwaitEnding | composeApp/src/commonMain/kotlin/zed/rainxch/githubstore/feature/auth/data/repository/AuthRepositoryImpl.kt:38-65 | The call stops at the first answer that ends the loop and returns that answer's outcome; that answer was asked for while budget remained, since the waits before it sum to less than the budget. Otherwise it runs out of budget and fails with "Device code expired": its waits cover the budget, and its last poll was sent while budget remained. |
| DeviceFlow.AwaitAllPending | composeApp/src/commonMain/kotlin/zed/rainxch/githubstore/feature/auth/data/repository/AuthRepositoryImpl.kt:34-52 | When every answer is `authorization_pending`, the call fails with "Device code expired" after exactly ceil(expiresInSec·1000 / initial interval) polls. |
| DeviceFlow.Saving | composeApp/src/commonMain/kotlin/zed/rainxch/githubstore/feature/auth/data/repository/AuthRepositoryImpl.kt:42-46 | The token store receives the token once on success and nothing on failure. |
| DeviceFlow.AccessToken | composeApp/src/commonMain/kotlin/zed/rainxch/githubstore/feature/auth/data/repository/AuthRepositoryImpl.kt:21-22 | The access-token flow is `null` exactly when no token is stored, and is otherwise the stored token's access token. |
| DeviceFlow.Logout | composeApp/src/commonMain/kotlin/zed/rainxch/githubstore/feature/auth/data/repository/AuthRepositoryImpl.kt:71-73 | After `logout` the access-token flow is `null`. |
| AuthViewModel.OnToken | composeApp/src/commonMain/kotlin/zed/rainxch/githubstore/feature/auth/presentation/AuthenticationViewModel.kt:47-56 | A `null` or empty token shows LoggedOut with no event. Any other token shows LoggedIn and sends exactly one navigate-to-main event. The other fields are unchanged. |
| AuthViewModel.FailureText | composeApp/src/commonMain/kotlin/zed/rainxch/githubstore/feature/auth/presentation/AuthenticationViewModel.kt:122-141 | A cancellation shows the fixed "cancelled" text. Any other exception shows its message, or the "unknown" text when it has none. |
| AuthViewModel.OnStartLogin | composeApp/src/commonMain/kotlin/zed/rainxch/githubstore/feature/auth/presentation/AuthenticationViewModel.kt:87-144 | The device prompt comes first, with `copied` cleared, and the user code is sent to the clipboard. `copied` ends true exactly when the clipboard accepted the code. The attempt ends LoggedIn and navigates exactly when a token arrived; otherwise it ends in the failure's error text. The info line is kept in every state. |
| AuthViewModel.OnCopyCode | composeApp/src/commonMain/kotlin/zed/rainxch/githubstore/feature/auth/presentation/AuthenticationViewModel.kt:157-178 | `copyCode` shows the prompt as copied, then copies the code; `copied` falls back to false exactly when the clipboard fails. |
| AuthViewModel.OnOpenGitHub | composeApp/src/commonMain/kotlin/zed/rainxch/githubstore/feature/auth/presentation/AuthenticationViewModel.kt:146-155 | The URL opened is `verificationUriComplete` when present, else `verificationUri`; nothing else changes. |
| AuthViewModel.OnAction | composeApp/src/commonMain/kotlin/zed/rainxch/githubstore/feature/auth/presentation/AuthenticationViewModel.kt:70-85 | MarkLoggedIn, MarkLoggedOut and OnInfo each change their one field and nothing else. OpenGitHub leaves the state alone. Only the token flow and a completed login navigate. |
| AuthViewModel.LogoutShowsLoggedOut | composeApp/src/commonMain/kotlin/zed/rainxch/githubstore/feature/auth/presentation/AuthenticationViewModel.kt:50-51 | After `logout`, the token flow's `null` shows LoggedOut without navigating. |
| AuthViewModel.SavedTokenShowsLoggedIn | composeApp/src/commonMain/kotlin/zed/rainxch/githubstore/feature/auth/presentation/AuthenticationViewModel.kt:50-54 | A stored non-empty token shows LoggedIn and navigates. |
| AuthViewModel.BlankClientIdShowsError | composeApp/src/commonMain/kotlin/zed/rainxch/githubstore/feature/auth/presentation/AuthenticationViewModel.kt:132-141 | A blank client id ends the login with the missing-client-id text on screen. |
| AuthViewModel.ExpiryShowsCancelled | composeApp/src/commonMain/kotlin/zed/rainxch/githubstore/feature/auth/presentation/AuthenticationViewModel.kt:122-131 | When every poll is pending until the code expires, the login ends with the "cancelled" text and does not navigate. |
| AuthViewModel.DenialShowsCancelled | composeApp/src/commonMain/kotlin/zed/rainxch/githubstore/feature/auth/presentation/AuthenticationViewModel.kt:122-131 | A denial ends the login with the "cancelled" text and does not navigate. |
| Details.SelectLatest | composeApp/src/commonMain/kotlin/zed/rainxch/githubstore/feature/details/data/repository/DetailsRepositoryImpl.kt:53-58 | Nothing is picked exactly when no release is both non-draft and non-prerelease, with a missing flag counting as false. Otherwise the pick qualifies, has the greatest sort key, and is the earliest release holding that key, as the stable sort puts first. |
| Details.LatestIsUnique | composeApp/src/commonMain/kotlin/zed/rainxch/githubstore/feature/details/data/repository/DetailsRepositoryImpl.kt:56-57 | That description fixes the position: at most one release meets it. |
| Details.ReleaseToDomain | composeApp/src/commonMain/kotlin/zed/rainxch/githubstore/feature/details/data/repository/DetailsRepositoryImpl.kt:164-179 | `publishedAt` becomes `publishedAt ?: createdAt ?: ""`. The id, tag and body are kept. The assets map one to one, in order, keeping name, size and download URL. |
| Details.GetLatestPublishedRelease | composeApp/src/commonMain/kotlin/zed/rainxch/githubstore/feature/details/data/repository/DetailsRepositoryImpl.kt:47-61 | The result is `null` exactly when no release qualifies; otherwise it is the mapped latest release. |
| Details.LatestIsPublishedAndNewest | composeApp/src/commonMain/kotlin/zed/rainxch/githubstore/feature/details/domain/repository/DetailsRepository.kt:19-22 | The returned release is neither a draft nor a prerelease, and no qualifying release has a greater key. |
| Details.ContributorsCountAsWritten | composeApp/src/commonMain/kotlin/zed/rainxch/githubstore/feature/details/data/repository/DetailsRepositoryImpl.kt:81-97 | The count as the code computes it. A failed request gives 0. A missing header, or one without `rel="last"`, gives 1. |
| Details.LastSegmentFound | composeApp/src/commonMain/kotlin/zed/rainxch/githubstore/feature/details/data/repository/DetailsRepositoryImpl.kt:88-90 | A header that mentions `rel="last"` always has a comma-separated segment that does. |
| Details.SplitGithubLink | composeApp/src/commonMain/kotlin/zed/rainxch/githubstore/feature/details/data/repository/DetailsRepositoryImpl.kt:90 | Of the header GitHub sends, that segment is the `rel="last"` link. |
| Details.SegmentAfterFirstPage | composeApp/src/commonMain/kotlin/zed/rainxch/githubstore/feature/details/data/repository/DetailsRepositoryImpl.kt:91 | The first `page=` in that segment is the tail of `per_page=`. |
| Details.AsWrittenValue | composeApp/src/commonMain/kotlin/zed/rainxch/githubstore/feature/details/data/repository/DetailsRepositoryImpl.kt:91 | The text the code passes to `toIntOrNull` is `1&anon=1&page=N`. |
| Details.AsWrittenMissesPage | composeApp/src/commonMain/kotlin/zed/rainxch/githubstore/feature/details/data/repository/DetailsRepositoryImpl.kt:91-92 | As written, GitHub's header gives a count of 0, whatever the number of pages: the text after the first `page=` is no number. |
| Details.NotANumber | composeApp/src/commonMain/kotlin/zed/rainxch/githubstore/feature/details/data/repository/DetailsRepositoryImpl.kt:92 | `toIntOrNull` rejects `1&anon=1&page=…`, the text after `per_page=`, whose second character is `&`. |
| Details.ParamValue | composeApp/src/commonMain/kotlin/zed/rainxch/githubstore/feature/details/data/repository/DetailsRepositoryImpl.kt:89-91 | Nothing is found exactly when no pair starts with `name=`. Otherwise the value is the rest of the first such pair. |
| Details.ContributorsCount | composeApp/src/commonMain/kotlin/zed/rainxch/githubstore/feature/details/data/repository/DetailsRepositoryImpl.kt:81-97 | The corrected count reads the `page` query parameter of the `rel="last"` link. A failed request gives 0; a missing header, or one without `rel="last"`, gives 1. |
| Details.PageOfLastSegment | composeApp/src/commonMain/kotlin/zed/rainxch/githubstore/feature/details/data/repository/DetailsRepositoryImpl.kt:89-91 | The `page` parameter of GitHub's last link is the number of the last page. |
| Details.CountReadsLastPage | composeApp/src/commonMain/kotlin/zed/rainxch/githubstore/feature/details/data/repository/DetailsRepositoryImpl.kt:89-92 | With the correction, GitHub's header for N pages, where N fits an `Int`, counts N. |
| Details.GetRepoStats | composeApp/src/commonMain/kotlin/zed/rainxch/githubstore/feature/details/data/repository/DetailsRepositoryImpl.kt:75-105 | `getRepoStats` as written. Stars, forks and open issues are copied from the repository info. A failed contributors request counts 0, and a missing header or one without `rel="last"` counts 1. Otherwise the count is the as-written count, and only the count differs from the corrected stats. |
| Details.StatsShowNoContributors | composeApp/src/commonMain/kotlin/zed/rainxch/githubstore/feature/details/data/repository/DetailsRepositoryImpl.kt:81-104 | As written, the stats built from GitHub's header show 0 contributors, whatever the number of pages. |
| Details.GetRepoStatsCorrected | composeApp/src/commonMain/kotlin/zed/rainxch/githubstore/feature/details/data/repository/DetailsRepositoryImpl.kt:75-105 | `getRepoStats` with the corrected count: the same copied counts, 0 for a failed request, 1 without a `rel="last"` link. |
| Details.CorrectedStatsShowLastPage | composeApp/src/commonMain/kotlin/zed/rainxch/githubstore/feature/details/data/repository/DetailsRepositoryImpl.kt:81-104 | With the correction, the stats built from GitHub's header for N pages show N contributors. |
| UpdateHistoryDao.Insert | composeApp/src/commonMain/kotlin/zed/rainxch/githubstore/core/data/local/db/dao/UpdateHistoryDao.kt:17-18 | One row is added at the end, every old row is kept in place, and the multiset of rows grows by that row. |
| UpdateHistoryDao.Where | composeApp/src/commonMain/kotlin/zed/rainxch/githubstore/core/data/local/db/dao/UpdateHistoryDao.kt:14-21 | A `WHERE` keeps exactly the rows satisfying the condition, each as often as before. |
| UpdateHistoryDao.WhereIdempotent | composeApp/src/commonMain/kotlin/zed/rainxch/githubstore/core/data/local/db/dao/UpdateHistoryDao.kt:20-21 | Filtering twice by one condition is filtering once. |
| UpdateHistoryDao.DeleteOld | composeApp/src/commonMain/kotlin/zed/rainxch/githubstore/core/data/local/db/dao/UpdateHistoryDao.kt:20-21 | `deleteOldHistory(t)` removes exactly the rows with `updatedAt < t` and keeps every other row as often as before. |
| UpdateHistoryDao.DeleteKeepsBoundary | composeApp/src/commonMain/kotlin/zed/rainxch/githubstore/core/data/local/db/dao/UpdateHistoryDao.kt:20-21 | A row stamped exactly `t` survives. |
| UpdateHistoryDao.DeleteOldIdempotent | composeApp/src/commonMain/kotlin/zed/rainxch/githubstore/core/data/local/db/dao/UpdateHistoryDao.kt:20-21 | Deleting with the same `t` again removes nothing more. |
| UpdateHistoryDao.InsertByDate | composeApp/src/commonMain/kotlin/zed/rainxch/githubstore/core/data/local/db/dao/UpdateHistoryDao.kt:11-15 | Inserting into a newest-first list keeps it newest first and adds exactly that row. |
| UpdateHistoryDao.SortNewestFirst | composeApp/src/commonMain/kotlin/zed/rainxch/githubstore/core/data/local/db/dao/UpdateHistoryDao.kt:11-15 | `ORDER BY updatedAt DESC` gives a permutation of the rows that is newest first. |
| UpdateHistoryDao.RecentHistory | composeApp/src/commonMain/kotlin/zed/rainxch/githubstore/core/data/local/db/dao/UpdateHistoryDao.kt:11-12 | `getRecentHistory` returns min(rows, 50) of the table's rows, newest first. |
| UpdateHistoryDao.RecentHistoryIsNewest | composeApp/src/commonMain/kotlin/zed/rainxch/githubstore/core/data/local/db/dao/UpdateHistoryDao.kt:11-12 | No row it leaves out is newer than a row it returns. |
| UpdateHistoryDao.HistoryForApp | composeApp/src/commonMain/kotlin/zed/rainxch/githubstore/core/data/local/db/dao/UpdateHistoryDao.kt:14-15 | `getHistoryForApp(p)` returns exactly the rows of package `p`, each as often as in the table, newest first. |
| UpdateHistoryDao.InsertOtherPackage | composeApp/src/commonMain/kotlin/zed/rainxch/githubstore/core/data/local/db/dao/UpdateHistoryDao.kt:14-18 | Inserting a row for another package leaves a package's history as it was, up to the order of equal timestamps: the rows are the same multiset and both are newest first. |
| InstalledApps.GetAppByPackage | composeApp/src/commonMain/kotlin/zed/rainxch/githubstore/core/data/repository/InstalledAppsRepositoryImpl.kt:28-29 | The lookup finds a record exactly when one is stored under that package name, and returns it. |
| InstalledApps.SaveInstalledApp | composeApp/src/commonMain/kotlin/zed/rainxch/githubstore/core/data/repository/InstalledAppsRepositoryImpl.kt:37-39 | After a save, the record is found under its package name; every other package's record is unchanged, and so is the history. |
| InstalledApps.DeleteInstalledApp | composeApp/src/commonMain/kotlin/zed/rainxch/githubstore/core/data/repository/InstalledAppsRepositoryImpl.kt:41-43 | After a delete, the package is not found; every other package's record is unchanged, and so is the history. |
| InstalledApps.Installable | composeApp/src/commonMain/kotlin/zed/rainxch/githubstore/core/data/repository/InstalledAppsRepositoryImpl.kt:58-60 | The installable assets are exactly the release's assets the installer accepts. Each one occurs as often as in the release, and they keep the release's order, since they are a subsequence of its assets. |
| InstalledApps.CheckApp | composeApp/src/commonMain/kotlin/zed/rainxch/githubstore/core/data/repository/InstalledAppsRepositoryImpl.kt:48-88 | With a latest release, the flag written and returned is exactly `tagName != installedVersion`. The latest version written is the tag and the notes are the description or "". The asset name, URL and size come from the installer's choice among the installable assets, or are `null`. With no release, nothing is written and false is returned. When fetching fails, only `lastCheckedAt` is written and false is returned. What is installed, and the user's switches, are never touched. |
| InstalledApps.CheckAppIdempotent | composeApp/src/commonMain/kotlin/zed/rainxch/githubstore/core/data/repository/InstalledAppsRepositoryImpl.kt:55-79 | Checking again against the same answer changes nothing more. |
| InstalledApps.CheckAppWritesInstallable | composeApp/src/commonMain/kotlin/zed/rainxch/githubstore/core/data/repository/InstalledAppsRepositoryImpl.kt:58-62 | When the installer picks among the assets it is given, the asset written is an installable asset of the release. |
| InstalledApps.CheckForUpdates | composeApp/src/commonMain/kotlin/zed/rainxch/githubstore/core/data/repository/InstalledAppsRepositoryImpl.kt:45-89 | An unknown package returns false and writes nothing. A known one is checked, and only its record changes. A failure escaping the check is passed on. |
| InstalledApps.UpdatePendingStatus | composeApp/src/commonMain/kotlin/zed/rainxch/githubstore/core/data/repository/InstalledAppsRepositoryImpl.kt:145-148 | Only `isPendingInstall` of an existing record changes; an absent record leaves the tables as they were. |
| InstalledApps.PendingStatusRestores | composeApp/src/commonMain/kotlin/zed/rainxch/githubstore/core/data/repository/InstalledAppsRepositoryImpl.kt:145-148 | Setting the flag back to its old value restores the tables. |
| InstalledApps.UpdateAppVersion | composeApp/src/commonMain/kotlin/zed/rainxch/githubstore/core/data/repository/InstalledAppsRepositoryImpl.kt:104-143 | An unknown package is a no-op. Otherwise exactly one history row is appended: from the old installed version to the new one, successful, from this app, stamped now. The record shows the new version and asset as installed and latest, with no update available; nothing else changes. |
| InstalledApps.UpdatedAppIsCurrent | composeApp/src/commonMain/kotlin/zed/rainxch/githubstore/core/data/repository/InstalledAppsRepositoryImpl.kt:104-143 | After updating to a release's tag, checking against that release finds no update. |
| InstalledApps.CheckAllForUpdates | composeApp/src/commonMain/kotlin/zed/rainxch/githubstore/core/data/repository/InstalledAppsRepositoryImpl.kt:91-102 | The sweep keeps the set of packages and the history. Records not listed, or with checks off, are untouched. |
| InstalledApps.SweepStep | composeApp/src/commonMain/kotlin/zed/rainxch/githubstore/core/data/repository/InstalledAppsRepositoryImpl.kt:93-100 | One turn of the sweep checks an app exactly when it has checks on. A failure escaping the check is caught and leaves the tables as they were. No other record changes. |
| InstalledApps.SweepChecksEachOnce | composeApp/src/commonMain/kotlin/zed/rainxch/githubstore/core/data/repository/InstalledAppsRepositoryImpl.kt:91-102 | Each listed app with checks on ends as checking it alone would leave it, whatever happened to the others: an `Exception` escaping its check leaves it as it was. |
| Startup.Prune | composeApp/src/androidMain/kotlin/zed/rainxch/githubstore/app/GithubStoreApp.kt:29-45 | Pruning deletes only listed packages, and leaves records of packages the system has untouched. Without an exception, no listed package outside the system survives. The history is never touched. |
| Startup.OnStart | composeApp/src/androidMain/kotlin/zed/rainxch/githubstore/app/GithubStoreApp.kt:29-48 | The sweep adds no record back. With a complete listing and no exception, the records left are exactly those of packages the system has. |
| Startup.SweepRunsAfterPruning | composeApp/src/androidMain/kotlin/zed/rainxch/githubstore/app/GithubStoreApp.kt:43-47 | Whether or not pruning failed, an app the system has, with checks on, ends as checking it alone would leave it. |
| HomeViewModel.Collect | composeApp/src/commonMain/kotlin/zed/rainxch/githubstore/feature/home/presentation/HomeViewModel.kt:77-97 | Each emitted page clears the loading flags and the error, and sets `hasMorePages` from the last page. An initial load shows the last page's repositories; a load-more appends every page's repositories to the old list. |
| HomeViewModel.LoadRepos | composeApp/src/commonMain/kotlin/zed/rainxch/githubstore/feature/home/presentation/HomeViewModel.kt:40-110 | An initial load restarts at page 1. Without a token, only `needsAuth` and the two loading flags change. Otherwise the state shown before fetching has the right loading flag and no error. It clears (initial) or keeps (more) the list and takes the requested or current category, which is fetched at the current page. A failure clears the flags and shows its message or "Failed to load data". |
| HomeViewModel.OnAction | composeApp/src/commonMain/kotlin/zed/rainxch/githubstore/feature/home/presentation/HomeViewModel.kt:112-132 | A blocked LoadMore changes nothing. An acting LoadMore moves on exactly one page and asks for it. Refresh, Retry and SwitchCategory fetch page 1, in the current or chosen category. |
| HomeViewModel.FailureKeepsListAndPage | composeApp/src/commonMain/kotlin/zed/rainxch/githubstore/feature/home/presentation/HomeViewModel.kt:99-107 | A failed load-more keeps the list, shows the error, and does not take the page counter back. |
| HomeViewModel.LoadMoreKeepsShown | composeApp/src/commonMain/kotlin/zed/rainxch/githubstore/feature/home/presentation/HomeViewModel.kt:82-96 | Loading more never drops a repository already shown. |
| HomeViewModel.SilentLoadMoreBlocksLoadMore | composeApp/src/commonMain/kotlin/zed/rainxch/githubstore/feature/home/presentation/HomeViewModel.kt:121-126 | A load-more whose flow completes without emitting leaves `isLoadingMore` set, so the next LoadMore is blocked. |
| HomeViewModel.LoadMoreCounts | composeApp/src/commonMain/kotlin/zed/rainxch/githubstore/feature/home/presentation/HomeViewModel.kt:121-126 | `n` successful LoadMores in a row advance the page counter by exactly `n`. |
| UpdatedAt.WholeUnits | composeApp/src/commonMain/kotlin/zed/rainxch/githubstore/core/presentation/utils/UpdatedAtFormmater.kt:16-17 | `inWholeHours`/`inWholeDays` truncate toward zero, for past and future instants alike. |
| UpdatedAt.WholeUnitsMonotone | composeApp/src/commonMain/kotlin/zed/rainxch/githubstore/core/presentation/utils/UpdatedAtFormmater.kt:16-17 | Whole units never decrease as the elapsed time grows. |
| UpdatedAt.Classify | composeApp/src/commonMain/kotlin/zed/rainxch/githubstore/core/presentation/utils/UpdatedAtFormmater.kt:19-28 | The first branch whose test holds is taken: just now below one whole hour, N hours for 1 ≤ N < 24, yesterday at exactly one whole day, N days for 2 ≤ N < 7, otherwise the date. |
| UpdatedAt.ClassifyMonotone | composeApp/src/commonMain/kotlin/zed/rainxch/githubstore/core/presentation/utils/UpdatedAtFormmater.kt:19-28 | As time passes, the line only moves forward through the five buckets, and the counts never go down within a bucket. |
| UpdatedAt.ClassifyThresholds | composeApp/src/commonMain/kotlin/zed/rainxch/githubstore/core/presentation/utils/UpdatedAtFormmater.kt:16-28 | Every elapsed time, future instants included, gets exactly one line, by the thresholds in milliseconds. |
| UpdatedAt.FormatUpdatedAt | composeApp/src/commonMain/kotlin/zed/rainxch/githubstore/core/presentation/utils/UpdatedAtFormmater.kt:11-29 | The text of each of the five lines. The day count is always plural. |
| UpdatedAt.PluralForms | composeApp/src/commonMain/kotlin/zed/rainxch/githubstore/core/presentation/utils/UpdatedAtFormmater.kt:21-23 | The hour count is singular exactly when it is 1. The singular day form is unreachable. |
| UpdatedAt.CountReadsBack | composeApp/src/commonMain/kotlin/zed/rainxch/githubstore/core/presentation/utils/UpdatedAtFormmater.kt:21 | The hour count shown reads back as the count. |
| Platform.PlatformOf | composeApp/src/jvmMain/kotlin/zed/rainxch/githubstore/feature/home/data/repository/HomeRepositoryImpl.jvm.kt:4-8 | WINDOWS exactly when the lowercased name contains "win". MACOS exactly when it does not but contains "mac". LINUX otherwise. |
| Platform.PlatformIgnoresCase | composeApp/src/jvmMain/kotlin/zed/rainxch/githubstore/feature/home/data/repository/HomeRepositoryImpl.jvm.kt:5-6 | Only the lowercased name matters. |
| Platform.PlatformOfLowercase | composeApp/src/jvmMain/kotlin/zed/rainxch/githubstore/feature/home/data/repository/HomeRepositoryImpl.jvm.kt:5-6 | Lowercasing the name first changes nothing. |
| Platform.WinBeforeMac | composeApp/src/jvmMain/kotlin/zed/rainxch/githubstore/feature/home/data/repository/HomeRepositoryImpl.jvm.kt:5-6 | A name containing both "win" and "mac" gives WINDOWS. |
| Platform.MacOsName | composeApp/src/jvmMain/kotlin/zed/rainxch/githubstore/feature/home/data/repository/HomeRepositoryImpl.jvm.kt:6 | "Mac OS X" gives MACOS. |
| Platform.DarwinIsWindows | composeApp/src/jvmMain/kotlin/zed/rainxch/githubstore/feature/home/data/repository/HomeRepositoryImpl.jvm.kt:5 | "Darwin" contains "win" and gives WINDOWS. |
| Strings.SubstringAfter | composeApp/src/commonMain/kotlin/zed/rainxch/githubstore/feature/details/data/repository/DetailsRepositoryImpl.kt:91 | `substringAfter` gives the text after the first occurrence, or the whole string when there is none. |
| Strings.SubstringBefore | composeApp/src/commonMain/kotlin/zed/rainxch/githubstore/feature/details/data/repository/DetailsRepositoryImpl.kt:91 | `substringBefore` gives the text before the first occurrence, or the whole string when there is none. |
| Strings.Split | composeApp/src/commonMain/kotlin/zed/rainxch/githubstore/feature/details/data/repository/DetailsRepositoryImpl.kt:90 | `split(',')` gives at least one piece, no piece holds the separator, and joining the pieces back gives the input. |
| Strings.FirstContaining | composeApp/src/commonMain/kotlin/zed/rainxch/githubstore/feature/details/data/repository/DetailsRepositoryImpl.kt:90 | `firstOrNull { contains }` is `null` exactly when no piece contains the pattern; otherwise it is the first piece that does. |
| Strings.SplitKeepsPattern | composeApp/src/commonMain/kotlin/zed/rainxch/githubstore/feature/details/data/repository/DetailsRepositoryImpl.kt:88-90 | A pattern without the separator that occurs in the text lies wholly inside one piece. |
| Strings.ParseInt | composeApp/src/commonMain/kotlin/zed/rainxch/githubstore/feature/details/data/repository/DetailsRepositoryImpl.kt:92 | `toIntOrNull` rejects the empty text and any non-digit after the sign. It accepts all-digit text exactly when the value fits an `Int`, and then returns that value. |
| Strings.ParseDecimal | composeApp/src/commonMain/kotlin/zed/rainxch/githubstore/feature/details/data/repository/DetailsRepositoryImpl.kt:92 | A rendered number that fits an `Int` parses back to itself. |
| Strings.ParseSignedDecimal | composeApp/src/commonMain/kotlin/zed/rainxch/githubstore/feature/details/data/repository/DetailsRepositoryImpl.kt:92 | A `+` or `-` sign before a rendered number parses to the signed number, down to `Int.MIN_VALUE`. |
| Strings.IfBlank | composeApp/src/commonMain/kotlin/zed/rainxch/githubstore/feature/auth/data/repository/AuthRepositoryImpl.kt:28 | `ifBlank` gives the fallback exactly for a blank text. |
| Strings.LowerIdempotent | composeApp/src/commonMain/kotlin/zed/rainxch/githubstore/feature/auth/data/repository/AuthRepositoryImpl.kt:47 | Lowercasing twice is lowercasing once. |
| Strings.LexLeTotal | composeApp/src/commonMain/kotlin/zed/rainxch/githubstore/feature/details/data/repository/DetailsRepositoryImpl.kt:56 | Any two sort keys are comparable. |
| Strings.LexLeTransitive | composeApp/src/commonMain/kotlin/zed/rainxch/githubstore/feature/details/data/repository/DetailsRepositoryImpl.kt:56 | String order is transitive. |
| Strings.LexLeAntisymmetric | composeApp/src/commonMain/kotlin/zed/rainxch/githubstore/feature/details/data/repository/DetailsRepositoryImpl.kt:56 | Two keys that are each at most the other are equal. |

## Left out

- Network and I/O are not modelled: the HTTP calls, JSON decoding, the token store's persistence, the clipboard and the browser. Their answers are parameters.
- Coroutines are not modelled: dispatchers, `delay`, flows and job cancellation. Each action runs to its end before the next; a flow is its sequence of emissions.
- The clock is a `now` argument. One `now` stands for the separate `currentTimeMillis` reads of one call, for example the two in `updateAppVersion`.
- History row ids are not generated: the autogenerated key is left at 0.
- InstalledAppDao is not part of this model. `updateVersionInfo` is taken to write exactly its named columns, with `timestamp` written to `lastCheckedAt`. `updateLastChecked` writes only `lastCheckedAt`. `insertApp` replaces an existing record.
- `getAppByRepoId`, `isAppInstalled`, `getAllInstalledApps` and `getUpdateCount` are thin DAO queries whose SQL is not part of this model.
- InstallSource.kt is not part of this model. Only `THIS_APP` is named, and every other source is `OtherSource`.
- DeviceFlow.Poll: the request's `clientId` and `deviceCode` are not modelled; the endpoint's answers are a function of the poll number.
- Kotlin `Long` and `Int` widths are not modelled for budgets, intervals, sizes and timestamps. `expiresInSec * 1000L` cannot overflow a `Long`.
- `toIntOrNull` is modelled as the 32-bit parse.
- Strings.Lower: `lowercase()` is modelled on ASCII letters only. The rules look for ASCII words, so Unicode case mapping cannot change which rule matches except through letters that lowercase to ASCII, such as the Kelvin sign.
- Strings.ParseInt accepts ASCII digits only, where `toIntOrNull` also accepts other Unicode decimal digits.
- Strings.LexLe compares Unicode scalar values, where `compareTo` compares UTF-16 code units. The two orders differ only above U+FFFF, and release timestamps are ASCII.
- `formatUpdatedAt` does not parse the ISO instant, read the clock or render the local date. The elapsed milliseconds and the rendered date are inputs.
- Startup: the package listing is the same for pruning and for the sweep. A listing taken after pruning holds only the surviving packages, and the sweep ignores listed packages that have no record.
- InstalledApps.CheckForUpdates: a failure that escapes (`Crashed`) stands for a database `Exception` from `getAppByPackage` (line 45, before the `try`) or from `updateLastChecked` in the catch (line 85). Either way nothing is written.
- InstalledApps.SweepChecksEachOnce: only failures that are an `Exception` are modelled. A `Throwable` that is not an `Exception`, such as an `Error`, escapes both catches (InstalledAppsRepositoryImpl.kt lines 83 and 97). It ends the sweep, and with it the start-up job, whose sweep call is outside the `try`. "Whatever happened to the others" holds only for `Exception`s.
- AuthViewModel: AuthenticationState.kt declares a sealed interface that does not match the view model's use of `copy(loginState, copied, info)`. The model follows the view model.
- The `Pending` login state is declared but never set by the code, so it has no transition.
- HomeViewModel: HomeState.kt is not part of this model. The state's fields are those the view model uses.
- HomeViewModel: the initial load on first subscription is the same call as Retry, and it is not modelled apart.
- HomeViewModel: the repository's three category flows are one answer per load. Repository summaries carry only an id.
- DeviceFlow.Classify: no lemma evaluates the codes `access_denied`, `expired_token` and `expired_device_code` literally. They appear in the rule table `Rules`, and AuthViewModel.DenialShowsCancelled starts from an answer classified `Denied`.
- The download, verify and install pipeline, the Compose screens, `getReadme` and `getRepositoryById` are not part of this model.
- The Android `getPlatform` is a constant, and it is not modelled.
- HomeViewModel.LoadRepos: the published states it records are the state shown before fetching, the state after the last emitted page and the failure state. The states published after earlier pages (HomeViewModel.kt lines 82-96 publish one per emission) are not recorded, because each is `Collect` over a prefix of the pages and the final list is what the contracts are about.

## Findings

| source | as written | input that shows it | evidently intended | confidence | as-written member | corrected member |
|---|---|---|---|---|---|---|
| composeApp/src/commonMain/kotlin/zed/rainxch/githubstore/feature/details/data/repository/DetailsRepositoryImpl.kt:91-92 | `substringAfter("page=")` stops at the first `page=` of the `rel="last"` segment, which is the tail of `per_page=`, because the request sends `per_page=1&anon=1`. The text parsed is `1&anon=1&page=N`, `toIntOrNull` gives `null`, and the count is 0. | `Link: <…?per_page=1&anon=1&page=2>; rel="next", <…?per_page=1&anon=1&page=34>; rel="last"` counts 0 instead of 34 | the value of the link's `page` query parameter, 34 | not executed | Details.AsWrittenMissesPage | Details.CountReadsLastPage |
