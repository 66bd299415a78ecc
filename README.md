# boj-challenge core, modelled in Dafny

boj-challenge is a web application for study groups that solve problems on the
Baekjoon Online Judge (BOJ) every day. This project models its functional core:

- **The three scraping endpoints.** They read a user's accepted-submission
  status table on the judge site:
  - `today-problems`: the distinct problems solved today, newest first, at
    most `count`;
  - `solved-yesterday`: whether anything was solved yesterday;
  - `recent-problems`: the `count` most recent distinct problems.
- **The penalty panel.** The Monday-to-Sunday ranges of this week and last
  week, their `YYYY-MM-DD` labels, and the per-user summary of penalty records.
- **The client helpers for judge data.** Tier names and colours of the 30
  difficulty levels, and how the today-problems and problem-lookup answers are
  shaped.
- **The profile page.** Nickname trimming, validation and the duplicate
  check, and the avatar storage path.
- **The group-creation form.** Rest-day toggling and the checks made before a
  group and its owner's membership are inserted.
- **The group list page.** Name search, the joined groups, and the join and
  leave procedures.
- **The "solved today" panel.** The per-member map of today's problems and
  the order in which members are shown.

Modules follow the source files:

| module | file |
|---|---|
| `StatusTable` | the status table and the endpoints' requests and responses, shared by the three endpoints |
| `TodayProblems` | `api/today-problems.js` |
| `SolvedYesterday` | `api/solved-yesterday.js` |
| `RecentProblems` | `api/recent-problems.js` |
| `PunishmentInfo` | `src/components/PunishmentInfo.jsx` |
| `BojApi` | `src/utils/bojApi.js` |
| `ManageProfile` | `src/pages/ManageProfile.jsx` |
| `CreateGroup` | `src/pages/CreateGroup.jsx` |
| `GroupList` | `src/pages/GroupList.jsx` |
| `TodaySolved` | `src/components/TodaySolved.jsx` |
| `Wrappers`, `Seqs`, `Decimal` | shared helpers: `Option`/`Result`, deduplication and filtering of sequences, decimal rendering |

How the model is built:

- **Scans as loops.** Each row loop of an endpoint is a method with a loop. It
  is proved equal to a declarative function of the table, and the endpoint's
  promises are lemmas about that function.
- **Stateful pages as classes.** A page whose handlers update state is a class.
  Its methods state the whole new state, including the backend calls made, in
  order, and the alerts shown.
- **The judge site and the clock as parameters.** The HTML page is a sequence
  of rows, newest first. The day boundaries are epoch-millisecond parameters.
- **The backend as parameters.** Supabase answers are method parameters, and
  the answers of the prompt and confirm dialogs are too.

How the endpoints treat the judge page's HTTP status:

- today-problems and solved-yesterday never check it. A non-OK page is parsed
  like any other, and a 500 is sent only when the request itself fails.
- recent-problems checks it and answers a non-OK page with a 500.

## Model

| member | source | states |
|---|---|---|
| StatusTable.ProbeLimit | api/today-problems.js:28-30 | the today and yesterday scans reach at most 100 rows and no row past the end of the table |
| StatusTable.StatusCode | api/today-problems.js:7 | a response carries status 400 exactly when it is the missing-user answer and 500 exactly when it is the crawl-failure answer |
| TodayProblems.FirstEnd | api/today-problems.js:36-41 | the index of the first row without a timestamp or older than today: no earlier row ends the scan |
| TodayProblems.ScanEnd | api/today-problems.js:28-41 | the rows the scan may use lie within the 100-row limit and before the first row that ends it |
| TodayProblems.WindowIdsMembers | api/today-problems.js:43-46 | the collected ids are exactly the ids of the in-window rows among those read |
| TodayProblems.Cap | api/today-problems.js:46-48 | the cap is `count` when `count` is at least 1, and 1 otherwise, because the push comes before the `results.length >= count` test |
| TodayProblems.WindowIdsPrefix | api/today-problems.js:28-50 | reading more rows only appends ids |
| TodayProblems.WindowIdsUnchanged | api/today-problems.js:43 | rows outside [startOfToday, startOfTomorrow) add no id and do not stop the scan |
| TodayProblems.TodayItemsProperties | api/today-problems.js:38-48 | the report is duplicate-free and holds at most `count` ids; each id comes from a scanned row inside [startOfToday, startOfTomorrow); the ids are in the order of their first in-window row; with fewer ids than the cap, every scanned in-window row's id is present |
| TodayProblems.SortedScanMissesNothing | api/today-problems.js:41 | on a newest-first table in which every row has a timestamp, stopping at the first row older than today loses no in-window row |
| TodayProblems.SkipRow | api/today-problems.js:43-44 | a row outside the window, or with an id already kept, leaves the collected ids as they are |
| TodayProblems.PushRow | api/today-problems.js:45-46 | an in-window row with a new id appends that id |
| TodayProblems.StoppedAtScanEnd | api/today-problems.js:30-41 | a scan stopped by a missing row, a missing timestamp, an older row or the 100-row limit holds the report |
| TodayProblems.StoppedAtCap | api/today-problems.js:48 | a scan stopped right after the push that reaches `count` holds the report |
| TodayProblems.ScanToday | api/today-problems.js:21-50 | the row loop returns exactly the report: the first `count` distinct in-window ids before the first row that ends the scan |
| TodayProblems.Handle | api/today-problems.js:3-57 | a request without `user` gets 400 and no fetch; a failed fetch gets 500; otherwise the scanned items come back with status 200 and the default `count` is 10 |
| SolvedYesterday.ScanYesterday | api/solved-yesterday.js:26-43 | the loop answers true exactly when an in-window row comes before any older row; it reads no row after the first in-window row; a false answer stops at an older row or at the end |
| SolvedYesterday.SolvedIffSomeRowInWindow | api/solved-yesterday.js:26-43 | on a newest-first table the answer is true exactly when some probed row lies in [startOfYesterday, startOfToday) |
| SolvedYesterday.WindowBoundaries | api/solved-yesterday.js:36 | a row exactly at the start of yesterday counts; a row exactly at the start of today neither counts nor stops the scan |
| SolvedYesterday.Handle | api/solved-yesterday.js:6-47 | a request without `user` gets 400 and no fetch; a failed fetch gets 500; otherwise the answer is `{ solved }` with status 200 |
| RecentProblems.CellIdsAt | api/recent-problems.js:34 | position `j` of the id list is the trimmed third-cell text of row `j` |
| RecentProblems.CellIdsPrefix | api/recent-problems.js:29-43 | the ids of the first `k` rows are the first `k` ids |
| RecentProblems.RecentStopped | api/recent-problems.js:29-31 | the loop stops at the end of the table or once `count` ids are in, and then holds the report |
| RecentProblems.ScanRecent | api/recent-problems.js:25-43 | the while loop returns the first `count` distinct cell ids in row order, and none when `count` is below 1 |
| RecentProblems.RecentItemsProperties | api/recent-problems.js:29-43 | the report is duplicate-free, holds at most `count` ids, and lists them in first-seen row order; each id comes from a row; with fewer than `count` ids every row's id is present |
| RecentProblems.Handle | api/recent-problems.js:3-55 | a request without `user` gets 400; a failed fetch or a non-OK status gets 500 with `error` and `detail` and no items; otherwise the items come back with status 200 and the default `count` is 20 |
| PunishmentInfo.Weekday | src/components/PunishmentInfo.jsx:6 | `getDay()` lies in 0..6 |
| PunishmentInfo.DiffToMonday | src/components/PunishmentInfo.jsx:7 | `(day + 6) % 7` lies in 0..6, is 0 exactly on a Monday, and counts the days back to Monday |
| PunishmentInfo.GetWeekRange | src/components/PunishmentInfo.jsx:5-13 | the range starts on a Monday, ends on the Sunday six days later, and contains the date |
| PunishmentInfo.WeekRangeUnique | src/components/PunishmentInfo.jsx:5-13 | only one Monday-to-Sunday range contains a date, so every day of a week gets the same range |
| PunishmentInfo.LastWeekAsWrittenWestOfUtc | src/components/PunishmentInfo.jsx:68-70 | west of UTC, the panel's last-week range starts 14 days before this week's Monday |
| PunishmentInfo.LastWeekAsWrittenExample | src/components/PunishmentInfo.jsx:68-70 | on Monday 2024-06-10 at UTC-05:00 the panel's "last week" is 2024-05-27..2024-06-02 instead of 2024-06-03..2024-06-09 |
| PunishmentInfo.LastWeekRange | src/components/PunishmentInfo.jsx:67-70 | last week is Monday to Sunday, starts 7 days before this week's Monday, and ends the day before it |
| PunishmentInfo.LastWeekAsWrittenEastOfUtc | src/components/PunishmentInfo.jsx:68-70 | at or east of UTC the panel's computation gives last week |
| PunishmentInfo.PanelRanges | src/components/PunishmentInfo.jsx:61-71 | the intended panel: this week contains today, last week ends the day before this week starts, and both run Monday to Sunday; the code as written gives this last week only at or east of UTC (see Findings) |
| PunishmentInfo.FormatDateShape | src/components/PunishmentInfo.jsx:15-20 | for a four-digit year the label is `YYYY-MM-DD`, and its three numbers read back as the year, the 1-based month and the day |
| PunishmentInfo.FirstOfIsFirst | src/components/PunishmentInfo.jsx:30-38 | the record a user's line is created from is that user's first record |
| PunishmentInfo.GroupedFor | src/components/PunishmentInfo.jsx:46 | one summary line per listed user, in the listed order |
| PunishmentInfo.DatesMatchRecords | src/components/PunishmentInfo.jsx:39-43 | a user's date list has one entry per record of that user |
| PunishmentInfo.SumDatesIsTotal | src/components/PunishmentInfo.jsx:39-43 | summed over the distinct users, the date lists account for every record once |
| PunishmentInfo.GroupedOnePerUser | src/components/PunishmentInfo.jsx:29-38 | the panel lists every user with a record exactly once, and nobody else |
| PunishmentInfo.GroupedOrder | src/components/PunishmentInfo.jsx:46 | users are listed in the order of their first records |
| PunishmentInfo.GroupedCounts | src/components/PunishmentInfo.jsx:39-43 | each line's `count` is the number of that user's records and the length of its `dates` |
| PunishmentInfo.GroupedProfiles | src/components/PunishmentInfo.jsx:31-35 | nickname and BOJ id come from the user's first record, with '닉네임 없음' and '백준 ID 없음' when missing |
| PunishmentInfo.GroupedSumIsTotal | src/components/PunishmentInfo.jsx:39 | the counts add up to the number of records |
| PunishmentInfo.GroupMapEntry | src/components/PunishmentInfo.jsx:29-44 | the dictionary holds exactly the users with records, each under their summary line |
| PunishmentInfo.GroupPunishmentsByUser | src/components/PunishmentInfo.jsx:26-47 | the procedure returns the summary lines, one per user in first-record order |
| PunishmentInfo.GroupRecords | src/components/PunishmentInfo.jsx:29-44 | the forEach builds the dictionary of summary lines and inserts the keys in first-record order |
| PunishmentInfo.ValuesInOrder | src/components/PunishmentInfo.jsx:46 | `Object.values` lists the entries in key-insertion order, which holds because user ids are UUIDs and never integer-like keys |
| Decimal.NatToDecimal | src/components/PunishmentInfo.jsx:17-18 | `String(n)` is a non-empty digit string without a leading zero |
| Decimal.IntToDecimal | src/utils/bojApi.js:124 | `String(i)` is a decimal integer: digits, with a minus sign in front exactly when `i` is negative |
| Decimal.DecimalRoundTrip | src/components/PunishmentInfo.jsx:17-18 | reading a rendered number back gives the number |
| Decimal.IntDecimalRoundTrip | src/utils/bojApi.js:124 | reading `String(i)` back gives `i`, so the rendered status is the status |
| Decimal.IntToDecimalInjective | src/utils/bojApi.js:124 | supporting fact, not a promise of the source: different integers are rendered differently |
| Decimal.PadStart2 | src/components/PunishmentInfo.jsx:17-18 | `padStart(2, '0')` puts zeros in front until the string is at least two characters long, and keeps the string as its suffix |
| Decimal.TwoDigitRoundTrip | src/components/PunishmentInfo.jsx:17-18 | a padded month or day is two digits that read back as the number |
| BojApi.LevelName | src/utils/bojApi.js:95-104 | any level outside the table, `null` included, is named '알 수 없음' |
| BojApi.LevelColor | src/utils/bojApi.js:47-91 | any level outside the table gets 'text-gray-500' |
| BojApi.TierGradeDetermineLevel | src/utils/bojApi.js:97-102 | tier and grade together determine the level |
| BojApi.LevelNameByTier | src/utils/bojApi.js:96-102 | level L is named by tier (L-1) div 5 (Bronze, Silver, Gold, Platinum, Diamond, Ruby), a space, and grade 5 - (L-1) mod 5 |
| BojApi.LevelColorByTier | src/utils/bojApi.js:48-90 | every level's colour is its tier's colour |
| BojApi.TierInitialDeterminesTier | src/utils/bojApi.js:97-102 | the six tier names begin with six different characters |
| BojApi.LevelNameInjective | src/utils/bojApi.js:97-102 | different levels have different names |
| BojApi.LevelNameUnknown | src/utils/bojApi.js:104 | the name is '알 수 없음' exactly for levels outside 1..30 |
| BojApi.LevelColorConstantPerTier | src/utils/bojApi.js:47-89 | levels of one tier share their colour |
| BojApi.FetchTodaySolvedProblems | src/utils/bojApi.js:120-139 | a non-OK status throws `HTTP <status>: ...`; a result comes back exactly for an OK JSON answer; that result is the answer's `items` array when it has one, and `[]` when `data` is falsy or `items` is not an array |
| BojApi.TodaySolvedReadsHandlerItems | src/utils/bojApi.js:122-130 | the page reads back exactly the items the today-problems handler sent, and turns its 400 and 500 answers into thrown errors |
| BojApi.HttpFailureMessageInjective | src/utils/bojApi.js:124 | supporting fact, not a promise of the source: the failure messages of different statuses differ |
| BojApi.FetchProblemInfo | src/utils/bojApi.js:142-165 | an OK answer gives its id, its title or '제목 없음', and its level or `null`; any failure gives the requested id, '제목 조회 실패' and no level |
| BojApi.ProblemWithoutLevelShownUnknown | src/utils/bojApi.js:155-162 | a problem whose lookup failed, or whose answer has no level, gets the unknown name and the fallback colour |
| ManageProfile.SkipSpaceFrom | src/pages/ManageProfile.jsx:64 | skips exactly the white space `trim` removes at the front |
| ManageProfile.SkipSpaceBefore | src/pages/ManageProfile.jsx:64 | skips exactly the white space `trim` removes at the end |
| ManageProfile.TrimIsTrimmedSlice | src/pages/ManageProfile.jsx:64 | the trimmed nickname is the text between the leading and the trailing white space, and neither begins nor ends with white space |
| ManageProfile.TrimIdempotent | src/pages/ManageProfile.jsx:64 | trimming twice is trimming once |
| ManageProfile.MatchClassRepeatMeaning | src/pages/ManageProfile.jsx:67 | a repeated character class matches exactly when the length is within the bounds and every character is in the class |
| ManageProfile.NicknamePatternMeaning | src/pages/ManageProfile.jsx:67 | a nickname is accepted exactly when it has 2 to 8 characters, each an ASCII letter, an ASCII digit or a Hangul syllable U+AC00..U+D7A3 |
| ManageProfile.SplitPiecesHoldNoSeparator | src/pages/ManageProfile.jsx:36 | no piece of `split('.')` holds a '.' |
| ManageProfile.LastPieceIsSuffix | src/pages/ManageProfile.jsx:36 | the last piece ends the name, right after a '.' unless it is the whole name |
| ManageProfile.FileExtensionIsLastPiece | src/pages/ManageProfile.jsx:36 | the extension is the text after the last '.', or the whole name when it has no '.' |
| ManageProfile.AvatarPathKeepsExtension | src/pages/ManageProfile.jsx:36-37 | the stored avatar's extension, the text after the path's last '.', is the chosen file's extension |
| ManageProfile.AvatarFolderIsUser | src/pages/ManageProfile.jsx:37 | the folder of the path is the user id when that id holds no '/' |
| ManageProfile.DuplicateCheck | src/pages/ManageProfile.jsx:76-93 | the nickname is free exactly when the query succeeds and no other profile holds it; taken means another profile holds it |
| ManageProfile.HeldNicknameNotFree | src/pages/ManageProfile.jsx:76-93 | a nickname held by another user is never found free, so it is never saved |
| ManageProfile.OwnNicknameFree | src/pages/ManageProfile.jsx:80 | the user's own profile never blocks their nickname |
| ManageProfile.ProfilePage.SaveNickname | src/pages/ManageProfile.jsx:61-108 | no user: nothing happens. Invalid trimmed nickname: an alert, no query, no update. A failed or taken check: no update. Otherwise the trimmed nickname is saved. `saving` ends false on every path that set it |
| ManageProfile.ProfilePage.Upload | src/pages/ManageProfile.jsx:33-59 | without a file or a user nothing happens; otherwise the file is uploaded to the avatar path, and only after a successful upload is the avatar url updated |
| CreateGroup.ToggleAbsentAppends | src/pages/CreateGroup.jsx:51-55 | toggling a day not chosen appends it at the end and keeps the other days in place |
| CreateGroup.TogglePresentRemoves | src/pages/CreateGroup.jsx:53 | toggling a chosen day removes every occurrence of it and keeps the other days in their order |
| CreateGroup.ToggleTwiceRestores | src/pages/CreateGroup.jsx:53 | toggling a day not chosen twice gives the list back |
| CreateGroup.ToggleTwiceMovesToEnd | src/pages/CreateGroup.jsx:53 | toggling a chosen day twice leaves it once, at the end |
| CreateGroup.StoredPassword | src/pages/CreateGroup.jsx:88 | an empty password is stored as `null`, any other as itself |
| CreateGroup.GroupForm.TypeGroupName | src/pages/CreateGroup.jsx:32-49 | the name counts as taken exactly when it is non-empty and in the lookup's answer; a failed lookup answers nothing, so the name counts as free |
| CreateGroup.GroupForm.ToggleRestDay | src/pages/CreateGroup.jsx:51-55 | the rest days become the toggled list; nothing else changes |
| CreateGroup.GroupForm.Submit | src/pages/CreateGroup.jsx:57-117 | empty name, taken name or no user: an alert and no call. Owned-groups query failure or 5 owned groups: no insert. Otherwise the group is inserted with `password \|\| null`, and then the owner's membership in the new group. Only full success resets the form and leaves the page. `loading` ends false once set |
| GroupList.LowerChar | src/pages/GroupList.jsx:25 | `toLowerCase` maps each capital letter to the small letter at the same place of the alphabet, keeps every other character, and never yields a capital |
| GroupList.LowerMeaning | src/pages/GroupList.jsx:25 | a lower-cased string holds no capital, lower-casing twice is lower-casing once, and a string without capitals is unchanged |
| GroupList.IncludesFromMeaning | src/pages/GroupList.jsx:25 | the search from position `i` finds the term exactly when it occurs at `i` or later |
| GroupList.IncludesMeaning | src/pages/GroupList.jsx:25 | `includes` holds exactly when the term occurs somewhere; the empty term occurs everywhere |
| GroupList.FilteredGroupsMeaning | src/pages/GroupList.jsx:24-26 | the search keeps exactly the groups whose lower-cased name contains the lower-cased term, in list order; an empty term keeps all |
| GroupList.SearchIgnoresCase | src/pages/GroupList.jsx:24-26 | a term and its lower-case form select the same groups |
| GroupList.JoinedGroupsMeaning | src/pages/GroupList.jsx:163 | the joined groups are exactly the listed groups whose id is joined, in list order |
| GroupList.JoinGrowsJoinedGroups | src/pages/GroupList.jsx:163 | joining one group adds exactly the listed groups with that id to the joined list |
| GroupList.GroupListPage.Load | src/pages/GroupList.jsx:28-60 | a failed groups query keeps the old state; a signed-out user has no joined ids; a failed membership query keeps the old ids; otherwise the joined ids are the membership rows |
| GroupList.GroupListPage.JoinClick | src/pages/GroupList.jsx:66-105 | Signed out: alert and go to login. Cancelled prompt, already joined, or unreadable group: no insert. Wrong password: alert and no insert. Otherwise one membership insert; on success the id joins the set and every earlier id stays |
| GroupList.GroupListPage.Leave | src/pages/GroupList.jsx:107-161 | Signed out or failed owner lookup: no delete. Declined confirmation: no delete. Otherwise an owner deletes the whole group and a member only their own membership row; the page reloads only after a successful delete |
| TodaySolved.EntryOf | src/components/TodaySolved.jsx:14-26 | a member's entry is `null` exactly when they have no Baekjoon id or the fetch throws; otherwise it is the fetched list |
| TodaySolved.FetchAll | src/components/TodaySolved.jsx:12-28 | the loop gives every member their entry, member by member, and fetches only for members with a Baekjoon id, in member order |
| TodaySolved.SolvedMapKeys | src/components/TodaySolved.jsx:13-27 | the map has an entry for every member, failures included, and for nobody else |
| TodaySolved.SolvedMapEntry | src/components/TodaySolved.jsx:13-27 | a member's entry is the one made for them unless a later member shares the user id |
| TodaySolved.FetchedIds | src/components/TodaySolved.jsx:14-20 | exactly the members with a Baekjoon id are fetched, each for that id |
| TodaySolved.ShownUnsolvedMeaning | src/components/TodaySolved.jsx:56-57 | a member is shown as not having solved exactly when they have no Baekjoon id, their fetch failed or gave nothing; that is exactly when their count is 0 |
| TodaySolved.InsertPos | src/components/TodaySolved.jsx:43-47 | the insertion point follows every element whose count is not below the new one's, and precedes only lower counts |
| TodaySolved.InsertSorted | src/components/TodaySolved.jsx:46 | inserting into a list sorted by non-increasing count keeps it sorted |
| TodaySolved.InsertMultiset | src/components/TodaySolved.jsx:42 | inserting adds exactly one occurrence of the member |
| TodaySolved.InsertStable | src/components/TodaySolved.jsx:43-47 | among members of equal count, the inserted member goes after those already placed |
| TodaySolved.SortByKeyCorrect | src/components/TodaySolved.jsx:42-47 | the sort is by non-increasing key, a permutation, and stable |
| TodaySolved.DisplayOrderCorrect | src/components/TodaySolved.jsx:42-47 | members are shown by non-increasing solved count, with null and missing entries counted as 0; each member appears as often as in `members`; members of equal count keep their order |

## Left out

- **HTML parsing and the CSS selectors.** Parsing the status page with cheerio is not modelled. The page is a sequence of rows with the two id texts the endpoints read and an optional timestamp. Timestamps are well-formed integers, so `parseInt` edge cases and NaN dates are not modelled.
- **The clock, the local calendar and time zones.** The day boundaries of the endpoints are parameters in epoch milliseconds. The penalty panel works on day numbers. The host's UTC offset is a parameter only where the last-week finding needs it.
- **The date label of a penalty record.** `toLocaleDateString('ko-KR', ...)` is locale-library output. It is an opaque string.
- **The outbound request headers and the URL encoding of `user`.** Only the user id the request is for is modelled.
- **Supabase.** The auth, database, storage and RPC calls are not modelled. Their answers are parameters and the writes are recorded as call lists. The page loads that only fill state, such as the profile nickname load of ManageProfile and the auth lookups, are not modelled.
- **React.** Rendering, alerts, prompts, confirmation dialogs and navigation are reduced to recorded notices, parameters and flags. The order in which concurrent effects resolve is not modelled; each handler runs to completion on its own.
- **Other functions of the helper file.** `fetchUserInfo`, `fetchUserProblems`, `fetchUserStats` and `fetchRecentProblems` in `src/utils/bojApi.js` are thin fetch wrappers outside the core and are not modelled.
- **Other handlers of the profile page.** `handleLogout` and `handleDeleteAccount` in `src/pages/ManageProfile.jsx` are plain backend calls outside the core.
- **Console logging** is left out.
- **The type of `count`.** The query string gives `count` as text. The model's `count` is the number that text coerces to under `>=` and `<`. A non-numeric or fractional `count` is not modelled. With `count=abc` the comparisons with NaN are false, so today-problems would return every in-window id and recent-problems none.
- TodayProblems.ScanToday: returns only the items. How many rows it read is not reported, since the handler exposes only the items.
- BojApi.FetchProblemInfo: takes `problemId` as a string. The answer's id is kept as whatever optional string the answer held; JavaScript's mixing of numeric and string ids is not modelled.
- GroupList.LowerChar: lower-cases A-Z only. JavaScript's `toLowerCase` also folds non-ASCII letters; Hangul has no case, so group names in Korean are unaffected.
- ManageProfile.IsJsSpace: lists the white space and line terminators of ECMAScript 2023, sections 12.2 and 12.3. The Unicode category Zs is written out as its code points for the Unicode version current at writing, not derived from a Unicode table.
- TodaySolved.DisplayOrder: is specified as a stable sort. Array `sort` has been stable since ECMAScript 2019; how the engine actually sorts is not modelled.
- GroupList.GroupListPage.JoinClick: when reading the group back fails, the source throws reading `group.password` of `null`. The model stops the join there with no insert and no alert.

## Findings

| source | as written | input that shows it | evidently intended | confidence | as-written member | corrected member |
|---|---|---|---|---|---|---|
| src/components/PunishmentInfo.jsx:68-70 | this week's Monday label `YYYY-MM-DD` is read back with `new Date(...)`, which parses a date-only string as UTC midnight; west of UTC that is the previous local day (a Sunday), so going back 7 days and taking its week lands on the week before last | Monday 2024-06-10 on a host at UTC-05:00: the panel queries 2024-05-27..2024-06-02 as last week | last week is the Monday-to-Sunday range ending the day before this week's Monday (2024-06-03..2024-06-09) | not executed | PunishmentInfo.LastWeekAsWrittenWestOfUtc | PunishmentInfo.LastWeekRange |
