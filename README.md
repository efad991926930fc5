# SSR theme runtime and theme switching, modelled in Dafny

This project models the part of the blog backend that decides which theme serves
the public site and where each request goes:

- **Registry** (`pkg/ssr/manager.go`): the SSR manager's map from theme name to
  running Node.js process (port, start time), the installed theme directories,
  `Install`, `Uninstall`, `Start`, `Stop`, `StopAll`, the exit handler, the
  readiness poll and the read-only queries. `Manager` is a class whose
  `processes` and `themes` fields the methods reassign.
- **Catalog** (`pkg/service/theme/service.go`, the record side): the
  `user_installed_theme` table as an in-memory sequence of records in id
  order, and the theme service's activation flows (`SwitchToSSRTheme`,
  `SwitchToOfficial`, `SwitchToTheme`), the repair `FixThemeCurrentStatus`,
  install and uninstall of records, and the two queries the proxy and the
  admin list use. A transaction is a working copy that is assigned back on
  commit. Which database call fails, if any, is a parameter (`Fault`).
- **ThemeMetadata** (`pkg/service/theme/service.go`, the pure helpers):
  `validateThemeMetadata` with the theme-name and version grammars,
  `validateFileType`, `extractAuthorName`, `extractFirstScreenshot` and
  `mergeConfigWithDefaults`.
- **Proxy** (`internal/app/middleware/ssr_proxy.go`): the skip lists, the
  per-request pass/proxy decision and the 503 page.
- **Frontend** (`internal/infra/router/frontend_router.go`): the path and
  content rules of the static front end.
- **SsrHandler** (`pkg/handler/ssrtheme/handler.go`): the admin endpoints that
  sequence registry and record operations, with the compensating uninstall.
- **GeoIp** (`pkg/service/utility/geoip_service.go`): the configuration check
  and the province/city/country priority rule.
- **Text** and **Wrappers**: string helpers (prefix, suffix, search, replace,
  trim, lower-casing) and `Option`/`Result`.

Outcomes of the outside world (a spawn, a download, an HTTP reply, a failing
database call, whether a directory removal succeeds, static mode) are
parameters of the operations that depend on them.

## Model

| member | source | states |
|---|---|---|
| Registry.Manager.constructor | pkg/ssr/manager.go:62-72 | a new manager has no running process and sees the given theme directories |
| Registry.Manager.IsRunning | pkg/ssr/manager.go:491-497 | a theme runs exactly when its name has an entry whose process is live; a name without an entry never runs |
| Registry.Manager.GetPort | pkg/ssr/manager.go:343-351 | the port of a live entry, 0 otherwise; its uses in `Start`, `Stop` and the handler state the values |
| Registry.Manager.GetStatus | pkg/ssr/manager.go:354-390 | not_installed exactly when the directory is absent; running exactly when installed with a live entry, then with that entry's port and start time; installed otherwise with port 0; version is the trimmed `version.txt` or "" |
| Registry.Manager.Install | pkg/ssr/manager.go:81-118 | an existing directory refuses the install; success exactly when the download answers 200 and extracts, adding that directory; any failure leaves the directories unchanged; processes are never touched |
| Registry.Manager.Uninstall | pkg/ssr/manager.go:184-202 | the theme's entry is dropped first; the directory goes when removal succeeds, otherwise the error is reported and the directories are unchanged |
| Registry.Manager.Start | pkg/ssr/manager.go:205-269 | a live entry gives "already running", a missing server.js gives "not installed", a failed spawn an error, each leaving the map unchanged; success exactly otherwise, adding only that entry, after which the theme runs on the requested port |
| Registry.Manager.OnExit | pkg/ssr/manager.go:255-261 | the exit handler as written: the entry under the name is deleted whatever process it holds; nothing else changes |
| Registry.Manager.OnProcessExit | pkg/ssr/manager.go:255-261 | the corrected exit handler: only the exiting process's own entry is deleted; every other entry, including a newer process under the same name, is kept |
| Registry.StaleExitDropsNewerProcess | pkg/ssr/manager.go:247-261 | after Start, Stop and a second Start, the first process's exit deletes the live second entry under `OnExit`'s rule and keeps it under `OnProcessExit`'s |
| Registry.Manager.Stop | pkg/ssr/manager.go:310-339 | no live entry gives "theme not running" and changes nothing; otherwise exactly that entry goes, after which the theme is not running and its port is 0 |
| Registry.Manager.StopAll | pkg/ssr/manager.go:475-488 | always succeeds and leaves no entry, so no theme runs |
| Registry.Manager.ListRunning | pkg/ssr/manager.go:500-511 | a name is listed exactly when it has a live entry, each once |
| Registry.Manager.GetRunningTheme | pkg/ssr/manager.go:456-472 | nil exactly when no entry is live; otherwise a live theme's running status and port |
| Registry.Manager.ListInstalled | pkg/ssr/manager.go:393-416 | a directory read error fails; otherwise every installed directory exactly once, each with its `getStatusUnlocked` status |
| Registry.RoundMs | pkg/ssr/manager.go:274-305 | one unanswered round takes between 1 s (probe at once refused) and 3 s (2 s probe timeout plus the 1 s pause) |
| Registry.ElapsedBefore | pkg/ssr/manager.go:277-304 | the clock before round n is at least n seconds |
| Registry.WaitForReady | pkg/ssr/manager.go:272-307 | stops at the first round where 30 s have elapsed, the entry is gone or the probe answers, reporting which; every earlier round was unanswered in time with the process alive; at most 31 rounds; the registry is only read |
| Catalog.FindRecord | pkg/service/theme/service.go:2539-2555 | the position of the first record of the user with that name, absent exactly when there is none |
| Catalog.ClearUser | pkg/service/theme/service.go:2583-2596 | every record of the user loses its current flag; other users' records and all other fields are unchanged |
| Catalog.SetFlag | pkg/service/theme/service.go:2599-2615 | the record with that id gets the flag; every other record and field is unchanged |
| Catalog.DeleteId | pkg/service/theme/service.go:2512-2515 | the remaining records are exactly those with another id |
| Catalog.DeleteKeepsOrder | pkg/service/theme/service.go:2512-2515 | deleting a record keeps the table in ascending id order |
| Catalog.Refresh | pkg/service/theme/service.go:2442-2459 | the user's records of that name get the new version and install time; all others are unchanged |
| Catalog.Activate | pkg/service/theme/service.go:2583-2615 | clear-then-set inside the transaction: a record ends current exactly when it has the target id, or belongs to another user and was current; no other field changes |
| Catalog.ActivateMakesSoleCurrent | pkg/service/theme/service.go:2583-2615 | after the transaction's clear-then-set, the target is the user's only current record and nothing else changed |
| Catalog.CurrentIds | pkg/service/theme/service.go:2159-2169 | an id is listed exactly when it belongs to a current record of the user |
| Catalog.FirstCurrent | pkg/service/theme/service.go:2171-2186 | the position of the user's first current record, absent exactly when there is none |
| Catalog.CurrentIdsAfterFirst | pkg/service/theme/service.go:2171-2186 | a current record is among the ids after the first exactly when it is not the first current record |
| Catalog.DemoteExtra | pkg/service/theme/service.go:2171-2186 | the repair only clears flags of listed current records and changes no other field |
| Catalog.DemoteKeepsFirst | pkg/service/theme/service.go:2157-2187 | with every update succeeding, the user's only current record afterwards is the first one, if any |
| Catalog.CurrentSsr | pkg/service/theme/service.go:576-591 | the first current SSR record of the user, absent exactly when there is none |
| Catalog.SsrCurrentMap | pkg/service/theme/service.go:2781-2796 | the keys are exactly the names of the user's SSR records |
| Catalog.SsrCurrentMapLastWins | pkg/service/theme/service.go:2793-2796 | each name maps to the flag of the last of its SSR records in table order |
| Catalog.StopListed | pkg/service/theme/service.go:2562-2574 | every listed running theme except the kept one is stopped, stop errors ignored; unlisted entries are unchanged |
| Catalog.ThemeService.constructor | pkg/service/theme/service.go:307-312 | an empty table |
| Catalog.ThemeService.SwitchToSSRTheme | pkg/service/theme/service.go:2522-2649 | a failed lookup or a missing record stops nothing and changes no flag; once the record is found only the target may run; success exactly when no transaction step fails and the target runs or starts, and then the target is the user's only current record, it runs, on port 3000 if newly started; any failure leaves the flags unchanged, and a failed commit stops the target, so no theme runs |
| Catalog.ThemeService.SwitchToOfficial | pkg/service/theme/service.go:1066-1131 | a failed clear returns an error having stopped nothing; otherwise the user's flags are cleared and then every running theme is stopped, with success whatever the stops return |
| Catalog.ThemeService.SwitchToTheme | pkg/service/theme/service.go:950-1063 | the official theme delegates to `SwitchToOfficial`; another theme needs its record and complete files, outside static mode needs the backup and copy to succeed, and on success becomes the user's only current record; processes are untouched |
| Catalog.ThemeService.FixThemeCurrentStatus | pkg/service/theme/service.go:2121-2193 | outside static mode with no current SSR record (or a failed check) every flag of the user is cleared; in static mode only the first current record stays current, except where an update fails |
| Catalog.IsOfficialTheme | pkg/service/theme/service.go:933-947 | the four official names; none is empty, and the only one that looks like a theme directory (`theme-` prefix) is `theme-anheyu` |
| Catalog.ThemeService.UninstallTheme | pkg/service/theme/service.go:1134-1199 | the four official names are refused; a missing record is an error; a current record is refused in static mode; otherwise the record is deleted |
| Catalog.ThemeService.InstallSSRTheme | pkg/service/theme/service.go:2428-2486 | an existing record gets the new version and time; otherwise a new non-current SSR record with the next id is appended; afterwards the record exists |
| Catalog.ThemeService.UninstallSSRTheme | pkg/service/theme/service.go:2489-2519 | a missing record is a successful no-op, a current record is refused, otherwise that record is deleted |
| Catalog.ThemeService.GetCurrentSSRThemeName | pkg/service/theme/service.go:576-591 | found exactly when the query succeeds and a current SSR record exists, and then its name; "" otherwise |
| Catalog.ThemeService.GetSSRThemeCurrentStatus | pkg/service/theme/service.go:2768-2803 | a failed query is an error; otherwise the name-to-flag map of the user's SSR records |
| ThemeMetadata.MatchesVersion | pkg/service/theme/service.go:1860-1864 | an accepted version starts with a digit, has at least five characters, and holds only letters, digits, `-` and `.` |
| ThemeMetadata.MatchesVersionIff | pkg/service/theme/service.go:1860-1864 | the version scanner accepts exactly the strings of the form digits.digits.digits with an optional `-` and pre-release part of letters, digits, `-` and `.` |
| ThemeMetadata.NameErrors | pkg/service/theme/service.go:1838-1850 | the name errors are exactly: empty, or (when non-empty) missing the `theme-` prefix or not matching `^theme-[a-z0-9\-]+$` |
| ThemeMetadata.TextFieldErrors | pkg/service/theme/service.go:1853-1869 | the display-name, version and description errors are exactly the empty fields and a version outside the grammar |
| ThemeMetadata.AuthorCategoryErrors | pkg/service/theme/service.go:1871-1891 | an error exactly for a nil author and for a non-empty category outside the ten listed |
| ThemeMetadata.ValidateThemeMetadata | pkg/service/theme/service.go:1834-1894 | an error is reported exactly for each rule the metadata breaks |
| ThemeMetadata.MetadataAcceptedIff | pkg/service/theme/service.go:1834-1894 | no error exactly when the name matches its grammar, the version is semantic, display name and description are non-empty, an author is given and the category is empty or listed |
| ThemeMetadata.PrefixErrorImpliesCharsError | pkg/service/theme/service.go:1840-1851 | a name without the prefix always gets the format error as well |
| ThemeMetadata.ValidateFileType | pkg/service/theme/service.go:1897-1935 | rejected exactly when the entry is neither under `__MACOSX/` nor named `._*` and its extension, lower-cased as Go lower-cases it (including U+0130 to `i` and U+212A to `k`), is one of the seventeen forbidden ones, naming the file |
| ThemeMetadata.DottedCapitalIRefused | pkg/service/theme/service.go:1916-1927 | "evil.zİp" is refused: its extension lower-cases to the forbidden ".zip" |
| ThemeMetadata.MacMetadataAlwaysPasses | pkg/service/theme/service.go:1899-1902 | any entry under `__MACOSX/` passes |
| ThemeMetadata.NoExtensionPasses | pkg/service/theme/service.go:1916-1934 | a file without extension passes |
| ThemeMetadata.ExtractAuthorName | pkg/service/theme/service.go:1985-2000 | a string author is cut before its first `<` and trimmed; an object's string `name` is used; anything else is "Unknown" |
| ThemeMetadata.AuthorNameRoundTrip | pkg/service/theme/service.go:1985-1993 | "name <email>" gives back the name |
| ThemeMetadata.ExtractFirstScreenshot | pkg/service/theme/service.go:2003-2026 | a string is the screenshot; a list gives its first element when that is a string; otherwise "" |
| ThemeMetadata.Defaults | pkg/service/theme/service.go:2408-2415 | a key has a default exactly when some declared field of that name has one |
| ThemeMetadata.DefaultsLastWins | pkg/service/theme/service.go:2408-2415 | the default of a key comes from the last field of that name that has one |
| ThemeMetadata.MergeConfigWithDefaults | pkg/service/theme/service.go:2405-2423 | user values win; every other key with a default gets it; no other key appears |
| ThemeMetadata.MergeIdempotent | pkg/service/theme/service.go:2405-2423 | merging an already merged configuration changes nothing |
| Proxy.ShouldSkipSSRProxy | internal/app/middleware/ssr_proxy.go:131-170 | every skipped path is absolute, and every path under /api/ is skipped |
| Proxy.AdminPathsSkipped | internal/app/middleware/ssr_proxy.go:131-170 | every admin and login page is kept by the backend |
| Proxy.AdministratorSkipped | internal/app/middleware/ssr_proxy.go:153-168 | "/administrator" is skipped, since "/admin" has no trailing slash |
| Proxy.ThemeAssetsNotSkipped | internal/app/middleware/ssr_proxy.go:135-170 | paths under /static/ and /assets/ are neither exact skip paths nor under a skip prefix |
| Proxy.Route | internal/app/middleware/ssr_proxy.go:36-87 | a nil manager or a skipped path passes; with a checker, proxy exactly when it says yes, the named theme runs and its port parses, to that theme's port; without one, pass when no theme runs, and proxy when some theme runs and every running theme's port parses |
| Proxy.RouteWithCatalog | internal/app/middleware/ssr_proxy.go:19-68 | with the current-SSR-theme query as checker, a request is proxied only to a running theme that has a current SSR record; a failed query always passes |
| Proxy.UnavailableResponse | internal/app/middleware/ssr_proxy.go:103-123 | status 503 and a fixed page that names the theme and links to /admin |
| Frontend.Min | internal/infra/router/frontend_router.go:380-386 | the smaller of the two |
| Frontend.ExtractArticleId | internal/infra/router/frontend_router.go:389-397 | the single segment of /posts/{id}, "unknown" otherwise |
| Frontend.ArticleIdRoundTrip | internal/infra/router/frontend_router.go:389-397 | extracting from /posts/ + id gives back id |
| Frontend.AcceptedEncoding | internal/infra/router/frontend_router.go:458-472 | "br" exactly when the header contains br, "gzip" exactly when it contains gzip but not br, "" otherwise |
| Frontend.CompressedVariant | internal/infra/router/frontend_router.go:476-493 | no variant exactly when no encoding is accepted; otherwise base + ".br" or base + ".gz" with the matching encoding |
| Frontend.MimeType | internal/infra/router/frontend_router.go:522-549 | octet-stream exactly for an extension outside the thirteen typed ones; the HTML type exactly for ".html"; the JPEG type exactly for ".jpg" and ".jpeg" |
| Frontend.ContentType | internal/infra/router/frontend_router.go:520-550 | keyed on the lower-cased extension: no extension gives octet-stream, an untyped extension gives octet-stream, and the HTML type exactly for ".html" in any case |
| Frontend.IsHTMLFile | internal/infra/router/frontend_router.go:576-579 | an HTML file exactly when its content type is HTML or its extension is ".htm" in any case; such a file has an extension |
| Frontend.ContentTypeCaseInsensitive | internal/infra/router/frontend_router.go:520-579 | content type and the HTML test do not depend on the case of the path |
| Frontend.HtmlTypeIsHtmlFile | internal/infra/router/frontend_router.go:520-579 | an HTML content type implies an HTML file, while ".htm" is an HTML file served as octet-stream |
| Frontend.IsStaticFileRequest | internal/infra/router/frontend_router.go:725-745 | the suffix match against the listed extensions holds exactly when the path's lower-cased extension is one of them |
| Frontend.StaticFileCaseInsensitive | internal/infra/router/frontend_router.go:725-745 | the static-file test does not depend on case |
| Frontend.StaticFileHasDot | internal/infra/router/frontend_router.go:725-745 | a static-file request contains a dot |
| Frontend.ShouldReturnIndexHtml | internal/infra/router/frontend_router.go:749-776 | false for the excluded prefixes and their bare forms; for a path with a dot, the negation of the static-file test; true otherwise |
| Frontend.IsAdminPath | internal/infra/router/frontend_router.go:780-792 | admin path exactly when it is /admin or /login or starts with /admin/ or /login/ |
| Frontend.AdminPagesGetIndexHtml | internal/infra/router/frontend_router.go:749-792 | every admin page without a dot is answered with index.html |
| Frontend.PageHtmlPath | internal/infra/router/frontend_router.go:1775-1796 | "" and "/" (after one trailing slash is removed) give index.html; every page file ends in .html |
| Frontend.PageHtmlPathOfRoute | internal/infra/router/frontend_router.go:1775-1796 | any other route "/" + rel, not an article path, is served from rel + ".html", with or without a trailing slash |
| Frontend.PageHtmlPathTrailingSlash | internal/infra/router/frontend_router.go:1775-1796 | a trailing slash does not change the page file |
| Frontend.ArticlePagesUseTemplate | internal/infra/router/frontend_router.go:1775-1796 | /posts/{id}, with or without the trailing slash, uses posts/__template__.html |
| Frontend.EnsureScriptTagsClosed | internal/infra/router/frontend_router.go:1247-1269 | the input is kept as a prefix, and nothing is added when the closing tags already suffice |
| Frontend.EnsureScriptTagsClosedBalances | internal/infra/router/frontend_router.go:1247-1269 | the closing tags of the result number max(opens, closes) of the input |
| Frontend.RewriteStaticPathsForAdmin | internal/infra/router/frontend_router.go:1518-1533 | no rewritten pattern occurs in the output |
| Frontend.RewriteStaticPathsIdempotent | internal/infra/router/frontend_router.go:1518-1533 | rewriting twice equals rewriting once |
| SsrHandler.CurrentFlag | pkg/handler/ssrtheme/handler.go:246-253 | true exactly when the name is in the map with value true |
| SsrHandler.SsrThemeHandler.InstallTheme | pkg/handler/ssrtheme/handler.go:61-85 | a bad request is a 400 touching nothing; a file-install error is a 500 creating no record; a record error uninstalls the files (restoring the directories when removal succeeds) and is a 500; success adds exactly that theme's directory and refreshes the administrator's record of that name, or appends a new non-current one, leaving every other directory and record unchanged |
| SsrHandler.SsrThemeHandler.UninstallTheme | pkg/handler/ssrtheme/handler.go:95-117 | an empty name is a 400; a record error (such as a current theme) is a 500 touching no file; on success the user's record of that name, if any, is deleted, the entry is dropped and the files are removed, and a removal error still answers success |
| SsrHandler.SsrThemeHandler.StartTheme | pkg/handler/ssrtheme/handler.go:129-152 | a zero port becomes 3000 and is echoed, while a newly started theme runs on 3000 whatever was asked; success means the switch succeeded; a failed commit is a failure that leaves no theme running; the theme directories never change, a target already running keeps its entry, and a failed lookup stops nothing |
| SsrHandler.SsrThemeHandler.StopTheme | pkg/handler/ssrtheme/handler.go:162-175 | an empty name is a 400; a theme not running is a 500; otherwise its entry goes |
| SsrHandler.SsrThemeHandler.GetThemeStatus | pkg/handler/ssrtheme/handler.go:185-194 | an empty name is a 400; otherwise the registry status |
| SsrHandler.SsrThemeHandler.ListInstalledThemes | pkg/handler/ssrtheme/handler.go:209-261 | a read error is a 500; otherwise each installed theme once with its status, current exactly when the flag query succeeds and maps its name to true |
| GeoIp.FormatLocation | pkg/service/utility/geoip_service.go:160-181 | "province city" when both are present and differ, else city, else province, else country, none when all are empty; a result ends with the city when there is one |
| GeoIp.LookupViaAPI | pkg/service/utility/geoip_service.go:100-184 | the first failing step decides the error: no request, a network error, a non-200 status, an unreadable body, the key-error shape, an unparsable body, a business code, no location; a business code other than 200 is an error; success exactly with a 200 reply, code 200 and some location, which is the priority rule's |
| GeoIp.Lookup | pkg/service/utility/geoip_service.go:72-96 | a missing URL or token gives "未知" with the not-configured error; any failure gives "未知"; success gives the non-empty location |
| GeoIp.NotConfiguredIgnoresReply | pkg/service/utility/geoip_service.go:78-83 | without configuration the reply is never used |
| GeoIp.SuccessNamesCity | pkg/service/utility/geoip_service.go:165-170 | a reply with a city succeeds and ends with the city, which is the whole answer when the province repeats it |

## Left out

- Process control: `exec.Command`, SIGTERM and kill, the 5 s stop wait, log files and the environment of the Node.js process. A spawn is a `Spawn` parameter, and `Stop` removes the entry.
- Concurrency: the manager's lock, the goroutines and the double `cmd.Wait`. Everything runs sequentially, and the exit handler is the explicit method `OnExit`/`OnProcessExit`.
- Registry.WaitForReady: the wall clock and the HTTP probe are one `Poll` per round. The time spent outside the probe and the pause is not counted.
- Registry.Manager.Install: the HTTP download and tar.gz extraction are a `Download` parameter. A partly extracted directory is not modelled.
- Registry.Manager.GetStatus: `InstalledAt`, the directory's modification time, is not modelled.
- Registry.Manager.Uninstall: a failed directory removal leaves the directories as they were. Partial removal is not modelled.
- Registry.Manager.ListRunning, Registry.Manager.ListInstalled: Go map iteration order and `ReadDir` order are not modelled. The contracts state membership and distinctness, not order.
- The database client: records are an in-memory sequence, and one failing call per run is chosen by `Fault`.
- Catalog.FindRecord, Catalog.CurrentIds, Catalog.FirstCurrent: the `First` and `All` queries have no ORDER BY; the model assumes they return rows in id order, which is the table's order here.
- Catalog.ThemeService.SwitchToTheme: static-directory backup, copy and restore, `validateThemeFiles` and static-mode detection are booleans.
- Catalog.ThemeService.UninstallTheme: deleting the theme's files on disk is not modelled.
- Market and PRO API calls, theme package validation, `validateFieldValue` (float ranges, user regexes), config validation and template rendering.
- The debug-log writes to a fixed file path.
- Text.ToLower: maps the ASCII capitals, U+0130 and U+212A, the only runes Go lower-cases into ASCII; other letters are kept. Every rule here compares the lower-cased text with ASCII literals only, so no decision depends on the letters left out.
- ThemeMetadata.ExtractFirstScreenshot: a decoded `[]string` and a `[]interface{}` are the same JSON array here.
- GeoIp.LookupViaAPI: the request, its 5 s timeout and the JSON decoding are a `Reply` parameter. A body counts as the key-error shape when it decodes as that structure.
- The application wiring that installs the proxy's checker is not part of this model. Proxy.RouteWithCatalog assumes the checker is `GetCurrentSSRThemeName`.
- Proxy.Route: streaming the proxied request, the forwarded headers and logging are not modelled. A target URL fails to parse exactly for a negative port.
- Frontend: `ensureScriptTagsClosed` is not idempotent when the input ends in an open tag without `>` (for example "<script>x<script"). No idempotence is claimed.

## Findings

| source | as written | input that shows it | evidently intended | confidence | as-written member | corrected member |
|---|---|---|---|---|---|---|
| pkg/ssr/manager.go:255-261 | the exit goroutine of a started process deletes `processes[themeName]`, whatever entry the name holds by then | Start("t") with process A, Stop("t"), Start("t") with process B, then A's goroutine takes the lock: B's live entry is deleted, so `IsRunning("t")` is false while B still runs | delete the entry only if it still holds the process that exited | low, not executed (depends on goroutine scheduling) | Registry.Manager.OnExit (shown by Registry.StaleExitDropsNewerProcess) | Registry.Manager.OnProcessExit |
