# Client logic of the election voting front end, in Dafny

This project models the deterministic client-side logic of a React/Next.js
front end for an employees' association election. All authority (OTP checks,
vote counting, results) sits behind an HTTP API. What the front end decides
for itself is modelled here, one module per source file:

| module | file | what it models |
|---|---|---|
| `IdCodec` | `identifiers.dfy` | `src/lib/dataTransform.ts`: backend ids ⇄ ballot ids (`post-<n>`, `<post>-<candidate>`), the active-post filter, selections → wire votes |
| `VoteMapping` | `vote_mapping.dfy` | `src/lib/voteMapping.ts`: the legacy table-driven mapping over `VOTING_DATA` |
| `MockData` | `mock_data.dfy` | the two hard-coded ballots, `VOTING_DATA` (`src/lib/mockData.ts`) and `POSTS` (`lib/mockData.ts`) |
| `SessionStore` | `session.dfy` | `src/lib/auth.ts`: the two-key session store over local storage |
| `Api` | `api.dfy` | `src/lib/api.ts`: the network-message normaliser, the body pre-check and the per-endpoint status classification |
| `ResultsDashboard` | `results_dashboard.dfy` | `src/app/admin/page.tsx`: the unlock-time parser and gate, the results load, the per-post sort and total |
| `VotingPage` | `voting_page.dfy` | `src/app/voting/page.tsx`: the slug-keyed ballot and its confirmation dialog |
| `VotingDashboard` | `voting_dashboard.dfy` | `components/VotingDashboard.tsx`: the number-keyed ballot with override and simulated submission |
| `ElectoralList` | `electoral_list.dfy` | `src/components/ElectoralListModal.tsx`: paging, reset on close, the all-pages download |
| `AdminShell` | `admin_shell.dfy` | `src/app/admin/AdminShell.tsx`: render/redirect decision, sign-out, active sidebar link |
| `ResultsFileName` | `results_file_name.dfy` | `src/lib/pdfGenerator.ts` line 111: the saved file's name |
| `Common`, `JsRecord` | `common.dfy` | shared pieces: `Option`/`Result`, JavaScript `trim`, ASCII digits and decimal printing, a `Record<string, V>` as an ordered entry list |

Conventions:
- A JavaScript `Record<string, string>` is an ordered list of unique-key
  entries. This is the order `Object.entries` reports for keys that are not
  array indices.
- Thrown values are a `Thrown` datatype, classified by the shape the `catch`
  blocks inspect.
- Browser effects are values the model returns: `alert`, `confirm`, router
  navigation, token removal and the PDF drawing call.
- Every asynchronous handler is split into the synchronous part before its
  `await` and the part after the promise settles. The outcome of the request
  is a parameter. The all-pages download awaits once per page; its requests
  change no dialog state, so they are one step (`DownloadPages`) between its
  start and its finish, and other handlers may run between those two.
- `JSON.parse`, `new Date(...).getTime()`, `Date.now()` and
  `toLocaleString` are parameters: functions or values handed in by the caller.

## Model

| member | source | states |
|---|---|---|
| `IdCodec.TransformCandidate` | src/lib/dataTransform.ts:7-14 | the candidate id decodes back to the backend candidate id; a missing or empty department becomes `N/A`, a missing or empty photo URL becomes empty; the name is kept |
| `IdCodec.TransformPost` | src/lib/dataTransform.ts:22-26 | the post id decodes back to the backend post id; the candidates keep their count and order and each decodes back to its backend id |
| `IdCodec.TransformBackendData` | src/lib/dataTransform.ts:19-27 | the output has every active post transformed and nothing else, so it is no longer than the input |
| `IdCodec.TransformBackendDataAppend` | src/lib/dataTransform.ts:20-26 | the transform distributes over concatenation, so the active posts keep their relative order |
| `IdCodec.TransformBackendDataKeepsAllActive` | src/lib/dataTransform.ts:21 | nothing is dropped exactly when every post is active |
| `IdCodec.ExtractPostId` | src/lib/dataTransform.ts:32-38 | a value exists exactly when the string is `post-` followed by one or more digits, and it is the value of those digits |
| `IdCodec.ExtractCandidateId` | src/lib/dataTransform.ts:43-49 | a value exists exactly when the string is digits, a dash and digits, and it is the value of the second number |
| `IdCodec.PostIdRoundTrip` | src/lib/dataTransform.ts:32-38 | decoding the encoding `post-n` of any natural `n` gives `n` |
| `IdCodec.CandidateIdRoundTrip` | src/lib/dataTransform.ts:43-49 | decoding the encoding `p-c` gives `c`, for all naturals `p` and `c` |
| `IdCodec.CandidateIdIgnoresPost` | src/lib/dataTransform.ts:44-48 | the first number is checked for shape only: `a-b` and `a'-b` decode to the same value |
| `IdCodec.ExtractPostIdFailsClosed` | src/lib/dataTransform.ts:33-36 | the empty string, a bare `post-`, an encoding with a non-digit suffix, a non-digit after the prefix and a bare number are all refused |
| `IdCodec.ExtractCandidateIdFailsClosed` | src/lib/dataTransform.ts:44-47 | the empty string, a single number, a missing first or second number, a non-digit suffix and a post id are all refused |
| `IdCodec.PostIdLeadingZero` | src/lib/dataTransform.ts:33-37 | a leading zero after the prefix decodes to the same id, so decoding is not injective on strings |
| `IdCodec.ConvertVotes` | src/lib/dataTransform.ts:54-74 | every vote comes from an entry that decodes, every entry that decodes yields its vote, and malformed entries are skipped, so there are at most as many votes as entries |
| `IdCodec.ConvertVotesAppend` | src/lib/dataTransform.ts:59-71 | conversion distributes over concatenation of entries, so the votes follow entry order |
| `IdCodec.ConvertVotesOfWellFormed` | src/lib/dataTransform.ts:59-71 | when every entry decodes, the i-th vote is the i-th entry decoded: nothing is dropped or reordered |
| `IdCodec.SelectionRoundTrip` | src/lib/dataTransform.ts:54-74 | transforming a backend post, selecting its j-th candidate and converting gives exactly the vote for the backend post id and candidate id |
| `VoteMapping.PostIdMappingFollowsVotingData` | src/lib/voteMapping.ts:7-14 | the table `PostIdMapping` has as keys the four post slugs of the ballot data, its values are exactly {1, 2, 3, 4}, and the i-th post maps to i + 1 |
| `VoteMapping.AssignPositionsSpec` | src/lib/voteMapping.ts:25-29 | the inner loop gives the k-th candidate the number offset + k + 1 and leaves every other key as it was |
| `VoteMapping.AssignPostsSpec` | src/lib/voteMapping.ts:24-30 | for slugs that are distinct across posts, the nested loops give each candidate its 1-based position within its own post and add exactly the candidate slugs |
| `VoteMapping.PositionTable` | src/lib/voteMapping.ts:21-33 | starting from the empty table, the keys are exactly the candidate slugs and every value lies between 1 and the largest post size |
| `VoteMapping.VotingDataSlugShape` | src/lib/mockData.ts:14-55 | the ballot has four posts of four candidates each; every candidate slug starts with its post's letter (`p`, `g`, `v`, `t`) and ends with its 1-based position |
| `VoteMapping.VotingDataDistinct` | src/lib/mockData.ts:14-55 | no candidate slug of the ballot occurs twice |
| `VoteMapping.CandidateIdMappingIsPosition` | src/lib/voteMapping.ts:21-33 | the table `CandidateIdMapping` maps every candidate of the ballot to its 1-based position within its post, its keys are exactly the candidate slugs, and every value lies in 1..4 |
| `VoteMapping.CandidateIdIgnoresPost` | src/lib/voteMapping.ts:25-28 | candidates at the same position in different posts map to the same integer |
| `VoteMapping.ConvertVotes` | src/lib/voteMapping.ts:38-58 | with own-key lookups (`MapEntry`): every vote comes from an entry found in both tables, every such entry yields its vote, and there are at most as many votes as entries |
| `VoteMapping.ConvertVotesAppend` | src/lib/voteMapping.ts:45-56 | conversion distributes over concatenation of entries, so the votes follow entry order, one per matching entry |
| `VoteMapping.ConvertVotesIsNumericPart` | src/lib/voteMapping.ts:45-56 | the own-key conversion is exactly the program's conversion (`ConvertVotesAsWritten`, prototype lookups included) with the votes that have a non-numeric id removed, in the same order |
| `VoteMapping.PrototypeNamesMakeVotes` | src/lib/voteMapping.ts:46-53 | as written, the selection `{"constructor": "toString"}` pushes a vote whose ids are the inherited members, while the own-key conversion drops it |
| `VoteMapping.ConvertVotesInRange` | src/lib/voteMapping.ts:45-56 | with own-key lookups, every emitted vote has a post id in 1..4 and a candidate id in 1..4 |
| `VoteMapping.ConvertVotesDropsUnknown` | src/lib/voteMapping.ts:49 | with own-key lookups, an entry whose post slug or candidate slug is not in the tables contributes nothing |
| `SessionStore.SetToken` | src/lib/auth.ts:7-21 | with a window, the token then reads back through `GetToken` and the session is authenticated; the phone and every other key are untouched; without a window nothing changes |
| `SessionStore.RemoveToken` | src/lib/auth.ts:26-31 | afterwards neither the token nor the phone reads back; exactly those two keys leave storage; other keys are untouched |
| `SessionStore.SetPhone` | src/lib/auth.ts:43-57 | with a window, the phone then reads back through `GetPhone`; the token and every other key are untouched; without a window nothing changes |
| `SessionStore.AuthenticatedIffToken` | src/lib/auth.ts:36-38 | authenticated exactly when a window exists and a token is stored |
| `SessionStore.RemoveTokenIdempotent` | src/lib/auth.ts:26-31 | clearing twice is clearing once |
| `SessionStore.SettersCommute` | src/lib/auth.ts:1-11 | the two keys are distinct, so setting the token and the phone in either order gives the same store |
| `SessionStore.NoWindowIsInert` | src/lib/auth.ts:16-21 | without a window both getters answer nothing, the session is not authenticated, and every setter and the clear leave the store as it was |
| `SessionStore.LoginThenLogout` | src/lib/auth.ts:26-31 | storing a token and a phone and then clearing leaves neither readable, whatever was stored before |
| `Api.ErrorInstanceMessage` | src/lib/api.ts:6-11 | the default is returned exactly when the trimmed message is blank, names a fetch failure case-insensitively, or is the default itself; otherwise the trimmed message; the result is never blank and already trimmed |
| `Api.ObjectMessage` | src/lib/api.ts:12-16 | a non-blank trimmed string `message` field is returned trimmed, anything else gives the default; never blank, already trimmed |
| `Api.NetworkMessage` | src/lib/api.ts:4-17 | the normaliser for every kind of thrown value: `Error` instances as above, objects by their `message` field, everything else the default |
| `Api.PassThrough` | src/lib/api.ts:6-10 | a trimmed non-empty message naming no fetch failure comes through the normaliser unchanged |
| `Api.UnexpectedResponseIsNoFetchFailure` | src/lib/api.ts:9 | the parser's own message does not match the fetch-failure pattern |
| `Api.UnexpectedResponseSurvivesNormaliser` | src/lib/api.ts:24 | the parser's own message comes through the normaliser unchanged |
| `Api.ParseJsonResponse` | src/lib/api.ts:20-31 | a body whose trimmed text starts with `<` fails with the fixed message; a blank body reads as `{}`; otherwise the call succeeds exactly when the JSON parser does, with its value |
| `Api.DoctypeCheckRedundant` | src/lib/api.ts:23 | every string starting with `<!` starts with `<`, so the second test never decides anything |
| `Api.ClassifySendOtp` | src/lib/api.ts:135-152 | status kept; code `ALREADY_VOTED` exactly for 403 and none otherwise; 404 has a fixed message; 400 gives the server message or a default |
| `Api.ClassifyVerifyOtp` | src/lib/api.ts:179-200 | `INVALID_OTP` exactly for 400 and 401, `ALREADY_VOTED` exactly for 403, no code otherwise; the message for each status as written |
| `Api.FailedVotesSuffix` | src/lib/api.ts:253-254 | a suffix exists exactly when `failed_votes` is an array (an empty one too), and it starts with ` Failed votes: ` |
| `Api.JoinSnoc` | src/lib/api.ts:254 | `join` of one more item appends the separator and that item |
| `Api.FailedVotesSuffixShort` | src/lib/api.ts:253-254 | an empty array adds just ` Failed votes: `; one failed vote adds ` Failed votes: Post <id>: <error>` |
| `Api.FailedVotesSuffixSnoc` | src/lib/api.ts:254 | each further failed vote appends `, Post <id>: <error>` to the suffix, in array order |
| `Api.ClassifyCastVote` | src/lib/api.ts:232-257 | `UNAUTHORIZED` exactly for 401, `ALREADY_VOTED` exactly for 403, no code otherwise; the message for 401, 403, 400, 404 and other statuses as written (`CastVoteMessage`), each followed by the failed-votes suffix |
| `Api.ClassifyAdminLogin` | src/lib/api.ts:477-486 | never a code; 401 gives the server message or a default; other statuses give the base message |
| `Api.Classify` | src/lib/api.ts:135-152 | every classification is an `ApiError` with the response status; a 403 carries `ALREADY_VOTED` exactly on the voter endpoints |
| `Api.Call` | src/lib/api.ts:167-214 | a response succeeds exactly when its status is 2xx, its body is readable and, on the login endpoints, carries a non-empty token, and the value is the parsed body; a readable non-2xx response throws the endpoint's `ApiError`; a `fetch` rejection with a status and message is rethrown as it is, any other becomes an `Error` with the normaliser's message; every `Error` message is non-blank and trimmed |
| `Api.Settle` | src/lib/api.ts:176-206 | once a response arrived: success exactly for a 2xx status with a readable body that carries a token where one is needed, the value being the parsed body; a readable non-2xx response throws the endpoint's `ApiError` |
| `Api.FailedFetchIsDefault` | src/lib/api.ts:4-11 | the browser's `Failed to fetch` rejection reaches the caller as the default connection message, on every endpoint |
| `Api.HtmlBodyFailsClosed` | src/lib/api.ts:22-25 | an HTML body fails with the fixed message on every endpoint and every status, before any status classification |
| `Api.ForbiddenMeansAlreadyVoted` | src/lib/api.ts:143-147 | a 403 with a readable body is an `ApiError` with status 403 and `ALREADY_VOTED` on every voter endpoint |
| `Api.MissingTokenFails` | src/lib/api.ts:203-205 | a 2xx login or OTP check whose body lacks a token fails with `No token received from server` |
| `Api.NoTokenSurvivesNormaliser` | src/lib/api.ts:204 | the missing-token message comes through the normaliser unchanged |
| `ResultsDashboard.ParseZone` | src/app/admin/page.tsx:12 | an accepted zone suffix is valid (`Z`/`z`, or a sign, two digits, an optional colon and two digits) and spells the input |
| `ResultsDashboard.ParseFraction` | src/app/admin/page.tsx:12 | an accepted fraction is a dot and one or more digits, and the input is that group followed by the rest |
| `ResultsDashboard.ParseSeconds` | src/app/admin/page.tsx:12 | accepted seconds are a colon and two digits, and the input is that group followed by the rest |
| `ResultsDashboard.ParseClock` | src/app/admin/page.tsx:12 | the hour is one or two digits, the minute two, and the input is hour, colon, minute and the rest |
| `ResultsDashboard.ParseLayout` | src/app/admin/page.tsx:12-13 | whatever is accepted is a valid layout whose spelling is exactly the input |
| `ResultsDashboard.ParseLayoutComplete` | src/app/admin/page.tsx:12 | every valid layout's spelling is accepted, as that layout |
| `ResultsDashboard.ParseLayoutExact` | src/app/admin/page.tsx:12-13 | the parser accepts a string exactly when it spells some valid layout |
| `ResultsDashboard.LayoutTextInjective` | src/app/admin/page.tsx:12 | the pattern is unambiguous: two valid layouts with the same spelling are equal |
| `ResultsDashboard.LayoutTextIsTrimmed` | src/app/admin/page.tsx:11 | trimming leaves every valid spelling unchanged |
| `ResultsDashboard.ParseUnlockAt` | src/app/admin/page.tsx:10-22 | a result exists only for a trimmed value spelling a valid layout, and it is that layout's fields; no result means no valid layout spells the trimmed value |
| `ResultsDashboard.ParseUnlockAtOfLayout` | src/app/admin/page.tsx:11-20 | a value that trims to a valid spelling parses to that layout's fields |
| `ResultsDashboard.ZoneIgnored` | src/app/admin/page.tsx:12-20 | replacing the zone suffix by any other valid one gives the same fields: times are local wall-clock |
| `ResultsDashboard.MissingSecondsAreZero` | src/app/admin/page.tsx:15-19 | without a seconds group the seconds are 0, and the month is one less than written |
| `ResultsDashboard.ParseUnlockAtRejects` | src/app/admin/page.tsx:12-13 | a trimmed value shorter than 15 characters, or without `T`/`t` at index 10, is refused |
| `ResultsDashboard.UnlockAtRoundTrip` | src/app/admin/page.tsx:10-22 | the canonical `YYYY-MM-DDTHH:MM:SS` spelling of any fields in range parses back to those fields |
| `ResultsDashboard.IsResultsUnlocked` | src/app/admin/page.tsx:24-39 | an undefined or blank setting is locked with an empty text; an unparseable one is locked and shows the raw setting; a parsed one is unlocked exactly when now is at or after its instant |
| `ResultsDashboard.UnlockIsMonotone` | src/app/admin/page.tsx:32-33 | once unlocked, the gate stays unlocked at every later time |
| `ResultsDashboard.UnlockThreshold` | src/app/admin/page.tsx:28-33 | for a valid spelling, the gate is open exactly from that layout's instant on |
| `ResultsDashboard.BeginLoad` | src/app/admin/page.tsx:62-67 | a blank trimmed password does nothing and sends nothing; otherwise the trimmed password is sent, loading starts and the error is cleared |
| `ResultsDashboard.FinishLoad` | src/app/admin/page.tsx:68-76 | loading ends; success stores the results; failure keeps the old data and shows the thrown message or the fixed fallback |
| `ResultsDashboard.LoadCycle` | src/app/admin/page.tsx:62-77 | a whole load that sends a request ends idle, with fresh data and no error, or with the old data and an error |
| `ResultsDashboard.InsertByVotes` | src/app/admin/page.tsx:143-145 | inserting adds exactly the new candidate (multiset) and the head is the new candidate or the old head |
| `ResultsDashboard.InsertKeepsOrder` | src/app/admin/page.tsx:145 | inserting into a list sorted by votes, most first, keeps it sorted |
| `ResultsDashboard.SortByVotes` | src/app/admin/page.tsx:143-145 | the displayed rows are a permutation of the candidates, sorted non-increasing by votes |
| `ResultsDashboard.InsertKeepsTies` | src/app/admin/page.tsx:145 | among the candidates with any given vote count, the inserted one comes first if it has that count, and the others keep their order |
| `ResultsDashboard.SortKeepsTies` | src/app/admin/page.tsx:143-145 | the sort is stable: candidates with equal votes keep their original order |
| `ResultsDashboard.TotalUnchangedBySort` | src/app/admin/page.tsx:143-156 | the total (`TotalVotes`, the `reduce` sum) is the same whichever order the rows are in |
| `ResultsDashboard.TotalBoundsEachRow` | src/app/admin/page.tsx:156 | with no negative counts, every row's votes lie between 0 and the total |
| `ResultsDashboard.TotalNonNegative` | src/app/admin/page.tsx:156 | with no negative counts, the total is not negative |
| `VotingPage.HandleSelect` | src/app/voting/page.tsx:14-19 | the post's entry becomes the chosen candidate (last write wins), every other key reads as before, keys only grow, and keys stay unique |
| `VotingPage.FormCompleteIffFourPosts` | src/app/voting/page.tsx:21 | the ballot is complete exactly when the four posts of the ballot data have non-empty selections |
| `VotingPage.CancelThenResubmit` | src/app/voting/page.tsx:73 | cancelling (`CancelVote`) loses nothing: submitting again reopens the dialog over the same selections, without an alert |
| `VotingPage.SubmitIsIdempotent` | src/app/voting/page.tsx:23-29 | pressing submit again changes nothing further: the same dialog state and the same alert, if any |
| `VotingPage.StepKeepsDialogInvariant` | src/app/voting/page.tsx:14-36 | each enabled action keeps the dialog open only over a complete ballot |
| `VotingPage.RunKeepsDialogInvariant` | src/app/voting/page.tsx:14-36 | along any playable action sequence the dialog is open only over a complete ballot |
| `VotingPage.ConfirmOnlyWhenComplete` | src/app/voting/page.tsx:31-36 | a confirmation, reached from the empty ballot, only ever happens on a complete ballot |
| `VotingPage.KeysNeverShrink` | src/app/voting/page.tsx:14-19 | no action removes a key: the answered posts only grow |
| `VotingPage.OnlyConfirmNavigates` | src/app/voting/page.tsx:31-36 | an action navigates exactly when it is a confirmation (`ConfirmVote`), and only ever to `/` |
| `VotingPage.FillingEveryPostCompletes` | src/app/voting/page.tsx:21 | selecting one of its own candidates for every post, from the empty ballot, completes the ballot |
| `VotingDashboard.HandleVote` | components/VotingDashboard.tsx:15-20 | the post's vote becomes the chosen candidate; every other post keeps its key and its vote |
| `VotingDashboard.AllVotedIffOneToFour` | components/VotingDashboard.tsx:24 | the ballot counts as complete exactly when posts 1 to 4 have non-empty votes |
| `VotingDashboard.Render` | components/VotingDashboard.tsx:44-93 | the success view shows exactly once submitted; on the ballot the submit control is disabled exactly while submitting |
| `VotingDashboard.AcceptedSubmissionSucceeds` | components/VotingDashboard.tsx:26-44 | accepting either prompt, on a complete or an incomplete ballot, and then the timer firing always reaches the success view with the votes as they stood |
| `VotingDashboard.StepAdvancesPhase` | components/VotingDashboard.tsx:34-41 | each enabled event moves idle → submitting → submitted by at most one step, never back, and never makes submitting and submitted hold together |
| `VotingDashboard.PhaseNeverDecreases` | components/VotingDashboard.tsx:34-62 | along any playable run the phase never goes back, and once submitted nothing changes |
| `VotingDashboard.SuccessNeedsAcceptance` | components/VotingDashboard.tsx:26-41 | without an accepted question the success view never appears |
| `ElectoralList.FetchFinish` | src/components/ElectoralListModal.tsx:36-46 | success shows the page's voters and pagination and moves to that page; failure keeps voters, pagination and page, and shows a non-empty message; loading ends either way |
| `ElectoralList.FetchCycle` | src/components/ElectoralListModal.tsx:33-47 | a whole fetch ends idle: on success at the requested page with no error, on failure at the old page with the old voters and an error |
| `ElectoralList.CloseForgets` | src/components/ElectoralListModal.tsx:24-30 | after closing, nothing of what was loaded remains: any two states with the same loading and downloading flags close to the same state (the reset leaves both flags alone) |
| `ElectoralList.EnabledButtonsFetch` | src/components/ElectoralListModal.tsx:180-201 | when the server's flags agree with its page numbers, an enabled Previous or Next button always fetches the neighbouring page |
| `ElectoralList.NoNavigationWhileLoading` | src/components/ElectoralListModal.tsx:185-201 | while a page loads both buttons are disabled |
| `ElectoralList.Gather` | src/components/ElectoralListModal.tsx:71-74 | a failure carries the message of a page that failed; a success means every page in the range loaded |
| `ElectoralList.GatherStopsAt` | src/components/ElectoralListModal.tsx:71-80 | the first failing page ends the gathering with its message |
| `ElectoralList.DownloadStart` | src/components/ElectoralListModal.tsx:60-64 | without pagination nothing changes; otherwise the download flag is raised, the error cleared, nothing else changes, and the pagination of that moment is the one the download reads |
| `ElectoralList.DownloadPages` | src/components/ElectoralListModal.tsx:66-77 | the roll is generated exactly when every page from 1 to the captured total loads, with their voters in page order and the captured item count; otherwise the download fails with the first failing page's message |
| `ElectoralList.DownloadFinish` | src/components/ElectoralListModal.tsx:78-83 | on whatever state is current when the requests settle, the download flag drops; a failure shows its message or the fixed fallback; a success leaves the error as it is; list, page and loading flag are untouched |
| `ElectoralList.DownloadAll` | src/components/ElectoralListModal.tsx:60-84 | a download with no other handler settling in between: without pagination nothing happens; otherwise the roll holds the voters of pages 1 to total pages in order and no error shows, or the first failure's message (or the fixed fallback) is shown; the page on screen and the page-loading flag are untouched |
| `ElectoralList.PageFailureOutlivesDownload` | src/components/ElectoralListModal.tsx:60-84 | the download does not disable the page buttons, so a page change can start and fail during it, and a download that then succeeds leaves that page's error on screen |
| `ElectoralList.GatherIsConcatenation` | src/components/ElectoralListModal.tsx:71-74 | the gathered roll splits at any page into the voters up to that page followed by the voters after it |
| `AdminShell.ActiveIffSamePath` | src/app/admin/AdminShell.tsx:66 | a link is highlighted exactly when the path equals its `href`; the second disjunct adds nothing |
| `AdminShell.AtMostOneActive` | src/app/admin/AdminShell.tsx:9-12 | at most one sidebar link is highlighted |
| `AdminShell.Render` | src/app/admin/AdminShell.tsx:38-54 | before mount the loading view; on the login page the page alone; without a token nothing; otherwise the frame with exactly the links whose `href` is the path highlighted |
| `AdminShell.UnmountedIgnoresToken` | src/app/admin/AdminShell.tsx:24 | before mount the output and the redirect are the same whatever the token |
| `AdminShell.LoginPageAlwaysRenders` | src/app/admin/AdminShell.tsx:46-48 | the login page renders, and does not redirect, whatever the token |
| `AdminShell.BlankIffRedirect` | src/app/admin/AdminShell.tsx:50-52 | once mounted, nothing is rendered exactly when a redirect happens |
| `AdminShell.LogoutClosesAdminPages` | src/app/admin/AdminShell.tsx:33-36 | after signing out, every admin page other than the login page renders nothing and redirects to the login page |
| `ResultsFileName.Sanitize` | src/lib/pdfGenerator.ts:111 | same length as the title; each position keeps an ASCII letter or digit and turns anything else into `_` |
| `ResultsFileName.SanitizedIsSafe` | src/lib/pdfGenerator.ts:111 | every character of a sanitised title is an ASCII letter, a digit or `_` |
| `ResultsFileName.SanitizeIdempotent` | src/lib/pdfGenerator.ts:111 | sanitising twice is sanitising once |
| `ResultsFileName.SanitizeFixedPoints` | src/lib/pdfGenerator.ts:111 | a title is left unchanged exactly when it consists of ASCII letters, digits and `_` |
| `ResultsFileName.SanitizeAppend` | src/lib/pdfGenerator.ts:111 | sanitising distributes over concatenation |
| `ResultsFileName.FileNameCollision` | src/lib/pdfGenerator.ts:111 | two titles of equal length give the same file name exactly when they agree at every position after sanitising |

## Left out

- Transport, `fetch` and `async`: a request's outcome is a parameter. The
  outcome is a page or response value, or what was thrown.
- `JSON.parse` is a parameter. A parsed body keeps only the fields the
  client reads, and a string field is `Some` when it holds a string. The
  client's `as string` casts on non-string truthy values (numbers,
  objects) are not modelled, and neither are bodies that parse to a
  non-object (`null`, arrays, numbers).
- `getNetworkErrorMessage` checks `'message' in error`, which also sees
  keys inherited through the prototype chain. The model reads only the
  object's own `message` field.
- Ids are unbounded naturals. `parseInt`'s loss of precision beyond 2^53
  is not modelled.
- Strings are sequences of characters, not UTF-16 code units. The
  sanitiser's and the trimmer's handling of surrogate pairs is not
  modelled.
- `Date`, `Date.now()`, `getTime()` and `toLocaleString` are parameters.
  The `Number.isNaN` check on the constructed date is not modelled: for
  the four-digit years the pattern allows, the constructor always yields
  a number.
- The 60-second polling interval that re-evaluates the unlock gate is
  not modelled. Each evaluation is `IsResultsUnlocked` at a given time.
- The scroll-to-top in `handlePageChange` is not modelled (DOM only).
- The drawing of both PDFs (jsPDF layout, percentages via `toFixed`) is
  not modelled. The electoral roll's drawing is the `RollGenerated`
  outcome with the voters and item count it is given.
- `alert`, `window.confirm` and router navigation are not modelled as
  browser calls. They are effect values, and a `confirm` answer is an
  input.
- `getAdminToken` and `removeAdminToken` are imported by the admin shell
  but are not part of src/lib/auth.ts. The admin token is therefore an
  input, and its removal is an effect.
- `castVote` is never called by the voting page. Its confirmation only
  alerts and navigates, so no session teardown follows a vote in the
  model.
- Presentational components, layouts and the mock login forms are not
  modelled.
- The API-calling screens for posts, admin login and public results are
  not modelled.
- `ResultsDashboard.IsResultsUnlocked`: the time is an integer timestamp,
  and the conversion of local fields to an instant (`epoch`) is a
  parameter, so daylight-saving gaps and overlaps are not modelled.
- `VotingDashboard.StepAdvancesPhase`: the 1.5-second timer is an event
  that may fire at any time while submitting, not after a fixed delay.
- `VoteMapping.ConvertVotes`: looks keys up as own keys of the two tables.
  As written, `postMapping[postId]` and `candidateMapping[candidateId]` also
  find the members inherited from `Object.prototype`. That behaviour is
  `ConvertVotesAsWritten`, and `ConvertVotesInRange` and
  `ConvertVotesDropsUnknown` hold only for the own-key conversion (see
  Findings).
- `Api.FailedVotesSuffix`: a `failed_votes` entry always has an integer
  `post_id` and a string `error` in the model. The program prints
  `undefined`, or the value's own string form, for a missing or non-string
  field.
- `IdCodec.ConvertVotes`: the `console.error` logged for each skipped entry is
  not modelled, because logging has no effect on the result.
- `ElectoralList.DownloadAll`: drawing the roll cannot fail in the model.
  In the program an exception thrown by `generateElectoralRollPDF` lands in
  the same `catch` and sets the error message.
- `VotingDashboard.Render`: the success view's "Return to Home" button
  navigates to `/`. That navigation is not an effect of the model.

## Findings

| source | as written | input that shows it | evidently intended | confidence | as-written member | corrected member |
|---|---|---|---|---|---|---|
| src/lib/voteMapping.ts:46-53 | the two table lookups also find members inherited from `Object.prototype`, which are truthy, so the check at line 49 lets them through and a vote with non-numeric ids is pushed | selections `{"constructor": "toString"}` | only slugs the tables define yield a vote, with numeric ids, as the declared return type says | not executed; medium: the voting page only writes ballot slugs, so its own selections never hit this | `VoteMapping.PrototypeNamesMakeVotes` | `VoteMapping.ConvertVotesInRange` |
