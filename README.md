# Art submission site: the judging pipeline

A Dafny model of the judging side of ArtSubmissionSite, a Flask application.
Artists submit artworks for badges, and judges rank them. The site comes in
two versions. The older version is one module, `app/routes.py`. Its judges
sign in with a shared password, and its pages check the session themselves.
The newer version is split into blueprints: `app/main.py` holds the ballot
and `app/admin.py` the admin pages. It signs users in with flask-login and
guards admin pages with an `admin_required` decorator.

The model covers these parts:

- **Store.** The records of `app/models.py` are datatypes. Their delete
  cascades are functions. The database session is a class, `Store.Database`,
  with one sequence per table. A handler that changes the store is a method
  that `modifies` the database. Its contract ties the new tables to a pure
  function of the old ones. Lemmas about those functions prove the
  properties: the store stays sound, unrelated rows are kept, and so on.
- **Ballot builder.** It puts the rows a judge has ranked first, in
  saved-rank order, then the other rows in query order (`Ballot`). With no
  saved votes, it orders rows by a random permutation that the session caches
  (`Judging`). The shuffle itself is a parameter.
- **Vote reconciler.** It parses a comma-separated list of submission ids.
  It then replaces all of the judge's votes with ranks 1, 2, … in list order.
  If any id has no artwork, nothing is stored (`Votes`).
- **Results aggregator.** Each artwork's score is the sum of its ranks, or
  0 if it has no votes, and rows are sorted ascending (`Results`). This is
  the reading the outer join and `COALESCE` of the newer query aim at. As
  written, the query starts from the votes and drops unvoted artworks, as
  the older one does (see Findings). A loop
  groups the votes by artwork. The roster is split into judges who voted and
  judges who did not.
- **Admin rules** (`Admin`): the submission window, the admin guard,
  adding and removing judges, adding, editing and deleting badges, the CSV
  badge import, deleting a submission and clearing all votes.
- **Browser serialiser** (`Rankings`), from `app/static/js/rankings.js`. It
  turns the ranked list items into the comma-separated value and the
  "1st Place" labels.
- **URL prefix rule** (`Utils`), from `app/utils.py`.
- **Older versions** (`Routes`): the fixed submission window, the
  password sign-in with admin bootstrap, the ballot and results pages, and
  the session-guarded admin pages.

One schema serves both versions. The `Judge` record also stands for the
newer `User` record, and a vote's `voter` stands for `judge_id` or
`user_id`. Times are seconds since the epoch.

The model records two behaviours of the newer code as written:

- The youth ballot is ordered by the judge's adult votes.
- A youth entry's score sums the votes whose `submission_id` equals the
  youth entry's id, so adult votes count toward it.

## Model

| member | source | states |
|---|---|---|
| Models.NextId | app/models.py:5 | A new row's id is at least 1 and above every existing id. |
| Models.FindBadge | app/admin.py:127 | Lookup by primary key returns a badge with that id, or none exists. |
| Models.FindJudge | app/admin.py:87 | Lookup by primary key returns a user with that id, or none exists. |
| Models.FindSubmission | app/admin.py:464 | Lookup by primary key returns an entry with that id, or none exists. |
| Models.DeleteSubmissionCascadeEffect | app/models.py:31-34 | After the delete, no entry, artwork or vote refers to the deleted id. Every row not tied to it remains. |
| Models.DeleteSubmissionCascadeSound | app/models.py:31-34 | Deleting an entry with its artworks and votes keeps unique keys and every reference resolving. |
| Models.DeleteBadgeCascadeEffect | app/models.py:10-47 | Deleting a badge removes it, its artworks and their votes. Every other badge, artwork and vote remains. |
| Models.DeleteBadgeCascadeSound | app/models.py:10-47 | The badge cascade keeps the store sound, and the badge is gone. |
| Models.DeleteJudgeCascadeSound | app/models.py:59 | Deleting a judge removes exactly that judge's votes and keeps the store sound. |
| Models.AddBadgeSound | app/models.py:4-7 | Appending a badge with a fresh id and an unused name keeps ids and names unique. |
| Models.AddJudgeSound | app/models.py:53-56 | Appending a judge with a fresh id and an unused name keeps the store sound. |
| Seqs.First | app/admin.py:76 | `.first()` returns the first matching element in table order. It returns nothing exactly when no element matches. |
| Seqs.SortByPermutation | app/main.py:164 | Python's key sort only reorders: the result is a permutation of the input. |
| Seqs.SortBySorted | app/main.py:164 | The sorted list's keys ascend. |
| Seqs.SortByStable | app/main.py:164 | The sort is stable: elements with equal keys keep their relative order. |
| Seqs.DistinctSpec | app/main.py:151-155 | `.distinct()` has no repeats and keeps every element of its input, nothing else. |
| Seqs.DistinctOrder | app/main.py:151-155 | Distinct rows keep the order of their first occurrences. |
| Text.ParseNat | app/main.py:66 | A token names a submission id exactly when it is a non-empty decimal numeral. |
| Text.ParseNatToString | app/main.py:66-71 | Parsing a printed id gives the id back. |
| Text.SplitJoin | app/main.py:117 | Splitting the comma-joined list of comma-free ids gives the ids back. |
| Text.JoinSplit | app/static/js/rankings.js:111 | Joining the split parts gives the original string back. |
| Utils.CustomUrlFor | app/utils.py:3-12 | The result starts with the root. It is the URL itself when that already starts with the root, and otherwise the root followed by the URL. |
| Utils.CustomUrlForIdempotent | app/utils.py:9-12 | Applying the prefix rule twice is applying it once. |
| Utils.CustomUrlForEmptyRoot | app/utils.py:5 | With no configured root, every URL is unchanged. |
| Utils.CustomUrlForPrepends | app/utils.py:9-10 | A URL without the root gets exactly the root prepended. |
| Ballot.AdultRow | app/main.py:141-155 | An artwork yields a ballot row exactly when its entry and its badge exist. The row carries the entry id, the badge and the file. |
| Ballot.AdultJoinRows | app/main.py:141-155 | The joined rows are exactly the rows of the artworks that join. |
| Ballot.YouthRow | app/main.py:185-197 | A youth entry yields a row exactly when its badge exists. |
| Ballot.YouthJoinRows | app/main.py:185-197 | The youth rows are exactly those of the entries whose badge exists. |
| Ballot.SavedIdsInRankOrder | app/main.py:135-137 | The saved ids are the submission ids of exactly the judge's own votes, in ascending rank. |
| Ballot.RankedFirstPermutation | app/main.py:159-168 | The ranked-first order is a permutation of the candidate rows. |
| Ballot.RankedPartSorted | app/main.py:161-164 | The ranked part holds only saved ids, ordered by position in the saved list. |
| Ballot.RankedPartMembers | app/main.py:161-163 | Every row of the ranked part has a saved id. |
| Ballot.RankedPartStable | app/main.py:164 | Rows with the same saved position keep their query order. |
| Ballot.RankedFirstShape | app/main.py:159-168 | Ranked rows come first, in saved-rank order. The unranked rows follow, in query order. The older ballot (app/routes.py:338-351) orders its rows the same way. |
| Ballot.RankedFirstUnmatched | app/main.py:165-168 | When no row is ranked, the rows keep their query order. |
| Ballot.RankedFirstExample | app/main.py:159-168 | Saved ids [3, 1] order rows 1, 2, 3 as 3, 1, 2. |
| Ballot.OrderBy | app/main.py:179-181 | Ordering by the cached list fails (`list.index` raises) exactly when a row's id is not in it. |
| Ballot.FreshShuffleSucceeds | app/main.py:169-181 | A fresh shuffle of the row ids is cached. The rows come back permuted, sorted by shuffle position. |
| Ballot.CachedOrderStable | app/main.py:176-177 | A cached order is reused whatever new shuffle is drawn. |
| Ballot.RepeatViewSame | app/main.py:171-181 | A second view with the cached order shows the same rows. |
| Ballot.StaleCacheFails | app/main.py:177-181 | A cached order that lacks a row's id makes the page fail. |
| Ballot.SavedVotesIgnoreCache | app/main.py:159-168 | With saved votes, the rows are the ranked-first order and the cache is untouched. |
| Votes.ResolveArtwork | app/main.py:66-68 | A token resolves exactly when it parses to an id that has an artwork. The artwork returned is that id's first, in table order. |
| Votes.NewVote | app/main.py:69-74 | The new vote has the voter, the rank, the parsed submission id and an artwork of that submission. |
| Votes.NewVotes | app/main.py:62-76 | Vote i has rank i + 1 and the i-th token's submission. |
| Votes.ReplaceVotes | app/main.py:61-77 | Replacement succeeds exactly when every token resolves. A failure names a token that does not resolve. |
| Votes.SaveRankings | app/main.py:61-77 | The loop stores the replacement when every token resolves. Otherwise it leaves the store as it was. The older save (app/routes.py:363-391) has the same effect. |
| Votes.ReplaceKeepsOthers | app/main.py:64 | Other judges' votes are unchanged. |
| Votes.OthersAfterReplace | app/main.py:64 | The votes of everyone but the voter are the same list before and after. |
| Votes.ReplaceOwnVotes | app/main.py:64-76 | The judge then has exactly one vote per token, ranked 1, 2, … in token order, each on the first artwork of that submission. |
| Votes.FirstArtworkId | app/main.py:66 | Gives the id of the submission's first artwork, in table order. Gives none exactly when the submission has no artwork. |
| Votes.ReplaceTwice | app/main.py:61-77 | A second save overrides the first completely. |
| Votes.ReplaceIdempotent | app/main.py:61-77 | Saving the same ranking twice is saving it once. |
| Votes.SavedIdsRoundTrip | app/main.py:135-137 | After a save, the saved ids read back in rank order are the posted ids. |
| Votes.ReplaceKeepsIntegrity | app/main.py:61-77 | A save by an existing judge keeps every vote's references resolving. |
| Votes.UnknownTokenFails | app/main.py:66-68 | A token that is not an id, or names an entry with no artwork, makes the save fail. |
| Judging.RankSuffix | app/main.py:48-58 | The suffix is one of st, nd, rd and th. |
| Judging.RankSuffixPeriodic | app/main.py:50-58 | The suffix depends only on the rank modulo 100. |
| Judging.RankSuffixExamples | app/main.py:48-58 | 1st, 2nd, 3rd, 4th, 11th to 13th, 21st to 23rd, 101st and 111th to 112th. |
| Judging.BallotSession.constructor | app/main.py:171 | A new session has no cached orders. |
| Judging.YouthBallotUsesAdultVotes | app/main.py:201-213 | The youth ballot is ordered by the judge's adult votes. When those name no youth id, it keeps query order and caches nothing new. |
| Judging.JudgesBallot | app/main.py:100-226 | An empty ranking gets 400. A posted ranking is saved (200) or rejected (500, store unchanged). A view shows both ballots and caches the orders it drew. A failed view keeps the earlier youth order. With nothing cached, a view never fails, because the shuffles permute the row ids. |
| Rankings.JsRem | app/static/js/rankings.js:158-161 | JavaScript's `%`: the remainder is below n in size. It agrees with the modulus on non-negative operands. For a negative dividend it is at most 0 and differs from the dividend by a multiple of n. |
| Rankings.JsRankSuffix | app/static/js/rankings.js:157-171 | The JavaScript suffix is one of st, nd, rd and th. |
| Rankings.SuffixesAgree | app/static/js/rankings.js:157-171 | For every rank ≥ 0, the JavaScript and Python suffixes are the same. |
| Rankings.SuffixesDifferBelowZero | app/static/js/rankings.js:158-161 | For negative ranks the two differ (-9). |
| Rankings.ItemId | app/static/js/rankings.js:90-91 | An item has an id exactly when its `data-id` is present and non-empty. That id is the `data-id`. |
| Rankings.PresentIds | app/static/js/rankings.js:89-91 | The collected ids are non-empty, and there are at most as many as items. |
| Rankings.ScanMeaning | app/static/js/rankings.js:86-108 | After n items, the seen set, the ranked list (first occurrences) and the labels match their definitions. |
| Rankings.StepIds | app/static/js/rankings.js:90-107 | One item adds its id once. It is labelled exactly when its id is new and it has a position element. |
| Rankings.UpdateRankings | app/static/js/rankings.js:78-113 | The input value is the comma-join of the first occurrences of the ids. Item i gets the "n-th Place" label, for its position n, exactly when it is labelled. |
| Rankings.RankedIdsDistinct | app/static/js/rankings.js:94-98 | The value lists each present id exactly once and nothing else. |
| Rankings.RankedIdsInDomOrder | app/static/js/rankings.js:89-108 | The ids appear in document order of first occurrence. |
| Rankings.ServerReadsRankedIds | app/static/js/rankings.js:111 | The server's split of the value gives back the ranked ids. |
| Rankings.AutoSavePayload | app/static/js/rankings.js:121-125 | Auto-save sends nothing exactly when the value is empty. Otherwise it sends the value unchanged. |
| Rankings.EmptyListSendsNothing | app/static/js/rankings.js:80-84 | A list without items sets "" and triggers no save. |
| Rankings.RepeatNotLabelled | app/static/js/rankings.js:94-97 | A repeated id gets no label. |
| Rankings.DuplicateShiftsLabel | app/static/js/rankings.js:101-104 | Labels use the DOM position. After a duplicate, the second distinct id is labelled "3rd Place". |
| Results.SumRanksAppend | app/admin.py:209 | The sum of ranks adds over concatenation. |
| Results.ArtworkRow | app/admin.py:204-219 | An artwork has a results row exactly when its entry and badge exist. The row's score is its rank sum. |
| Results.AdultRowsExact | app/admin.py:204-219 | The result rows are exactly those of the joining artworks. |
| Results.EveryArtworkListed | app/admin.py:204-219 | Every artwork whose entry and badge exist is in the results. With no vote it scores 0. |
| Results.UnvotedArtworkOmittedAsWritten | app/admin.py:204-220 | One unvoted artwork is missing from the query as written. The intended results list it with score 0. |
| Results.AdultResultsSorted | app/admin.py:217-219 | The adult results are a permutation of the rows, sorted by ascending score. |
| Results.YouthResultsSorted | app/admin.py:225-240 | The youth results are a permutation of the youth rows, sorted by ascending score. |
| Results.ScoreAddVote | app/admin.py:209 | A new vote adds its rank to its own artwork's score and to no other. |
| Results.ScoreNoVotes | app/admin.py:209 | An artwork without votes scores 0. |
| Results.ScoreExample | app/admin.py:209 | Ranks 2, 1 and 3 on one artwork sum to 6. |
| Results.YouthEntryRow | app/admin.py:224-240 | A youth entry has a row exactly when its badge exists. Its score is the youth score. |
| Results.YouthRowsExact | app/admin.py:224-240 | The youth rows are exactly those of entries with a badge. |
| Results.YouthScoreSharesAdultIds | app/admin.py:233 | An adult vote for entry 5 counts toward youth entry 5. |
| Results.VotedResultsSorted | app/routes.py:401-418 | The older results hold only voted rows, sorted by ascending score. |
| Results.VoteRowsExact | app/admin.py:245-261 | Each vote whose judge exists gives one row, in vote order. The row carries its artwork id (or submission id), the judge's name and the rank. Other votes give no row. |
| Results.GroupVotes | app/admin.py:262-272 | The loop builds exactly the grouping of the vote rows. |
| Results.GroupByGrouped | app/admin.py:262-272 | Building the grouping row by row gives the grouping. |
| Results.GroupedSnoc | app/admin.py:264-272 | One more row appends its entry under its key. |
| Results.GroupedHoldsEveryRow | app/admin.py:262-283 | The keys are exactly those that occur. Each row is under its key, and each group has as many entries as rows with that key. |
| Results.StatusPartition | app/admin.py:287-298 | "voted" and "not_voted" are disjoint and cover the roster. |
| Results.StatusVoted | app/admin.py:287-298 | A name is in "voted" exactly when a judge of that name voted, and it appears once. |
| Admin.LatestPeriod | app/admin.py:38 | The latest period is the one with the highest id. There is none only when no period exists. |
| Admin.SubmissionOpenMeaning | app/admin.py:35-41 | Submissions are open exactly when the highest-id period holds now, both ends included. With no period they are closed. |
| Admin.OlderPeriodIgnored | app/admin.py:38-40 | A period older than the latest changes nothing. |
| Admin.SubmissionWindowExample | app/admin.py:35-41 | A February window is open inside and at both ends, and closed one second outside. |
| Admin.SubmissionStatus | app/admin.py:50-51 | The status is "Open" exactly when submissions are open, and "Closed" otherwise. |
| Admin.AdminRequiredDecides | app/admin.py:19-32 | Only a signed-in admin reaches the view. Others are redirected to the login page, with a warning or an error. |
| Admin.NewJudge | app/admin.py:79-81 | A new user gets an id no user has. |
| Admin.AddJudge | app/admin.py:71-83 | A taken name changes nothing. Otherwise the user is appended. A sound store stays sound. |
| Admin.AddJudgeSoundness | app/admin.py:71-83 | The add is refused exactly for a taken name. It appends exactly the new user and keeps the store sound. |
| Admin.RemoveJudge | app/admin.py:85-96 | An unknown id or an admin changes nothing. Otherwise the user goes with their votes. A sound store stays sound. |
| Admin.RemoveJudgeSoundness | app/admin.py:85-96 | No admin is ever removed, and "not found" means no such user. The store stays sound, and a removed user has no votes left. |
| Admin.NewBadge | app/admin.py:117-118 | A new badge gets an id no badge has. |
| Admin.AddBadge | app/admin.py:109-120 | A taken name changes nothing. Otherwise the badge is appended. A sound store stays sound. |
| Admin.AddBadgeSoundness | app/admin.py:109-120 | The add is refused exactly for a taken name. It appends exactly that badge and keeps the store sound. |
| Admin.ReplaceBadge | app/admin.py:128-130 | The badge with that id is rewritten in place, and every other position is kept. |
| Admin.EditBadge | app/admin.py:122-134 | An unknown id changes nothing. A name another badge has fails with nothing stored. Otherwise the badge is rewritten. A sound store stays sound. |
| Admin.ReplaceBadgeKeeps | app/admin.py:128-130 | The edited badge is present, other badges remain, and every id remains. |
| Admin.ReplaceBadgeUnique | app/admin.py:128-131 | With the new name unused elsewhere, ids and names stay unique. |
| Admin.EditBadgeKeepsIntegrity | app/admin.py:127-131 | A successful edit keeps the store sound, and the badge keeps its artworks. |
| Admin.EditBadgeSoundness | app/admin.py:122-134 | Not found means no such badge, and the failure means another badge has the name. Both change nothing. An edit keeps the count, the other badges and the store sound. |
| Admin.DeleteBadge | app/admin.py:136-145 | An unknown id changes nothing. Otherwise the badge goes with its artworks and their votes. A sound store stays sound. |
| Admin.DeleteBadgeSoundness | app/admin.py:136-145 | Delete keeps the store sound. No artwork of the badge remains. |
| Admin.ImportRows | app/admin.py:161-179 | The import appends one badge per added name, after the existing badges, in order. |
| Admin.ImportCsv | app/admin.py:147-189 | The file, header and row checks, then the row loop, give the defined import. A sound store stays sound. |
| Admin.ImportGuards | app/admin.py:148-159 | Only a ".csv" file with a first line equal to the expected header imports anything. Otherwise nothing changes. |
| Admin.ImportTakenNames | app/admin.py:172-179 | After the import, a name is taken exactly when it was before or an accepted row names it. |
| Admin.ImportAddsFirstOccurrences | app/admin.py:162-179 | The added names are the first occurrences of the well-formed, previously unused names, in file order. |
| Admin.ImportKeepsIntegrity | app/admin.py:161-181 | The import keeps ids and names unique. |
| Admin.JudgesResults | app/admin.py:198-316 | The page shows the adult and youth results, both vote groupings and the voting status, and changes nothing. |
| Admin.DeleteSubmission | app/admin.py:460-477 | Gives 404 for an unknown entry. Otherwise the cascade runs and the answer is 200. A sound store stays sound. |
| Admin.ClearVotes | app/admin.py:447-457 | Every vote goes and nothing else changes. A sound store stays sound. |
| Admin.ClearVotesSound | app/admin.py:452-453 | Clearing keeps the store sound. Every adult and youth row of the cleared store scores 0. |
| Routes.FixedWindowIsOnePeriod | app/routes.py:33-41 | The fixed window is the newer check with one period of the same bounds. |
| Routes.FixedWindowBounds | app/routes.py:34-41 | Open at both fixed ends, and closed one second outside either. |
| Routes.Session.constructor | app/routes.py:278-280 | A fresh session holds no judge. |
| Routes.FirstMatch | app/routes.py:286-299 | The first judge, in table order, whose hash matches. It is none only when no hash matches. |
| Routes.FindJudgeByPassword | app/routes.py:286-299 | The scan returns the first matching judge. |
| Routes.ValidateJudgePassword | app/routes.py:260-306 | Implements the sign-in rules on the store, and sets the session to the created or matched judge. A sound store stays sound. |
| Routes.LoginRules | app/routes.py:267-303 | The admin is created only while none exists, as the sole admin "admin". Nothing else changes the store. A sign-in is the first match, and rejection means no hash matches. |
| Routes.BootstrapCreatesAdmin | app/routes.py:270-283 | Without any admin, any password creates the admin. |
| Routes.JudgesBallotOld | app/routes.py:309-393 | A session without a judge or with a non-integer id is redirected. A ranking is saved or rejected. A view shows the ranked-first order. |
| Routes.JudgesResultsOld | app/routes.py:396-459 | The page shows the voted results, the grouping and the status, and changes nothing. |
| Routes.OldResultsAreVotedRows | app/routes.py:401-418 | The older results are exactly the newer rows that received a vote. |
| Routes.DeleteSubmissionOld | app/routes.py:467-489 | A non-admin session gets 403. An unknown entry gets 404. Otherwise the cascade runs and the answer is 200. A sound store stays sound. |
| Routes.ClearVotesOld | app/routes.py:733-746 | A non-admin session gets 403. Otherwise every vote is cleared. A sound store stays sound. |
| Routes.ManageJudgesOld | app/routes.py:628-674 | Behind the session guard, applies the judge add or remove rules. `admin_page` (app/routes.py:44-93) has the same rules. A sound store stays sound. |
| Routes.JudgeActionSound | app/routes.py:66-89 | No judge action removes an admin or breaks the store. |
| Routes.ManageBadgesOld | app/routes.py:513-612 | Behind the session guard, applies the badge add, edit, delete and CSV rules. A sound store stays sound. |
| Routes.BadgeActionSound | app/routes.py:513-612 | No badge action breaks the store. |

## Left out

- Results.ArtworkRow, Results.AdultRowsExact: these and the newer results page take the intended reading of the adult query of app/admin.py, where every artwork is listed and an unvoted one scores 0. As written, the query lists only voted artworks; see Findings.
- Submission intake (`call_for_artists`, `call_for_youth_artists`, `call_to_artists`): file saving, uuid names and forms are input and output.
- `update_submission_dates` is out: it converts local times between time zones. Periods are given in epoch seconds.
- `api_artwork_detail` and the JSON badge lists are out: they only read rows and format them.
- Password hashing is a parameter. The salted hash of a new password is given, and the hash check is a function.
- flask-login is not modelled. `login_required` always runs before `admin_required`, and the ballot judge is the signed-in user.
- The random shuffle is a parameter of the ballot: a permutation of the row ids is given, and which one is drawn is not modelled.
- Flash messages, templates, logging and configuration are out.
- Database failures other than the modelled ones are out: a commit that fails for I/O reasons, or an exception while reading the CSV stream.
- The session is modelled as plain fields. Cookie signing, expiry, and Python's `bool` counting as an `int` for `judge_id` are out.
- The `User` record of the newer application is not part of this model. It is taken to behave like `Judge`, including the cascade of its votes.
- Form fields that are missing are out: a `None` name or description is not modelled.
- A CSV file whose name is empty counts as not a CSV file.
- Text.ParseNat: only plain decimal numerals are ids. Forms such as " 3" or "+3", which the database or `int()` would also accept, are treated as naming no artwork.
- Results.Status: "voted" is de-duplicated by name. Names are unique, so this is the older application's list too.
- The JavaScript DOM is modelled as a sequence of items, each with an optional `data-id` and a position element flag. Drag handling, the other scripts and the network call of auto-save are out.

## Findings

| source | as written | input that shows it | evidently intended | confidence | as-written member | corrected member |
|---|---|---|---|---|---|---|
| app/admin.py:204-220 | The outer join's condition names `JudgeVote` and there is no explicit FROM, so the query starts from `judge_vote`. Artworks nobody ranked get no row, and the `COALESCE(..., 0)` never applies. | One badge, one entry, one artwork of both, and no votes: the results are empty. | Every artwork with its entry and badge is listed, and an unvoted one scores 0. The outer join and the `COALESCE` are there for these rows. | medium; not executed | Results.UnvotedArtworkOmittedAsWritten | Results.EveryArtworkListed |
