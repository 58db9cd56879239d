# Approval-vote CVR processing and voting-method finder, modelled in Dafny

The approval-vote project publishes reports on approval-voting elections.
Its data pipeline reads cast vote records (CVRs), one ballot per file or
row, and turns them into report statistics:

- **Ingest** (`st-louis-cvr/cvr_parser.py`): buffers decoded ballots,
  contests and selections, and flushes the buffers into the `cvr_ballots`,
  `cvr_contests` and `cvr_selections` tables. The flush uses
  insert-or-ignore on the unique ballot guid, so a re-run adds nothing.
- **Per-contest analysis** (`cvr/st-louis/process_all.py`, its older copy
  `st-louis-cvr/process_all.py`, and `cvr/utah/process_utah_cvr.py`):
  - the directed co-approval matrix, with counts and rates;
  - the approval distribution, with the bullet-vote and full-approval counts;
  - the most common approval combination and the average number of approvals;
  - a conditional distribution per candidate;
  - the "anyone but X" tally.

  Each contest's results are written into the report database. This step
  matches CVR names to the report's candidate names, replaces the report's
  co-approval and voting-pattern rows, and updates the ballot count and
  the candidate vote counts.
- **Election-wide race** (`st-louis-cvr/generate_election_wide_race.py`):
  merges every contest of a ballot into one race of
  `"<Candidate> (<Contest>)"` names and counts cross-race behaviour.
- **Voting-method finder** (`src/lib/voting/finder-utils.ts`): filters the
  catalogue of voting methods by ballot type, choice limitation and seat
  count. It also names the configured method, scores it, decides whether
  it is proportional and suggests comparison groups.

The model is pure: every database is an immutable value, every operation
a function or a method from values to values. Rates are exact rationals
(`real`).

Modules, in dependency order:

| module | file | models |
|---|---|---|
| `Wrappers` | wrappers.dfy | `Option` and `Result` |
| `Text` | text.dfy | Python/JavaScript string operations on ASCII text |
| `Counting` | counting.dfy | `collections.Counter`: histograms and `most_common(1)` |
| `Approval` | approval.dfy | the approval statistics shared by every analysis |
| `Reports` | reports.dfy | the reporting tables and their deletes, inserts and updates |
| `StLouis` | stlouis.dfy | contest-name normalization and both St. Louis analyses |
| `Reconcile` | reconcile.dfy | name matching and the St. Louis export into a report |
| `Utah` | utah.dfy | the Utah analysis, its report export and its CVR export |
| `ElectionWide` | electionwide.dfy | the election-wide race |
| `Ingest` | ingest.dfy | the CVR parser's batching and flushing |
| `Finder` | finder.dfy | the voting-method finder |

## Model

| member | source | states |
|---|---|---|
| Counting.HistogramCounts | cvr/st-louis/process_all.py:191-194 | bucket `k` holds the number of times size `k` was listed |
| Counting.HistogramMass | cvr/st-louis/process_all.py:190-197 | with sizes at most `n`, buckets `0..n` sum to the number of ballots, and their size-weighted sum is the total number of approvals |
| Counting.MeanBound | cvr/st-louis/process_all.py:209-210 | a mean of values in `[0, n]` lies in `[0, n]` |
| Counting.MostCommon | cvr/st-louis/process_all.py:199-207 | `most_common(1)` returns a key of maximal count together with that count |
| Counting.MostCommonFirstSeen | cvr/st-louis/process_all.py:205-207 | on a tie, the key counted first wins, as a `Counter`'s insertion order gives |
| Approval.Approvers | cvr/st-louis/process_all.py:161-166 | every listed ballot approves `c`, and the list is drawn from the ballots without repetition beyond theirs |
| Approval.TallySupporters | cvr/st-louis/process_all.py:161-169 | a candidate's tally is exactly the number of positions of approving ballots |
| Approval.CoCountIntersection | cvr/st-louis/process_all.py:171-176 | `both_count` is the size of the intersection of the two candidates' supporter sets |
| Approval.CoCountBounds | cvr/st-louis/process_all.py:171-178 | co-approval is symmetric, bounded by both tallies, and equals the tally for a candidate paired with itself |
| Approval.Percent | cvr/st-louis/process_all.py:178 | the rate is non-negative, at most 100 when the count is at most the base, exactly 100 for the full base and 0 for a zero count |
| Approval.Fraction | cvr/utah/process_utah_cvr.py:174-176 | the Utah rate times the base is the count, it lies in `[0, 1]` when the count is at most the base, and it is the St. Louis percentage divided by 100 |
| Approval.CoApproval | cvr/st-louis/process_all.py:171-187 | a row's count is the number of ballots approving both, bounded by both tallies, and its rate is that count over `a`'s supporters, in percent |
| Approval.ConditionalDistributions | cvr/st-louis/process_all.py:212-231 | a candidate gets a conditional histogram exactly when it is listed and some ballot approves it |
| Approval.DistributionMass | cvr/st-louis/process_all.py:190-197 | the distribution holds every ballot once, and its weighted sum is the number of approvals |
| Approval.DistributionCounts | cvr/st-louis/process_all.py:193-194 | bucket `k` holds exactly the ballots with `k` approvals, and no other bucket exists |
| Approval.DistributionKeys | cvr/st-louis/process_all.py:193-194 | the distribution has a bucket exactly for each approval count that occurs |
| Approval.ConditionalMass | cvr/st-louis/process_all.py:225-231 | a candidate's conditional histogram holds exactly the ballots approving that candidate |
| Approval.Average | cvr/st-louis/process_all.py:209-210 | the average times the number of ballots is the number of approvals |
| Approval.AverageBound | cvr/st-louis/process_all.py:209-210 | when no ballot approves more than `n` candidates, the average lies in `[0, n]` |
| Approval.Candidates | cvr/st-louis/process_all.py:145-149 | the candidate set is exactly the candidates approved on some ballot |
| Approval.CandidatesHaveSupport | cvr/st-louis/process_all.py:145-169 | every listed candidate has an approving ballot, so the `len(cand_a_ballots) == 0` skip never fires |
| Approval.OrderedPairsCount | cvr/st-louis/process_all.py:156-159 | `n` candidates give exactly `n * (n - 1)` ordered pairs of distinct members |
| Approval.PositionPairsCount | cvr/utah/process_utah_cvr.py:39-44 | a list of length `m` has exactly `m * (m - 1)` ordered pairs of distinct positions |
| Approval.MatrixKeys | cvr/st-louis/process_all.py:154-187 | over the approved candidates, the matrix has a row for exactly the `n * (n - 1)` ordered pairs |
| Approval.CombinationCount | cvr/st-louis/process_all.py:200-203 | a sorted combination is counted once for each ballot approving exactly that set |
| Approval.CombinationsFromBallots | cvr/st-louis/process_all.py:200-203 | every counted combination is the sorted listing of some ballot that approves someone |
| Approval.MostCommonCombination | cvr/st-louis/process_all.py:199-207 | the result is strictly sorted, and `[]` exactly when no ballot approves anyone |
| Approval.Matrix | cvr/st-louis/process_all.py:154-187 | a row exists exactly for each ordered pair of distinct candidates whose first member has a supporter, and holds their co-approval entry |
| Approval.AnyoneBut | cvr/st-louis/process_all.py:233-247 | only candidates are counted against, each with a positive count |
| Approval.MostCommonCombinationIsMax | cvr/st-louis/process_all.py:199-207 | a non-empty result lists some ballot's approval set, and no approval set is shared by more ballots |
| Approval.CombinationsOfNonEmpty | cvr/st-louis/process_all.py:199-203 | when every ballot approves someone, the combinations are the ballots' sorted sets in ballot order |
| Approval.MostCommonCombinationFirst | cvr/st-louis/process_all.py:199-207 | when every ballot approves someone, the reported combination is a most shared ballot set, and every earlier ballot's set is shared by fewer ballots |
| Approval.AnyoneButCounts | cvr/st-louis/process_all.py:233-247 | each candidate's count is the number of ballots with the target number of approvals that leave out only that candidate |
| Approval.AnyoneButTotal | cvr/st-louis/process_all.py:233-247 | summed over the candidates, the counts give the number of qualifying ballots, at most the number of ballots |
| Approval.AnyoneButEmpty | cvr/st-louis/process_all.py:233-247 | the tally is empty exactly when no ballot qualifies |
| Approval.BallotsWithinCandidates | cvr/st-louis/process_all.py:145-149 | no ballot approves more candidates than are approved overall, so full approval is the top bucket |
| Text.Lower | cvr/st-louis/process_all.py:119 | lower-casing keeps the length and maps each character to its lower-case form |
| Text.LowerHasNoUpper | cvr/st-louis/process_all.py:119 | lower-casing removes every upper-case letter and keeps every other character in place |
| Text.CaseChars | cvr/st-louis/process_all.py:292-299 | case mapping round-trips on letters and never creates or removes a space |
| Text.CapitalizeFacts | st-louis-cvr/generate_election_wide_race.py:397-403 | a capitalized word keeps its spaces and its letters up to case, starts with no lower-case letter and has no upper-case letter after that; capitalizing is idempotent |
| Text.LowerSplit | st-louis-cvr/generate_election_wide_race.py:397-403 | lower-casing before splitting at a space is lower-casing each piece |
| Text.ContainsSuffix | src/lib/voting/finder-utils.ts:94-96 | a string always contains its own suffix |
| Text.ReplaceAllAbsent | st-louis-cvr/generate_election_wide_race.py:388-394 | replacing a pattern that does not occur changes nothing |
| Text.ReplaceAllSame | cvr/st-louis/process_all.py:295-297 | replacing a pattern by itself changes nothing |
| Text.ReplaceAllChars | cvr/st-louis/process_all.py:117-120 | every character of a replacement result comes from the input or from the replacement text |
| Text.ReplaceCharRemoves | cvr/st-louis/process_all.py:117-120 | replacing a single character by text without it removes every occurrence |
| Text.JoinSplit | st-louis-cvr/generate_election_wide_race.py:397-403 | joining the pieces of a split gives back the original string |
| Text.SplitJoin | st-louis-cvr/generate_election_wide_race.py:397-403 | splitting a join of separator-free pieces gives back the pieces |
| Text.SplitCount | st-louis-cvr/generate_election_wide_race.py:216 | a split has one more piece than the string has separators |
| Text.SplitLast | st-louis-cvr/generate_election_wide_race.py:216 | the last piece of `s + "(" + b` is `b` when `b` has no `(` |
| Text.RStrip | st-louis-cvr/generate_election_wide_race.py:216 | `rstrip` leaves a prefix of the input that does not end in the stripped character |
| Text.StrLeAntisymmetric | cvr/utah/process_utah_cvr.py:225-229 | the string order used for `sorted` and `ORDER BY name` is antisymmetric |
| Text.ParseNatToString | cvr/utah/process_utah_cvr.py:353-354 | reading back the numeral `str(n)` gives `n` |
| Text.NatToStringInjective | cvr/utah/process_utah_cvr.py:353-354 | distinct numbers have distinct numerals |
| Text.SortedElements | cvr/st-louis/process_all.py:203 | `sorted(s)` lists each element of the set once, in strictly increasing order |
| Text.Sort | cvr/utah/process_utah_cvr.py:225-229 | `sorted(xs)` is a sorted permutation of `xs` |
| Reports.ReplaceReport | cvr/st-louis/process_all.py:473-518 | after the delete and inserts the report holds exactly the new co-approval rows and one pattern row, and every other report keeps its rows |
| Reports.ReplaceReportIdempotent | cvr/st-louis/process_all.py:473-518 | replacing a report's rows a second time with the same rows changes nothing |
| Reports.FindReport | cvr/st-louis/process_all.py:409-421 | a report is found exactly when one has that office and date, and the one found has them |
| Reports.FindReportByPath | cvr/utah/process_utah_cvr.py:212-223 | a report is found exactly when one is filed under the path, and the one found is |
| Reports.SetBallotCount | cvr/st-louis/process_all.py:520-531 | only the named report's ballot count changes, to the new count |
| Reports.SetVotes | cvr/st-louis/process_all.py:553-562 | only the rows of that report with that name get the new vote count |
| Reports.ApplyVotes | cvr/st-louis/process_all.py:533-562 | the loop keeps the number of candidate rows and each row's report and name |
| Reports.ApplyVotesSets | cvr/st-louis/process_all.py:533-562 | when no two tallies land on one candidate, each named candidate of the report holds its tally's count and every other row keeps its votes |
| Reports.SameReportFound | cvr/st-louis/process_all.py:409-421 | updating ballot counts keeps every report's office, date and id, so the same report is found again |
| Reports.SameProperNames | cvr/st-louis/process_all.py:281-309 | vote updates keep the report's candidate names |
| Reconcile.NormalizeForMatch | cvr/st-louis/process_all.py:292-299 | a normalized name has no dot, no space and no lower-case letter |
| Reconcile.QuoteReplacementsAreNoOps | cvr/st-louis/process_all.py:292-299 | the two quote replacements change nothing: matching is upper-casing with dots and spaces removed |
| Reconcile.NormalizeForMatchIdempotent | cvr/st-louis/process_all.py:292-299 | normalizing a normalized name changes nothing |
| Reconcile.FirstMatch | cvr/st-louis/process_all.py:301-307 | the result is the first report name that matches, and nothing when none matches |
| Reconcile.NameMapping | cvr/st-louis/process_all.py:281-309 | a CVR name is mapped exactly when some report name matches it, and it maps to the first match |
| Reconcile.RenameMatches | cvr/st-louis/process_all.py:444-447 | a renamed name matches its original, and an unmatched name is kept |
| Reconcile.RelabelFromValues | cvr/st-louis/process_all.py:449-458 | when no two keys are renamed alike, every entry is found under its renamed key |
| Reconcile.Relabel | cvr/st-louis/process_all.py:449-467 | the keys of the result are exactly the renamed keys of the input |
| Reconcile.RelabelValues | cvr/st-louis/process_all.py:449-467 | without collisions, relabelling keeps every value under the renamed key |
| Reconcile.CoApprovalRows | cvr/st-louis/process_all.py:444-447 | each matrix row keeps its count and rate under the renamed names |
| Reconcile.RelabelPatterns | cvr/st-louis/process_all.py:449-467 | the conditional histograms move to the renamed names; the total, the distribution and the most common combination are unchanged, and the anyone-but tally is kept exactly when present |
| Reconcile.ExportContest | cvr/st-louis/process_all.py:402-562 | a contest with no report, or with an empty matrix, leaves the database unchanged |
| Reconcile.ExportReplaces | cvr/st-louis/process_all.py:469-531 | with a report and a non-empty matrix, the report holds exactly the relabelled rows and one relabelled pattern row, other reports keep theirs, and its ballot count is the analysis's total |
| Reconcile.ExportIdempotentRows | cvr/st-louis/process_all.py:473-518 | exporting a contest twice leaves the same co-approval and pattern rows as exporting it once |
| StLouis.NormalizeContestName | cvr/st-louis/process_all.py:112-121 | a normalized name has no space and no upper-case letter |
| StLouis.NormalizeIdempotent | cvr/st-louis/process_all.py:112-121 | normalizing a normalized name changes nothing |
| StLouis.NormalizeDashedName | cvr/st-louis/process_all.py:112-121 | `"OFFICE - DISTRICT N"` normalizes to `"office-districtn"` |
| StLouis.NormalizeWardExample | cvr/st-louis/process_all.py:405-408 | the ward contest names normalize to the report office keys |
| StLouis.GroupByBallot | cvr/st-louis/process_all.py:138-140 | each ballot id is listed once, with a non-empty approval set, and there are no more groups than rows |
| StLouis.GroupByBallotExact | cvr/st-louis/process_all.py:138-140 | the grouping lists candidate `c` under ballot `id` exactly when some row pairs them |
| StLouis.AddApproval | cvr/st-louis/process_all.py:138-140 | adding one approval row keeps ballot ids distinct and approval sets non-empty, and adds at most one group |
| StLouis.AddApprovalLists | cvr/st-louis/process_all.py:138-140 | after adding a row, ballot `id` lists `c` exactly when it did before or the row is that pair |
| StLouis.ProfileOfRows | cvr/st-louis/process_all.py:138-149 | every grouped ballot approves someone, and the candidates are exactly those named in the rows |
| StLouis.Analyze | cvr/st-louis/process_all.py:124-262 | the result is "not enough data" exactly when there are fewer than two ballots or fewer than two candidates, and otherwise carries the anyone-but tally |
| StLouis.AnalyzeLegacy | st-louis-cvr/process_all.py:123-244 | the older analysis is the current one without the anyone-but key |
| StLouis.AnalyzeMatrix | cvr/st-louis/process_all.py:154-187 | the matrix holds exactly the `n * (n - 1)` ordered pairs of candidates, each counting the ballots approving both |
| StLouis.AnalyzeHistogram | cvr/st-louis/process_all.py:189-197 | the distribution holds every ballot once, and the bullet and full-approval counts are its buckets 1 and `n` |
| StLouis.AnalyzeAverage | cvr/st-louis/process_all.py:209-210 | the average is the total number of approvals divided by the number of ballots (there are at least two) |
| StLouis.AnalyzeConditional | cvr/st-louis/process_all.py:212-231 | each candidate's conditional histogram holds exactly the ballots approving it |
| StLouis.AnalyzeCombination | cvr/st-louis/process_all.py:199-207 | the reported combination is the sorted set of a ballot shared by the most ballots, and every earlier ballot in ballot-id order holds a set shared by fewer (the first seen wins ties) |
| StLouis.AnalyzeAnyoneBut | cvr/st-louis/process_all.py:233-247 | each anyone-but count is the number of ballots with `n - 1` approvals that leave out exactly that candidate |
| Utah.ApprovedMembers | cvr/utah/process_utah_cvr.py:78-82 | the approvals are the non-empty values of the `vote_` fields, whatever the field order |
| Utah.ApprovedCount | cvr/utah/process_utah_cvr.py:78-84 | a ballot has exactly one approval per approval field |
| Utah.VoteTallyCounts | cvr/utah/process_utah_cvr.py:304-309 | each candidate's vote tally is the number of times it is listed as an approval |
| Utah.TallyBelowVotes | cvr/utah/process_utah_cvr.py:33-37 | the ballots approving `c` never outnumber its votes |
| Utah.TallyEqualsVotes | cvr/utah/process_utah_cvr.py:33-37 | when no ballot lists a name twice, the ballots approving `c` are exactly its votes |
| Utah.UtahMatrix | cvr/utah/process_utah_cvr.py:39-69 | one row per ordered pair of distinct positions, each counting the ballots approving both names |
| Utah.MatrixWithinVotes | cvr/utah/process_utah_cvr.py:39-69 | a pair's count is bounded by both candidates' vote tallies |
| Utah.RateOf | cvr/utah/process_utah_cvr.py:174-176 | the rate is zero for an empty base; otherwise the rate times the base is the count, and it lies in `[0, 1]` when the count is at most the base |
| Utah.CountEqualIsBucket | cvr/utah/process_utah_cvr.py:71-99 | the loop's counter of ballots with `v` approvals agrees with the histogram's bucket `v` |
| Utah.ConditionalLengthsCount | cvr/utah/process_utah_cvr.py:104-124 | each conditional list has one entry per ballot approving the candidate |
| Utah.AnalyzeUtah | cvr/utah/process_utah_cvr.py:28-188 | the total is the number of ballots, and the matrix is keyed by ordered position pairs |
| Utah.UtahHistogramMass | cvr/utah/process_utah_cvr.py:101-102 | the histogram's buckets up to the largest ballot hold every ballot, zero-approval ballots included |
| Utah.UtahBulletAndFull | cvr/utah/process_utah_cvr.py:71-99 | bullet and full approval are buckets 1 and `N` of the histogram, at most the number of ballots, with rates between 0 and 1 |
| Utah.UtahAverage | cvr/utah/process_utah_cvr.py:177-181 | the average is the number of approvals over the number of ballots, and 0 with no ballots |
| Utah.UtahAverageBound | cvr/utah/process_utah_cvr.py:177-181 | when no ballot has more than `n` approvals, the average lies in `[0, n]` |
| Utah.UtahCombination | cvr/utah/process_utah_cvr.py:126-149 | the most common combination exists exactly when there is a ballot, and it is a most shared sorted combination |
| Utah.EmptyCombinationWins | cvr/utah/process_utah_cvr.py:126-149 | when no ballot approves anyone, the empty combination wins with every ballot |
| Utah.UtahConditionalMass | cvr/utah/process_utah_cvr.py:104-124 | a candidate has a conditional histogram exactly when it is listed and some ballot approves it, and the histogram holds those ballots |
| Utah.UtahAnyoneBut | cvr/utah/process_utah_cvr.py:151-169 | each count is the number of ballots with `N - 1` approvals whose approvals miss exactly that candidate |
| Utah.GeneratedTrackingDistinct | cvr/utah/process_utah_cvr.py:353-354 | ballots without a tracking field get distinct generated guids |
| Utah.CandidateId | cvr/utah/process_utah_cvr.py:398 | a candidate id has no space and no upper-case letter |
| Utah.CvrRows | cvr/utah/process_utah_cvr.py:341-403 | one ballot row and one contest row per ballot, each ballot guid its tracking value, and every selection pointing at a contest row with value 1 |
| Utah.CvrBallotRows | cvr/utah/process_utah_cvr.py:352-403 | one ballot row per ballot, carrying that ballot's tracking value |
| Utah.ExportSelections | cvr/utah/process_utah_cvr.py:371-403 | the selections under each ballot's contest row are that ballot's approvals in order, one selection per approval overall |
| Utah.InsertBallotsIff | cvr/utah/process_utah_cvr.py:341-363 | under the unique `(source, cvr_guid)` constraint of `cvr_ballots` the insert loop raises exactly when two ballots share a guid, and otherwise writes one row per ballot under its tracking value |
| Utah.ExportUtah | cvr/utah/process_utah_cvr.py:212-413 | without the report the run returns and nothing changes; with it the run raises exactly when two ballots share a guid, and then nothing is committed; otherwise the reporting tables are updated and the `"utah"` CVR rows are this ballot list's rows |
| Utah.UntrackedExports | cvr/utah/process_utah_cvr.py:353-363 | with the report present and no ballot carrying a tracking field, the export goes through |
| Utah.UpdateReportRows | cvr/utah/process_utah_cvr.py:225-298 | the report holds exactly the fresh co-approval rows and one pattern row, other reports keep theirs, and the ballot count is the number of ballots |
| Utah.ExportUtahRows | cvr/utah/process_utah_cvr.py:225-298 | after an export that went through, the report holds exactly the fresh co-approval rows and one pattern row, other reports keep theirs, and the ballot count is the number of ballots |
| Utah.UpdateReportVotes | cvr/utah/process_utah_cvr.py:304-321 | every tallied candidate row of the report holds its number of votes |
| Utah.ExportUtahVotes | cvr/utah/process_utah_cvr.py:304-321 | after an export that went through, every tallied candidate of the report holds its number of votes |
| ElectionWide.FormatContestUnchanged | st-louis-cvr/generate_election_wide_race.py:388-394 | a name containing none of the three patterns is left as it is |
| ElectionWide.FormatMayor | st-louis-cvr/generate_election_wide_race.py:388-394 | `"MAYOR"` becomes `"Mayor"` |
| ElectionWide.FormatComptroller | st-louis-cvr/generate_election_wide_race.py:388-394 | `"COMPTROLLER"` becomes `"Comptroller"` |
| ElectionWide.FormatWard | st-louis-cvr/generate_election_wide_race.py:388-394 | `"ALDERMAN - WARD n"` becomes `"Alderman Ward n"` |
| ElectionWide.FormatCandidateWords | st-louis-cvr/generate_election_wide_race.py:397-403 | the formatted name has as many words as the name, each the capitalized lower-cased word |
| ElectionWide.FormatCandidateIdempotent | st-louis-cvr/generate_election_wide_race.py:397-403 | formatting a formatted name changes nothing |
| ElectionWide.RaceOfKey | st-louis-cvr/generate_election_wide_race.py:213-217 | a combined name is bracketed and its race is its formatted contest, when that has no parenthesis |
| ElectionWide.CombinedMembers | st-louis-cvr/generate_election_wide_race.py:69-79 | the combined list holds exactly the combined names of each contest's candidates |
| ElectionWide.MappingDomain | st-louis-cvr/generate_election_wide_race.py:69-79 | a raw name is mapped exactly when some contest lists it |
| ElectionWide.MappingLastContest | st-louis-cvr/generate_election_wide_race.py:73-78 | a mapped name carries its combined name in the last contest listing it |
| ElectionWide.MappingSource | st-louis-cvr/generate_election_wide_race.py:73-78 | a mapped name takes its value from a contest listing it, and no later contest lists it |
| ElectionWide.MappingCovers | st-louis-cvr/generate_election_wide_race.py:83-99 | every candidate on a ballot is mapped, to a name on the combined list |
| ElectionWide.ProfileWithinCombined | st-louis-cvr/generate_election_wide_race.py:91-99 | every election-wide approval is a name on the combined list |
| ElectionWide.VotesCoverTally | st-louis-cvr/generate_election_wide_race.py:83-99 | the ballots approving a name never outnumber its votes, and equal them when no ballot maps two raw approvals to one name |
| ElectionWide.ElectionMatrixSize | st-louis-cvr/generate_election_wide_race.py:101-138 | a list of `m` names gives exactly `m * (m - 1)` rows |
| ElectionWide.MultiRaceIff | st-louis-cvr/generate_election_wide_race.py:210-222 | a ballot is multi-approval exactly when it approves two different bracketed names of one race |
| ElectionWide.MultiRaceShared | st-louis-cvr/generate_election_wide_race.py:210-222 | a multi-approval ballot holds two different names of one race |
| ElectionWide.SharedRaceIsMulti | st-louis-cvr/generate_election_wide_race.py:210-222 | two different approved names of one race make the ballot multi-approval |
| ElectionWide.SameContestIsMulti | st-louis-cvr/generate_election_wide_race.py:210-227 | two different candidates approved in one contest make the ballot multi-approval |
| ElectionWide.MultiSingleTotal | st-louis-cvr/generate_election_wide_race.py:207-227 | every ballot is counted as exactly one of multi-approval and single-approval-only |
| ElectionWide.PatternsHistogram | st-louis-cvr/generate_election_wide_race.py:142-151 | on ballots drawn from the list, the distribution holds every ballot once, and its weighted sum is the number of approvals |
| ElectionWide.PatternsConditional | st-louis-cvr/generate_election_wide_race.py:168-187 | each name approved on some ballot has its conditional histogram, holding exactly the ballots approving it |
| ElectionWide.PatternsAnyoneBut | st-louis-cvr/generate_election_wide_race.py:189-201 | each name's count is the number of ballots with `|names| - 1` approvals that leave out only that name |
| ElectionWide.PatternsCrossRace | st-louis-cvr/generate_election_wide_race.py:203-236 | the multi-approval and single-approval-only counts add up to the ballots, their rates to 100 when there are ballots, and the multi rate lies in `[0, 100]` |
| ElectionWide.VotesPositive | st-louis-cvr/generate_election_wide_race.py:83-89 | every name in `candidate_votes` has at least one vote |
| ElectionWide.GenerateElectionWide | st-louis-cvr/generate_election_wide_race.py:41-265 | the total is the number of ballots, and the matrix is keyed by the ordered position pairs of the combined list |
| ElectionWide.ElectionWideFacts | st-louis-cvr/generate_election_wide_race.py:69-265 | the race's matrix, histogram, cross-race counts and vote counts satisfy their laws together |
| Ingest.AddToBatch | st-louis-cvr/cvr_parser.py:183-223 | one ballot record, and contest and selection records pointing at the new ballot and contest indices, are appended |
| Ingest.AddToBatchReadBack | st-louis-cvr/cvr_parser.py:183-223 | reading back the ballot just buffered gives the decoded ballot itself |
| Ingest.FirstWhere | st-louis-cvr/cvr_parser.py:265-273 | the id found is of a matching row with no match before it |
| Ingest.FirstWhereAppend | st-louis-cvr/cvr_parser.py:282-292 | appending rows does not move an existing first match, and a missing one is looked for in the new rows |
| Ingest.InsertOrIgnore | st-louis-cvr/cvr_parser.py:235-238 | stored rows stay in place, and at most one row per batch record is added |
| Ingest.InsertOrIgnoreStores | st-louis-cvr/cvr_parser.py:235-238 | after the insert every guid of the batch is stored |
| Ingest.InsertOrIgnoreFresh | st-louis-cvr/cvr_parser.py:235-238 | every added row is a batch record whose guid was not stored, and stored rows keep their ids |
| Ingest.InsertOrIgnoreUnique | st-louis-cvr/cvr_parser.py:63 | insert-or-ignore keeps ballot guids unique |
| Ingest.InsertOrIgnoreKeepsIds | st-louis-cvr/cvr_parser.py:245-251 | a guid already stored keeps its ballot id |
| Ingest.InsertOrIgnoreNothingNew | st-louis-cvr/cvr_parser.py:240-243 | the insert adds no row exactly when every guid of the batch was already stored |
| Ingest.PlanContests | st-louis-cvr/cvr_parser.py:253-273 | each contest record gets a slot or none, and a slot points at a planned row |
| Ingest.PlanContestsSlots | st-louis-cvr/cvr_parser.py:253-273 | a contest record gets a slot exactly when it is admitted, and its slot holds its row |
| Ingest.PlanContestsGrows | st-louis-cvr/cvr_parser.py:253-273 | one more contest record extends the plan without changing earlier rows or slots, and gets a slot holding its row exactly when admitted |
| Ingest.PlannedRowsNew | st-louis-cvr/cvr_parser.py:265-273 | no planned row's ballot id and contest id existed before the flush |
| Ingest.PlanSelectionsTargets | st-louis-cvr/cvr_parser.py:294-307 | every planned selection points at a stored contest id and carries a buffered selection's fields |
| Ingest.PlanSelectionsComplete | st-louis-cvr/cvr_parser.py:294-307 | a selection whose contest was written is planned |
| Ingest.FlushStore | st-louis-cvr/cvr_parser.py:225-314 | a committed flush only appends to each table, the ballots by insert-or-ignore, and an empty batch leaves the store as it was |
| Ingest.FlushNothingNew | st-louis-cvr/cvr_parser.py:240-243 | a flush that finds every guid already stored writes nothing |
| Ingest.FlushIdempotent | st-louis-cvr/cvr_parser.py:225-314 | flushing the same batch again changes nothing |
| Ingest.FlushBallots | st-louis-cvr/cvr_parser.py:235-251 | after a flush every guid of the batch is stored, guids stay unique, and a guid stored before keeps its ballot id |
| Ingest.FlushContestRows | st-louis-cvr/cvr_parser.py:275-280 | the contest rows a flush writes are the planned rows |
| Ingest.FlushContestsNew | st-louis-cvr/cvr_parser.py:253-280 | every written contest row is new for its ballot id and contest id, and comes from a buffered contest record |
| Ingest.FlushContestsComplete | st-louis-cvr/cvr_parser.py:253-280 | every admitted contest record of a flush that inserted a ballot is written |
| Ingest.FlushSelectionRows | st-louis-cvr/cvr_parser.py:294-307 | the selection rows a flush writes are the planned selections |
| Ingest.FlushSelectionsNew | st-louis-cvr/cvr_parser.py:282-307 | every written selection points at a contest row written by the same flush, for the right ballot and contest |
| Ingest.FlushReferential | st-louis-cvr/cvr_parser.py:275-307 | a flush keeps every contest pointing at a stored ballot and every selection at a stored contest |
| Ingest.Flush | st-louis-cvr/cvr_parser.py:225-322 | the buffers are always cleared; the error is raised exactly when the transaction fails on a non-empty batch, and then the store is unchanged |
| Ingest.Feed | st-louis-cvr/cvr_parser.py:330-339 | a failed file counts one error and a decoded one is counted as processed; only a failed flush raises; a flush empties the buffer, and without one the store is unchanged |
| Ingest.FeedStored | st-louis-cvr/cvr_parser.py:330-339 | without a failure, every guid stored or buffered before the file, and the file's own, is stored or buffered afterwards |
| Ingest.FeedRerun | st-louis-cvr/cvr_parser.py:330-339 | a file whose ballot is already stored leaves the store as it is |
| Ingest.ProcessDirectory | st-louis-cvr/cvr_parser.py:324-349 | without an error every decoded ballot is stored and the counters are exact; the store only grows and keeps its references and unique guids; re-running over stored ballots changes nothing |
| Ingest.FinalFlush | st-louis-cvr/cvr_parser.py:348-349 | the closing flush stores everything decoded and keeps the store's invariants |
| Ingest.FlushKeeps | st-louis-cvr/cvr_parser.py:225-322 | a flush keeps the stored rows, the references and the uniqueness of guids |
| Finder.Lookup | src/lib/voting/finder-utils.ts:75-79 | a key is found exactly when some entry has it, and the result is the method of an entry with that key |
| Finder.ElectionType | src/lib/voting/finder-utils.ts:37-39 | `"single"` exactly for one seat, `"multi"` otherwise |
| Finder.AvailableMembers | src/lib/voting/finder-utils.ts:41-71 | a method id is available exactly when its entry passes the ballot-type, choice, election-type and seat filters |
| Finder.AvailableAppend | src/lib/voting/finder-utils.ts:65-70 | the filter keeps catalogue order: filtering a concatenation concatenates the filtered parts |
| Finder.AvailableOffered | src/lib/voting/finder-utils.ts:46-63 | an available id names a method of the configured ballot type and choice limitation, within its seat bounds unless the filter is `"all"` |
| Finder.AvailableDistinct | src/lib/voting/finder-utils.ts:65-70 | with distinct catalogue keys, no id is offered twice |
| Finder.AvailableAllIgnoresSeats | src/lib/voting/finder-utils.ts:52-63 | with the `"all"` filter the result does not depend on the seat count |
| Finder.OwnElectionTypeRedundant | src/lib/voting/finder-utils.ts:52-63 | a method fitting the seat count also fits the election type of that seat count |
| Finder.WithCustomLimit | src/lib/voting/finder-utils.ts:94-96 | without a custom limit, or with the default limit 3, the name is unchanged |
| Finder.VotingMethodName | src/lib/voting/finder-utils.ts:73-99 | the placeholder when the ballot type or the method is unset, `"Unknown Method"` for a method not in the catalogue |
| Finder.CustomLimitOnce | src/lib/voting/finder-utils.ts:94-96 | adding the custom limit is idempotent, and a custom limit other than 3 always shows |
| Finder.CustomLimitShown | src/lib/voting/finder-utils.ts:94-96 | a name already showing the limit is left as it is |
| Finder.NameShowsMethod | src/lib/voting/finder-utils.ts:80-92 | a known method's name starts with the list-type prefix and the method's name |
| Finder.VotingMethodScores | src/lib/voting/finder-utils.ts:237-264 | zero scores without a method or for an unknown one; a single seat zeroes proportionality; pick-one ballots zero both strategy scores and give representation 1 |
| Finder.ScoresFromMethod | src/lib/voting/finder-utils.ts:244-262 | each score not adjusted is the method's own, and block approval gets representation 2 |
| Finder.IsProportionalMethod | src/lib/voting/finder-utils.ts:266-273 | never proportional for one seat or fewer or an unknown method; for more seats and a known method, exactly that method's `isProportional` |
| Finder.ProportionalIffGroup | src/lib/voting/finder-utils.ts:266-273 | for more than one seat and an available current method, the configuration is proportional exactly when its method passes the "Proportional Methods" group filter |
| Finder.MethodsWhere | src/lib/voting/finder-utils.ts:293-368 | a group lists exactly the known ids whose methods satisfy its condition |
| Finder.SuggestedComparisons | src/lib/voting/finder-utils.ts:275-373 | no suggestions when the current method is unset or unknown; with a known method, a failure (the `TypeError`) exactly when some available id names no method; every suggested group contains the method, has two members, and lists only available ids |
| Finder.SuggestedIff | src/lib/voting/finder-utils.ts:370-372 | a group is suggested exactly when it has at least two members and contains the current method |
| Finder.SuggestionsFromAvailable | src/lib/voting/finder-utils.ts:41-71 | the suggestions over the finder's own available methods never fail |
| Finder.ProportionalSuggested | src/lib/voting/finder-utils.ts:293-368 | a proportional current method with another available proportional method gets the proportional group |

## Left out

- Decoding of the CVR XML and of the Utah JSON: a file is modelled as its decoded ballot, or `None` when parsing fails.
- SQLite mechanics are not modelled: connections, PRAGMAs, table creation, the `ALTER TABLE` migration, `lastrowid` and the read-back warnings. The CVR tables and the `reports` and `candidates` tables are sequences of rows, and a CVR row's id is its position plus one.
- Reports.MainStore: the `co_approvals` and `voting_patterns` tables are sets of rows, so two rows with identical fields are kept once. The source has no uniqueness constraint on them (`cvr/st-louis/process_all.py` lines 314-335), so it writes both rows. Such duplicates arise when two CVR names are renamed to one report name and carry equal counts and rates, or when a report's candidate list repeats a name. Row order in these tables is not modelled either.
- Transactions: whether a flush's commit fails is an input (`faults`). The rollback restores the store.
- Floating point: rates and averages are exact rationals, and `json.dumps` of the patterns is a datatype value.
- Logging, progress bars, timing statistics and the summary printout.
- Python `set` iteration order: where the source iterates a set, the model iterates in name order instead. Set order follows string hashing, which changes from process to process. This affects the order of each contest's names in the election-wide combined list (`st-louis-cvr/generate_election_wide_race.py` lines 73-79, `ElectionWide.ListingOf`). It also affects the St. Louis candidate list (`cvr/st-louis/process_all.py` lines 146-149) and so the key order of the dictionaries renamed in the export. When two CVR names are renamed to the same report name, the value kept is the one of the later name in name order (`Reconcile.KeyOrder`). `Reconcile.RelabelValues` states the values only when no two names collide.
- The copy of the CVR tables into the main database in `cvr/st-louis/process_all.py` (lines 582-648) is a bulk table copy.
- The election-wide `INSERT OR REPLACE` of the report and candidate rows is not modelled; the model stops at the computed race.
- Utah.CvrRows: models the rows under source `"utah"` after the delete-by-source, not the rows of other sources. The unique `(source, cvr_guid)` constraint it relies on is declared in `cvr/st-louis/process_all.py` (line 350).
- Case mapping covers ASCII letters only.
- Finder: the description texts of the comparison groups are not kept; only titles and members are.
- Finder: `generateVotingMethodSummary` and `generateVotingMethodCritiqueFromData` are not part of this model; neither is the `ballotTypes` / `limitedChoicesOptions` option list.
- Finder: JavaScript numbers are integers here, object prototype keys do not exist, and `Object.entries` order is the order of the entry list.
- Finder.ScoresFromMethod: the copy made with the spread operator is not modelled, since model values are immutable.
- Ingest.ProcessDirectory: states that the store is unchanged on a re-run only when the parser starts with an empty or already stored buffer.

## Notes on the source

- The election-wide mapping is keyed by the raw candidate name, so a name on the ballot in two contests maps to its combined name in the last contest listed (`ElectionWide.MappingLastContest`).
- `guid_to_ballot_id` is read after the insert for every guid of the batch, so contests of ballots that were already stored are attached to the stored ballot when their `(ballot_id, contest_id)` row is new.
- The contest existence check in `flush_batch` reads the store as it was before the flush.
- The Utah `anyone_but_counts` counter at lines 96-99 is computed but not used; the model does not keep it.
