# Verified models of the repository's gates and runners

The repository guards its claims with scripts: a SQL statement splitter and inventory, a migration runner, a census of
database clusters, a reader of ZIP documents, a rewriter of published figures, several text scanners, a mutation runner
and a commit budget. Each of them is a small algorithm whose answer somebody relies on. This project models those
algorithms in Dafny and proves what their documentation promises of them: for every text, every archive, every sequence
of reads, every history of runs. Where a promise does not hold of the code, the code is modelled as it is, a lemma shows
an input, and another says exactly when the promise is kept.

Verify everything with `dafny verify dfyconfig.toml`.

## Layout

| files | what they model |
|---|---|
| `Text`, `Bytes` | strings as sequences of UTF-16 code units, searching, little-endian fields |
| `StatementSplitter`, `StatementSplitterLaws`, `LexemeLaws` | the hand-written SQL lexer of `scripts/reconciliation-inventory.ts`, and its lexemes written out on the text |
| `SpanDiff`, `Inventory`, `InventoryLaws`, `SqlInventory` | anchored deletions, the two-ended diff that recovers them, the inventory built from the SQL and both |
| `StatementKeys`, `StatementKeyLaws` | the normal text that a statement's key and verb are read from |
| `CanonicalText`, `FixtureChains`, `MigrationRunner`, `MigrationLaws`, `LedgerLaws` | the migration runner as a state machine over runs, and its ledger check on the directories |
| `MarkerScan`, `MarkerScanLaws`, `Census`, `CensusLaws`, `ClusterNames` | the chunked byte search and the census decision built on it |
| `ZipReader`, `ZipRoundTrip`, `XmlEntities`, `XmlRoundTrip` | the readers of `scripts/docx-text.ts`, each with its inverse |
| `MarkedRegions`, `FigureSpans`, `FigureSpansLaws`, `FigureChecker`, `FigureLaws` | span rewriting against the check it must satisfy |
| `RoleBindings`, `RoleBindingText` | the depth scan, guard placement and projection ranges, and all of them over a whole text |
| `SqlScan`, `SqlScanLaws`, `OwnedTables`, `OwnedTablesLaws`, `OwnedNames` | the derivation of the versioned tables, its regular expressions and names on the positions of a text |
| `QualifiedReads`, `DeclaredTables` | what that derivation takes for a qualified read, and which word for a table |
| `MutationRunner` | the mutation loop with its baseline cache |
| `CommitBudget`, `Withdrawn` | the budget arithmetic and the withdrawal mask |

Loops over mutable state are methods, proved equal to a function of their input (or of the old state); the promises are
then lemmas about that function. Functions of the outside world are parameters: the digest, the
test battery, which transactions commit, how names decode and data inflates, what each read returns.

## Where the code differs from what is written about it

- The marker scan reports `complete` although a file did not open or a read threw. A clean complete scan shows the marker
  to be absent exactly when no file did either (`MarkerScanLaws.CleanScan`). The comment in the read loop says such a page
  is "reported by the byte count", which nothing compares.
- A count of directories that reconciles with the recovered names shows that no database was missed only when there is no
  directory at all (`ClusterNames.ReconciledShows`): a stray name stands in for a missed one (`ClusterNames.ReconciledMeans`),
  and the census can then establish disposability over a database depended upon.
- A refusal guard that no longer raises is reported only on a path that reconciliations alone reach, and a `DO` block that
  does not raise is none; and only when no later declaration of its key says otherwise (`Inventory.CleanGuardsRaise`,
  `Inventory.SilentGuard`, `Inventory.OverruledGuard`). A statement can so be accounted for in two ways
  (`Inventory.CleanIsOnce`).
- The key of a statement is said to be computed without its comments. A block comment before a statement is ignored exactly
  when every `--` in it is followed by the end of its line; otherwise the statement has no verb, is no reconciliation, and
  nothing asks for it to be accounted for (`StatementKeyLaws.CommentIgnored`, `StatementKeyLaws.HiddenUpdate`). Nor does the
  key see what follows `--` in a literal (`StatementKeyLaws.MarkMergesStatements`).
- The diff recovers what a deletion removed up to rotation, not always the same span (`SpanDiff.DeletionRecovered`,
  `SpanDiff.RotationHappens`). For a statement that a control deletes it is the same exactly when the span slides by whole
  turns, and it is reported in its place exactly when it does not slide (`SpanDiff.ReportedIsDeleted`,
  `SpanDiff.PlaceRecovered`).
- An archive comment without the end-record signature can still hide the end record, because the comment's length field
  precedes it (`ZipRoundTrip.OwnEndFound`, `ZipRoundTrip.StraddlingSignature`).
- Entities are decoded in sequence, so an ampersand written as a number can be read twice: followed by `amp;` it always is,
  and in hexadecimal also when followed by `#`, digits and `;` (`XmlRoundTrip.DecodeInverts` gives the exact condition,
  `XmlRoundTrip.NumericAmpersandDecodesTwice` and `XmlRoundTrip.HexAmpersandReadTwice` inputs).
- Rewriting a span that has thousands separators fails the check exactly when the platform does not print the value's
  digits back: with leading zeros, or rounded above 2^53. A second rewrite changes the span again exactly when the first one
  printed other digits without a separator (`FigureSpansLaws.RewriteSatisfiesChecker`, `FigureSpansLaws.RewriteIsFixpoint`,
  `FigureSpansLaws.LeadingZerosBreak`, `FigureSpansLaws.RoundingBreaks`).
- The test for `NOT` before a parenthesis sees 40 characters (`RoleBindings.WindowAgrees`), so the scan can miss a negation
  or make one up, exactly as `RoleBindingText.WholeScanAgrees` says; `RoleBindingText.FarNotIsMissed` shows one missed.
- "A hard failure, never a skipped line": the test for a qualified read takes any full stop for a qualifier. A mention
  after a full stop that qualifies nothing, or after a DO block that follows a full stop, is passed over in silence; those
  and no others (`QualifiedReads.NeverNarrows`, `OwnedTablesLaws.ShadowedIsSkipped`). Any column under a line comment that
  ends in a full stop is hidden so, dynamic SQL included (`QualifiedReads.CommentHides`,
  `QualifiedReads.CommentHidesDynamicColumn`).
- The table a CREATE or ALTER declares is the word after it. With IF EXISTS, ONLY or a schema that word is no table, and an
  addition counts as accounted for by it (`DeclaredTables.CapturedIsTable`, `DeclaredTables.OnlyIsOwned`).
- An anchor counts once although it occurs twice, when the occurrences overlap (`MutationRunner.CountedOnceOccursOnce`);
  and one edit is the only difference between the two trees only where the file has no CRLF (`MutationRunner.OnlyTheEdit`,
  `MutationRunner.EditChangesMore`).
- A documentation commit recorded twice lowers the count that starts from git (`CommitBudget.FullHistoryCounts`,
  `CommitBudget.ListedTwice`).
- Canonicalising line endings is idempotent only on some texts (`CanonicalText.CanonicalIdempotent`,
  `CanonicalText.CanonicalTwice`).

## Model

| member | source | states |
|---|---|---|
| StatementSplitter.LexLenFinds | scripts/reconciliation-inventory.ts:116-155 | the length the scanner consumes is the one length that satisfies the grammar of comments, strings, dollar bodies and single characters, unterminated ones included |
| StatementSplitter.SkipLineComment | scripts/reconciliation-inventory.ts:116-119 | the nested loop stops exactly at the end of the line-comment lexeme |
| StatementSplitter.SkipBlockComment | scripts/reconciliation-inventory.ts:120-125 | the nested loop stops exactly at the end of the block comment, at the first closing mark, or past the end when there is none |
| StatementSplitter.SkipString | scripts/reconciliation-inventory.ts:126-140 | the nested loop stops after the first quote that no second quote follows, doubled quotes being skipped in pairs |
| StatementSplitter.SkipDollarBody | scripts/reconciliation-inventory.ts:141-149 | the body ends with the next occurrence of its own marker, or with the text |
| StatementSplitter.SplitStatements | scripts/reconciliation-inventory.ts:93-159 | the loop terminates on every text and returns the pieces of the lexeme-by-lexeme walk |
| LexemeLaws.MarkerMeans | scripts/reconciliation-inventory.ts:142-142 | a text opens with a marker exactly when it begins with a tag of letters and underscores, the empty one included, between two dollar signs |
| LexemeLaws.DollarBodyHolds | scripts/reconciliation-inventory.ts:141-149 | wherever the scan meets a marker, the body up to its next occurrence is passed as one, and no semicolon in it is top-level |
| LexemeLaws.LineCommentHolds | scripts/reconciliation-inventory.ts:116-119 | the same for a line comment up to the end of its line |
| LexemeLaws.BlockCommentHolds | scripts/reconciliation-inventory.ts:120-125 | and for a block comment up to its first closing mark |
| LexemeLaws.LiteralHolds | scripts/reconciliation-inventory.ts:126-140 | and for a literal, whatever text it holds, with its quotes doubled |
| LexemeLaws.OtherCharacter | scripts/reconciliation-inventory.ts:150-155 | any other character is passed by itself, and is a cut exactly when it is a semicolon |
| LexemeLaws.DoBlockIsOnePiece | scripts/reconciliation-inventory.ts:93-159 | a `DO $$` block is one statement whatever semicolons its body holds |
| StatementSplitterLaws.TopSemiByAnyLexing | scripts/reconciliation-inventory.ts:93-159 | whichever way a text is divided into lexemes, the same semicolons are top-level ones |
| StatementSplitterLaws.LexingExists | scripts/reconciliation-inventory.ts:93-159 | every text, unterminated constructs included, has such a division |
| StatementSplitterLaws.SplitTiles | scripts/reconciliation-inventory.ts:93-159 | the pieces are adjacent exact slices at their offsets, none blank, and what they leave out is a blank tail |
| StatementSplitterLaws.SplitCutsAtTopSemis | scripts/reconciliation-inventory.ts:99-158 | every piece but a last unterminated one ends at its only top-level semicolon, and every top-level semicolon ends a piece |
| StatementSplitterLaws.SplitAppend | scripts/reconciliation-inventory.ts:93-159 | after a text whose last character is a top-level semicolon, splitting a concatenation is splitting its parts, offsets shifted |
| SpanDiff.Diff | scripts/reconciliation-inventory.ts:286-296 | the two loops find a longest common prefix and then a longest common suffix of what is left |
| SpanDiff.DeletionRecovered | scripts/reconciliation-inventory.ts:283-296 | for every single deletion the two ends account for all that is left, cutting the reported span gives the same text, and that span is the deleted one turned by the length of its slide |
| SpanDiff.RotateKeeps | scripts/reconciliation-inventory.ts:283-296 | a turned span has the same length, the same characters with multiplicity and the same number of semicolons |
| SpanDiff.PlaceRecovered | scripts/reconciliation-inventory.ts:283-296 | the deletion is reported at its own place exactly when what follows is empty or begins differently |
| SpanDiff.TurnedToItself | scripts/reconciliation-inventory.ts:283-296 | a span with one semicolon equals its rotation exactly after whole turns |
| SpanDiff.ReportedIsDeleted | scripts/reconciliation-inventory.ts:268-296 | for every statement a control deletes, the reported span is the deleted one exactly when its slide is a multiple of its length |
| SpanDiff.RotationHappens | scripts/reconciliation-inventory.ts:283-296 | an input on which the reported span is not the deleted one |
| SpanDiff.Anchor | scripts/database-control-mutations.ts:1589-1596 | an anchor resolves exactly to an only occurrence; otherwise it is absent, or it occurs at two places at least |
| SpanDiff.ClauseCutMeaning | scripts/database-control-mutations.ts:1589-1602 | a clause is cut from `a` exactly when its opening anchor stands at `a` alone and the closing one first after it |
| SpanDiff.ClauseErrors | scripts/database-control-mutations.ts:1589-1602 | why a clause cannot be cut: its opening anchor nowhere, or at two places, or no closing one after it, each reason exactly |
| SpanDiff.FunctionCutMeaning | scripts/database-control-mutations.ts:1573-1586 | a function statement runs from its only header to the first semicolon after the first terminator |
| SpanDiff.FunctionErrors | scripts/database-control-mutations.ts:1573-1586 | and a function statement: likewise, the terminator or the semicolon after it missing |
| SpanDiff.StatementCutMeaning | scripts/upgrade-negative-controls.ts:388-405 | a statement is cut exactly when its opening anchor is unique, the closing one follows and the span holds one semicolon |
| SpanDiff.StatementErrors | scripts/upgrade-negative-controls.ts:388-405 | and a statement: likewise, or the span not holding one semicolon |
| Inventory.ControlCoverage | scripts/reconciliation-inventory.ts:274-300 | the loop fails exactly when some control with anchors cannot be removed, and else builds the coverage map of all controls |
| Inventory.CoverageMeans | scripts/reconciliation-inventory.ts:279-299 | a key is covered exactly when some control's recovered span has it, and the last such control is named |
| Inventory.KeyCollisions | scripts/reconciliation-inventory.ts:209-222 | nothing is reported exactly when all keys differ; each report names a later copy and the first one |
| Inventory.BuildInventory | scripts/reconciliation-inventory.ts:365-488 | for parsed statements and a coverage map, one pass yields the rows and problems of the statement-by-statement functions and the totals counted from those rows |
| InventoryLaws.RowsMean | scripts/reconciliation-inventory.ts:375-460 | a row stands exactly for each statement that changes rows, refuses, or is covered: under its number and key, with the covering control's name, else its last declaration, else unaccounted |
| InventoryLaws.ProblemsMean | scripts/reconciliation-inventory.ts:384-461 | each problem reported is real and each real one reported, with the number or key of its own statement or declaration |
| SqlInventory.ParseStatements | scripts/reconciliation-inventory.ts:226-262 | the statements are the pieces of the text, numbered in order, and are refused exactly when two of them share a key |
| SqlInventory.BuildInventoryOf | scripts/reconciliation-inventory.ts:357-488 | from the SQL: refused exactly when keys collide or a control cuts no statement; otherwise rows, problems and totals are those of its own statements and controls, and the buckets sum to the reconciliations |
| StatementKeyLaws.CoversItsStatement | scripts/reconciliation-inventory.ts:162-300 | a control that deletes a statement, comments and blanks before it aside, covers it exactly when the reported span has its key; after whole turns or before a different next beginning it covers this statement and no other |
| StatementKeyLaws.CommentsAreBlanks | scripts/reconciliation-inventory.ts:161-170 | wherever they stand, comments that end where they are meant to count as one blank each, and code is kept up to runs of blanks |
| StatementKeyLaws.StrippedMeans | scripts/reconciliation-inventory.ts:165-165 | a line is cut at its first `--` that no line terminator follows |
| StatementKeyLaws.SqueezedRuns | scripts/reconciliation-inventory.ts:168-168 | a run of white space becomes one blank, and both sides are squeezed by themselves |
| StatementKeyLaws.TrimmedMeans | scripts/reconciliation-inventory.ts:169-169 | all white space at both ends goes, and nothing else |
| StatementKeyLaws.VerbMeans | scripts/reconciliation-inventory.ts:229-229 | the verb is the letters that the normal text begins with, in capitals |
| StatementKeyLaws.LeadIgnored | scripts/reconciliation-inventory.ts:161-170 | so any comments and blanks before any text are no part of its normal text |
| StatementKeyLaws.CommentIgnored | scripts/reconciliation-inventory.ts:162-170 | a block comment before a statement is ignored exactly when every `--` in it is followed by the end of its line, and otherwise the statement has no verb |
| StatementKeyLaws.CommentHidesStatement | scripts/reconciliation-inventory.ts:226-267 | a statement under such a comment is taken for a reconciliation exactly when it is one and that condition holds |
| StatementKeyLaws.HiddenUpdate | scripts/reconciliation-inventory.ts:226-267 | an `UPDATE` for which the inventory has neither row nor problem |
| StatementKeyLaws.AfterMark | scripts/reconciliation-inventory.ts:162-170 | what follows `--` on its line is dropped, in a comment or in a literal |
| StatementKeyLaws.MarkMergesStatements | scripts/reconciliation-inventory.ts:209-262 | two statements that differ there alone are refused as one, whatever the digest |
| Inventory.InventoryConserves | scripts/reconciliation-inventory.ts:462-487 | the four buckets sum to the number of reconciliations, each equals the number of statements of its class, and the rows left over are the covered statements outside that set |
| Inventory.CleanInventory | scripts/reconciliation-inventory.ts:384-461 | no problem is reported exactly when each reconciliation is covered or declared, none is both, each whose last declaration is a guard raises, and every declaration matches a statement |
| Inventory.CleanIsOnce | scripts/reconciliation-inventory.ts:365-461 | after a clean run every statement is accounted for in one way only exactly when no two declarations of one key differ in kind |
| Inventory.CleanGuardsRaise | scripts/reconciliation-inventory.ts:365-461 | after a clean run every declaration of a guard, overruled or not, is of a raising statement exactly when each such statement is a reconciliation that raises, or for which no later declaration says otherwise |
| Inventory.SilentGuard | scripts/reconciliation-inventory.ts:265-267 | an input on which a declared guard has stopped raising and nothing reports it |
| Inventory.OverruledGuard | scripts/reconciliation-inventory.ts:365-365 | an input on which a later declaration of its key silences a declared guard that does not raise |
| CanonicalText.CheckoutUndone | scripts/migrate.ts:44-46 | canonicalising undoes the CRLF checkout of every text |
| CanonicalText.CanonicalFixed | scripts/migration-fixture-chains.ts:166-168 | canonicalising changes a text exactly when it contains CRLF |
| CanonicalText.CanonicalIdempotent | scripts/migration-fixture-chains.ts:166-168 | a second canonicalisation changes nothing exactly when the text does not contain CR CR LF |
| CanonicalText.CanonicalTwice | scripts/migration-fixture-chains.ts:166-168 | on CR CR LF a second canonicalisation changes the text again |
| CanonicalText.List | scripts/migrate.ts:249-251 | the listing holds each name once, in order |
| CanonicalText.PrecedesMeans | scripts/migrate.ts:249-251 | the order is by the first code unit that differs, a name before the names it begins |
| FixtureChains.ValidateChainDirectory | scripts/migration-fixture-chains.ts:186-244 | every problem reported is real, every real one is reported, and there is none exactly when the declared chain admits the directory: each file whose name ends in `.sql` by its digest, each required one present |
| FixtureChains.DecideMode | scripts/migration-fixture-chains.ts:264-318 | production exactly for the canonical directory with no chain named or an empty name, a fixture exactly under a named chain that admits its directory, refusal otherwise |
| MigrationRunner.LedgerRefusals | scripts/migrate.ts:105-152 | the loop returns one refusal for each row that does not verify, of the first kind that applies |
| MigrationRunner.Refusals | scripts/migrate.ts:105-152 | there is no refusal exactly when every row has a resolvable body of the recorded digest and algorithm |
| LedgerLaws.RefusalsMean | scripts/migrate.ts:105-152 | on the two directories: a row is refused for its first fault, a missing body exactly when neither directory holds its name, drift exactly when the body seen first in its own directory and else in the canonical one has another digest; and no row is refused exactly when each records that body's digest under this algorithm |
| MigrationRunner.Database.Apply | scripts/migrate.ts:319-338 | one transaction adds the execution and its ledger row together, and nothing else |
| MigrationRunner.Database.Migrate | scripts/migrate.ts:158-355 | one run takes the state to that of the run function and reports its outcome |
| MigrationLaws.RunGrows | scripts/migrate.ts:242-345 | a run appends executions and exactly their rows; it is refused exactly when mode, listing or ledger fail, and a refused run changes nothing |
| MigrationLaws.RefusesIffUnverified | scripts/migrate.ts:268-299 | an admitted run refuses the ledger exactly when some row cannot be verified |
| LedgerLaws.RunRefuses | scripts/migrate.ts:268-299 | the same for a whole run, with exactly the refusals it reports |
| LedgerLaws.FixtureSeesCanonical | scripts/migrate.ts:256-276 | after a production run that was not refused, an admitted fixture run refuses the ledger exactly when its own directory holds a different body under a recorded name |
| MigrationLaws.RunInOrder | scripts/migrate.ts:249-345 | within a run migrations are applied in name order, none already in the ledger, each the canonical text of its file |
| MigrationLaws.HistoryIsSafe | scripts/migrate.ts:158-355 | over every history of runs, with files edited and transactions failing in between, rows are never changed or removed, each new row carries the digest of the text executed, names stay distinct, and every executed text is the canonical text of its file in the directory of the very run that executed it |
| MigrationLaws.NothingTwice | scripts/migrate.ts:301-304 | over every history no name is executed twice, nor one the ledger held at the start |
| MigrationLaws.FixtureRunsOnlyDeclared | scripts/migration-fixture-chains.ts:264-318 | every body executed in fixture mode has a digest that the named chain declares for its name |
| MigrationLaws.ForeignBodyStopsProduction | scripts/migrate.ts:268-299 | after any history, a body executed whose digest is not the canonical file's makes every production run refuse and change nothing |
| MigrationLaws.Resumes | scripts/migrate.ts:301-355 | failing after any number of migrations and running again ends where one uninterrupted run ends |
| MigrationLaws.Converges | scripts/migrate.ts:301-355 | the same after any number of failing runs |
| MigrationLaws.FurtherRunIsNoOp | scripts/migrate.ts:154-157 | after a completed run another one never refuses and applies nothing |
| MigrationLaws.RunSeesCanonicalText | scripts/migrate.ts:44-46 | directories that agree canonically give the same run, refusals and outcome included |
| MigrationLaws.CheckoutChangesNothing | scripts/migrate.ts:29-46 | checking out both directories with CRLF line endings changes nothing about any run |
| MarkerScan.ViewDecides | scripts/migration-census.ts:219-229 | a match that the last chunk completes lies within the carried bytes and that chunk, so searching the view decides |
| MarkerScan.ScanChunk | scripts/migration-census.ts:219-230 | one pass over the shared buffer hits exactly when all that was read contains the pattern, and carries its tail otherwise |
| MarkerScan.ScanForMarker | scripts/migration-census.ts:192-242 | the buffered search over all files equals a search that looks at everything read so far, counters and early exits included |
| MarkerScanLaws.HitsAreReal | scripts/migration-census.ts:192-242 | every hit, of a complete scan or not, names a file whose readable bytes contain the pattern |
| MarkerScanLaws.CompleteScanIsPlainSearch | scripts/migration-census.ts:192-242 | a complete scan under the hit cap names exactly the files of a plain search in order, and files smaller than the budget together are scanned completely |
| MarkerScanLaws.FirstEight | scripts/migration-census.ts:192-242 | a complete scan names the first eight files of the plain search, in order, and any scan eight at most |
| MarkerScanLaws.BudgetDecides | scripts/migration-census.ts:192-242 | where no file holds the pattern, the scan is complete exactly when the budget exceeds the bytes that the reads return, and then counts those bytes |
| MarkerScanLaws.CleanWhereRead | scripts/migration-census.ts:192-242 | complete without hits, no file that opened and was read to its end holds the pattern |
| MarkerScanLaws.AlikeScans | scripts/migration-census.ts:192-242 | files that differ only in what no read returned give the same scan |
| MarkerScanLaws.CleanScan | scripts/migration-census.ts:192-242 | complete without hits, the pattern is absent from all files that look alike to the scan exactly when every file opened and was read to its end |
| MarkerScanLaws.UnopenedFileIsSilent | scripts/migration-census.ts:209-214 | an unopened file holding the pattern leaves the scan complete and without hits |
| MarkerScanLaws.FailedReadIsSilent | scripts/migration-census.ts:232-234 | so does a read that throws |
| Census.ScanAll | scripts/migration-census.ts:363-373 | one scan for each needle, merged in order |
| CensusLaws.MergedCounts | scripts/migration-census.ts:363-373 | the merged scan is complete exactly when every needle's is, and its counts are the sums of theirs |
| CensusLaws.MergedHits | scripts/migration-census.ts:363-373 | its hits are exactly those of each scan, under that scan's needle |
| Census.InspectDataDirectory | scripts/migration-census.ts:361-394 | presence, readability and the three scans, which are incomplete when there is no version file |
| Census.YesHasCause | scripts/migration-census.ts:405-466 | a verdict that the migration is in a cluster means that it is present and one of its files really contains a marker |
| CensusLaws.VerdictMeans | scripts/migration-census.ts:405-466 | from the cluster and its scans: absent is no; present without a version file is indeterminate; else yes exactly when some marker was hit, complete or not, no exactly when all scans are complete without a hit, and indeterminate otherwise |
| CensusLaws.AssessMeans | scripts/migration-census.ts:741-925 | established, refuted and undetermined each exactly on its own conditions, and the unattributed names listed are exactly those no pattern declares |
| CensusLaws.FindingMeans | scripts/migration-census.ts:1870-1981 | how one cluster enters the census: its persistence from the assessment, its verdict from the inspection |
| Census.EstablishedMeans | scripts/migration-census.ts:741-925 | disposability is established exactly when provenance, reachability, own traces, a reconciled inventory, no name depended upon and one content proof all hold |
| Census.PositionIsWorst | scripts/migration-census.ts:2264-2336 | the position is the worst rank of any environment, in the order edit, incomplete, blocked, freeze |
| CensusLaws.PositionMeans | scripts/migration-census.ts:2264-2336 | each of the four positions exactly, from the findings alone |
| CensusLaws.SummaryLists | scripts/migration-census.ts:2264-2336 | who is on each of the summary's four lists |
| Census.SummaryOfBoth | scripts/migration-census.ts:2264-2336 | two censuses together stand where the worse of them stands |
| Census.SummaryUnordered | scripts/migration-census.ts:2264-2336 | the order of the findings does not matter |
| Census.EditMeans | scripts/migration-census.ts:2264-2336 | editing in place is the position exactly of a complete census that found the migration nowhere it counts |
| Census.NoVerdictShows | scripts/migration-census.ts:405-466 | a verdict that the migration is not in a present cluster is the same for all files that look alike, and shows every marker absent exactly when every file was read |
| Census.EditIsSafe | scripts/migration-census.ts:1870-1981 | from files to position: when editing is permitted, each host cluster is disposable on its evidence, or absent, or completely scanned with no marker in any file that could be read; which shows more exactly when all could be |
| CensusLaws.HitFreezes | scripts/migration-census.ts:1870-1981 | a marker hit in a cluster that is not disposable freezes the migration, even one found before the budget ran out |
| CensusLaws.VanishedDoesNotBlock | scripts/migration-census.ts:405-430 | a directory that had vanished is a no and never blocks |
| ClusterNames.RecoverNames | scripts/migration-census.ts:688-701 | the loop finds exactly the acceptable names that are whole runs of printable bytes |
| ClusterNames.NamedMeans | scripts/migration-census.ts:688-701 | byte by byte: a maximal run of bytes from 33 to 126, of length 3 to 63, of lower-case letters, digits, underscores and dollar signs, not beginning with a digit or a dollar sign |
| ClusterNames.ReconciledMeans | scripts/migration-census.ts:702-709 | the count reconciles exactly when the names missed are no more than the stray ones; without strays, exactly when none was missed |
| ClusterNames.ReconciledShows | scripts/migration-census.ts:702-709 | a count that reconciles shows all databases to be named exactly when there are none |
| ClusterNames.StrayNameHidesDatabase | scripts/migration-census.ts:640-649 | a heap whose stray name reconciles the count, so that a cluster with a database depended upon is judged disposable |
| ZipReader.FindEndOfCentralDirectory | scripts/docx-text.ts:40-46 | the backward search finds the last place that carries the signature with room for a whole record, or there is none |
| ZipReader.ReadZipEntry | scripts/docx-text.ts:48-80 | the result is that of walking the directory the found end record points at, every read in bounds or an error |
| ZipReader.LocalMeans | scripts/docx-text.ts:65-76 | what becomes of an entry found, byte by byte: signature, header, method, data as far as there are any, and each error exactly |
| ZipRoundTrip.OwnEndFound | scripts/docx-text.ts:40-46 | the search stops at an archive's own end record exactly when its signature occurs at no later place in record and comment |
| ZipRoundTrip.NoCommentNoTrouble | scripts/docx-text.ts:40-46 | which always holds without a comment |
| ZipRoundTrip.StraddlingSignature | scripts/docx-text.ts:40-46 | a comment free of the signature for which it fails |
| ZipRoundTrip.ReadsBack | scripts/docx-text.ts:48-80 | for every archive within field widths, whatever its prefix, extra fields and comments, walking the directory gives the first entry of the wanted name |
| ZipRoundTrip.ReadBack | scripts/docx-text.ts:48-80 | the reader inverts the writer, the not-found and unsupported-method errors included |
| XmlRoundTrip.DecodeInvertsEscape | scripts/docx-text.ts:82-91 | for every text, escaping the five characters and decoding in seven passes gives the text back |
| XmlEntities.HexPassDecodes | scripts/docx-text.ts:88-88 | the hexadecimal pass decodes its own references, to code points beyond the basic plane as well, and touches no other |
| XmlEntities.ReferenceMeans | scripts/docx-text.ts:88-89 | a text begins with a reference exactly when it is the opening, at least one digit of its base, and a semicolon |
| XmlEntities.PassReads | scripts/docx-text.ts:88-89 | on every text a pass decodes such a reference and keeps a character that begins none |
| XmlEntities.DigitMeans | scripts/docx-text.ts:88-88 | the hexadecimal digits and their values, in either case |
| XmlRoundTrip.LastPasses | scripts/docx-text.ts:89-90 | the decimal and the last pass give the text back exactly when neither reads an ampersand on; otherwise they throw or give a shorter text |
| XmlRoundTrip.DecodeInverts | scripts/docx-text.ts:82-91 | for any mixture of plain, named, decimal and hexadecimal spellings, numeric ones of any code point, the seven passes give the text back exactly when no numeric ampersand is followed by `amp;` and no hexadecimal one by `#`, digits and `;` of which none is in decimal |
| XmlRoundTrip.NumericAmpersandDecodesTwice | scripts/docx-text.ts:88-90 | a decimal ampersand that the last pass reads on |
| XmlRoundTrip.HexAmpersandReadTwice | scripts/docx-text.ts:88-90 | a hexadecimal one that the last pass reads on, and one that the decimal pass does |
| FigureSpansLaws.ParseShows | scripts/check-published-figures.ts:868-868 | the global pattern divides every text into spans and single characters without loss |
| FigureLaws.SpanMeans | scripts/check-published-figures.ts:868-868 | a text begins with a span exactly when it is written so, its name of lower-case letters, digits and underscores, up to the first closing marker |
| FigureSpansLaws.RewrittenReads | scripts/check-published-figures.ts:1098-1108 | the rewritten text reads as the same literals and markers in the same order, span bodies alone replaced |
| FigureLaws.SpanRewritten | scripts/check-published-figures.ts:1098-1108 | what stands in place of one span: itself when quoted, historical or without a value; what the platform prints for digits shown with a comma; else the value |
| FigureLaws.OthersKept | scripts/check-published-figures.ts:1098-1108 | and a character that begins no span is kept |
| FigureLaws.NormalizeDrops | scripts/check-published-figures.ts:874-874 | the comparison drops commas, white space, asterisks, underscores and backticks wherever they stand, and nothing else |
| FigureSpansLaws.RewriteSatisfiesChecker | scripts/check-published-figures.ts:1098-1108 | each span then agrees with its source exactly unless it was rendered as a grouped number that the platform does not print back |
| FigureSpansLaws.RewriteIsFixpoint | scripts/check-published-figures.ts:1098-1108 | a second rewrite changes nothing exactly when no span with separators is printed in other digits without any |
| FigureSpansLaws.ShortPrintsBack | scripts/check-published-figures.ts:1104-1106 | a value of fifteen digits at most is printed back exactly when it has no leading zeros |
| FigureSpansLaws.ShortRestless | scripts/check-published-figures.ts:1104-1106 | and changes again exactly when it has leading zeros and three digits at most behind them |
| FigureSpansLaws.LeadingZerosBreak | scripts/check-published-figures.ts:1104-1106 | a value with leading zeros for which both fail |
| FigureSpansLaws.RoundingBreaks | scripts/check-published-figures.ts:1104-1106 | a value above 2^53 without leading zeros that fails the check |
| FigureChecker.MaskHistorical | scripts/check-published-figures.ts:880-892 | the loop, which searches the text it has already blanked, terminates and blanks exactly the marked blocks of the original |
| FigureChecker.MaskExempt | scripts/check-published-figures.ts:880-898 | then the quoted figures of what is left, with both counts |
| FigureChecker.MaskingPreservesOffsets | scripts/check-published-figures.ts:876-898 | the mask keeps length and offsets and changes only characters inside marked blocks |
| FigureLaws.HistoricalMasked | scripts/check-published-figures.ts:880-892 | in a text with one historical block that block alone is blanked, markers included |
| FigureLaws.QuotedMasked | scripts/check-published-figures.ts:893-896 | and likewise one quoted figure |
| FigureChecker.FigureProblems | scripts/check-published-figures.ts:931-1051 | the problems reported are exactly: a span of any document whose name is not registered; a span or restatement whose normal form is not that of its source's value; a figure without a source shown in two normal forms; and a missing label |
| FigureChecker.RewrittenSpansMatch | scripts/check-published-figures.ts:955-977 | the spans of a rewritten document all match exactly when none of the document is rendered as a number that the platform does not print back |
| MarkedRegions.RegionsAreBlocks | scripts/check-published-figures.ts:883-891 | regions begin and end with real markers and follow one another without overlap |
| MarkedRegions.NoBlockAfter | scripts/check-published-figures.ts:883-891 | after the last region no opening marker is followed by a closing one |
| RoleBindings.NegatedByEnclosingGroup | scripts/check-role-binding-effectiveness.ts:403-414 | the backward depth count answers whether some parenthesis on a forward parser's stack is introduced by NOT, unmatched closing parentheses included |
| RoleBindings.EndsInNotMeans | scripts/check-role-binding-effectiveness.ts:410-410 | a text ends in `NOT` exactly when that word, in any case and after no letter, digit or underscore, is followed by white space alone |
| RoleBindings.WindowAgrees | scripts/check-role-binding-effectiveness.ts:410-410 | the 40-character test agrees with an unbounded one exactly outside two gaps of 37 and of 38 or more spaces |
| RoleBindingText.WholeScanAgrees | scripts/check-role-binding-effectiveness.ts:403-414 | the whole scan misses a negation, or makes one up, exactly when the enclosing parentheses that would decide stand at those gaps |
| RoleBindingText.FarNotIsMissed | scripts/check-role-binding-effectiveness.ts:410-410 | a negation missed at 38 spaces |
| RoleBindings.PlaceGuards | scripts/check-role-binding-effectiveness.ts:511-526 | for given positions, the binding loop counts the reads that own no filtering use |
| RoleBindingText.FilteringUses | scripts/check-role-binding-effectiveness.ts:504-510 | the search loop finds every occurrence of the mark, and those outside every SELECT list are the filtering ones |
| RoleBindingText.PlaceGuardsIn | scripts/check-role-binding-effectiveness.ts:502-527 | over a text and its reads, none is unguarded exactly when each interval holds the mark outside every SELECT list |
| RoleBindings.GuardedIffHit | scripts/check-role-binding-effectiveness.ts:511-526 | no read is unguarded exactly when every interval between reads, the first extended to the start, holds a use |
| RoleBindings.UsesPayOnce | scripts/check-role-binding-effectiveness.ts:511-526 | reads are never more than uses and unguarded reads together |
| RoleBindings.OneMoreUse | scripts/check-role-binding-effectiveness.ts:511-526 | a further use guards its own interval's read and no other |
| RoleBindings.ProjectionRanges | scripts/check-role-binding-effectiveness.ts:466-475 | a position is in a range exactly when it stands in some SELECT list that has a FROM |
| SqlScan.NextMention | scripts/check-owned-mutations.ts:627-632 | the match loop over the column's name steps over no mention |
| SqlScanLaws.MentionMeans | scripts/check-owned-mutations.ts:627-632 | a mention is the column's name in any case, between characters of no word |
| SqlScanLaws.LowerMeans | scripts/check-owned-mutations.ts:639-639 | lower case, letter for letter |
| SqlScanLaws.QualifiedMeans | scripts/check-owned-mutations.ts:609-609 | it tests as qualified exactly when a full stop precedes it, white space aside |
| SqlScanLaws.DoMeans | scripts/check-owned-mutations.ts:622-622 | a DO block on the positions of the text, up to the first `$$` after its opening one |
| SqlScanLaws.ArrayMeans | scripts/check-owned-mutations.ts:635-635 | an array literal, up to its first closing bracket |
| SqlScanLaws.QuotedMeans | scripts/check-owned-mutations.ts:638-639 | a quoted name captures exactly the identifier between its quotes, in lower case |
| SqlScanLaws.DeclarationMeans | scripts/check-owned-mutations.ts:423-424 | a declaration captures the identifier after CREATE TABLE or ALTER TABLE, past IF NOT EXISTS when a name follows that |
| SqlScanLaws.InsertMeans | scripts/check-owned-mutations.ts:438-438 | an INSERT captures the identifier before its column list, which ends at the first closing parenthesis |
| OwnedTables.ReadBlocks | scripts/check-owned-mutations.ts:617-649 | the first pass yields every versioning block's quoted names or a failure, and the text with every block blanked in place |
| OwnedTables.ReadLists | scripts/check-owned-mutations.ts:656-666 | the map holds exactly the mentions inside INSERT column lists, each with its own INSERT's table |
| OwnedTables.ReadMentions | scripts/check-owned-mutations.ts:667-687 | each remaining mention is skipped as qualified, attributed, or reported |
| OwnedTables.OwnedTables | scripts/check-owned-mutations.ts:611-689 | over all migrations the tables and the failures are those of each file, none dropped |
| OwnedTablesLaws.AttributionMeans | scripts/check-owned-mutations.ts:667-687 | a mention belongs to the one INSERT whose list holds it, else to the nearest preceding declaration, else to none, which is only when none precedes |
| OwnedTablesLaws.TablesExact | scripts/check-owned-mutations.ts:611-689 | a table is owned exactly when a block with a counted mention names it or a counted mention is attributed to it |
| OwnedNames.BlockNamesMean | scripts/check-owned-mutations.ts:633-641 | a block names a table exactly when the name, in any case, stands quoted between the brackets of one of its array literals, and its first quote closes no other such name |
| OwnedNames.OwnedExactly | scripts/check-owned-mutations.ts:611-689 | so a table is owned exactly when a versioning block so names it or a counted mention is attributed to it |
| OwnedTablesLaws.NoFailures | scripts/check-owned-mutations.ts:611-689 | no failure exactly when every block with a counted mention names a table and every other counted mention has an owner |
| OwnedTablesLaws.MentionSurvives | scripts/check-owned-mutations.ts:619-649 | blanking keeps every offset and every mention outside the blocks |
| OwnedTablesLaws.QualifiedThroughMask | scripts/check-owned-mutations.ts:609-649 | outside the blocks a mention reads as qualified after blanking exactly when it did before, or a block stands between it and a full stop |
| QualifiedReads.PassedOverMeans | scripts/check-owned-mutations.ts:592-609 | a mention is passed over exactly when it is a qualified read, follows a full stop of a comment or after no name, or is separated from a full stop by a DO block |
| QualifiedReads.StopInComment | scripts/check-owned-mutations.ts:609-609 | after a line comment, in code or in a literal, that ends in a full stop nothing is a qualified read and everything is taken for one |
| QualifiedReads.NeverNarrows | scripts/check-owned-mutations.ts:586-607 | without failures every mention that is no qualified read is accounted for by a block or an owner, except exactly those after a stray full stop or such a block |
| QualifiedReads.CommentHides | scripts/check-owned-mutations.ts:586-609 | in every text, a mention under such a comment is no qualified read and is passed over |
| QualifiedReads.CommentHidesColumn | scripts/check-owned-mutations.ts:586-609 | a column under a comment that ends in a full stop yields neither table nor failure |
| QualifiedReads.CommentHidesDynamicColumn | scripts/check-owned-mutations.ts:586-609 | nor does one in dynamic SQL |
| OwnedTablesLaws.ShadowedIsSkipped | scripts/check-owned-mutations.ts:586-607 | nor does one after a DO block that follows a full stop |
| DeclaredTables.CapturedIsTable | scripts/check-owned-mutations.ts:423-424 | the captured word is the statement's table exactly when it has no IF EXISTS, no ONLY and no schema; otherwise it is `if`, `only` or the schema's name |
| DeclaredTables.OnlyIsOwned | scripts/check-owned-mutations.ts:611-689 | an addition for which the one table owned is `only`, without a failure |
| MutationRunner.AnchorProblems | scripts/mutation-kill.ts:1830-1851 | each problem reported is one that some mutation has, all are reported, and there is none exactly when every anchor counts once, changes something, and its test is declared |
| MutationRunner.Baseline | scripts/mutation-kill.ts:2024-2028 | a baseline, cached or fresh, is the run on the pristine tree, and only a green one is kept |
| MutationRunner.RunOne | scripts/mutation-kill.ts:1999-2046 | the copy is restored, the cache stays sound, and the verdict is the one the pristine tree alone determines |
| MutationRunner.RunMutations | scripts/mutation-kill.ts:1984-2117 | nothing runs unless every anchor is right; otherwise each verdict is that of the pristine tree whatever ran before, and the published counts are those of the verdicts |
| MutationRunner.JoinUndoesSplit | scripts/mutation-kill.ts:2033-2033 | splitting at an anchor and joining with it gives the text back |
| MutationRunner.KilledMeans | scripts/mutation-kill.ts:2024-2046 | a kill means exactly: green on the pristine tree, and failing the named test on the tree with one occurrence of the anchor replaced; not green is inconclusive and the rest survived |
| MutationRunner.VerdictMeans | scripts/mutation-kill.ts:2045-2054 | each verdict from what was observed |
| MutationRunner.OnlyTheEdit | scripts/mutation-kill.ts:2031-2034 | that replacement is the only difference exactly when the file has no CRLF |
| MutationRunner.EditChangesMore | scripts/mutation-kill.ts:2031-2034 | an input on which it is not |
| MutationRunner.CountedOnceOccursOnce | scripts/mutation-kill.ts:1839-1841 | an anchor counted once occurs once exactly when no occurrence overlaps the first |
| MutationRunner.OverlapCountsOnce | scripts/mutation-kill.ts:1839-1841 | an input on which it occurs twice |
| MutationRunner.NoSurvivors | scripts/mutation-kill.ts:2045-2046 | no survivor is counted exactly when every verdict is a kill |
| CommitBudget.DeclarationProblems | scripts/check-final-state.ts:851-884 | no problem exactly when the record declares its own commit, with a reason, as the paths that HEAD changes have it; each problem reported is real and each real one reported |
| CommitBudget.RangeProblems | scripts/check-final-state.ts:938-991 | no problem exactly when the list is git's range, where there is a history, and the figure is the one that branch expects; the commits named missing or invented are exactly those |
| CommitBudget.AheadProblems | scripts/check-final-state.ts:1019-1041 | no problem exactly when the list is what git holds above the evidence commit, the head alone excepted; and likewise for the commits named |
| CommitBudget.BudgetProblems | scripts/check-final-state.ts:1058-1083 | and the problems in all are exactly these, failed runs, verdict and disclosure |
| CommitBudget.FailedMeans | scripts/check-final-state.ts:1058-1062 | the failed runs: code-bearing commits of the range whose run did not succeed, and of those on top whose recorded run did not |
| CommitBudget.DocumentationMeans | scripts/check-final-state.ts:851-852 | documentation is what lies under `docs/` and a Markdown file at the root, and nothing else |
| CommitBudget.FullHistoryCounts | scripts/check-final-state.ts:939-968 | the count from git charges every commit not recorded as documentation, unlisted ones included; never more, and exactly these when no documentation commit is recorded twice |
| CommitBudget.BranchesAgree | scripts/check-final-state.ts:931-991 | with the list equal to git's range, both branches demand the same figure exactly when no commit is listed twice |
| CommitBudget.HistoryIsStricter | scripts/check-final-state.ts:931-991 | a record with distinct commits accepted with the history is accepted without it |
| CommitBudget.AcceptedFigure | scripts/check-final-state.ts:842-1045 | the accepted figure is the number of distinct code-bearing commits since the baseline, the record's own included once |
| CommitBudget.ListedTwice | scripts/check-final-state.ts:965-968 | a record accepted although its figure leaves out a code-bearing commit |
| Withdrawn.MaskWithdrawn | scripts/check-final-state.ts:719-733 | the loop that consumes the rest of the text removes exactly the marked regions and counts them |
| Withdrawn.OneWithdrawal | scripts/check-final-state.ts:719-733 | in a text with one withdrawal that region alone is taken out, markers included |
| Withdrawn.MaskConserves | scripts/check-final-state.ts:719-733 | nothing is lost but those regions |
| Withdrawn.ClaimSurvives | scripts/check-final-state.ts:719-733 | a claim that touches no region is still found in the masked document |

## Left out

- Files, processes, Docker, WSL, the Windows registry, git and PostgreSQL: directories are maps, a transaction is one atomic step that commits or does not, a battery is a function of the tree and of the test file, reads are arbitrary non-empty chunks.
- SHA-256, DEFLATE and UTF-8: the digest (of a statement's key, with its truncation), inflating and decoding are arbitrary functions; nothing is assumed about collisions.
- A transaction whose commit took effect and was nevertheless reported as failed, a crash inside the database, and two runners at once.
- The ledger table's creation and the constraints on its columns; the row order that SQL returns.
- The path comparison that recognises the canonical directory and the loading of the chain allowlist: both are parameters of a run.
- The texts of messages, line numbers and excerpts; problems are values of datatypes. The parsing of target and `RAISE EXCEPTION` from a normalised statement.
- The walk that lists a cluster's files and the order in which it finds them; an empty needle, for which the source's buffer arithmetic has no meaning.
- The parsing of a launch record, listen addresses, durability settings and name patterns in the census; each arrives resolved. Findings about CI, Compose volumes, containers and WSL.
- Census.InspectDataDirectory: leaves out what it only reports: version text, object identifiers, times, port, authentication lines and logs, none of which a verdict reads.
- ZipReader.FindEntry: offsets are unbounded naturals, as the 32-bit fields read never overflow them; ZIP64 is not read by the source either.
- XmlRoundTrip.DecodeInverts: asks only what the platform keeps, that both units of a pair stand outside ASCII and, where an ampersand is written in hexadecimal, that a code point is one or two units; a plain ampersand, which XML does not allow, is no spelling.
- FigureSpansLaws.ShortPrintsBack: what the platform prints is a parameter, of which this asks that it is exact up to fifteen digits; it is so up to 2^53.
- FigureSpansLaws.RewriteSatisfiesChecker: asks that no value contain `<`, which is what makes a rewritten span readable again; values come from counts and digests.
- FigureChecker.FigureProblems: what the restatement rules match in a masked text is a parameter, a list of patterns.
- RoleBindingText.PlaceGuardsIn: the positions of the reads are an input; finding them is a regular expression over rendered SQL. The other weakenings (OR, comparison) are local patterns.
- QualifiedReads.QualifiedRead: what stands in a comment is decided by quotes and comment marks alone, inside dollar bodies as outside; what a literal holds is read for comments as if it were SQL, quotes within it are not, and comments do not nest.
- DeclaredTables.CapturedIsTable: a table named in double quotes is left out, as is an IF NOT EXISTS that no ALTER has.
- StatementKeyLaws.CommentIgnored: asks that the statement begin with a letter and hold no closing mark of its own, and that line breaks be LF or CRLF; that a comment with every `--` so followed is ignored holds without (`LeadIgnored`).
- OwnedTables.OwnedTables: file listing and sorting are left out; the result does not depend on the order. The check of statements against the derived tables walks a syntax tree.
- MutationRunner.RunMutations: a battery that answers differently on the same tree, the making of the copy and the check that it is isolated.
- CommitBudget.BudgetProblems: leaves out the shape of SHAs and run identifiers, recorded subjects, ancestry, the runs' own consistency and the head relation; each is a lookup.
- The JSON form of withdrawals, and the normalisation under which claims are compared.
- Checkers of existence and membership, the Express application, the rendering of SQL from a TypeScript syntax tree.
