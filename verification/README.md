# Verification of the kit's evaluation, acceptance and release scripts

This project models the scripts that decide whether a release of the kit may ship, and proves what those
decisions mean. One module stands for one mechanism:

- `Fisher`: the one-sided exact test on a 2x2 table, with factorials and reals in place of log-gamma.
- `PlaintextScan` (over `Bytes`): the chunked search for secrets with an overlap tail, the tree walk around
  it, and the relay's partial-write loop.
- `BoundedDrain`: the two threads that capture a child's pipes and kill it at the limit, as a state machine
  whose steps may interleave in any order.
- `Observation`: the search for a report through mappings, lists and JSON written inside strings.
- `Acceptance`: prepare, accept by the first provider, accept by the second, verify, with a host that may
  rewrite the project between any two steps.
- `Generators`: the write and check of one generated lane, and their composition over several.
- `EnvMarkers`: the environment-name passes that take provider names out of a text and put them back.
- `Ledger` (over `TierBGrading`): the writer of the component ledger and its summaries, the independent
  recomputation, the older writer of the same rows, and the best-of fold both read.
- `TierBGrading`: batch partition, the classification shared by both graders, and both graders.
- `RuleLoadProof`: clustering of control runs by cache mode, and the verdict on a measured rule.
- `BlindAdjudication` (over `Sets`): the tally fold and the verdict on two blinded arms.
- `ReleaseRetry`, `Checksums` (over `Text`): the retry loop and the digest comparison of a publication; the
  checksum file and the changelog section.
- `HoldoutSeal`: the seal of the holdout suite as a state machine over seal, verify and reseal.
- `Inheritance`: the two resolvers of profile inheritance.
- `Reachability`: the proof that a shipped file is mentioned outside itself.

Code that updates things step by step is a class or a method with loops, proved against functions; the laws
are then lemmas about those functions. Digests are abstract functions, injective where that is stated; floating
tolerances are exact rationals (0.35 is 35/100); anything that comes from outside (a host, a network, a
command, a clock) is an arbitrary input.

## What the proofs found

Where a promise does not hold on all inputs, the project gives the exact condition or a concrete input.

- A generated text holding a carriage return never settles: the reader translates line endings, so the writer
  rewrites the same bytes each time and the check reports the file stale after every write. A carriage return
  can get into the agent lane through a write scope, which is rendered unescaped into the body.
- An acceptance writes its receipt before it looks whether the pipeline is ready for the provider. A failure
  after that point is final: the write-once rule refuses that provider from then on.
- The final verification compares only those history entries that are mappings. That a history with any other
  entry is refused rests on the strict validation it runs first (src/claude_kit/pipeline.py:10935-10936).
- Scenario ids serve as prefixes in the tally, so `r-10` is counted in the bucket of `r-1`.
- A PASS of the blinded comparison loses nothing exactly when the candidate ran every scenario the baseline
  passed. One that only the baseline ran is not counted as broken, and the PASS stands exactly when the
  candidate's lead in its bucket can take one more pass.
- Under a parent that does not exist the memoised resolver raises, and the guarded one yields the child's own
  entries.
- The matched-control verdict depends on the order of collection, exactly when two nearest controls tie, one on
  each side of the arm, and the lower one is in band.
- The two Tier B rankings order INCONCLUSIVE and SUBSTITUTED the opposite way round. They agree on every pair
  of which one is a measurement.
- The ledger's verdict table describes the stored marks exactly when components of one id get one verdict.
  Otherwise the mirrored percentage drifts from them, for up to a thousand required components exactly when
  the table promotes another number of them than it overrules.
- A ledger without required components stops the writer with a division by zero in a print, dry run or not,
  before anything is stored.
- A shipped file is called referenced, beyond what other files mention, exactly when its own text spells its
  name after a line that starts with two angle brackets. A namesake's header line counts as a mention.
- The scan never reports an empty file, not even for an empty secret.

## Model

| member | source | states |
|---|---|---|
| Fisher.SupportSumsToOne | scripts/evals/grade_covenant.py:43-57 | the terms from the bottom to the top of the support are all positive and add up to exactly 1 |
| Fisher.OneSidedIsProbability | scripts/evals/grade_covenant.py:40-57 | the reported value lies in (0, 1] and is 1 exactly when cell a is at the bottom of its support |
| Fisher.OneSidedIsSymmetric | scripts/evals/grade_covenant.py:40-57 | transposing the table, or exchanging both rows and both columns, leaves the value unchanged |
| Fisher.OneMoreHit | scripts/evals/grade_covenant.py:40-57 | with the margins fixed, one more hit in cell a lowers the value by exactly the observed term, which is positive |
| Fisher.OppositeTails | scripts/evals/grade_covenant.py:40-57 | the test and the test with its columns swapped add up to 1 plus the observed term: they share only the observed table |
| Fisher.HypIsProportion | scripts/evals/grade_covenant.py:43-52 | the factorial ratio is the share of placements of the column total that put x hits into the first row |
| Fisher.Vandermonde | scripts/evals/grade_covenant.py:54-57 | the convolution of two binomial rows is the binomial row of their sum |
| PlaintextScan.ScanFile | scripts/protected_host_smoke.py:780-793 | for any chunking of a file, the tail scan reports a leak exactly when the file is not empty and some secret is a contiguous part of the whole file |
| PlaintextScan.FileIsItsBlocks | scripts/protected_host_smoke.py:783-786 | a file is its blocks one after another up to the first empty read |
| PlaintextScan.AssertTreeHasNoPlaintext | scripts/protected_host_smoke.py:771-793 | the walk passes exactly when there is no link and no file leaks, and otherwise reports the first link or leaking file |
| PlaintextScan.TailIsEnough | scripts/protected_host_smoke.py:780-793 | keeping one byte less than the secret's length loses no occurrence that ends in the next chunk |
| PlaintextScan.WriteAll | scripts/protected_host_smoke.py:4333-4339 | success means every byte was written once, in order, in at most as many calls as bytes; failure means a proper prefix was written and the last call made no progress |
| BoundedDrain.AbsorbKeepsPrefix | scripts/protected_host_smoke.py:1457-1461 | a chunk keeps the buffer the first limit + 1 bytes of all that was read, and trips the test exactly when the stream is past the limit |
| BoundedDrain.StepKeepsInvariant | scripts/protected_host_smoke.py:1452-1491 | every single action of either thread, and the timeout, keeps the invariant that ties both buffers, the flag and the kill to the streams |
| BoundedDrain.BuffersArePrefixes | scripts/protected_host_smoke.py:1449-1466 | at every moment of every interleaving each buffer is the capped prefix of what its thread drained, the flag is up only past the limit, and a kill needs the flag or a timeout |
| BoundedDrain.OutcomeIsDeterminate | scripts/protected_host_smoke.py:1485-1502 | every finished run, however interleaved, ends as a timeout when the timeout strikes in it, else as a refusal if a stream is longer than the limit, else with both complete streams |
| BoundedDrain.ExceededIsKilled | scripts/protected_host_smoke.py:1461-1466 | once both threads are done the flag says exactly whether a stream passed the limit, and the child has been killed if it did or if the timeout struck |
| BoundedDrain.DrainTerminates | scripts/protected_host_smoke.py:1452-1466 | a run is at most five steps a byte long and can only stop with both threads finished |
| Observation.FencedBodyIsDecoded | scripts/protected_host_smoke.py:1540-1543 | of a fenced report, with blanks around it, the stripped lines between the first and the last are decoded |
| Observation.OneLineFenceIsEmpty | scripts/protected_host_smoke.py:1540-1543 | of a single line that both opens and closes a fence nothing is decoded |
| Observation.PlainTextIsDecoded | scripts/protected_host_smoke.py:1540-1545 | of a text that does not both open and close with a fence exactly the blanks at its ends are taken off |
| Observation.FindInFence | scripts/protected_host_smoke.py:1539-1548 | a fenced string is searched as what its body decodes to, and gives nothing when the body is no JSON |
| Observation.FieldsAreTheStrings | scripts/protected_host_smoke.py:1521-1522 | the reported fields are exactly the required ones, each with the string the mapping holds under it |
| Observation.FindPrefers | scripts/protected_host_smoke.py:1520-1527 | a qualifying mapping reports itself; otherwise the first preferred key under which something is found decides |
| Observation.FindTakesFirstEntry | scripts/protected_host_smoke.py:1528-1532 | when neither the mapping nor a preferred key gives anything, the first entry that does decides |
| Observation.FindTakesFirstItem | scripts/protected_host_smoke.py:1533-1538 | of a list the first item in which something is found decides |
| Observation.FindIsSound | scripts/protected_host_smoke.py:1519-1549 | a reported observation is the field map of a qualifying mapping that some path through mappings, lists and decoded strings leads to |
| Observation.FindIsComplete | scripts/protected_host_smoke.py:1519-1549 | a qualifying mapping at the end of any path makes the search succeed |
| Observation.FindDecides | scripts/protected_host_smoke.py:1519-1549 | the search is empty exactly when no path leads to a qualifying mapping |
| Acceptance.Fixture.constructor | scripts/protected_host_smoke.py:1209-1217 | after preparation only the first provider is authorised, on the hash of the snapshot as it is |
| Acceptance.Fixture.HostWrites | scripts/protected_host_smoke.py:1767-1778 | a host can change the snapshot and the evidence files and nothing in the control directory |
| Acceptance.Fixture.Accept | scripts/protected_host_smoke.py:3844-3885 | one acceptance takes the state to the step function's: every early exit leaves what was written so far, and the gate commands find the new evidence file, naming the receipt's hash, in place |
| Acceptance.RunKeepsInvariant | scripts/protected_host_smoke.py:3640-3736 | every run keeps: receipts in provider order, each as first written and describing the snapshot it was written on; the second provider is authorised exactly when the first has succeeded, on the snapshot it left |
| Acceptance.AcceptedInOrder | scripts/protected_host_smoke.py:1767-1778 | whatever the host writes in between, the first receipt was written on the prepared snapshot, and the second only after it and on the very bytes the first acceptance left |
| Acceptance.ReceiptsNeverReplaced | scripts/protected_host_smoke.py:1958-1960 | once written, a receipt stays the same through every continuation of the run |
| Acceptance.AcceptanceConditions | scripts/protected_host_smoke.py:3649-3736 | in any run an acceptance succeeds exactly when it is the provider's turn, the snapshot is byte for byte the prepared one or the one the first left, the pipeline on it stands at the provider's gate behind the other's, the host reported just that, and the gate closes and validates over new evidence |
| Acceptance.SecondNeedsFirst | scripts/protected_host_smoke.py:3729-3736 | a successful acceptance by the second provider has an earlier successful one by the first in its run, whose gate commands left the very snapshot it was accepted on |
| Acceptance.FailedAdvanceIsFinal | scripts/protected_host_smoke.py:3824-3840 | an acceptance that fails after its receipt can never be repeated by any later attempt in any run |
| Acceptance.HistoryIsTwoGates | scripts/protected_host_smoke.py:3957-3983 | a verified history begins with code-review and build-green, and is exactly those two once the strict validation refuses entries that are no mappings |
| Acceptance.JunkIsLeftToValidation | scripts/protected_host_smoke.py:3957-3984 | behind a verified history, entries that are no mappings go past the script's own comparison: the verdict is that of the strict validation, so it is a refusal when that refuses them |
| Acceptance.VerifiedRun | scripts/protected_host_smoke.py:3904-4008 | in any run a verification passes exactly when its outside checks do, the project validates, the pipeline is completed through the two ordered gates, and both gates are recorded, in order and with only non-mappings behind them, as passed over evidence that is unchanged, without open findings and bound to the receipt the provider of that turn wrote, each receipt reporting the stage, count, prior provider and gate digest of its turn |
| Acceptance.TamperedEvidenceFails | scripts/protected_host_smoke.py:3986-4008 | a verified state no longer verifies with any other bytes in the evidence file of either gate |
| Acceptance.TamperedReceiptFails | scripts/protected_host_smoke.py:3992-4008 | a verified state no longer verifies with any other bytes in either receipt |
| Acceptance.PriorIsLastEvidence | scripts/protected_host_smoke.py:1781-1803 | the prior provider is nobody exactly for an empty history, and a provider exactly when the latest entry is a mapping whose evidence file is there, below the evidence root, readable and names it |
| Acceptance.HonestRunVerifies | scripts/protected_host_smoke.py:3640-4008 | accepting both providers in either direction, with gate commands that close their gates and leave a valid project, ends in a state that verifies: the conditions of the protocol can be met together |
| Generators.Tree.Check | scripts/gen_canonical_skill_payloads.py:1449-1468 | the diagnostics are exactly the missing, stale, wrongly-moded and unmanaged files and the uncovered inventory entries |
| Generators.Tree.Update | scripts/gen_canonical_skill_payloads.py:1484-1499 | one path gets its text and its mode, each only if it is not current, and reports a change exactly then; all other files stay |
| Generators.Tree.Write | scripts/gen_canonical_skill_payloads.py:1471-1501 | an existing file on the surface that is not generated refuses the lane and leaves it untouched; otherwise exactly the outdated paths are brought up to date and counted |
| Generators.Tree.WriteAll | scripts/gen_provider_payloads.py:275-281 | the lanes are written in order and succeed exactly when none has an unmanaged file at the start; otherwise the first such lane stops the run, and exactly the lanes before it have been written |
| Generators.Tree.CheckAll | scripts/gen_provider_payloads.py:241-248 | the combined diagnostics are those of all lanes, and empty exactly when every lane is clean |
| Generators.WriteSatisfiesCheck | scripts/gen_rule_payloads.py:151-189 | after a write the check is silent exactly when no rendered text holds a carriage return and the inventory is covered |
| Generators.CleanMeansIdle | scripts/gen_template_payloads.py:112-138 | the check is silent exactly when a write would be admitted and find nothing to do, the inventory being covered |
| Generators.IdleWriteChangesNothing | scripts/gen_provider_payloads.py:251-272 | a write of one lane that finds nothing to do changes no text and no mode, and without carriage returns only such a write changes nothing |
| Generators.AllCleanMeansIdle | scripts/gen_provider_payloads.py:241-281 | the combined check is silent exactly when a combined write would be admitted, find nothing to do and find every inventory covered; such a write changes no file, and without carriage returns only such a write changes none |
| Generators.CarriageReturnNeverSettles | scripts/gen_provider_payloads.py:224-272 | a rendered carriage return, as an agent's write scope can bring in at line 150, is outdated after every write, fails the check, and further writes change nothing |
| Generators.WriteAllSatisfiesCheck | scripts/gen_provider_payloads.py:241-281 | with lanes apart, the combined check after the combined write is silent exactly when all rendered texts read back and all inventories are covered |
| Generators.LanesCommute | scripts/gen_provider_payloads.py:275-281 | two lanes that are apart leave the same files in either order |
| Generators.WrittenByKeepsOthers | scripts/gen_provider_payloads.py:275-281 | a path that no lane generates is never created, changed or removed |
| EnvMarkers.MatchIsUnique | scripts/gen_canonical_skill_payloads.py:394-403 | between word boundaries the backtracking pattern can match at a position in one way only, the longest run |
| EnvMarkers.TwoPassesAreOneScan | scripts/gen_canonical_skill_payloads.py:394-403 | the host pass over the output of the kit pass gives what one scan that renders both families at once would |
| EnvMarkers.ProjectedHasNoMarker | scripts/gen_canonical_skill_payloads.py:960-976 | after projection no marker of that family is left, and projecting one family brings up none of the other |
| EnvMarkers.RoundTrip | scripts/gen_canonical_skill_payloads.py:960-976 | neutralising and projecting back returns the text character for character exactly when it held no environment marker |
| EnvMarkers.NeutralizedHoldsNoWord | scripts/gen_canonical_skill_payloads.py:394-403 | whatever the text, the neutralised text holds no word of either family at any position |
| EnvMarkers.KitWordIsReplaced | scripts/gen_canonical_skill_payloads.py:394-398 | a kit word that no word character touches becomes its kit marker, and the text on either side is neutralised by itself |
| EnvMarkers.HostWordIsReplaced | scripts/gen_canonical_skill_payloads.py:399-403 | a host word that is not a kit word becomes its host marker, and the text on either side is neutralised by itself |
| EnvMarkers.PlainTextStays | scripts/gen_canonical_skill_payloads.py:394-403 | a text without a host word, and so without a kit word, is left as it is |
| EnvMarkers.MarkerIsRestored | scripts/gen_canonical_skill_payloads.py:960-976 | a projecting pass turns a marker of its family into the word it was made from, and projects the text on either side by itself |
| Ledger.Derive | scripts/evals/reconcile_dynamic.py:238-252 | the derivation loop marks every component by the rule of its tier, counts the marks, and reports no flip exactly when nothing changed |
| Ledger.TierAMarks | scripts/evals/reconcile_dynamic.py:97-152 | a tier A mark: a fully measured component is marked whatever the artifacts say; any other is decided by the row of its own type, else by its configuration probe, and never marked without either |
| Ledger.TierBMarks | scripts/evals/reconcile_dynamic.py:155-176 | a tier B mark needs an invocation or a naming as the best grade, or, ungraded, a scenario with a passing run |
| Ledger.TierCMarks | scripts/evals/reconcile_dynamic.py:179-185 | a tier C mark needs both a passing static check and a proof of reach |
| Ledger.PercentIsNearest | scripts/evals/reconcile_dynamic.py:330-331 | a percentage is the nearest number of tenths, and the even one of two that are as near |
| Ledger.CountUp | scripts/evals/reconcile_dynamic.py:317-328 | the counting loops give the static, required and by-type figures of the components as the verdict table describes them |
| Ledger.Bump | scripts/evals/reconcile_dynamic.py:322-328 | one more component keeps one row a type, each row counting the components of its type |
| Ledger.Store.WriteSummary | scripts/evals/reconcile_dynamic.py:306-378 | the coverage file and its mirror get the figures of the components and nothing else changes; without a coverage file nothing is written |
| Ledger.Store.Reconcile | scripts/evals/reconcile_dynamic.py:238-282 | a manifest without required components ends in a division by zero with nothing stored; otherwise a dry run stores nothing and an apply stores all marks and their summaries, and when components of one id get one verdict the recomputation from the stored state equals the stored mirror |
| Ledger.TypeRowsAddUp | scripts/evals/reconcile_dynamic.py:321-328 | the by-type counters add up to the total, the static and the dynamic figure |
| Ledger.CheckerAgrees | scripts/evals/meta_check.py:168-184 | when components of one id get one verdict, in particular when ids are unique, the recomputation from the stored manifest finds the mirrored figures, the summary describes the stored marks, and the recomputed rule and hook figures are those of the summary's rows of these types |
| Ledger.TableDescribesMarks | scripts/evals/reconcile_dynamic.py:239-251 | the verdict table keyed by id, from which the summaries are counted, describes every component as its own mark does exactly when components of one id get one verdict |
| Ledger.DuplicateIdsDrift | scripts/evals/meta_check.py:165-182 | in any manifest the mirrored and the recomputed count of required components done are equal exactly when as many of them are promoted by their table entry as overruled; the percentages are equal then, and for up to a thousand required components only then |
| Ledger.DriftIsCounted | scripts/evals/reconcile_dynamic.py:239-266 | for any table, the required count by table exceeds that by stored marks by the promoted components less the overruled |
| Ledger.ReconcileIsIdempotent | scripts/evals/reconcile_dynamic.py:240-252 | a second derivation changes nothing, and what the marks were before never matters |
| Ledger.ReconcileTierB | scripts/evals/tier_b_reconcile.py:82-108 | one mark with nothing behind it refuses the write; otherwise exactly the graded Tier B rows are rewritten |
| Ledger.RegradeRewritesGraded | scripts/evals/tier_b_reconcile.py:82-108 | a graded row gets its grade's outcome, the place it was found and the mark that outcome earns; every other row stays |
| Ledger.WritersCommute | scripts/evals/tier_b_reconcile.py:99-108 | on the same grades the Tier B writer, before or after the derivation, moves no final mark, and after it is never refused |
| Ledger.Collect | scripts/evals/tier_b_reconcile.py:39-60 | the fold keeps for each graded id a grade that no other grade of the id outranks, and stops at an unknown outcome |
| Ledger.BestIgnoresOrder | scripts/evals/tier_b_reconcile.py:45-60 | the outcome kept for an id does not depend on the order of grade files or rows |
| Ledger.RankingsAgreeOnMeasurements | scripts/evals/tier_b_batches.py:376-376 | the two rankings differ on exactly one pair of outcomes, and neither ever prefers a non-measurement to a measurement |
| TierBGrading.Build | scripts/evals/tier_b_batches.py:136-158 | every usable target lands in exactly one batch, in order; all but the last batch are full; no more batches than asked for |
| TierBGrading.PerBatchIsLeast | scripts/evals/tier_b_batches.py:136-136 | a number of batches gets the smallest batch size, at least one, that needs no more batches |
| TierBGrading.Grade | scripts/evals/tier_b_batches.py:300-341 | the loop's verdict rows and unrun list are the conserving ones, and a false-trigger row occurs once for each batch in which its known skill fired without being a target, and never otherwise |
| TierBGrading.OutcomesTold | scripts/evals/tier_b_batches.py:229-267 | the five outcomes partition the sessions by whether the skill fired, the answer and the prompt name it, and another skill fired |
| TierBGrading.OutsidersTold | scripts/evals/tier_b_batches.py:249-255 | outsiders are listed exactly when the target neither fired nor was named |
| TierBGrading.GradingConservesTargets | scripts/evals/tier_b_batches.py:302-328 | every target of every batch, counted with repetition, is graded once or reported unrun once |
| TierBGrading.MissedFigureIsExact | scripts/evals/tier_b_batches.py:343-358 | the MISSED figure printed by subtraction is the number of rows whose outcome is MISSED, false triggers included in the rows |
| TierBGrading.MissedBySubtraction | scripts/evals/tier_b_batches.py:229-267 | for rows that come from the classifier the four other counters never overlap, so the difference counts the rest |
| TierBGrading.BestIsBest | scripts/evals/tier_b_batches.py:443-449 | a skill's verdict is the outcome of one of its admissible runs and no admissible run ranks better |
| TierBGrading.RunsGraded | scripts/evals/tier_b_batches.py:430-440 | a run counts for nothing exactly when the skill is not installed, or did not fire in a session that failed or was blank; any other is classified with the skill as its only target |
| TierBGrading.FirstSpeaksForNone | scripts/evals/tier_b_batches.py:445-447 | without an admissible run the first run speaks |
| TierBGrading.MoreRunsNeverWorsen | scripts/evals/tier_b_batches.py:443-449 | adding runs, wherever they fall in the order, never worsens a graded verdict |
| TierBGrading.MissedMeansAllSilent | scripts/evals/tier_b_batches.py:425-449 | a skill is MISSED exactly when it has an admissible run and every admissible run exited cleanly, answered, fired no skill and did not name it |
| RuleLoadProof.ClusterModes | scripts/evals/rule_load_proof.py:179-186 | the single pass over the sorted controls yields exactly the connected components of the same-mode relation |
| RuleLoadProof.ClusterSpread | scripts/evals/rule_load_proof.py:86-88 | m members of one cluster from x to y satisfy 65^(m-1) y <= 100^(m-1) x |
| RuleLoadProof.JudgeIsMatched | scripts/evals/rule_load_proof.py:236-303 | with or without the cross-wave option, a verdict names a control of the mode that may be compared, than which none is nearer, and is PROVEN exactly in band; UNPAIRED and AMBIGUOUS mean exactly that no control qualifies |
| RuleLoadProof.QuotientForms | scripts/evals/rule_load_proof.py:86-303 | one mode means a difference of at most 35% of the larger value, and in band means that the bytes for each extra token lie between both ends |
| RuleLoadProof.WavesTold | scripts/evals/rule_load_proof.py:103-110 | one wave means two launch stamps within three minutes |
| RuleLoadProof.ForeignWavesAreIgnored | scripts/evals/rule_load_proof.py:236-242 | without the cross-wave option controls of other waves never change a verdict, and the option makes no difference once they are gone |
| RuleLoadProof.OrderMattersOnlyOnTies | scripts/evals/rule_load_proof.py:298-303 | some order of the controls proves and another fails the arm exactly when two nearest controls tie across it and the lower is in band |
| BlindAdjudication.ScoreArm | scripts/evals/blind_ab.py:224-243 | the fold's tallies count, for each bucket, the items whose first matching prefix belongs to it and those that passed |
| BlindAdjudication.PassIsGenuineGain | scripts/evals/blind_ab.py:394-418 | for any two arms, a PASS over a candidate that ran all the baseline passed means exactly: nothing the baseline passed is lost, something in the gain bucket is newly passed, and the hold bucket is whole |
| BlindAdjudication.PassLosesTheUnrun | scripts/evals/blind_ab.py:407-418 | a PASS loses nothing exactly when the candidate ran every scenario the baseline passed; all that it loses is what it did not run |
| BlindAdjudication.ListsAreDifferences | scripts/evals/blind_ab.py:407-416 | newly caught is what the candidate passes and the baseline did not, newly broken what both ran and only the baseline passed |
| BlindAdjudication.SwappedSealFails | scripts/evals/blind_ab.py:394-418 | exchanging the arms of a PASS always gives FAIL |
| BlindAdjudication.DroppedScenarioEscapes | scripts/evals/blind_ab.py:400-418 | a further scenario that only the baseline ran and passed leaves a PASS standing exactly when the candidate's lead in its bucket can take one more pass |
| BlindAdjudication.OwnBucketUnlessShadowed | scripts/evals/blind_ab.py:233-238 | an id used as a prefix counts in its own bucket exactly when the first id it starts with is of its kind |
| ReleaseRetry.OpenJson | scripts/release_preflight.py:182-232 | the reply is decided by the first attempt that is not to be retried; when all are retried it is "missing" only for a final 404 with retries on 404; calls and sleeps are exact |
| ReleaseRetry.RetriesAreBounded | scripts/release_preflight.py:222-223 | the sleeps of a run add up to at most four seconds between two allowed calls |
| ReleaseRetry.SleepSchedule | scripts/release_preflight.py:222-223 | the waits are one second, then two, then four each time |
| ReleaseRetry.ResponsesTold | scripts/release_preflight.py:196-221 | which responses are tried again, and what each of the others makes of the request |
| ReleaseRetry.RemoteDigests | scripts/release_preflight.py:256-263 | the map holds, for each named file, the digest of its last well-formed item |
| ReleaseRetry.PypiStatus | scripts/release_preflight.py:273-285 | "missing" comes only from a 404 and "identical" only from a document whose map is the local one, and both are given then |
| ReleaseRetry.RemoteIsUnique | scripts/release_preflight.py:254-270 | a document determines one map, so comparing with the local map is comparing the publications |
| Checksums.ReadSums | scripts/release_preflight.py:95-106 | the reader accepts exactly the texts all of whose lines have the form, later lines of a name winning, and otherwise names an offending line |
| Checksums.LineForms | scripts/release_preflight.py:101-104 | a line is accepted exactly when it is a digest, two blanks and a name without a slash |
| Checksums.RecordedNames | scripts/release_preflight.py:99-106 | a name is recorded exactly when some line holds it |
| Checksums.LastLineCounts | scripts/release_preflight.py:99-106 | of several lines for one name the digest of the last is recorded |
| Checksums.ManifestRoundTrip | scripts/release_preflight.py:86-106 | reading back what was written recovers the name-to-digest map exactly when every name is non-empty and free of slashes and line breaks |
| Checksums.VerifySums | scripts/release_preflight.py:109-121 | the names are complained of exactly when they differ, a file exactly when its recorded digest is another, and nothing exactly when the recorded map is the map of the current files |
| Checksums.SectionRoundTrip | scripts/release_preflight.py:71-83 | from a changelog composed of earlier text, heading, body and later sections, extraction gives back the stripped body, and an error exactly for a blank one |
| Checksums.HeadingForms | scripts/release_preflight.py:74-74 | a heading is the bracketed version alone, or followed by a blank or tab and anything |
| Checksums.NoHeadingNoSection | scripts/release_preflight.py:75-77 | a version has no section exactly when no line is its heading |
| HoldoutSeal.SealFile.Invoke | scripts/evals/holdout_seal.py:37-97 | one invocation, whichever branch it takes, leaves the document and the exit code of the step function |
| HoldoutSeal.HistoryIsComplete | scripts/evals/holdout_seal.py:75-97 | in every run, the recorded history followed by the current hash lists all hashes ever sealed, in order |
| HoldoutSeal.OnlyReasonedResealChanges | scripts/evals/holdout_seal.py:61-84 | an existing seal changes exactly on a reseal with a reason, its record only grows, and a failing command changes nothing |
| HoldoutSeal.SealHolds | scripts/evals/holdout_seal.py:40-73 | without a reasoned reseal a seal stays as it is through any number of commands and suite edits |
| HoldoutSeal.VerifiedSuitesAreEqual | scripts/evals/holdout_seal.py:40-59 | two successful verifications with no reasoned reseal between them saw the same suite bytes |
| HoldoutSeal.SupersededWithReason | scripts/evals/holdout_seal.py:71-82 | every superseded seal on record names a reason |
| Inheritance.Resolver.Resolve | scripts/check_docs_consistency.py:193-208 | a query through the shared cache answers with the gates along the whole chain, never overwrites an entry, succeeds whenever the chain ends within the depth, and raises for a missing profile only off a broken chain |
| Inheritance.Resolver.ResolveAll | scripts/check_docs_consistency.py:193-208 | in any query order the memoised answers are those of the guarded recursion, and all succeed exactly when every chain ends |
| Inheritance.GroundedIsEffective | scripts/evals/static_eval.py:1849-1861 | on a chain that ends, the guarded recursion collects the gates along the whole chain |
| Inheritance.EffectiveIsDeclared | scripts/evals/static_eval.py:1849-1861 | on any graph of lists, cyclic or broken, the guarded recursion holds an entry exactly when the profile or some ancestor declares it |
| Inheritance.AlongIsDeclared | scripts/check_docs_consistency.py:201-206 | an entry counts along a chain exactly when the profile or some ancestor declares it, a string declaring its characters |
| Inheritance.TextStandsAlone | scripts/evals/static_eval.py:1856-1858 | in the guarded recursion a string stands for itself, or for the universe when it says all, whatever its parent holds |
| Inheritance.GroundedWithinSize | scripts/check_docs_consistency.py:196-206 | a chain ends at all exactly when it ends within as many steps as there are profiles |
| Inheritance.DanglingParentSplits | scripts/check_docs_consistency.py:201-204 | under a missing parent no depth lets the memoised resolver answer, and the guarded recursion gives the child's own entries |
| Inheritance.ParentInsideChild | scripts/evals/static_eval.py:1849-1861 | a list-valued child holds all its parent's gates, on cyclic and broken graphs too |
| Reachability.OccursInCorpus | scripts/evals/tier_c_reach.py:201-209 | the joined corpus mentions a name exactly when a section's header or text does |
| Reachability.ReferencedExactly | scripts/evals/tier_c_reach.py:285-293 | for every corpus and every shipped file, the verdict is positive exactly when another section mentions the name, in text or header, or the own text does from its first line starting with two angle brackets on |
| Reachability.ReferencedMeansMentioned | scripts/evals/tier_c_reach.py:285-293 | for a file whose name does not survive in its own text behind such a line, the verdict is exactly that another section mentions it, wherever its header may be quoted |
| Reachability.NamesakeProves | scripts/evals/tier_c_reach.py:285-293 | another file of the same name proves a file whatever its text says |
| Reachability.UnlistedMeansMentioned | scripts/evals/tier_c_reach.py:287-293 | for a path without a section of its own the verdict is exactly that some section mentions the name, or that the name is empty |
| Reachability.AngledTextProvesItself | scripts/evals/tier_c_reach.py:289-293 | a name that stands in the own text behind a line starting with two angle brackets proves the file, wherever its section stands and whatever the others say |

## Left out

- Digests and commitments: SHA-256 and HMAC are an abstract injective function, and `Acceptance` lets the values stand for commitments to them.
- `Acceptance`: the checks of hook events, commitments of static fields and unchanged project files are booleans from outside; the managed Codex proof at the end of verification is not modelled.
- `Acceptance`: the strict validation is any function of the snapshot and the evidence; `RefusesJunk` states the one thing that is used of it, and only where a result names it. The gate commands are any function of what they find, except in `HonestRunVerifies`.
- `BoundedDrain`: writing the child's input and its return code; the kill is one action, after which the child may stop at any byte.
- Acceptance.Fixture.HostWrites: the host's write is one atomic step; a write in the middle of an acceptance is only modelled at the gate commands.
- `Observation`: the JSON decoder is any function whose decoded strings are shorter than its text (quotes included), and Python's recursion limit is not modelled.
- `Generators`: parent directories, symbolic links and the concrete globs; a lane's surface is any predicate on paths, and that the lanes are apart is an assumption on them. `CarriageReturnNeverSettles` takes line-ending translation from universal-newline reading on a system that writes line feeds as they are.
- `EnvMarkers`: the other replacements of the same passes lose letter case, so only the two environment passes are modelled; word characters other than capital letters, digits and underscore are an arbitrary classifier.
- `Ledger`: explanatory texts, timestamps, superseded keys and printed statistics; a missing trial count or requirement is taken as its default of 0 or 1 before the model starts; percentages are in exact tenths, rounded half to even.
- Ledger.CheckerAgrees: the task and finding figures come from other files, which no modelled script writes.
- Ledger.DuplicateIdsDrift: beyond a thousand required components counts that differ can round to one percentage (1 and 2 of 100000 are both 0.0), so there the iff is on the counts only.
- `TierBGrading`: the order of false triggers within a batch follows a set's iteration order and is left open; label resolution, prompts and decoys.
- `RuleLoadProof`: the noise statistic of a cluster, which only decides a printed line; the candidate list printed for AMBIGUOUS arms.
- Inheritance.Resolver.Resolve: the interpreter's recursion limit is a depth parameter; profiles whose gate list is the word for all gates are resolved as in the source but compared with the guarded recursion only where lists are used.
- `Reachability`: names of shipped files hold no line feed; the sections are in file-system order, taken as given; the `installed`, `resolved` and `imported` methods are membership tests.
- `ReleaseRetry`: request headers, time limits and the binary download loop, which repeats the same retry pattern.
- Single-branch content checks, the row override of the configuration probe, the waiver walk of the meta checker and the gate-order and arc classifiers of the static evaluator.
