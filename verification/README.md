# Codemem verification

A Dafny model of the parts of codemem that decide what is believed, what is stored once, and what may
happen in which order. `dafny verify dfyconfig.toml` checks the whole project.

- **Attribution assessments** (`Attribution*.dfy`, `Identifiers.dfy`, `Timestamps.dfy`, `TimestampForms.dfy`).
  Attempts, exposures and outcome evidence are finite records in an abstract database. `Canonical` follows the
  gates in source order; randomized contrasts have a declarative meaning (`ResolvesTo`, `MatchedTo`) and the grouping and
  matching loops are proved against it. `AttributionMeaning.dfy`, `AttributionGates.dfy` and
  `AttributionVerdict.dfy` say every gate once more in the columns of the stored rows and prove that `Canonical`
  accepts exactly what opens them all. `AttributionDesign.dfy` works out the experiment the causal gate was
  designed for. `AssessmentStore` writes a row once and every read admits it again.
- **Automatic recall ledger** (`AutomaticRecall.dfy`, `RecallLedger.dfy`, `FlatJson.dfy`). The stored JSON texts,
  the write-once step on the attempts table, and the health totals.
- **Owner evidence** (`OwnerEvidence.dfy`). Create-only files shared by concurrent publishers and readers; every
  file access is one step, any access may fail, and outsiders may create files.
- **Peer addresses** (`PeerAddresses.dfy`). First-occurrence merges and the slot budget of coordinator presence.
- **Controllers** (`Backfill.dfy`, `ObserverRuntime.dfy`, `BindingPin.dfy`). Code between awaits is one step of a
  transition system; a class with the source's variables is proved to take exactly those steps.
- **Encodings and a cache** (`Base64.dfy`, `SshKeys.dfy`, `SignedRequests.dfy`, `ShellQuoting.dfy`,
  `SeenNotices.dfy`). Key text and wire form, the signed canonical text, shell quoting read back by a POSIX
  tokenizer, and the bounded memory of shown notices.

`Collections.dfy` and `Text.dfy` hold the few shared list and string facts.

Four results say where the code stops short of what it appears to promise, each with its exact condition:

- An assessment whose creation instant, in UTC, lies outside years 0000-9999 is inserted, then refused by the
  read that follows; the call fails and the row stays unreadable. This happens exactly then
  (`RecordedReadsBack`), and an accepted causal assessment created at 9999-12-31T23:59-01:00 is such a one
  (`LateDesignIsLost`, `SomeAcceptedIsLost`).
- The observer controller publishes "active" without looking at the revision again. In every run, at every
  published "active" before a stop, the live observer has the latest settings exactly when no request fell into the
  last gap between the sweeper's check and the continuation of the call (`ActiveIsCurrentIff`); a request in that
  gap is lost (`LostRequest`).
- The backfill coordinator's promise (one runner at most, completion reported once and with no runner left) holds
  over a run, with any number of calls of `start`, exactly when every call came after a halt, or with no runner
  alive and nothing reported (`PromiseIff`). A call while a runner lives adds a second one if a plan is still
  pending, and otherwise reports completion too early (`StartOverlapsIff`, `SecondStartOverlaps`,
  `SecondStartReportsEarly`). The maintenance runtime starts its runners and then returns a `start` that starts them
  again, but its one caller in the repository (packages/cli/src/commands/maintenance.ts:67-95) never calls it.
- The backfill coordinator's `stop` awaits the active runner only. When it resolves no runner lives any more, exactly
  when none was already being stopped as it was called, by a poll or an earlier call (`CleanStopIff`); otherwise it
  resolves at once (`StopLeavesRunner`), and the maintenance runtime goes on to stop the other runners and close the store.

The canonical request text can be read in a second way exactly when a line of the path after its first, or a line
of the nonce before its last, reads as a timestamp (`CanonicalDeterminesIff`). The code does not fall short there:
the path it is given is the path name and search of a parsed URL, which have no line break
(packages/core/src/coordinator-api.ts:316-319), and between such paths the text is one-to-one for any nonce
(`CanonicalDetermines`).

## Model

| member | source | states |
|---|---|---|
| Timestamps.DayNumberCounts | packages/core/src/attribution-assessment.ts:229-233 | counting days by month lengths and leap years agrees with stepping from one calendar day to the next |
| Timestamps.RealDates | packages/core/src/attribution-assessment.ts:229-233 | the month-length test accepts exactly the dates reached by stepping day by day through the Gregorian calendar |
| Timestamps.AcceptedIsReal | packages/core/src/attribution-assessment.ts:203-246 | every accepted timestamp has a real date, minutes, seconds and offset in range, and an hour in range or 24:00:00 with no fraction, and denotes exactly that day and time less the offset |
| Timestamps.InRangeReadsBack | packages/core/src/attribution-assessment.ts:203-246 | the normal form of every instant in years 0000-9999 is accepted and denotes that instant |
| Timestamps.OutOfRangeIsRefused | packages/core/src/attribution-assessment.ts:203-246 | the normal form of every other instant is refused |
| Timestamps.NormalFormIsFixpoint | packages/core/src/attribution-assessment.ts:203-246 | normalizing twice equals normalizing once if and only if the instant lies in years 0000-9999 |
| Timestamps.LastHourRollsOver | packages/core/src/attribution-assessment.ts:234-246 | an accepted time in the last hour of a year, at least an hour west of UTC, normalizes into the next year |
| Timestamps.LateDecemberIsNotAFixpoint | packages/core/src/attribution-assessment.ts:203-246 | the concrete accepted time 9999-12-31T23:59-01:00 has no stable normal form |
| Timestamps.TextOrderIsTimeOrder | packages/core/src/attribution-assessment.ts:1543-1547 | for instants in years 0000-9999, ordering the normalized texts is ordering the instants, and equal texts mean equal instants |
| TimestampForms.ParseMeans | packages/core/src/attribution-assessment.ts:130-131 | a text is read as a stamp exactly when it is spelled from four-digit year, two-digit parts, optional seconds with an optional fraction, and `Z`, `z` or a signed zone with or without colon, and the stamp is the numbers these parts denote |
| TimestampForms.MonthLengths | packages/core/src/attribution-assessment.ts:226-227 | the Gregorian leap years and the twelve month lengths, and no month besides |
| TimestampForms.YearsCount | packages/core/src/attribution-assessment.ts:226-233 | the days before a year are 365 a year and one for each leap day by the usual count, so the day numbers are those of the real calendar |
| TimestampForms.MillisecondsFilledUp | packages/core/src/attribution-assessment.ts:203-246 | a fraction counts as its first three digits, filled up with zeros |
| Identifiers.UuidFixpoint | packages/core/src/attribution-assessment.ts:177-182 | a normalized UUID is its own normal form |
| Identifiers.RecasedUuid | packages/core/src/attribution-assessment.ts:177-182 | letter case never decides acceptance or result |
| Identifiers.UuidMeans | packages/core/src/attribution-assessment.ts:177-182 | a UUID is five groups of 8, 4, 4, 4 and 12 hexadecimal digits of either case between hyphens, with version 1 to 8 and the standard variant |
| Identifiers.StableCodeMeans | packages/core/src/attribution-assessment.ts:184-194 | a stable code has 1 to 256 letters, digits or one of seven punctuation marks, none of which comes first |
| Identifiers.SortedIsCanonical | packages/core/src/attribution-assessment.ts:248-253 | a sorted duplicate-free list is determined by its elements alone |
| Identifiers.SameIdsSameNormalForm | packages/core/src/attribution-assessment.ts:248-253 | evidence id lists that differ in case, order or repetition have one normal form |
| Identifiers.NormalizedIdsFixpoint | packages/core/src/attribution-assessment.ts:248-253 | the normal form of an id list is its own normal form |
| AttributionSubject.IsolatedHasNoRival | packages/core/src/attribution-assessment.ts:287-320 | where the attempt isolates an exposure, no row can reference another one |
| AttributionSubject.OneExposurePerRow | packages/core/src/attribution-assessment.ts:294-335 | whatever its codes, a row can witness for at most one exposure of an attempt |
| AttributionSubject.NoSiblingNamed | packages/core/src/attribution-assessment.ts:294-335 | a row that witnesses for an exposure names no eligible sibling by id or by memory |
| AttributionSubject.MemoryReferenceAttemptIds | packages/core/src/attribution-assessment.ts:363-419 | reading two hits per query and stopping early still finds "more than one attempt" exactly when the memory is ambiguous, and the complete set otherwise |
| AttributionSubject.AtMostTwo | packages/core/src/attribution-assessment.ts:396-412 | a limit of two hits loses nothing when there is at most one |
| AttributionRandomized.KeyTextIsFaithful | packages/core/src/attribution-assessment.ts:548-577 | the joined key text groups two rows if and only if their structured keys agree |
| AttributionRandomized.GroupRelation | packages/core/src/attribution-assessment.ts:798-815 | comparing everything with the first rank answers a label exactly when both sides exist, all ranks are known, the attempt side is uniform and every pair stands in that relation |
| AttributionRandomized.ResolvesByReadings | packages/core/src/attribution-assessment.ts:579-603 | a group resolves to a label exactly when it holds quality rows on both sides, all of the attempt's with one outcome, and every other outcome reads against it as the label by the nine-line table: better is helpful, worse is harmful, the same is irrelevant |
| AttributionRandomized.UniformGroup | packages/core/src/attribution-assessment.ts:798-822 | with one outcome on each side a group resolves to a label exactly when the pair and the label stand in that table; any other status leaves it unresolved |
| AttributionRandomized.ResolutionIsUnique | packages/core/src/attribution-assessment.ts:798-822 | a group resolves to at most one label |
| AttributionRandomized.AddedRowNeverTurns | packages/core/src/attribution-assessment.ts:798-822 | a row added to a resolved group keeps its relation or leaves it unresolved |
| AttributionRandomized.NeverStale | packages/core/src/attribution-assessment.ts:596-603 | no group of rows ever resolves to stale |
| AttributionRandomized.RowOrderIsIrrelevant | packages/core/src/attribution-assessment.ts:781-860 | neither the supported labels nor their witnesses depend on row order or repetition |
| AttributionRandomized.SupportHasBothSides | packages/core/src/attribution-assessment.ts:798-822 | a supported label has witnesses in the attempt's own cell and outside it |
| AttributionRandomized.GroupRows | packages/core/src/attribution-assessment.ts:790-796 | the first loop puts every keyed row into exactly the group of its key and nothing else anywhere |
| AttributionRandomized.CollectWitnesses | packages/core/src/attribution-assessment.ts:797-821 | the second loop collects exactly the rows of the groups that resolve, under their labels |
| AttributionRandomized.RandomizedLabelWitnesses | packages/core/src/attribution-assessment.ts:781-822 | the loops return precisely the supported labels, each with precisely its witnesses |
| AttributionMatching.CellMatches | packages/core/src/attribution-assessment.ts:733-763 | a row is matched exactly when one attempt of its cell fits, is the assessed one in the assessed cell, and completed |
| AttributionMatching.MatchedMeansBelongs | packages/core/src/attribution-assessment.ts:733-763 | in columns: an attempt is found for a row exactly when it is a completed attempt of the row's cell, all of whose attempts validate, the assessed one if it is the assessed cell, and the only one there that has the checkout and the fixture the row names, as far as any attempt there has one; else the only one there |
| AttributionMatching.CellsReadable | packages/core/src/attribution-assessment.ts:720-731 | the first loop accepts exactly the rows that all have a cell whose stored attempts all validate |
| AttributionMatching.EvidenceCompletionBoundaries | packages/core/src/attribution-assessment.ts:713-765 | boundaries are answered if and only if there are rows and each belongs, in columns, to a unique completed attempt of its cell, and then each row's boundary is that attempt and its completion |
| AttributionMatching.BoundariesDecide | packages/core/src/attribution-assessment.ts:767-779 | filtering by the boundaries map keeps exactly the rows observed no earlier than the completion of the one attempt they belong to |
| AttributionMatching.EvidenceAfterCellCompletion | packages/core/src/attribution-assessment.ts:767-779 | the loops and the filter together compute exactly the rows the gates speak of |
| AttributionMatching.NothingDropped | packages/core/src/attribution-assessment.ts:767-779 | if no row is dropped, each row follows the completion of the one attempt it belongs to |
| AttributionAdmission.LinkedIdsDiffer | packages/core/src/attribution-assessment.ts:255-268 | linked rows with one evidence id are one row |
| AttributionAdmission.SupportByLoops | packages/core/src/attribution-assessment.ts:912-935 | on linked rows the matching, filtering, grouping and collecting loops together compute the randomized support that decides the label |
| AttributionAdmission.AcceptedPasses | packages/core/src/attribution-assessment.ts:1224-1343 | an accepted input has a stored attempt and non-empty evidence, and no gate refuses it |
| AttributionAdmission.GatesOpen | packages/core/src/attribution-assessment.ts:1248-1325 | no refusal means that evidence lies before creation, creation after completion, and label, basis, confidence, dimension, causal and, for attributed labels, memory gates all hold |
| AttributionAdmission.ContrastIsSound | packages/core/src/attribution-assessment.ts:944-980 | a contrast that holds drops no row, links only experiment rows of the attempt's experiment after their own attempts, has only preregistered witnesses, and has witnesses in two cells |
| AttributionAdmission.CausalAdmission | packages/core/src/attribution-assessment.ts:1184-1222 | every accepted causal assessment rests on a sound randomized contrast whose witnesses and matched attempts are pinned and whose witnesses report complete cells and uncertainty |
| AttributionDesign.SideMatches | packages/core/src/attribution-assessment.ts:733-763 | in a two-cell design each row is matched to its own cell's attempt, follows it, and meets what a causal claim asks of a witness |
| AttributionDesign.SingleGroup | packages/core/src/attribution-assessment.ts:781-860 | rows of one resolving group support its label and no other, and every one of them witnesses it |
| AttributionDesign.DesignIsAccepted | packages/core/src/attribution-assessment.ts:1224-1343 | a pinned, complete, preregistered two-cell experiment is accepted as causal if and only if the asserted label stands in the nine-line table for its two outcomes; any other label is refused as unsupported |
| AttributionDesign.SomeCausalIsAccepted | packages/core/src/attribution-assessment.ts:1184-1222 | some causal assessment is accepted, so what is proved of accepted ones speaks about something |
| AttributionDesign.LateDesignIsLost | packages/core/src/attribution-assessment.ts:1434-1468 | a valid design created at 9999-12-31T23:59-01:00 is accepted, its row is inserted, and the call fails with the row unreadable |
| AttributionDesign.SomeAcceptedIsLost | packages/core/src/attribution-assessment.ts:1434-1468 | such an accepted and lost assessment exists |
| AttributionAdmission.SupportMeaning | packages/core/src/attribution-assessment.ts:912-942 | with a contrast witness present, one supported label is exactly the asserted known one and never stale, and otherwise there are two different ones |
| AttributionAdmission.RandomizedLabelMeansResolution | packages/core/src/attribution-assessment.ts:912-942 | under a randomized contrast an accepted known label is the only one the closed groups resolve to, "unknown" means two groups disagree, and stale is never accepted |
| AttributionAdmission.LabelWitnessIsIsolated | packages/core/src/attribution-assessment.ts:896-910 | a row behind an exposure label names that exposure and no eligible sibling, after completion |
| AttributionAdmission.SupportingRowIsIsolated | packages/core/src/attribution-assessment.ts:1039-1066 | every supporting row of an exposure, behind its label or showing its basis, names that exposure and no eligible sibling, after completion |
| AttributionAdmission.ExposureLabelIsIsolated | packages/core/src/attribution-assessment.ts:1248-1325 | for an accepted exposure assessment on any other basis, every supporting row, behind a known label or showing the basis, names only that exposure and lies between completion and creation |
| AttributionMeaning.IsolatedMeansOnly | packages/core/src/attribution-assessment.ts:278-292 | an attempt isolates an exposure exactly when it selected one and that is its only delivered place |
| AttributionMeaning.NamingMeansConcern | packages/core/src/attribution-assessment.ts:294-335 | in columns: a row names an attempt by its id or by a delivered exposure's id or memory; it names an exposure if it mentions no other delivered one, or names the attempt that delivered only this one |
| AttributionMeaning.DirectLabelSays | packages/core/src/attribution-assessment.ts:483-546 | which row stands for which label by itself: for each of the four labels the types, sources and references that do, and no others |
| AttributionMeaning.SupportIsTold | packages/core/src/attribution-assessment.ts:862-877 | observational rows support a label exactly when a testifying row says it or, for "helpful" and an exposure, one locates the guidance and one went well |
| AttributionMeaning.KeysAgree | packages/core/src/attribution-assessment.ts:548-577 | two rows are compared exactly when both can be, have one type and, if either carries an identifier, the same identifiers and rubric |
| AttributionMeaning.WitnessShows | packages/core/src/attribution-assessment.ts:781-822 | a row witnesses for a label on a randomized contrast exactly when it follows its own attempt and the rows compared with it read as the label |
| AttributionMeaning.LabelGate | packages/core/src/attribution-assessment.ts:912-942 | a known label passes exactly when the rows show it and no other, and never on temporal followup; "unknown" passes exactly when they do not show one label alone |
| AttributionMeaning.OneKindDecides | packages/core/src/attribution-assessment.ts:862-942 | where all testifying rows say one label and none locates the guidance, that label is accepted and no other impact is |
| AttributionGates.ExperimentGate | packages/core/src/attribution-assessment.ts:944-980 | the contrast holds exactly when every linked row is experiment evidence of the attempt's experiment that follows its own attempt, both the attempt's cell and another occur, and some group shows a label, all such rows being preregistered |
| AttributionGates.BasisGate | packages/core/src/attribution-assessment.ts:982-1037 | each basis holds exactly when a testifying row of its kind is linked, by a table of kinds, or the experiment fits |
| AttributionGates.ConfidenceGate | packages/core/src/attribution-assessment.ts:1150-1182 | high confidence holds exactly on a randomized contrast, on a review whose founding row settles an outcome, or on an explicit reference whose founding row says a label; and never on the three other bases |
| AttributionGates.DimensionOfType | packages/core/src/attribution-assessment.ts:132-160 | the evidence types of each of the five dimensions |
| AttributionGates.DimensionGate | packages/core/src/attribution-assessment.ts:1039-1066 | a dimension is represented exactly when a row that founds the basis or stands behind the asserted label has one of its types |
| AttributionGates.ClaimGate | packages/core/src/attribution-assessment.ts:1184-1222 | a causal claim holds exactly on a fitting experiment all of whose showing rows, and the attempts they belong to, are pinned, with complete cells and reported uncertainty |
| AttributionGates.AmbiguousMeansTwo | packages/core/src/attribution-assessment.ts:363-419 | a memory is ambiguous for a row exactly when two stored attempts of the row's origin had delivered it before the row was observed |
| AttributionGates.MemoryGate | packages/core/src/attribution-assessment.ts:441-468 | a row that names a delivered memory and the subject by no id of its own must leave one such attempt at most |
| AttributionGates.NamedByRows | packages/core/src/attribution-assessment.ts:309-335 | the codes of all rows together name the attempt exactly when some row does |
| AttributionGates.SupportedMeansSingled | packages/core/src/attribution-assessment.ts:470-481 | an exposure passes isolation exactly when it was delivered and is the only delivery or the only one that some row mentions |
| AttributionVerdict.RefusalIsFirstClosed | packages/core/src/attribution-assessment.ts:1248-1325 | the refusal is the first of fourteen gates, each stated in columns, that does not open, and there is none exactly when all open |
| AttributionVerdict.PrepareRefusesFirst | packages/core/src/attribution-assessment.ts:1234-1248 | an input that fails a check of its ids, its exposure, its evidence or its time is refused with the first it fails |
| AttributionVerdict.AcceptedIff | packages/core/src/attribution-assessment.ts:1224-1343 | an input is accepted with a row exactly when its stored attempt and evidence, in columns, open every gate and the row holds its normal forms and defaults |
| AttributionVerdict.RefusedFirst | packages/core/src/attribution-assessment.ts:1224-1343 | an input with a stored subject and rows is refused with the first closed gate, and only behind all gates for its own id or its procedure |
| AttributionVerdict.AcceptedLabelIsTold | packages/core/src/attribution-assessment.ts:862-942 | an accepted known label on observational grounds is told by the linked rows, which tell no other |
| AttributionVerdict.ExposureLabelHasWitness | packages/core/src/attribution-assessment.ts:862-910 | such a label has a linked row behind it that testifies and says it, or is one of a located success |
| AttributionAdmission.NormalFormDecides | packages/core/src/attribution-assessment.ts:1224-1343 | inputs with one normal form get the same verdict and the same row |
| AttributionStore.AssessmentStore.Record | packages/core/src/attribution-assessment.ts:1434-1468 | the transaction with its link-by-link loop and the read-back is exactly one step of the specification, and keeps rows and links together |
| AttributionStore.RecordDecides | packages/core/src/attribution-assessment.ts:1434-1468 | a refused input or a known id changes no table, a new id adds its row and links and nothing else, and the call conflicts exactly when its id holds another row or another set of links |
| AttributionStore.StoredRowReads | packages/core/src/attribution-assessment.ts:1372-1421 | a stored accepted row is admitted again exactly when its creation instant lies in years 0000-9999 |
| AttributionStore.LateRowIsRefused | packages/core/src/attribution-assessment.ts:1372-1421 | a row with a creation instant outside those years is never admitted again |
| AttributionStore.RecordedReadsBack | packages/core/src/attribution-assessment.ts:1434-1468 | recording stores exactly the accepted row and succeeds with an equal read-back if and only if the instant lies in years 0000-9999 |
| AttributionStore.ReplayInsertsNothing | packages/core/src/attribution-assessment.ts:1434-1468 | any input with the same normal form afterwards changes no table and reports inserted = false |
| AttributionStore.RespelledInputs | packages/core/src/attribution-assessment.ts:1234-1248 | re-cased ids, reordered or repeated evidence ids and another offset for the same instant are one normal form |
| AttributionStore.RowsAreWriteOnce | packages/core/src/attribution-assessment.ts:1434-1468 | no call changes or removes a stored row or its links |
| AttributionStore.RunRowsCameFromInputs | packages/core/src/attribution-assessment.ts:1434-1468 | over every run from empty tables, each stored row with its links was accepted from one of the inputs |
| AttributionStore.EveryStoredRowReadsBack | packages/core/src/attribution-assessment.ts:1372-1421 | over every such run each stored row reads back as its input's normal form, out-of-range instants excepted |
| AttributionStore.CausalReadsAreSound | packages/core/src/attribution-assessment.ts:1372-1421 | whatever the tables hold, a causal assessment that is read satisfies the causal gate against the current attempts and evidence |
| AttributionStore.StoredOrderIsTimeOrder | packages/core/src/attribution-assessment.ts:1543-1547 | ordering in-range rows by their created_at text is ordering them by creation time |
| FlatJson.ObjectReadsBack | packages/core/src/automatic-recall.ts:119-125 | every flat object of integers, flags and plain strings reads back from its compact text |
| FlatJson.ObjectReadsExactly | packages/core/src/automatic-recall.ts:119-125 | the reader of compact texts accepts exactly the texts written from plain members, and gives these members |
| AutomaticRecall.EncodedLength | packages/core/src/automatic-recall.ts:119-125 | every valid measurement encodes to at most 1024 characters |
| AutomaticRecall.MeasurementRoundTrip | packages/core/src/automatic-recall.ts:83-125 | every valid measurement fits the column and decodes to itself |
| AutomaticRecall.MarkerRoundTrip | packages/core/src/automatic-recall.ts:93-117 | every 64-hex key encodes to at most 128 characters and decodes to itself |
| AutomaticRecall.MeasurementMeans | packages/core/src/automatic-recall.ts:27-49 | an object is a measurement exactly when it has these eight members of these kinds and nothing else, within the bounds |
| AutomaticRecall.MarkerMeans | packages/core/src/automatic-recall.ts:99-117 | an object is a marker exactly when it is version 1 and a key of 64 lower-case hexadecimal digits |
| AutomaticRecall.StoredTextMeans | packages/core/src/automatic-recall.ts:83-117 | a stored text holds a measurement or a marker exactly when it is not empty, has at most 1024 or 128 characters, and denotes such an object, whatever JSON texts the reader understands |
| AutomaticRecall.NeverBothBy | packages/core/src/automatic-recall.ts:83-117 | no stored text decodes both as a measurement and as a marker, whatever JSON texts the parser understands |
| AutomaticRecall.NeverBoth | packages/core/src/automatic-recall.ts:83-117 | the same for the parser of the ledger's own compact texts |
| RecallLedger.Ledger.RecordAutomaticRecall | packages/core/src/automatic-recall.ts:159-207 | the call on the mutable table is one atomic step of the specification, whose outcomes and effects CallDecides and CallFills give |
| RecallLedger.StepIsSound | packages/core/src/automatic-recall.ts:159-185 | a call keeps keys distinct, keyed rows holding a valid matching measurement, and unkeyed rows being markers of keys held elsewhere |
| RecallLedger.StepWritesOnce | packages/core/src/automatic-recall.ts:140-185 | a call never alters counts or a row that is already filled |
| RecallLedger.CallDecides | packages/core/src/automatic-recall.ts:140-207 | over sound tables a call is accepted if and only if its checks pass and its row is empty, holds this measurement under this key or marks this key; a filled row else gives a conflict; "changed" means an empty row and a key nobody held; and each other refusal has its exact condition |
| RecallLedger.CallFills | packages/core/src/automatic-recall.ts:159-185 | an accepted call on an empty row changes that row alone: to the measurement under the key if nobody held it, else to a marker of the key |
| RecallLedger.RunIsSound | packages/core/src/automatic-recall.ts:140-185 | over every run the invariant holds and each row is filled at most once and then stays |
| RecallLedger.ReachableIsSound | packages/core/src/automatic-recall.ts:159-185 | every table reachable from empty columns is sound |
| RecallLedger.AcceptedFillsRow | packages/core/src/automatic-recall.ts:140-185 | an accepted call leaves its row answering that call with "unchanged" |
| RecallLedger.ReplayChangesNothing | packages/core/src/automatic-recall.ts:140-185 | an accepted call replayed after any further calls is accepted with changed = false and changes nothing |
| RecallLedger.Health.AddMeasurement | packages/core/src/automatic-recall.ts:269-283 | each of the ten reported totals grows by exactly this measurement's amount, the unmeasured count not at all |
| RecallLedger.Health.Aggregate | packages/core/src/automatic-recall.ts:285-299 | the loop reports the sum of the rows' shares for every total and the number of rows that are neither measured nor resolved duplicates |
| RecallLedger.CountedOnce | packages/core/src/automatic-recall.ts:258-299 | row count = fresh + resolved duplicates + unmeasured |
| RecallLedger.AvoidedIsTheDifference | packages/core/src/automatic-recall.ts:269-283 | tokens avoided = before - after, never negative, at most 10^9 for 1000 rows |
| RecallLedger.TotalsIgnoreOrder | packages/core/src/automatic-recall.ts:285-299 | no total depends on row order |
| RecallLedger.FreshIsDistinctKeys | packages/core/src/automatic-recall.ts:258-299 | over a sound table fresh equals the number of distinct accepted keys |
| RecallLedger.ReachableHealth | packages/core/src/automatic-recall.ts:258-299 | over a reachable table wholly in the window, fresh counts the distinct accepted keys and the unmeasured rows are exactly the attempts never recorded |
| OwnerEvidence.ReadGeneration | packages/core/src/account-owner-association.ts:260-278 | an undisturbed read fails exactly when some file is refused, carries other pins or contradicts another; otherwise all existing files hold its answer, and the legacy file answers only when no other exists |
| OwnerEvidence.AllConsidered | packages/core/src/account-owner-association.ts:265-274 | a read that has considered every path found all older files sound and agrees with the current one |
| OwnerEvidence.ApplyKeeps | packages/core/src/account-owner-association.ts:370-401 | every step, failure, outside file or mode change keeps what each process knows about the files, and files only grow |
| OwnerEvidence.RunKeeps | packages/core/src/account-owner-association.ts:370-401 | so does every interleaved run |
| OwnerEvidence.RetainsAgree | packages/core/src/account-owner-association.ts:370-401 | all retains that return for equal pins, through whatever database aliases, return the one published record with exactly those pins |
| OwnerEvidence.PublishedForGood | packages/core/src/account-owner-association.ts:386-393 | a published record never changes, whoever runs afterwards |
| OwnerEvidence.ReadsAgreeOrFail | packages/core/src/account-owner-association.ts:260-278 | a finished read that began after publication answered with the published record, and none finishes over malformed older evidence |
| OwnerEvidence.ReadEnds | packages/core/src/account-owner-association.ts:260-278 | an undisturbed read step by step ends, with the answer that the files hold or in failure when they are not readable |
| OwnerEvidence.PlainReadEnds | packages/core/src/account-owner-association.ts:260-278 | a plain read that nothing disturbs changes no file and ends: with the record that the files answer, or failed when they are not readable |
| OwnerEvidence.PlainReadReturnsIff | packages/core/src/account-owner-association.ts:260-278 | it ever finishes if and only if the files are readable, and only with the record they answer |
| OwnerEvidence.PublishedAnswers | packages/core/src/account-owner-association.ts:386-398 | publishing the record keeps the files readable, and every later answer is that record |
| OwnerEvidence.RetainEnds | packages/core/src/account-owner-association.ts:370-401 | an undisturbed retain ends: with its record returned and published, or in failure when the files are unreadable or hold another record |
| OwnerEvidence.RetainReturnsIff | packages/core/src/account-owner-association.ts:370-401 | an undisturbed retain ever returns if and only if the files are readable and hold no other record |
| OwnerEvidence.EmptyIsRetainable | packages/core/src/account-owner-association.ts:370-401 | with no files at all and a private directory, or none yet, it does return |
| PeerAddresses.MergeAddresses | packages/core/src/address-utils.ts:87-103 | the loop returns the length-limited prefix of the unbounded first-occurrence merge |
| PeerAddresses.MergeExtends | packages/core/src/address-utils.ts:87-103 | later addresses never disturb earlier ones |
| PeerAddresses.MergeSound | packages/core/src/address-utils.ts:87-103 | dedupe keys are distinct and every element is the usable normal form of a listed address |
| PeerAddresses.MergeComplete | packages/core/src/address-utils.ts:87-103 | every usable listed address is represented by its key |
| PeerAddresses.MergeInOrder | packages/core/src/address-utils.ts:87-103 | a merge holds exactly the normal forms of the addresses that are listed first under their keys, in the order of that listing |
| PeerAddresses.MergeCounts | packages/core/src/address-utils.ts:87-103 | and as many as there are keys |
| PeerAddresses.LimitAbsorbs | packages/core/src/address-utils.ts:168-178 | limiting and merging in two turns equals merging all at once and limiting |
| PeerAddresses.MergeFixpoint | packages/core/src/address-utils.ts:87-103 | a merged list merges to itself |
| PeerAddresses.MergeOnto | packages/core/src/address-utils.ts:168-178 | merging more onto a merged list keeps that list in front and the limit |
| PeerAddresses.RankedIsPermutation | packages/core/src/address-utils.ts:146-151 | ranking loses, repeats and invents no address |
| PeerAddresses.FreshInOrder | packages/core/src/address-utils.ts:145-151 | the fresh addresses are the first listed candidates, each key once: without a required count all that are not link-local before those that are, and in either kind, or with a required count altogether, as listed |
| PeerAddresses.ProtectedMeans | packages/core/src/address-utils.ts:135-144 | the protected list is one merge of the last successful address with all manual ones or, beyond eight, their first two and last two |
| PeerAddresses.SlotNumbers | packages/core/src/address-utils.ts:152-167 | how many slots fresh and protected addresses get, in numbers, for presence and for a required count |
| PeerAddresses.FilledIsOneMerge | packages/core/src/address-utils.ts:168-178 | the three limited merges are one: fresh slots, protected slots, what was there, the other fresh addresses, cut at eight |
| PeerAddresses.ProtectedIsMerged | packages/core/src/address-utils.ts:135-144 | the protected list has at most 8 addresses with distinct keys, from archives of any size |
| PeerAddresses.Fill | packages/core/src/address-utils.ts:169-178 | the three last merges, never more than 8 addresses nor a repeated key |
| PeerAddresses.FilledKeeps | packages/core/src/address-utils.ts:169-178 | those merges keep the fresh prefix in front and the protected prefix represented, waste no slot while an address is left, and invent nothing |
| PeerAddresses.MergeCoordinatorPeerAddresses | packages/core/src/address-utils.ts:129-179 | for any addresses at most 8 with distinct keys; for stable ones the list is that one merge, its fresh slots hold the soonest candidates in dialing order (a link-local one only when all others have a slot), no slot is wasted and nothing invented, and in presence the first min(n, 6) fresh, min(p, max(2, 8 - n)) protected and a usable last-successful address are in it |
| PeerAddresses.PresenceBudget | packages/core/src/address-utils.ts:152-167 | the slot arithmetic leaves min(n, 6) fresh and min(p, max(2, 8 - n)) protected slots |
| PeerAddresses.SuccessfulIsFirst | packages/core/src/address-utils.ts:140-144 | a usable last-successful address takes the first protected slot |
| Backfill.CompletionTracker.Finished | packages/cli/src/maintenance-worker-runtime.ts:85-92 | the tracker ends a plan exactly on a terminal row of this run or on a due question answered with no, and moves its clock exactly when it asks |
| Backfill.PlanEndsIff | packages/cli/src/maintenance-worker-runtime.ts:80-92 | over any polls of a plan, one ends it exactly when its row came to an end in this run, or the poll is thirty seconds after the beginning and every earlier question and the predicate answers no; a failed row is a failure and nothing else is |
| Backfill.QuestionsAreFarApart | packages/cli/src/maintenance-worker-runtime.ts:85-92 | over any polls of a plan its pending predicate is asked at most once in thirty seconds |
| Backfill.BegunPlanWaits | packages/cli/src/maintenance-worker-runtime.ts:80-92 | for thirty seconds after it began, a plan is not finished by rows of an earlier run or by its predicate |
| Backfill.BackfillCoordinator.StartNextJob | packages/cli/src/maintenance-worker-runtime.ts:123-139 | the loop starts exactly the first pending plan left, and then restarts the tracker, or reports completion |
| Backfill.BackfillCoordinator.WaitForCurrentJob | packages/cli/src/maintenance-worker-runtime.ts:141-176 | a poll is one step of the specification with the verdict read off the job row and the tracker's clock |
| Backfill.BackfillCoordinator.RunnerSettled | packages/cli/src/maintenance-worker-runtime.ts:149-172 | a settled stop goes on to the next plan unless halted |
| Backfill.BackfillCoordinator.StopAll | packages/cli/src/maintenance-worker-runtime.ts:181-188 | stop up to its await is one step of the specification and holds on to the active runner it found |
| Backfill.RunKeeps | packages/cli/src/maintenance-worker-runtime.ts:96-190 | as long as every start so far was welcome, the invariant holds and every step so far kept the promise |
| Backfill.StartOverlapsIff | packages/cli/src/maintenance-worker-runtime.ts:123-139 | a start adds a second runner exactly when it is not halted, a runner lives and a plan is pending, and reports too early exactly when it is not halted, a runner lives and none is pending |
| Backfill.PromiseIff | packages/cli/src/maintenance-worker-runtime.ts:96-190 | over runs with any number of starts: never two runners, at most one report and that with no runner left, if and only if every start came after a halt or with no runner alive and nothing reported |
| Backfill.NeverTwoRunners | packages/cli/src/maintenance-worker-runtime.ts:96-190 | with one start: never two unsettled runners, plans at most once in list order, completion reported at most once and only after everything was examined and settled |
| Backfill.NothingAfterHalt | packages/cli/src/maintenance-worker-runtime.ts:125-125 | after stop or abort nothing starts and nothing is reported |
| Backfill.CleanStopIff | packages/cli/src/maintenance-worker-runtime.ts:181-188 | whenever a call of stop resolves no runner lives any more, if and only if no runner was already being stopped when it was called |
| Backfill.StopLeavesRunner | packages/cli/src/maintenance-worker-runtime.ts:144-188 | a poll that found the job failed, and then stop: it resolves at once while that runner lives |
| Backfill.RemainingPlansMeasure | packages/cli/src/maintenance-worker-runtime.ts:126-139 | the plans left never grow, shrink with every start of a runner, and are none when completion is reported |
| Backfill.FailureMovesOn | packages/cli/src/maintenance-worker-runtime.ts:144-158 | after a failed plan exactly the next pending one starts, or completion is reported |
| Backfill.SecondStartOverlaps | packages/cli/src/maintenance-worker-runtime.ts:278-284 | two starts with two pending plans leave two runners live |
| Backfill.SecondStartReportsEarly | packages/cli/src/maintenance-worker-runtime.ts:278-284 | two starts with one pending plan report completion with its runner live and no poll scheduled |
| ObserverRuntime.ApplyingHasAWorker | packages/cli/src/observer-runtime-controller.ts:78-114 | in every run at most one call of applyLatest is in flight; not stopped and "applying", there is exactly one, or the last has just returned and its callback starts exactly one at the latest revision |
| ObserverRuntime.RequestBeforeCallback | packages/cli/src/observer-runtime-controller.ts:87-92 | that window is real: a request between the return of a call and its callback finds nothing in flight |
| ObserverRuntime.FailureIsLatest | packages/cli/src/observer-runtime-controller.ts:106-112 | "failed" is published only for the latest revision |
| ObserverRuntime.StoppedWorkEnds | packages/cli/src/observer-runtime-controller.ts:94-120 | once stopped, each step of the work brings it nearer its end and no event sets it back |
| ObserverRuntime.WorkCanStep | packages/cli/src/observer-runtime-controller.ts:94-120 | while there is unsettled work some step of it is possible |
| ObserverRuntime.StoppedForGood | packages/cli/src/observer-runtime-controller.ts:116-120 | in every run, when a stop can resolve because the promise it found has settled, no call is in flight and no promise is left, and none ever starts again |
| ObserverRuntime.ResolvedMeansQuiet | packages/cli/src/observer-runtime-controller.ts:116-120 | a run in which some stop has resolved is in such a quiet state |
| ObserverRuntime.ActiveIsCurrentIff | packages/cli/src/observer-runtime-controller.ts:94-114 | in every run, at every published "active" before a stop, the live observer has the latest settings if and only if no request fell into the last gap before an observer was taken up |
| ObserverRuntime.LostRequest | packages/cli/src/observer-runtime-controller.ts:96-105 | a request in the gap ends "active" with the older observer and no worker left |
| ObserverRuntime.ObserverRuntimeController.RequestApply | packages/cli/src/observer-runtime-controller.ts:78-85 | a request is one step of the specification and is refused exactly once stopped |
| ObserverRuntime.ObserverRuntimeController.SweeperAnswers | packages/cli/src/observer-runtime-controller.ts:99-101 | the sweeper's answer through the controller's own callback is one step of the specification |
| ObserverRuntime.ObserverRuntimeController.ContinueWork | packages/cli/src/observer-runtime-controller.ts:94-114 | the worker's continuation is one step of the specification |
| ObserverRuntime.ObserverRuntimeController.WorkSettled | packages/cli/src/observer-runtime-controller.ts:87-92 | the finally callback is one step of the specification |
| ObserverRuntime.ObserverRuntimeController.StopRequested | packages/cli/src/observer-runtime-controller.ts:116-119 | stop up to its await is one step of the specification and holds on to the promise it found |
| ObserverRuntime.ObserverRuntimeController.StopContinues | packages/cli/src/observer-runtime-controller.ts:119-120 | stop after its await, once that promise has settled, is one step of the specification |
| BindingPin.SameBindingsMeansSameEnv | packages/cloudflare-coordinator-worker/src/index.ts:245-256 | the element-wise comparison holds exactly for equal environments |
| BindingPin.CaptureMeans | packages/cloudflare-coordinator-worker/src/browser-auth-env.ts:40-41 | no configuration is disabled, and one that is no text or longer than 8192 characters is invalid, whoever reads the rest |
| BindingPin.StepKeeps | packages/cloudflare-coordinator-worker/src/index.ts:317-413 | every arrival, resolved or failed build keeps the pin usable, the cached worker on the pin and every earlier answer backed by both |
| BindingPin.PinIsWriteOnce | packages/cloudflare-coordinator-worker/src/index.ts:317-413 | under every interleaving the pin is written at most once across its three writers, and so is the cached worker |
| BindingPin.CachedWorkerServesItsOwn | packages/cloudflare-coordinator-worker/src/index.ts:392-413 | every request the cached worker answers carries exactly the bindings it was built from, and they are the pinned ones |
| BindingPin.ConfiguredAnswersAgree | packages/cloudflare-coordinator-worker/src/index.ts:317-413 | all requests of a run answered with configured authority, on any route, carry one usable environment |
| BindingPin.InnerPinNeverRefuses | packages/cloudflare-coordinator-worker/src/index.ts:155-160 | the cached worker's own database pin never refuses a request that reaches it |
| BindingPin.DriftIsRefused | packages/cloudflare-coordinator-worker/src/index.ts:399-411 | after pinning, other bindings get nothing on arrival on any route or on resumption, a disabled configuration included, except that one on the scheduled route |
| BindingPin.ServedIffPinned | packages/cloudflare-coordinator-worker/src/index.ts:398-413 | once a worker is cached a browser request is served by it if and only if it carries the pinned bindings |
| BindingPin.FirstBuildWins | packages/cloudflare-coordinator-worker/src/index.ts:407-412 | racing builds for the same bindings all answer with the first one's worker, whatever happens in between |
| BindingPin.ScheduledBypassesThePin | packages/cloudflare-coordinator-worker/src/index.ts:423-437 | the scheduled route serves a disabled configuration pinned or not, and agrees with the browser route exactly when the pin admits it |
| BindingPin.ConfiguredWorker.FetchOwnerQualification | packages/cloudflare-coordinator-worker/src/index.ts:317-357 | the first pin writer is one step of the specification |
| BindingPin.ConfiguredWorker.ConfiguredRevocation | packages/cloudflare-coordinator-worker/src/index.ts:359-389 | the second pin writer is one step of the specification |
| BindingPin.ConfiguredWorker.BeginConfigured | packages/cloudflare-coordinator-worker/src/index.ts:398-407 | everything before the await is one step of the specification |
| BindingPin.ConfiguredWorker.ResumeConfigured | packages/cloudflare-coordinator-worker/src/index.ts:408-413 | everything after the await, the third pin writer, is one step of the specification |
| BindingPin.ConfiguredWorker.FetchConfiguredWorker | packages/cloudflare-coordinator-worker/src/index.ts:442-464 | the admission route's look at the settings and the hand-over to the configured worker are one step of the specification |
| BindingPin.ConfiguredWorker.RunScheduled | packages/cloudflare-coordinator-worker/src/index.ts:423-437 | the scheduled route is one step of the specification |
| BindingPin.ConfiguredWorker.PinBinding | packages/cloudflare-coordinator-worker/src/index.ts:155-160 | the inner pin is one step of the specification: it answers the first database for good and nothing for any other |
| Base64.EncodeDecodes | packages/cloudflare-coordinator-worker/src/request-verifier.ts:12-19 | every byte string decodes from its base64 text, with either padding |
| Base64.AtobAccepts | packages/cloudflare-coordinator-worker/src/request-verifier.ts:12-13 | without its white space a text decodes exactly when it is alphabet characters, not one over a multiple of four, with padding that fills the last group or none |
| Base64.Base64ToBytes | packages/cloudflare-coordinator-worker/src/request-verifier.ts:12-19 | the copying loop fills the array with exactly the decoded bytes, or reports what the decoder refuses |
| SshKeys.ReadWritten | packages/cloudflare-coordinator-worker/src/request-verifier.ts:27-29 | a big-endian length reads back wherever it was written |
| SshKeys.WriteRead | packages/cloudflare-coordinator-worker/src/request-verifier.ts:27-29 | the four bytes read are the only way to write that length |
| SshKeys.SplitIsUnique | packages/cloudflare-coordinator-worker/src/request-verifier.ts:41-64 | a wire has at most one split into prefixed type, prefixed key and rest |
| SshKeys.ParseAcceptsExactly | packages/cloudflare-coordinator-worker/src/request-verifier.ts:41-64 | accepted are exactly the wires that split with a 32-byte key, and that key is returned, whatever the type field says |
| SshKeys.ParseRefusesExactly | packages/cloudflare-coordinator-worker/src/request-verifier.ts:48-57 | "truncated" means that no split exists, and the length error names the length of the key in the split |
| SshKeys.BuiltWireParses | packages/core/src/coordinator-account-change-http-test-fixtures.ts:36-46 | the key the wire builder encoded is the key parsed |
| SshKeys.BuiltKeyImports | packages/core/src/coordinator-account-change-http-test-fixtures.ts:36-46 | so is it from the whole key text, with any white space and comment around |
| SshKeys.ImportMeans | packages/cloudflare-coordinator-worker/src/request-verifier.ts:41-64 | a key text imports to a key exactly when its first two words are the type name and base64 text of a wire that splits with that 32-byte key |
| SshKeys.BuildWire | packages/core/src/coordinator-account-change-http-test-fixtures.ts:38-45 | the buffer filled by four copies is the wire form and parses to the key |
| SshKeys.CopyInto | packages/cloudflare-coordinator-worker/src/request-verifier.ts:35-37 | copying into a buffer replaces exactly the target range |
| SshKeys.BuildSpkiDer | packages/cloudflare-coordinator-worker/src/request-verifier.ts:31-39 | the DER ends with the key, and for 32 bytes its two length octets count what follows them |
| SignedRequests.HexInjective | packages/cloudflare-coordinator-worker/src/request-verifier.ts:8-10 | different bytes have different hex texts |
| SignedRequests.VerifyMeans | packages/cloudflare-coordinator-worker/src/request-verifier.ts:88-125 | a request is accepted exactly when its timestamp is a number within 300 seconds of now, its key imports, and its signature is `v1` or `v2`, a colon and base64 text that the key verifies for the five lines |
| SignedRequests.CanonicalDetermines | packages/cloudflare-coordinator-worker/src/request-verifier.ts:66-86 | between paths and methods without a line break, with digit timestamps, the canonical text determines upper-cased method, path, timestamp, nonce and digest, for any nonce |
| SignedRequests.CanonicalDeterminesIff | packages/cloudflare-coordinator-worker/src/request-verifier.ts:66-86 | for any path and nonce, no other parts share the text if and only if no path line after the first and no nonce line before the last reads as a timestamp |
| SignedRequests.LineMovesOver | packages/cloudflare-coordinator-worker/src/request-verifier.ts:66-86 | every such line gives a second reading of the same text with another path |
| SignedRequests.SignatureIsForOneRequest | packages/cloudflare-coordinator-worker/src/request-verifier.ts:88-125 | two accepted requests with one key and one signature agree in every signed part and are accepted at most two windows apart, so replay cannot be moved to another request |
| SignedRequests.SignedIsAccepted | packages/cloudflare-coordinator-worker/src/request-verifier.ts:88-125 | a request signed by the key's owner is accepted within 300 seconds under both versions |
| ShellQuoting.EscapedReadsBack | e2e/lib/viewer-logs.ts:23-25 | an escaped value inside quotes is read back character by character, quotes included |
| ShellQuoting.QuotedIsOneWord | e2e/lib/viewer-logs.ts:23-25 | a quoted NUL-free value, even the empty one, is read as one word |
| ShellQuoting.ArgumentsReadBack | e2e/lib/compose.ts:212-212 | the joined argument part is read as exactly the argument list |
| ShellQuoting.RedirectionReadsBack | e2e/lib/compose.ts:212-212 | the tail is read as sending output to that path and descriptor 2 after it |
| ShellQuoting.CommandReadsBack | e2e/lib/compose.ts:203-214 | the shell reads the command as exactly the arguments, all quoted, and the redirection if and only if no argument contains NUL |
| ShellQuoting.LaunchedCommandReadsBack | e2e/lib/compose.ts:203-214 | with the sanitized log path this holds for every service and artifact name |
| ShellQuoting.LogPathMeans | e2e/lib/compose.ts:208-209 | the log lies directly in /tmp under both names, with every character but letters, digits, dot, underscore and hyphen replaced |
| ShellQuoting.CommandDetermines | e2e/lib/compose.ts:212-212 | different argument lists or paths never share a command line |
| SeenNotices.MemoryIsTheLastShown | packages/opencode-plugin/tui.js:34-49 | over every run the memory is exactly the last notices shown, distinct and within the limit, and a valid notice is shown if and only if it is not among them |
| SeenNotices.RepeatsAreFarApart | packages/opencode-plugin/tui.js:34-49 | a notice is shown again only after at least the limit of other, pairwise different notices |
| SeenNotices.DisposedForGood | packages/opencode-plugin/tui.js:93-103 | after disposal nothing is shown or remembered |
| SeenNotices.NoticeMeans | packages/opencode-plugin/tui.js:11-17 | a notice is shown under its own non-empty id and message, and any variant but the four known ones is a warning |
| SeenNotices.LimitMeans | packages/opencode-plugin/tui.js:28-32 | a positive safe integer is the limit, and anything else stands for sixty-four |
| SeenNotices.NoticeDisplay.Show | packages/opencode-plugin/tui.js:34-49 | adding and the eviction loop are one step of the specification |

## Left out

- Attribution: reference codes are read by their prefix into a datatype; errors are named by gate, not by message, and `tryRecordAttributionAssessment`'s classification of failures is not modelled.
- Attribution: `observedAt` and `completedAt` are instants already; the validation of evidence and attempt rows is a flag on the row, and the source's caches, which only remember answers, are absent.
- Attribution: inputs of the wrong JavaScript type, unsupported keys and the query page are left out; only its ordering is modelled.
- Timestamps: `Date.parse` and `toISOString` follow ECMAScript, with fractions cut to milliseconds.
- AttributionRandomized.KeyTextIsFaithful: identifiers are assumed to hold no `|` and exposure ids to be positive, as the stable-code and integer checks of their writers provide; those writers are not part of this model.
- AutomaticRecall.NeverBoth: speaks of the compact flat texts that the encoder writes, the only ones the columns receive; NeverBothBy covers every other JSON text. The ledger steps and health totals likewise read other texts as undecodable. Storage failures and the visibility filter of the window are left out.
- OwnerEvidence.RetainsAgree: a path, once created, is never replaced; deletion or renaming by the user, ENAMETOOLONG on older paths and what an fsync makes durable are not modelled. Record safety rests on comparing stored pins, so the hash is any function of the pins.
- Owner evidence: the mode without expected pins, which addresses files by database name, is left out.
- PeerAddresses.MergeCoordinatorPeerAddresses: URL handling is abstract. All but the bound and the distinct keys is stated for addresses whose normal form is its own normal form, which holds for http and https addresses without a default port and not otherwise.
- Backfill: exceptions thrown by predicates and runners, and what a job does, are left out; the list of plans has no empty slots; times are numbers, as their ISO texts order.
- Observer: the sweeper is its promise only: it drains, then asks once whether to resume, then creates an observer or throws.
- BindingPin: reading an acceptable configuration text is an uninterpreted function of the three configuration bindings; what a built worker serves, `createBrowserAuthSetup`, limiters and responses are left out.
- SignedRequests.SignatureIsForOneRequest: that a signature binds its text is a hypothesis on the signature check; UTF-8 encoding of the text, SHA-256 and Ed25519 are left out. Upper-casing is that of ASCII method tokens.
- SshKeys: the platform's import of the DER is left out.
- ShellQuoting: the tokenizer gives up on double quotes, expansions, patterns, comments, here-documents and escaped line ends outside quotes, none of which occurs in these commands; log redaction is left out.
- SeenNotices: location filtering, replay and its timeout, and exceptions from the toast, which the source swallows, are left out.
- Hook mapping, the command tree, diagnostics counters, HTTP handlers, user interface, benchmarks and documentation: plumbing or declarations, with only easy claims to make.
