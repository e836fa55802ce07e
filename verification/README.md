# Verified model of the M261 point map, stream and wire code

A Dafny 4.11 model of the parts of the repository whose correctness is spread over several
functions, with proofs of what those parts promise together. Check it with
`dafny verify dfyconfig.toml`.

## What is modelled

**The register-map join** (`catalog/join.py`). `NamePool` is the dictionary of queues by join
key, changed in place; `JoinDevice.JoinDevice` is the three passes with their pools, claimed
readbacks, warnings and tag dictionaries. It is proved equal, on every input and every error
path, to the fold in `JoinSpec`, in which a pool is just the list of rows not yet taken.
`JoinTheorems`, `JoinPoints`, `JoinRegisters`, `JoinConservation`, `JoinRanks` and `JoinValidates`
then prove what the fold means: setpoints sit at their formula address, every Modbus register ends
on a point, in the report, or overwritten with a point of the same IEC address, with the exact
condition for the last never to happen; alarms and telemetry are matched by rank and no matching by
name is larger; tags are conserved and moved to the setpoint they are read back from; and the
output passes the validator's checks. `JoinReport` gives every field of every point and every list of
the report, and the error raised, in terms of the rows read. Around it:
`Subtables`, `ModbusSheet` and `SheetRoundTrip` (`catalog/parsing.py`), `Validator` (`catalog/validate_catalog.py`),
and `Catalogue`, `Slugs`, `SlugNames` and `Overrides` (`catalog/build_catalog.py`): the joins of all devices
together, slug assignment, and overrides applied to shared records through an index.

**The event stream, end to end.** `Store` is the simulator's point store with one revision per
mutation; `Feed` is the loop behind one event-stream connection, with its bounded lossy queue and
its coalescing window; `EventStreamHook` is the console's hook in its own imperative form, proved
to follow the transitions in `Console`. `Replication` composes them with a transport that can be
lost at any time, and `ReplicationTheorems` proves that in every reachable state the console's map
is the store's map at the revision the console names, of the server process its last snapshot came
from. `StoreMutations` ties the store's methods to the mutations of that system and a batch to its
single writes; `Recovery` shows how a demand to resynchronise, and a batch lost in the queue, bring a
console back to a fresh connection; and `StaleConsole` exhibits a reachable quiet console that shows an
old store. `Lifecycle` and `Logs` treat the connection lifecycle, sources the browser fails
included, the replay gate and the three bounded logs. `Journal` is the server's journal of rare
events, and `EventDelivery` follows those events to one client, through the subscriber channel, the
numbering shared with telemetry, the wire, lost connections and server restarts, to the number the
client reports when it comes back; `HubSteps` ties the hub's methods to the steps of that system.

**The reset gate** (`simulator/internal/appgate/gate.go`): any number of operations and resets as
interleaved steps over the documented contract of a read-write lock, in `Gate`, `GateTheorems` and
`GateOpen`.

**The wire codec** (`gen/go/m261points/codec.go`): in-place byte reordering, two's complement, and
the scaled quantiser over the reals, in `Codec`; `CodecBytes` says which byte stands where on the wire
and which whole number a value is rounded to.

**Naming and reporting.** `EnumNames` is the identifier registry and the constant and enumeration
generators of `codegen/gen_go.py`, and `EnumContents` what they declare; `Diagnostics` is the per-point diagnostic table of
`simulator/internal/commands/diagnostics.go`. `FreshNames` holds the numbering both namers use.

Classes are used where the source updates an object or a dictionary in place, and each of their
methods is tied to a specification function. Regular expressions, name normalisation and text
conversion enter as parameters.

## Where the code and its documentation differ

The model follows the code.

- A mutation that changes nothing (a reset while the startup values are in force,
  `store.go:364-376`) takes a revision and is queued with no changes. If nothing is pending when
  the connection loop takes it, the next telemetry message starts one revision too late and the
  console takes it for a gap and reconnects, though nothing was lost
  (`ReplicationTheorems.GapExactlyAfterIdleBatches`, `NoOpMutationBreaksConnection`).
- `eventhub.go:9-10` and `api-v1.yaml:32` promise that a reconnecting client gets every missed rare
  event or is told to resynchronise. `EventDelivery.ToldEverythingIff` gives the exact condition over
  all reachable states, server restarts included: the number reported demands a resync, or it is safe.
  A number is unsafe in five ways, each with a run that loses an event. It is zero, as a client reports
  after the snapshot and end-of-replay frames (`v1.go:262-270`), and an unread event has been evicted
  (`ZeroLosesEvicted`). It came from a telemetry frame that took it while an event published earlier
  still waited in the connection's channel, because telemetry takes its number when it is written
  (`v1.go:283-287`, `OvertakenEventIsLost`). It was read on a connection whose own answer had left an
  event out (`PartialAnswerLosesEvent`). It comes from an earlier server process and does not lie below
  every event of this one, `eventhub.go:49-51` covering only numbers not given out yet
  (`OldNumberLosesEvent`). Or an event of an earlier process was never read: the journal is in memory
  and the new process neither has the event nor demands a resync (`RestartLosesEvent`), and it stays
  owed until a demand to resynchronise is read (`OwedUntilResync`).
- In the other direction `Journal.NeedlessResync` gives the exact range of numbers for which a client
  is sent away although every event numbered above its own is still kept.
- `use-simulator.ts:236-241` leaves a transport error to the source's own retry. An answer other than
  a successful event stream makes the browser fail the source for good (HTML Living Standard,
  section 9.2), and the handler then only sets a status, so the mounted hook keeps neither a live
  source nor a timer (`Lifecycle.OneSourceOrOneTimerIff`, `FailedSourceStrands`).
- `use-simulator.ts:183-186` says a connection's history replay is never presented as something
  that just happened. The browser's own reconnect keeps the event source and with it the open
  replay gate, so an event replayed then is logged (`ReplicationTheorems.ReplayLoggedIffGateWasOpen`).
- A dropped batch is noticed only when a later one arrives, so a quiet console can stay stale:
  `StaleConsole.StaleConsoleIsReachable` is such a run, and
  `ReplicationTheorems.QuietConsoleIsCurrent` says exactly which quiet consoles are current.
- Without distinct IEC-104 addresses the join can lose Modbus rows without reporting them
  (`JoinConservation.RepeatedAddressLosesRow`). `JoinConservation.RowsConservedIff` says exactly when
  it does not: any two rows at one address are both setpoints, or neither is and the earlier one is
  given no Modbus row; and a setpoint whose address an earlier setpoint has finds neither a row of its
  name nor the fallback row in the pool (`RepeatedSetpointLosesRow` is the run that breaks this). The
  second half always holds where class 3 registers differ (`DifferingRowsConservedIff`).
- A setpoint outside 25089..25236 passes the join and fails the validator. Over the rows read, the
  catalogue has as many setpoints as there are setpoint rows, and all meet both formulas exactly when
  all those rows lie in that range (`Catalogue.JoinedSetpoints`, `CataloguePassesFormulaCheckIff`).
- `build_catalog.py:200-204` says a setpoint's telemetry twin gets the suffix `_2`. Where the controls
  have different names it does exactly when no other point served before has the twin's own clean
  name or that name with `_2` (`Slugs.TwinSuffixByNames`); an alarm whose own name ends that way
  pushes it to `_3` (`Slugs.TwinCanBeThird`).
- `gate.go:51-53` says `Exclusive` blocks every `Op` call started after it. A read-write lock does so
  only from the moment the writer announces itself, and a writer that calls while another is at the
  gate announces itself after that one has left; in between, operations called later get in
  (`GateTheorems.LaterOperationGetsIn`). `CallKeepsOperationsOutIff` gives the exact condition: no other
  reset at the gate, or no operation left to come. `doReset` takes another lock first
  (`handlers.go:457`), so resets from there do not meet at the gate.
- With scale zero the quantiser divides by nothing and multiplies by zero, so only zero survives
  (`Codec.QuantisationErrorIff`).
- Two spellings of one enumeration code, or a code that does not fit the declared `int32`, produce an
  enumeration that does not compile (`EnumNames.EnumCompilesIff`).

## Model

| member | source | states |
|---|---|---|
| NamePools.NamePool.constructor | catalog/join.py:68-73 | the pool built from a file holds the rows of its class, each queue in file order |
| NamePools.NamePool.PopLeft | catalog/join.py:99 | gives the first remaining row of the name, if any, and takes exactly that row out |
| NamePools.NamePool.Remove | catalog/join.py:104-106 | takes one copy of the row out of the queue of its own name, and changes nothing if it is gone |
| NamePools.NamePool.Leftovers | catalog/join.py:211-214 | lists the remaining rows queue by queue in the order the names first appeared, empty queues made by lookups contributing nothing |
| NamePools.GatheredIsEverything | catalog/join.py:211-214 | going through the queues reaches every remaining row exactly once |
| JoinSpec.AddressOrderUnique | catalog/join.py:239 | a dictionary of points has only one listing in address order |
| JoinSpec.TagsHavePoints | catalog/join.py:232-233 | every address that is given a tag has a point, so the tag loop never fails |
| JoinDevice.IndexByAddress | catalog/join.py:87 | the fallback index holds the last holding register at each address |
| JoinDevice.JoinSetpoint | catalog/join.py:94-168 | one setpoint: pop by name, fall back to the formula address, control check, readback claim, both error paths, warnings |
| JoinDevice.JoinSetpoints | catalog/join.py:92-168 | the whole first pass over the pool, its claims, warnings and first error |
| JoinDevice.JoinOther | catalog/join.py:172-209 | one alarm or telemetry row, a readback duplicate asking no pool |
| JoinDevice.JoinAlarmsAndTelemetry | catalog/join.py:170-209 | the whole second pass over both pools and its unmatched rows |
| JoinDevice.PopReadbackTags | catalog/join.py:226-230 | each setpoint takes the tag at its readback address out of the dictionary, in whatever order the points are visited |
| JoinDevice.PlaceTags | catalog/join.py:232-233 | the tags left over go to the points at their own addresses and nothing else changes |
| JoinDevice.MarkTagSource | catalog/join.py:235-237 | exactly the points with a tag name TAG among their sources |
| JoinDevice.TransferTags | catalog/join.py:224-237 | the three tag loops together give each point the tag it is due by the rule on readback addresses |
| JoinDevice.AttachTags | catalog/join.py:216-239 | fails exactly when tags and read-only rows differ in number, and otherwise lists every point with the tag it is due, by address |
| JoinDevice.JoinDevice | catalog/join.py:76-239 | the imperative join ends with the outcome, report and error of the plain fold, listed in address order |
| JoinReport.UnmatchedIecIsGivenNothing | catalog/join.py:172-190 | the IEC rows reported as unmatched are, in file order, exactly the alarm rows and the telemetry rows at no setpoint's readback address that have no partner |
| JoinReport.GivenIsPartner | catalog/join.py:180-190 | the row an alarm or telemetry row is given is the partner its rank among the asking rows of its name gives it |
| JoinReport.OtherPointHolds | catalog/join.py:192-209 | every field of an alarm or telemetry row's point comes from that row and its partner; without a partner the Modbus fields are empty |
| JoinReport.SetpointPointHolds | catalog/join.py:143-168 | every field of a setpoint row's point comes from that row and a holding register at 40001 + 2*(address - 25089); the readback address is 16411 + (address - 25089) within 25089..25236 |
| JoinReport.UnmatchedModbusListed | catalog/join.py:211-214 | the Modbus rows reported as unmatched are those the askers leave of class 2, then class 4, then class 3, each name by name, with address and name as written |
| JoinReport.KeysByFirstAppearance | catalog/join.py:68-73 | the names go in the order in which they first appear |
| JoinReport.SetpointWarnings | catalog/join.py:100-154 | where class 3 registers differ, the setpoints joined by formula are, in file order, those whose name no available register has, each with its register's name; the ones without readback are those outside 25089..25236 |
| JoinReport.FirstMisfitFails | catalog/join.py:97-141 | where class 3 registers differ, the join raises the error of the first setpoint that does not fit, with the addresses it names, having warned of those before it |
| JoinReport.IndexHasLast | catalog/join.py:87 | of the holding registers at one address the fallback index has the last |
| JoinReport.TagsHaveLast | catalog/join.py:224 | of the read-only rows at one address the tag dictionary has the last |
| JoinTheorems.SetpointsOnFormula | catalog/join.py:97-141 | every setpoint that got through holds a class 3 row at 40001 + 2*(address - 25089) |
| JoinTheorems.SetpointsClaimed | catalog/join.py:94-141 | if the pass raises nothing, every setpoint row got through |
| JoinTheorems.StepTakesOne | catalog/join.py:99-109 | though the fallback index is never updated, a setpoint whose formula address no setpoint before it has finds a row, still unused, and takes exactly that row out of the pool |
| JoinTheorems.FirstConserves | catalog/join.py:94-168 | rows given to setpoints plus rows left are the class 3 rows, each once |
| JoinRegisters.SecondPassAccounted | catalog/join.py:172-209 | the registers on the points of the second pass, those it overwrote with a point and those left in its pools are the registers of the points it started from and the class 2 and class 4 registers, each once |
| JoinRegisters.FirstAccounted | catalog/join.py:94-168 | the registers on setpoint points, those left and those a repeated setpoint took once more are the class 3 registers, each once |
| JoinRegisters.RegistersAccounted | catalog/join.py:83-214 | the registers on the points of both passes, those of the rows left, those overwritten with a point and those taken once more for a repeated setpoint are the registers read, each once |
| JoinRegisters.NothingOverwrittenIff | catalog/join.py:172-209 | the second pass overwrites no register exactly when no alarm or telemetry row stands at a setpoint's address or after one of its own kind that was given a Modbus row there |
| JoinConservation.RowsConservedIff | catalog/join.py:83-239 | the registers on the points of a successful join and of the rows it reports are those of the rows read, each once, exactly when any two rows at one IEC address are both setpoints or are both not and the earlier is given no Modbus row, and no setpoint at the address of a setpoint before it finds a row in the pool |
| JoinConservation.DifferingRowsConservedIff | catalog/join.py:83-239 | where class 3 registers differ, the first half of that condition, on the rows read alone, decides |
| JoinConservation.RepeatedSetpointLosesRow | catalog/join.py:94-168 | two setpoint rows at one IEC address and two registers of their name at its formula address: the join succeeds, reports nothing, and has one register on its points |
| JoinConservation.DistinctRowsConserved | catalog/join.py:83-239 | with distinct IEC addresses the same conservation holds whatever the registers |
| JoinConservation.OutputConservesAddresses | catalog/join.py:83-239 | where rows are conserved, the Modbus addresses on the listed points and in the report are those of the rows read, each as often |
| JoinConservation.RepeatedAddressLosesRow | catalog/join.py:192-209 | two alarm rows at one IEC address: the join succeeds, reports nothing, and the first Modbus row is on no point |
| JoinTheorems.SetpointPassSucceedsIff | catalog/join.py:94-141 | where class 3 registers differ, the setpoint pass raises nothing exactly when every setpoint has a register at its formula address and, if its name finds any register left over by the formulas of the setpoints before it, the first one found is that register; IEC addresses may repeat |
| JoinTheorems.NameJoinRefinesFormula | catalog/join.py:97-141 | on success the name-based join gives each setpoint the row a plain lookup by formula address would |
| JoinTheorems.FirstPoints | catalog/join.py:143-168 | after the first pass each claim has its point and each readback claim its setpoint |
| JoinPoints.SecondPoints | catalog/join.py:172-209 | after the second pass every other row has its point, built from a claim of that row, and setpoint points are untouched |
| JoinPoints.PointsMatchRows | catalog/join.py:89-209 | one point per IEC row, under that row's address, of its class and access, setpoints with both formula addresses |
| JoinPoints.TagOfRow | catalog/join.py:216-233 | the tag of every row's point: a setpoint has the tag of its readback address, another point its own unless a setpoint took it |
| JoinPoints.TagReachesHolder | catalog/join.py:216-237 | the i-th tag ends on the i-th read-only row's point, or on the setpoint read back there, whose readback point then has none |
| JoinPoints.TagsConserved | catalog/join.py:216-233 | every tag on a point came from a tag row and no two tag rows share a holder |
| JoinRanks.RestQueue | catalog/join.py:180-190 | after some rows of a name have asked, exactly that many are gone from the front of its queue |
| JoinRanks.HeadIsPartner | catalog/join.py:180-190 | what the r-th asking row of a name finds is the r-th row of that name |
| JoinRanks.SecondPassPairsByRank | catalog/join.py:170-209 | alarms against class 2 and telemetry against class 4 are paired by rank within their name; readback duplicates take nothing wherever they stand |
| JoinRanks.NoLargerMatching | catalog/join.py:170-190 | no one-to-one matching by name pairs more rows than the join does |
| Validator.CheckNoAddressCollisions | catalog/validate_catalog.py:283-299 | the counting check reports exactly the repeated device and address pairs, for both address kinds |
| Validator.CheckTagCount | catalog/validate_catalog.py:211-224 | the devices reported are exactly those whose tags and read-only points differ in number |
| Validator.CheckSetpointFormula | catalog/validate_catalog.py:174-189 | no failure is reported exactly when there are 148 setpoints and all meet both formulas |
| Validator.FormulaInNumbers | catalog/validate_catalog.py:174-189 | the formulas are 40001 + 2*(address - 25089) and 16411 + (address - 25089), and 148 setpoints are one for each address 25089..25236 |
| JoinValidates.PointsHaveOwnRegisters | catalog/join.py:76-239 | with distinct register addresses no two points carry the same Modbus address |
| JoinValidates.JoinPassesCollisionCheck | catalog/validate_catalog.py:283-299 | the output of a join over distinct addresses passes the collision check |
| JoinValidates.JoinPassesTagCheck | catalog/validate_catalog.py:211-224 | the output of a successful join has as many tags as read-only points, for every device |
| JoinValidates.JoinPassesFormulaCheckIff | catalog/validate_catalog.py:174-189 | the output of a successful join passes the formula check exactly when its setpoints are the addresses 25089..25236 |
| Subtables.SplitSubtables | catalog/parsing.py:87-121 | the loop that keeps appending through `current` ends with the subtables, or the offending row, that the line-by-line split gives |
| Subtables.SplitFailsIff | catalog/parsing.py:115-118 | splitting fails exactly when a data row stands before every "no:" line |
| Subtables.SplitLosesNothing | catalog/parsing.py:87-121 | one subtable for each "no:" line in order, and together exactly the sheet's data rows in order |
| Subtables.LineGathersItsRows | catalog/parsing.py:98-119 | a "no:" line's subtable holds exactly the data rows from there to the next such line |
| SheetRoundTrip.LineKinds | catalog/parsing.py:93-116 | which lines announce a device and which are data |
| SheetRoundTrip.WrittenSheetIsParsed | catalog/parsing.py:87-263 | a sheet written section by section is split and parsed back into every row, in order, under its own device |
| SheetRoundTrip.UnknownDeviceReported | catalog/parsing.py:124-131 | after readable subtables the first unknown device is the error |
| SheetRoundTrip.BadLineReported | catalog/parsing.py:234-247 | after readable subtables and lines the first bad line gives the error, with the junk dropped before it |
| ModbusSheet.ReadLine | catalog/parsing.py:235-261 | which rows are kept, which are dropped as junk, and which of the errors each unreadable row raises |
| ModbusSheet.WrittenRowIsRead | catalog/parsing.py:235-261 | a row laid out cell by cell is read back whole, every field from its own column |
| ModbusSheet.ParseModbus | catalog/parsing.py:226-263 | the nested loops give the kept rows, the dropped junk and the first error of the row-by-row reading |
| ModbusSheet.ParseSucceedsIff | catalog/parsing.py:226-263 | parsing succeeds exactly when every device is known and every row readable; then every row is kept or dropped, in order |
| ModbusSheet.ParsedRowsReachJoin | catalog/build_catalog.py:61-89 | the registers of the Modbus rows parsed for a device are those on its points and of the rows reported as unmatched, each once |
| Catalogue.BuildPoints | catalog/build_catalog.py:76-89 | the catalogue is the joins of the devices in order, or the first device's error after which nothing is joined; the shared warnings grow by exactly what each device joined reports, the failing one included |
| Catalogue.CatalogueHasNoCollisions | catalog/validate_catalog.py:283-299 | the whole catalogue has no collision when addresses differ within each device and file |
| Catalogue.CatalogueTagsMatch | catalog/validate_catalog.py:211-224 | every device of the whole catalogue has as many tags as read-only points |
| Catalogue.CataloguePassesFormulaCheckIff | catalog/validate_catalog.py:174-189 | the whole catalogue has as many setpoints as the files have setpoint rows, and they meet both formulas exactly when all those rows lie in 25089..25236 |
| Catalogue.JoinedSetpoints | catalog/validate_catalog.py:174-189 | one device has as many setpoints as setpoint rows, and they meet both formulas exactly when all those rows lie in 25089..25236 |
| FreshNames.DecimalInjective | catalog/build_catalog.py:113 | two numerals are equal only for equal numbers |
| FreshNames.DecimalReads | catalog/build_catalog.py:113 | a numeral read by position gives back its number, in digits and without a leading zero |
| FreshNames.CandidatesDiffer | catalog/build_catalog.py:113 | the candidates base, base_2, base_3 and so on are pairwise distinct |
| FreshNames.TakenAreFew | catalog/build_catalog.py:112-114 | a finite set of used names cannot hold all candidates, so the numbering loop ends |
| FreshNames.NextFree | catalog/build_catalog.py:109-114 | the loop ends with the first candidate not in use |
| Slugs.SlugRegistry.SlugFor | catalog/build_catalog.py:108-116 | one device's used names grow by the slug returned, which is its first free candidate; other devices are untouched |
| Slugs.AssignSlugs | catalog/build_catalog.py:205-209 | serving the points in order gives each the first candidate free within its device |
| Slugs.SlugsAreDistinct | catalog/build_catalog.py:108-116 | no two points of a device share a slug |
| Slugs.ServiceOrderPutsControlsFirst | catalog/build_catalog.py:205-209 | the sort key puts a device's alarms and setpoints before its telemetry |
| Slugs.CleanNameIsHeld | catalog/build_catalog.py:108-116 | once a point is served its clean name is held by it or by a point served before it |
| Slugs.TelemetryYieldsCleanNames | catalog/build_catalog.py:200-209 | telemetry never holds the clean name of an alarm or setpoint of its device, whatever its own name |
| Slugs.ControlsKeepCleanNamesIff | catalog/build_catalog.py:200-209 | all alarms and setpoints of a device keep their clean names exactly when those names differ |
| Slugs.TwinSuffix | catalog/build_catalog.py:200-209 | a telemetry twin gets the suffix _2 exactly when no earlier point of its device was given that slug |
| Slugs.TwinSuffixByNames | catalog/build_catalog.py:200-209 | where a device's controls have different names, the twin gets the suffix _2 exactly when no other point served before it has its clean name or that name with _2 |
| Slugs.TwinCanBeThird | catalog/build_catalog.py:200-204 | three points for which the twin gets the suffix _3 |
| SlugNames.SameNamesAreNumbered | catalog/build_catalog.py:108-116 | points of one device that share a clean name get it plain, then with _2, _3 and so on in the order they are served |
| SlugNames.NamelessArePoints | catalog/build_catalog.py:109 | points whose name leaves nothing are point, point_2 and so on |
| SlugNames.DevicesDoNotMix | catalog/build_catalog.py:204-209 | the slugs of one device are what its own points alone would get |
| SlugNames.ServedByAddress | catalog/build_catalog.py:205-209 | devices are served one after another, and within a device points of one rank by address |
| Slugs.IndexRecords | catalog/build_catalog.py:164 | the index holds every reference, each with the last record under it |
| Overrides.ApplyOverrides | catalog/build_catalog.py:164-173 | fails exactly for a reference no record was built under, naming the first; otherwise every record found through the index has its own overrides on top and every other record is as it was |
| Overrides.OverridesDoNotMix | catalog/build_catalog.py:165-172 | under differing references each configured record gets exactly its own entry, whatever the order of entries |
| Overrides.FieldsAfterOverrides | catalog/build_catalog.py:165-172 | a configured record has its entry's value in every field named there and its old value in every other; other records are unchanged |
| Slugs.IndexIsOneToOne | catalog/build_catalog.py:164-212 | over assigned slugs, with the records listed in any order, the override index has one entry per record and finds each record at its own place |
| Store.PointStore.Set | simulator/internal/store/store.go:225-246 | refused for an unknown key; otherwise one revision, the point and then its readback twin set, and one batch of exactly these changes |
| Store.PointStore.SetBatch | simulator/internal/store/store.go:405-431 | all or nothing and one revision; the values are those of one write after another, each with its readback twin, and the batch carries exactly the change of state |
| Store.LastWriteStays | simulator/internal/store/store.go:414-422 | after a run of writes each point has the last value written to it or mirrored onto it, and any other its own |
| StoreMutations.SetBatchIsSets | simulator/internal/store/store.go:384-431 | on a store in the same state, the writes set one by one leave the same values and publish the same changes as the batch |
| Store.PointStore.Restore | simulator/internal/store/store.go:364-381 | one revision; the batch names each point of the snapshot that was missing or differed, once and with its new value, and no other |
| StoreMutations.SetIsMutation | simulator/internal/store/store.go:225-246 | a write accepted by the store is a mutation step of the end-to-end system, its batch the one the connection queues |
| StoreMutations.SetBatchIsMutation | simulator/internal/store/store.go:405-431 | so is an accepted batch of writes |
| StoreMutations.RestoreIsMutation | simulator/internal/store/store.go:364-381 | so is a restore, with changes or without |
| Store.OverlayAppend | simulator/internal/controlapi/v1.go:324-327 | folding two lists of changes one after the other is folding their concatenation |
| EventStreamHook.Hook.constructor | webui/src/use-simulator.ts:124-130 | the mounted hook holds one source and an empty map |
| EventStreamHook.Hook.Connect | webui/src/use-simulator.ts:127-131 | opens one source and shuts the replay gate, unless unmounted |
| EventStreamHook.Hook.ConnectLater | webui/src/use-simulator.ts:243-245 | one reconnect timer, unless unmounted |
| EventStreamHook.Hook.Consume | webui/src/use-simulator.ts:132-222 | every message kind moves the hook's whole state as the transition system says |
| EventStreamHook.Hook.RetryTimerFires | webui/src/use-simulator.ts:243-245 | the timer is spent and a connection opened, unless unmounted |
| EventStreamHook.Hook.SourceFails | webui/src/use-simulator.ts:239-241 | a source failed by the browser is closed and nothing else of the hook changes |
| EventStreamHook.Hook.Unmount | webui/src/use-simulator.ts:247-251 | closes the source held and clears the timer held |
| EventStreamHook.Hook.RecordHistory | webui/src/use-simulator.ts:87-99 | the histories become what the specification records for the map just set: one observation for each of its points, other histories untouched |
| Logs.LogIsNewestFirst | webui/src/use-simulator.ts:200 | the event log is the newest twenty of everything accepted followed by what was restored |
| Logs.ProgressIsLongestRun | webui/src/use-simulator.ts:201-219 | the progress list is the longest one-scenario run of steps ending now since the last accepted reset |
| Logs.HistoryIsNewestMovements | webui/src/use-simulator.ts:92-96 | each point's bounded history is the last 36 of its full sequence of changed values |
| Logs.HistoriesAreNewestMovements | webui/src/use-simulator.ts:87-99 | over any run of point maps exactly the points ever observed have a history, and it is the last 36 of their changed values |
| Lifecycle.HeldKept | webui/src/use-simulator.ts:124-251 | every message, source failure, timer and cleanup keeps the lifecycle invariant; only a failed source leaves the mounted hook with neither source nor timer |
| Lifecycle.AlwaysHeld | webui/src/use-simulator.ts:124-251 | in every reachable state only handles held are in play, and the mounted hook has neither source nor timer exactly when the browser failed the source opened last |
| Lifecycle.OneSourceOrOneTimerIff | webui/src/use-simulator.ts:124-251 | while mounted there is exactly one of an open source and a pending timer exactly when the browser has not failed the source opened last; after a failure only cleanup can happen, after cleanup nothing |
| Lifecycle.FailedSourceStrands | webui/src/use-simulator.ts:239-241 | failing the very first source leaves a mounted hook with neither source nor timer |
| Lifecycle.LogsFollowReplayGate | webui/src/use-simulator.ts:160-221 | over every run both logs are what the events past the replay gate of their own connection make them |
| Lifecycle.RecordedEventsAreLive | webui/src/use-simulator.ts:183-221 | both logs in closed form over the events that arrived after the end of replay of their connection |
| Replication.LabelInjective | webui/src/use-simulator.ts:152-153 | device/slug labels are unambiguous while device codes hold no slash |
| Replication.AssignedMirrors | webui/src/use-simulator.ts:174-179 | assigning labelled changes to a mirror of a store map mirrors the changed store map |
| ReplicationTheorems.TakeSound | simulator/internal/controlapi/v1.go:311-328 | taking a batch keeps what is pending equal to the difference between two store revisions |
| ReplicationTheorems.FlushSound | simulator/internal/controlapi/v1.go:283-298 | a telemetry message carries exactly what turns the store before its first revision into the store at its last |
| ReplicationTheorems.ConsumeKeepsReplica | webui/src/use-simulator.ts:145-181 | reading one sound message keeps the console's map equal to the store at the revision it names |
| ReplicationTheorems.StepKeepsInvariant | simulator/internal/controlapi/v1.go:237-330 | mutation, queueing, coalescing, delivery, loss, server restart, reconnect and unmounting all keep the end-to-end invariant |
| ReplicationTheorems.ConsoleReplicatesStore | webui/src/use-simulator.ts:145-181 | in every reachable state the console's map is empty before the first snapshot and then is the store's map at the console's revision, in the server process the last snapshot came from; after a restart a snapshot is read first |
| Recovery.ResyncRecovers | webui/src/use-simulator.ts:145-149 | a demand to resynchronise closes the source and sets one new timer; map, revision, gate and logs stay |
| Recovery.GapRecovers | webui/src/use-simulator.ts:164-172 | so does telemetry that does not continue the revision held |
| Recovery.OthersKeepConnection | webui/src/use-simulator.ts:145-221 | no other message touches source or timer |
| Recovery.UnnumberedTelemetryIsIgnored | webui/src/use-simulator.ts:164 | telemetry without a revision changes nothing |
| Recovery.TimerReconnects | webui/src/use-simulator.ts:127-131 | the pending timer opens one new source with the replay gate shut, and clears nothing shown |
| Recovery.DemandEndsConnection | webui/src/use-simulator.ts:145-149 | in every reachable state, reading a demand to resynchronise ends the transport and leaves one timer |
| Recovery.TimerOpensConnection | webui/src/use-simulator.ts:243-245 | in every reachable state, firing the timer opens a new source over which the server accepts a fresh bootstrap |
| Recovery.ExpiredBootstrapEndsConnection | simulator/internal/controlapi/v1.go:263-266 | a bootstrap whose history has expired shows the present store and ends the connection |
| Recovery.TakenBatchDecides | simulator/internal/controlapi/v1.go:311-328 | a batch that does not follow the last one ends the loop with a demand to resynchronise; one that does writes nothing |
| Recovery.QueuedUnlessFull | simulator/internal/store/store.go:508-520 | a mutation is queued, or dropped exactly when 64 batches wait |
| Recovery.DroppedBatchIsNoticed | simulator/internal/controlapi/v1.go:315-320 | a loop that has emptied its queue after a drop ends with a demand to resynchronise at the next mutation it takes |
| ReplicationTheorems.MirrorsDetermines | webui/src/use-simulator.ts:151-155 | the console's map is determined by the store map it mirrors |
| ReplicationTheorems.GapExactlyAfterIdleBatches | webui/src/use-simulator.ts:164-172 | a message is taken for a gap exactly when the server passed over batches without changes, and a gap leaves map and revision alone |
| ReplicationTheorems.QuietConsoleIsCurrent | simulator/internal/store/store.go:456-459 | on a quiet connection the console shows the present store exactly when the store equals the last batch taken, and always if no batch was dropped |
| StaleConsole.QuietConnectionIsReachable | simulator/internal/controlapi/v1.go:237-330 | from any startup values some reachable connection is quiet, lossless and past its replay |
| StaleConsole.StaleConsoleIsReachable | simulator/internal/store/store.go:456-459 | 64 changes fill the queue, a 65th is dropped, the queue is drained, flushed and read: a reachable quiet console that does not show the store |
| ReplicationTheorems.NoOpMutationBreaksConnection | simulator/internal/controlapi/v1.go:320-327 | from any quiet lossless connection, a restore that changes nothing and then one real change end with the source closed and a timer pending |
| ReplicationTheorems.ReplayLoggedIffGateWasOpen | webui/src/use-simulator.ts:183-200 | after the browser's own reconnect and any replay, all of it is in both logs if the replay gate had been open and none of it if not |
| Journal.AboveReplayedOrResyncIff | simulator/internal/controlapi/eventhub.go:42-60 | all events numbered above the number reported are replayed, or a resync demanded, exactly when that number is above zero or nothing was evicted |
| Journal.NothingMissed | simulator/internal/controlapi/eventhub.go:52-60 | evicting the front of the journal loses nothing exactly when its newest event is no newer than the number reported |
| Journal.NeedlessResync | simulator/internal/controlapi/eventhub.go:49-52 | a client is sent away although every event numbered above its own is kept exactly when its number lies between the newest evicted event and the oldest kept one |
| Journal.EventHub.Publish | simulator/internal/controlapi/eventhub.go:23-40 | history stays the newest events published; a subscriber has the event queued last or loses its channel |
| Journal.EventHub.Subscribe | simulator/internal/controlapi/eventhub.go:42-69 | the replay is the kept events above the number reported or a resync, registered in the same step; a number above all given out always gets a resync and no replay |
| EventDelivery.UnknownNumberIsDismissed | simulator/internal/controlapi/eventhub.go:49-52 | a client that reports a number not given out is answered with a resync and has everything settled once it has read that |
| EventDelivery.RestartIsNoticed | simulator/internal/controlapi/eventhub.go:49-52 | after a restart every client with a number above zero is sent to resynchronise until that number is given out again |
| EventDelivery.StepKeeps | simulator/internal/controlapi/v1.go:255-330 | publishing, writing, reading, losing, reconnecting, starting over and restarting keep the account of which events are read, on the wire, in the channel, missed or left out by an answer |
| EventDelivery.ToldEverythingIff | simulator/internal/controlapi/eventhub.go:8-10 | in every reachable state without a connection, whatever was lost before and whether or not the server restarted, a returning client is sent to resynchronise or replayed everything it lacks exactly when its number demands a resync or is safe |
| EventDelivery.SafeMeansNothingBelow | simulator/internal/controlapi/eventhub.go:49-52 | with nothing owed from an earlier process, a number above zero is safe exactly when every event of this process numbered at or below it is settled |
| EventDelivery.OvertakenEventIsLost | simulator/internal/controlapi/v1.go:283-287 | a telemetry frame is numbered after an event and written before it; the client reports the frame's number and the event is never replayed |
| EventDelivery.OldNumberLosesEvent | simulator/internal/controlapi/eventhub.go:49-52 | a number from an earlier process is taken for one of this process, and an event of this process is never replayed |
| EventDelivery.ZeroLosesEvicted | simulator/internal/controlapi/v1.go:262-270 | a client that read only the bootstrap reports zero after an unread event was evicted, and is neither replayed it nor told to resynchronise |
| EventDelivery.RestartLosesEvent | simulator/internal/controlapi/eventhub.go:46-52 | an event published on a live connection and unread when the server restarts is neither replayed nor covered by a resync |
| EventDelivery.PartialAnswerLosesEvent | simulator/internal/controlapi/eventhub.go:52-60 | a number read in order after an answer that left an event out never brings that event back |
| EventDelivery.OwedUntilResync | simulator/internal/controlapi/v1.go:265-266 | what is owed from an earlier process stays owed until a demand to resynchronise is read |
| HubSteps.PublishSteps | simulator/internal/controlapi/eventhub.go:23-40 | the hub's publish is the system's publishing step |
| HubSteps.NumberSteps | simulator/internal/controlapi/eventhub.go:41 | the number the hub gives is the one the system takes, or writes on its telemetry frame |
| HubSteps.SubscribeSteps | simulator/internal/controlapi/eventhub.go:42-69 | the hub's answer is what the system's connection starts with on the wire |
| HubSteps.UnsubscribeSteps | simulator/internal/controlapi/eventhub.go:61-68 | unsubscribing is the loss of the connection |
| GateTheorems.GuardedKept | simulator/internal/appgate/gate.go:43-65 | the lock's bookkeeping matches where the goroutines are, after every action |
| GateTheorems.ResetsAreAtomic | simulator/internal/appgate/gate.go:7-24 | whenever no reset is inside, any run did what some serial order of whole resets among the operations' steps does, no reset between two steps of one operation |
| GateTheorems.ResetInsideIsAlone | simulator/internal/appgate/gate.go:51-65 | while a reset is inside nothing else is |
| GateOpen.OperationsRunTogether | simulator/internal/appgate/gate.go:16-20 | any set of operations can be inside all at the same time |
| GateOpen.OperationMayEnterIff | simulator/internal/appgate/gate.go:43-48 | a waiting operation may enter exactly when no reset has announced itself |
| GateOpen.NilGateHoldsNothingBack | simulator/internal/appgate/gate.go:34-48 | without a gate nothing waits |
| GateTheorems.DrainsExactlyInFlight | simulator/internal/appgate/gate.go:51-65 | from a reset's announcement no operation gets in, each one leaving was in flight, and the reset may enter exactly when all of those have left |
| GateTheorems.CallKeepsOperationsOutIff | simulator/internal/appgate/gate.go:51-65 | after any run, every continuation from a reset's call to its entry lets no operation pass exactly when no other reset is at the gate at the call, or no operation is left to come |
| GateTheorems.OperationPassesQueuedReset | simulator/internal/appgate/gate.go:51-65 | behind another reset, any operation that has not passed the gate yet can pass it before the reset that called |
| GateTheorems.LaterOperationGetsIn | simulator/internal/appgate/gate.go:51-53 | two resets and an operation: the operation called last is inside while the second reset still waits |
| GateTheorems.CalledResetCanEnter | simulator/internal/appgate/gate.go:51-65 | any reset that has called, announced or queued, can be brought inside by letting the operations in flight and the one reset at the gate before it run out |
| GateTheorems.NilGateIsNotAtomic | simulator/internal/appgate/gate.go:34-42 | with a nil gate there is a run that no serial order explains: not by its steps, and every order of the reset and the operation ends in another state |
| Codec.ReverseInPlace | gen/go/m261points/codec.go:71-75 | the two-index loop reverses a buffer of any length |
| Codec.SwapWordsInPlace | gen/go/m261points/codec.go:77-84 | swaps the halves of a four-byte buffer and leaves every other one alone |
| Codec.Reorder | gen/go/m261points/codec.go:51-69 | the reordered copy is fresh and the argument unchanged |
| Codec.OrdersCompose | gen/go/m261points/codec.go:47-69 | the four orders compose like pairs of bits under exclusive or, on buffers of any length |
| Codec.ReorderUndoesItself | gen/go/m261points/codec.go:47-50 | every order is its own inverse on buffers of any length |
| CodecBytes.I16Bytes | gen/go/m261points/codec.go:97-105 | which of the two bytes stands where under each order, both ways |
| CodecBytes.I32Bytes | gen/go/m261points/codec.go:127-135 | which of the four bytes of a signed word stands where under each order, both ways |
| CodecBytes.F32Bytes | gen/go/m261points/codec.go:107-116 | which of the four bytes of a float pattern stands where under each order, both ways |
| Codec.U8RoundTrips | gen/go/m261points/codec.go:88-95 | one byte survives both directions in every order |
| Codec.I16RoundTrips | gen/go/m261points/codec.go:97-105 | 16-bit values and exact-width bytes survive both directions in every order |
| Codec.I32RoundTrips | gen/go/m261points/codec.go:127-135 | 32-bit values and exact-width bytes survive both directions in every order |
| Codec.F32BitsRoundTrip | gen/go/m261points/codec.go:107-116 | float bit patterns and exact-width bytes survive both directions in every order |
| Codec.QuantisationErrorIff | gen/go/m261points/codec.go:145-173 | what comes back from the wire is within half a scale step exactly when the scale is nonzero or the value zero |
| CodecBytes.I16ValueBytes | gen/go/m261points/codec.go:156-173 | a 16-bit point writes the bytes of the whole number nearest to its raw value, halves away from zero, and reads as that number times the scale; a scale of zero writes the value itself |
| CodecBytes.U8ValueByte | gen/go/m261points/codec.go:156-173 | an 8-bit point writes that whole number as its byte |
| CodecBytes.F32ValueBytes | gen/go/m261points/codec.go:156-173 | a float point writes the bytes of the pattern of its raw value |
| CodecBytes.HalfGoesUp | gen/go/m261points/codec.go:167 | n and a half is written as n + 1 |
| CodecBytes.HalfGoesDown | gen/go/m261points/codec.go:167 | minus n and a half is written as minus (n + 1) |
| Codec.QuantisationMonotone | gen/go/m261points/codec.go:145-173 | the order between values survives the wire for every scale, negative ones included |
| Codec.EncodeAfterDecode | gen/go/m261points/codec.go:145-173 | decoding and encoding gives the bytes back for every nonzero scale |
| Codec.FloatValueRoundTrips | gen/go/m261points/codec.go:145-173 | a float point carries exactly what single precision keeps of the raw value |
| Ordering.BeforeIsTotal | simulator/internal/commands/diagnostics.go:64-72 | two different strings are ordered one way or the other |
| Ordering.BeforeIff | simulator/internal/commands/diagnostics.go:64-72 | a string comes before another exactly if it is a proper prefix or has the lesser character at the first difference |
| Diagnostics.Processor.RecordDiagnostic | simulator/internal/commands/diagnostics.go:34-41 | the table holds the last diagnostic of each key recorded so far |
| Diagnostics.Processor.DiagnosticFor | simulator/internal/commands/diagnostics.go:57-62 | gives the last diagnostic recorded for the key, or none |
| Diagnostics.Processor.Listing | simulator/internal/commands/diagnostics.go:45-54 | for any order of walking the table, the last diagnostic of each key, strictly sorted |
| Diagnostics.AnySortIsTheListing | simulator/internal/commands/diagnostics.go:64-72 | any iteration order and any sort, stable or not, end with the listing |
| Diagnostics.ListingIsUnique | simulator/internal/commands/diagnostics.go:43-54 | one run of records has one listing |
| Diagnostics.ListedByDeviceThenSlug | simulator/internal/commands/diagnostics.go:64-72 | the listing goes by device, and within a device by slug |
| EnumNames.NameRegistry.Claim | codegen/gen_go.py:42-56 | fails, naming both claimants, exactly for a name claimed before |
| EnumNames.GenConstants | codegen/gen_go.py:458-472 | succeeds exactly when all its identifiers are distinct and new, and then emits the constants in record order |
| EnumContents.AddressesDeclared | codegen/gen_go.py:464-468 | each record's identifier stands for its IEC-104 address, the one with Modbus after it for its Modbus address if it has one, and nothing else is declared |
| EnumNames.DeclareValues | codegen/gen_go.py:491-504 | names, declares and claims one enumeration's values |
| EnumNames.GenEnums | codegen/gen_go.py:474-517 | succeeds exactly when all its identifiers are distinct and new, and then emits the enumerations in record order |
| EnumContents.EnumsDeclared | codegen/gen_go.py:476-510 | one enumeration for each record with items, in order: type name, one value and one case an item, names numbered only when an earlier value has them |
| EnumNames.Generate | codegen/gen_go.py:557-562 | a run through one registry succeeds exactly when every identifier it would emit is distinct |
| EnumNames.ValueNamesAreDistinct | codegen/gen_go.py:492-501 | whatever the labels, the values of one enumeration get distinct names |
| EnumNames.CaseCarriesItsCode | codegen/gen_go.py:501-511 | each case of the generated switch has its own item's code, even where a repeated code replaced the name |
| EnumNames.EnumCompilesIff | codegen/gen_go.py:483-511 | the generated enumeration compiles exactly when its codes differ and all fit the int32 it is declared with |
| EnumNames.CodesMapToOwnLabels | codegen/gen_go.py:507-514 | with distinct codes every code maps back to its own label and any other value to none |

## Left out

- The join key, slug, "no:" line and header recognisers, text trimming and identifier casing: parameters or given fields, nothing is assumed of them.
- `JoinedPoint` is a value: the join's dictionary of points is reassigned where the source sets `tag` and `sources` on shared objects; no alias of a point outlives the function.
- The pools are one class per register class with a map of queues; the source's deques have no identity of their own.
- The grouping of parsed rows by device; only Modbus parsing is followed into the join.
- `parse_iec104`, `parse_tag`, workbook reading, anchors, fixed counts, key points, strategy periods and the other finite checks over private data.
- `to_record` and `validate_ranges`; reading the override file, whose entries enter as a list with one entry per reference.
- Slugs.AssignSlugs: takes the points in service order, because the sort itself is a library call; `InServiceOrder` is the sort's contract.
- Diagnostics.SortDiagnostics: a stand-in for the library sort with no more than its contract, because the original is not in the repository.
- The connection loop is written as transitions on values, because it is interleaved with mutations, delivery and the console's own steps; tickers and rare channels appear as actions at any moment. Message numbers are in `EventDelivery` only, which leaves out revisions and values.
- The reset gate is a state machine over the documented contract of `sync.RWMutex`, not a lock; goroutine scheduling fairness is not modelled, and a reset's four components are arbitrary steps on one application state.
- Unsigned wrap-around of revisions and event numbers.
- EventDelivery.ToldEverythingIff: follows one client, which is owed nothing published before it first connects; other clients appear only through the numbers their telemetry takes. Frames a server writes after demanding a resync are not modelled, because the console closes the source on reading it.
- Connection status, model time, heartbeat indicator, toasts, local storage, rendering, and double mounting in development mode.
- Codec.EncodeValue: does not model integer conversion out of range or not-a-number, because Go leaves the result to the implementation; `Encodable` is the range test.
- Codec.FloatValueRoundTrips: single precision is a pair of conversions, bits of a value and value of bits, because rounding is not modelled; scaling is over the reals.
- Byte orders outside the four named ones, which the source treats as big-endian.
- Text of generated files, state structs, and the catalogue's other generators.
