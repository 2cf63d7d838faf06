# Verified models of arduino-cli algorithms and protocols

This project models, in Dafny, the parts of arduino-cli whose behaviour is hard to see from
reading one function, and proves properties of the models for all inputs, all schedules and
all reachable states. `dafny verify dfyconfig.toml` checks everything.

| file | models |
|---|---|
| CompilePool.dfy | the parallel compile pool: feeder, workers, unbuffered queue, error stop |
| UploadPort.dfy | port re-detection after an upload: two event phases, candidate, priority, timer |
| Monitor.dfy | the port monitor's shutdown protocol: main, receiver and sender goroutines |
| ConfigTree.dfy, ConfigSchema.dfy, ConfigDefaults.dfy, ConfigLoad.dfy, ConfigMap.dfy | the hierarchical configuration map: the tree it stands for, typed settings, the schema of arduino-cli, all outcomes of loading a file, and the nested heap maps themselves |
| ProfileLibs.dfy, ProfileFile.dfy | adding and removing profile libraries with their dependency closure, and the project file they are read from and written to |
| MemoryMerge.dfy | merging bootloader and sketch memory images with 32-bit addresses |
| OrderedMap.dfy | the insertion-ordered map |
| Fqbn.dfy, DebugFqbn.dfy | board names: parser, printer, matching; and the greedy minimiser that uses them |
| QueryTokens.dfy | the quote and escape tokenizer of library queries |
| Linker.dfy | regrouping object files into one archive per directory |
| IndexUpdate.dfy | installing an index file with verification, backup and rollback |
| YamlEntry.dfy | editing one root entry of the sketch project file |
| Strings.dfy, Lists.dfy, Wrappers.dfy | splitting and joining, list facts, option and result types |

Objects the source updates in place are classes here, and its loops are loops; each such method
is proved equal to a specification function of the old state, and the properties are lemmas
about those functions. Goroutines are step relations over all interleavings; the compile pool is
in addition run by a method under an arbitrary scheduler. Go's random map iteration order is an
arbitrary choice in the loops. Code that is not part of this model is a parameter: the compiler
(a function of the source), the dependency resolver and release finder, the debug
configuration (a function of the parsed board name), the YAML library, signature verification,
number and duration parsing, rune lower-casing, and the port equality of the discovery library
(an equivalence relation). gohex.Memory rejects a segment exactly on overlap, and
properties.Map behaves like the ordered map.

## What the code does that its comments do not say

- A negative job count spawns no worker, and the pool then deadlocks as soon as there is a source
  (`CompilePool.DeadlockIff`).
- After an upload the first port that appears is not simply picked: it is, and stays picked, exactly
  when it shares hardware id, protocol or address with the user's port, no later port shares more,
  and it is not removed (`UploadPort.FirstPortPickedIff`); an unrelated one is passed over
  (`UploadPort.FirstPortPassedOver`), and there is no result at all exactly when only such ports
  were added since the last loss (`UploadPort.NoCandidateIff`).
- The test that should shorten the timeout for the desired hardware id compares the new candidate
  with the event it came from, so the timer is shortened for every new candidate; it is armed as
  described exactly when no port of another board ever becomes the candidate
  (`UploadPort.TimerAsDescribedIff`, with an instance in `UploadPort.OtherBoardShortens`).
- A configuration file that writes one key both with a dot and nested can load with either value,
  even under a prefix-free schema, because flattening overwrites in map iteration order
  (`ConfigLoad.ClashingLoadsEitherWay`; exactly when that happens is `ConfigLoad.LoadDeterminedIff`).
- The monitor port can be closed twice when the client ends the stream and a Close message is
  still being handled (`Monitor.ClosedTwicePossible`).
- Setting a schema key to nil panics instead of returning an error, unless the key is a slice
  (`ConfigSchema.ConversionPanicsIff`); a duration setting accepts any text, and its getter
  panics exactly when the key is set to one that does not parse (`ConfigSchema.DurationPanicsIff`).
- A local library is read from the project file under the name of its directory. A library of that
  name added from the index is then not written to the file, although it is reported as added
  (`ProfileFile.DirectoryTakesRelease`, `ProfileFile.LocalCopyTakesRelease`; the exact condition is
  `ProfileLibs.AddAllListsIff`). And a local library whose directory has no name the index can
  resolve makes every removal with dependencies fail (`ProfileFile.LocalLibraryBlocksRemoval`,
  `ProfileFile.RemovalRefusedIff`).
- A merge that accepts no segment wraps its size to 1 and writes a one-byte image
  (`MemoryMerge.NothingAccepted`); a segment that reaches the top of the address space makes the
  last address wrong (`MemoryMerge.HullIff`), and its bytes can be missing from the .bin file
  (`MemoryMerge.TopByteLost`).
- The board-name minimiser can keep an option it could drop (`DebugFqbn.GreedyCanStopShort`).
- If the backup of the old index cannot be deleted, a successful index update silently puts the
  old index back (`IndexUpdate.IndexStore.Download`).

## Model

| member | source | states |
|---|---|---|
| CompilePool.CompileFiles | internal/arduino/builder/compilation.go:51-109 | under every scheduler the call ends with the answer of the run that was scheduled; it succeeds exactly when every source compiles, then with the object file the compiler made of each source, as often as it was made, in dictionary order; otherwise with the error of a source that was handed over; without sources it answers at once |
| CompilePool.Schedule | internal/arduino/builder/compilation.go:60-101 | whichever goroutine moves, the pool takes one step of the relation, keeps the invariant and comes closer to the end |
| CompilePool.Conservation | internal/arduino/builder/compilation.go:77-101 | in every state of every run each handed source is in exactly one of in-flight, compiled, failed, once |
| CompilePool.AtMostOneAfterError | internal/arduino/builder/compilation.go:91-101 | once an error is recorded, at most one more source is handed over, and none unless the feeder was already blocked on the queue |
| CompilePool.ScheduleIndependent | internal/arduino/builder/compilation.go:91-109 | two completed schedules agree on success and on the returned files |
| CompilePool.DoneIsCorrect | internal/arduino/builder/compilation.go:103-109 | what is returned once the workers are gone meets the specification of the call, and an error is that of a source handed over |
| CompilePool.RunsAreBounded | internal/arduino/builder/compilation.go:82-103 | no schedule is longer than a measure of unfed sources, jobs in flight and live workers |
| CompilePool.StepDecreases | internal/arduino/builder/compilation.go:82-103 | every step of every goroutine strictly decreases that measure |
| CompilePool.Progress | internal/arduino/builder/compilation.go:82-103 | with a worker, some goroutine can move until wg.Wait returns |
| CompilePool.DeadlockIff | internal/arduino/builder/compilation.go:79-103 | a stuck state is reachable exactly when no worker was spawned |
| CompilePool.DeadlockByJobs | internal/arduino/builder/compilation.go:79-103 | in terms of the job count: a deadlock is possible exactly when it is negative, or stands for the processors and there is none |
| CompilePool.BusyByJobs | internal/arduino/builder/compilation.go:79-101 | the pool can compile n sources at a time exactly when there are that many sources and jobs, zero jobs standing for one per processor |
| CompilePool.ObjectsAreSorted | internal/arduino/builder/compilation.go:64-72 | the sorted list holds each object file as often as sources compile to it, in dictionary order |
| Lists.StringLeIff | internal/arduino/builder/compilation.go:107-108 | in that order the first character that differs decides, and a proper prefix comes first |
| CompilePool.SingleWorkerFirstError | internal/arduino/builder/compilation.go:82-107 | with one worker the reported error is that of the first failing source, on every schedule |
| UploadPort.DetectUploadPort | commands/service_upload.go:604-704 | the two loops compute the candidate and the armed timer of the event fold, whichever way each phase ends |
| UploadPort.UserPortKept | commands/service_upload.go:618-638 | during the upload the user's port is lost exactly when it is removed, and that forces the wait |
| UploadPort.UserPortIsTheResult | commands/service_upload.go:613-703 | a user port never removed is the result and no timer is re-armed: it is the one-second one, or the five-second one if waiting was forced |
| UploadPort.ResultStillThere | commands/service_upload.go:613-703 | the returned port is the user's, never removed, or one added after the upload and not removed since |
| UploadPort.CandidateIsBest | commands/service_upload.go:645-697 | the candidate has at least the priority of every port added since the last loss and strictly more than those added before it |
| UploadPort.UnrelatedPortNeverChosen | commands/service_upload.go:667-688 | a port with nothing in common with the user's port is never the candidate |
| UploadPort.NoCandidateIff | commands/service_upload.go:645-688 | there is no candidate exactly when the one there was is lost and every port added since has nothing in common with the user's port |
| UploadPort.FirstPortPickedIff | commands/service_upload.go:640-688 | with no candidate at the start, the first port to appear is picked and never given up exactly when it has something in common with the user's port, no port added later has more, and it is not removed |
| UploadPort.FirstPortPassedOver | commands/service_upload.go:640-688 | the user's port goes, an unrelated port appears, and the search ends with nothing |
| UploadPort.TimerAsDescribedIff | commands/service_upload.go:688-695 | the candidate is the one described, and the timer is armed as described exactly when no port with another hardware id becomes the candidate |
| UploadPort.OtherBoardShortens | commands/service_upload.go:690-695 | another board on the same protocol shortens the timer to one second |
| UploadPort.PriorityIs | commands/service_upload.go:652-667 | hardware id counts before protocol before address, and sharing none of them is as bad as no port |
| UploadPort.TimerIs | commands/service_upload.go:641-697 | the five-second timer is armed exactly when it was at the start or at a loss not waited for, and no new candidate has come since |
| UploadPort.FirstTimerIs | commands/service_upload.go:640-644 | it is at the start when waiting was forced or the user's port was removed during the upload |
| UploadPort.CountersAre | commands/service_upload.go:645-697 | the counters are the events that take the candidate away and those that bring a new one |
| UploadPort.ArmsBetweenLosses | commands/service_upload.go:683-697 | between two losses the timer is re-armed for a new candidate at most seven times |
| UploadPort.TimersAreBounded | commands/service_upload.go:641-697 | over a run at most seven re-arms per loss, none before the first, and at most one five-second extension, none when waiting was forced |
| Monitor.CloseCalls | commands/service_monitor.go:212-259 | in every interleaving the calls of monitorClose are the Close messages handled plus one exactly when main found the flag unset |
| Monitor.ReturnsAfterClose | commands/service_monitor.go:253-260 | Monitor returns only after some monitorClose has completed |
| Monitor.ClosedExactlyOnce | commands/service_monitor.go:212-260 | exactly one close without a Close message, and with one that was the cause of the end; with one message, exactly one close iff main took the graceful branch |
| Monitor.ClosedTwicePossible | commands/service_monitor.go:212-260 | an interleaving in which one Close message leads to two closes |
| Monitor.BytesDelivered | commands/service_monitor.go:219-250 | the port gets a prefix of the bytes received and the client a prefix of the bytes read, in order |
| Monitor.NeverBlocked | commands/service_monitor.go:187-260 | once the stream was dropped or one of the goroutines has come to its end, some step towards the return is always enabled and no step leads away from it |
| Monitor.SixStepsSuffice | commands/service_monitor.go:181-260 | in every run, after such an end at most six steps towards the return are taken (five once the context has ended), a run with six has returned, and until then one is enabled |
| Monitor.CanReturn | commands/service_monitor.go:181-260 | every run in which such an end happened can be continued to the return in six steps |
| Monitor.StateOfRun | commands/service_monitor.go:181-260 | the whole state follows from what happened: the bytes received and read, what is written and sent unless a write or send failed, who ended the context, that each goroutine keeps its loop going until its own end, and how many messages were handled and closes completed |
| Monitor.WhoCanMove | commands/service_monitor.go:187-260 | receiver and sender can always go on until they have left, their last step ends the context, and main waits for exactly that |
| Monitor.StepInv | commands/service_monitor.go:181-260 | every step of every goroutine keeps the accounting of closes, flags and bytes |
| ConfigTree.SetAndDeleteLaws | internal/go-configmap/configuration.go:48-61 | a set key reads as its value, unrelated keys read as before, a deleted key and all below it are absent |
| ConfigTree.KindPut | internal/go-configmap/configuration.go:124-144 | what stands at every path after a set |
| ConfigTree.KindDel | internal/go-configmap/configuration.go:151-167 | what stands at every path after a delete |
| ConfigTree.GetIsKind | internal/go-configmap/configuration.go:48-61 | reading a key gives what stands at its path |
| ConfigTree.Extensional | internal/go-configmap/configuration.go:26-29 | a configuration is determined by what stands at each path |
| ConfigTree.OrderDoesNotMatter | internal/go-configmap/json.go:31-35 | batches of writes to unrelated keys have the same effect in any order |
| ConfigTree.LeavesUnrelated | internal/go-configmap/json.go:39-52 | flattened keys are pairwise non-prefix |
| ConfigTree.Rebuild | internal/go-configmap/json.go:30-35 | writing the leaves in any order into an empty configuration rebuilds the tree |
| ConfigTree.FlatLeaves | internal/go-configmap/json.go:39-52 | flattening a dot-free tree lists exactly its leaves |
| ConfigTree.FlattenRebuild | internal/go-configmap/json.go:30-52 | flatten then set, in any order, is the identity on dot-free trees without empty maps |
| ConfigSchema.TryConversion | internal/go-configmap/configuration.go:80-122 | the conversion, with its slice loop, computes the typed value, the refusal or the panic of the specification |
| ConfigSchema.ConversionIsTyped | internal/go-configmap/configuration.go:80-122 | a converted value has the desired type and converts to itself |
| ConfigSchema.ConversionPanicsIff | internal/go-configmap/configuration.go:117-121 | conversion panics exactly on nil for a non-slice and on a slice whose first non-string is nil |
| ConfigSchema.ConversionMeans | internal/go-configmap/configuration.go:80-122 | what a conversion stores: the value itself, the same number if it is not negative, a float in range without its fraction, the strings of a slice one by one, no strings for nil; anything else is refused |
| ConfigSchema.WhatSetDoes | internal/go-configmap/configuration.go:63-122 | a set is accepted exactly when the value means something as the type of its key; the key then reads as that and unrelated paths as before; it panics exactly in the two nil cases |
| ConfigSchema.WhatTypedGetReads | internal/go-configmap/types.go:24-186 | the getters read zero for an absent key, the value if it has the type, a generic slice of strings as strings, and panic otherwise |
| ConfigSchema.WhatGetDurationReads | internal/go-configmap/types.go:188-211 | the duration getter reads zero for an absent key, the parsed text of a string, and panics otherwise |
| ConfigSchema.ReachableWellTyped | internal/go-configmap/configuration.go:63-191 | every state reachable by set, delete and merge stores only schema keys, each with its type |
| ConfigSchema.GettersNeverPanicIff | internal/go-configmap/types.go:24-186 | typed getters on schema keys never panic in any reachable state exactly when the schema is prefix-free |
| ConfigDefaults.SettingsNeverPanic | internal/cli/configuration/defaults.go:24-82 | the keys of arduino-cli are prefix-free, so their typed getters never panic in any reachable configuration |
| ConfigSchema.DurationSetIff | internal/go-configmap/types.go:188-211 | from any configuration, a text is accepted by the setter of a string key, and the duration getter then panics exactly when it is no duration |
| ConfigSchema.DurationPanicsIff | internal/go-configmap/types.go:188-211 | in any well-typed configuration the duration getter of a string key panics exactly when the key holds a text that is no duration |
| ConfigSchema.DurationCanPanic | internal/go-configmap/types.go:188-211 | an instance: set on an empty configuration, a text that is no duration panics in the getter |
| ConfigSchema.MergeSelf | internal/go-configmap/configuration.go:169-191 | merging a configuration into itself succeeds and changes nothing |
| ConfigSchema.MergeIsDetermined | internal/go-configmap/configuration.go:169-191 | a complete merge has the same outcome for every iteration order |
| ConfigSchema.SameTypeIff | internal/go-configmap/configuration.go:181-187 | a merge takes two values for the same type exactly when they are of the same kind |
| ConfigMap.Map.SetPath | internal/go-configmap/configuration.go:124-144 | on the heap, set has the effect of the tree operation, and the nested maps stay unshared and acyclic |
| ConfigMap.Map.GetPath | internal/go-configmap/configuration.go:48-61 | reading the nested maps gives what the tree holds |
| ConfigMap.Map.DeletePath | internal/go-configmap/configuration.go:151-167 | on the heap, delete has the effect of the tree operation |
| ConfigMap.Map.Set | internal/go-configmap/configuration.go:63-78 | a refused or panicking set changes nothing, an accepted one writes the converted value and the key reads as what the value means |
| ConfigMap.Map.Delete | internal/go-configmap/configuration.go:146-149 | a dotted key and what is below it is removed, nothing else |
| ConfigMap.Map.Merge | internal/go-configmap/configuration.go:169-191 | succeeds exactly when every source setting meets one of the same type, then takes over all of them; a failed merge only overwrites settings with source values of the same type; either way the same paths hold settings and the same hold maps; the source may be the map itself |
| ConfigMap.Map.GetTyped | internal/go-configmap/types.go:24-186 | the typed getters, with the loop over a generic slice, read or panic as specified |
| ConfigMap.Map.SetFromENV | internal/go-configmap/cli.go:24-59 | the key reads as what the text means as its type: itself, a number that is not negative, a spelling of true or false, or its words; every other text is an error that leaves the configuration alone |
| ConfigMap.Map.SetFromCLIArgs | internal/go-configmap/cli.go:61-111 | no argument deletes; a slice takes all arguments, any other setting exactly one, read like a text; every error leaves the configuration alone |
| ConfigMap.Map.UnmarshalYAML | internal/go-configmap/yaml.go:26-39 | sets every entry of a possible flattening that converts, counts the others, and panics exactly when some entry's conversion does; a well-typed configuration stays well typed even then |
| ConfigMap.Map.UnmarshalJSON | internal/go-configmap/json.go:24-37 | succeeds exactly when every entry converts; otherwise holds the entries set before one that does not, well typed; a schemaless load of a dot-free tree without empty maps is the identity |
| ConfigLoad.FlattenDeterminedIff | internal/go-configmap/json.go:39-52 | flattening has one result over all iteration orders exactly when no two leaves with the same dotted key hold different values |
| ConfigLoad.FlattensFlat | internal/go-configmap/json.go:39-52 | every flattening lists the dotted keys of the leaves, each with the value of a leaf of that key |
| ConfigLoad.FavouredLeafWins | internal/go-configmap/json.go:39-52 | any of the leaves with one dotted key can be the one that is kept |
| ConfigLoad.EntryOrderDoesNotMatter | internal/go-configmap/yaml.go:32-38 | once flattened, entries with unrelated accepted keys give the same configuration and number of errors in every order |
| ConfigLoad.LoadIsDetermined | internal/go-configmap/yaml.go:26-39 | over all orders of flattening and setting, a load has one configuration and number of errors, or always panics, if leaves with the same dotted key come to the same and accepted keys are unrelated |
| ConfigLoad.LoadDeterminedIff | internal/go-configmap/yaml.go:26-39 | if no leaf panics, for every schema, that condition is exact: otherwise two orders give different outcomes |
| ConfigLoad.DotFreeLoadIsDetermined | internal/go-configmap/yaml.go:26-39 | with a prefix-free schema or none, a file whose names have no dots loads the same in every order |
| ConfigLoad.PrefixFreeKeysApart | internal/go-configmap/yaml.go:32-38 | with a prefix-free schema accepted keys are always unrelated, so only clashing dotted keys can make the outcome vary |
| ConfigLoad.ClashingLoadsEitherWay | internal/go-configmap/json.go:39-52 | under a prefix-free schema a key written once with a dot and once nested can load with either value |
| ConfigLoad.LoadWellTyped | internal/go-configmap/yaml.go:26-39 | loading anything into a well-typed configuration leaves it well typed, wherever the load stops |
| ConfigMap.FlattenMap | internal/go-configmap/json.go:39-52 | the nested loops give a flattening for the iteration orders that happened |
| ProfileLibs.Profile.GetLibrary | internal/arduino/sketch/profiles.go:134-141 | the first reference with the name, or null |
| ProfileLibs.Profile.RemoveLibrary | internal/arduino/sketch/profiles.go:145-153 | removes the first entry the request means, returns it, and loses nothing else; refuses exactly when it means none |
| ProfileLibs.MatchRefIff | internal/arduino/sketch/profiles.go:471-485 | a request means the entry with its directory, or, without directories, the one with its name and its version, if both have one |
| ProfileLibs.EqualVersionsIff | commands/service_profile_lib_add.go:99-102 | versions are equal when both are at the same place in the version order, or both are missing |
| ProfileLibs.Profile.Add | commands/service_profile_lib_add.go:77-108 | appends a new reference or updates the existing object in place, and reports which |
| ProfileFile.ProjectFile.ProfileLibAdd | commands/service_profile_lib_add.go:53-138 | the written file and the two reports, or an error and an unchanged file |
| ProfileFile.AdditionOutcome | commands/service_profile_lib_add.go:55-121 | each error in its case; a local library is one more directory in the file; an index request adds the release found, or its closure in order |
| ProfileFile.ReportsOutcome | commands/service_profile_lib_add.go:66-131 | the reports are those of the releases added, or the one local library |
| ProfileFile.ProjectFile.ProfileLibRemove | commands/service_profile_lib_remove.go:50-120 | the written file, or an error and an unchanged file; removed and remaining entries together are the old ones |
| ProfileFile.ReadWriteIff | internal/arduino/sketch/profiles.go:400-454 | a list survives being written and read back exactly when every directory in it has no version, is no dependency and goes by its own name |
| ProfileFile.WriteRead | internal/arduino/sketch/profiles.go:400-454 | reading the file and writing it back changes nothing |
| ProfileFile.RemoveUndoesAddInFile | commands/service_profile_lib_remove.go:50-120 | add with dependencies and, in a later call, remove of the same version restore the file, when the closure is new to the profile and to what it needs |
| ProfileFile.RemovalRefusedIff | commands/service_profile_lib_remove.go:79-102 | removal with dependencies is refused exactly when the library or some remaining library outside of dependencies, local ones included, does not resolve |
| ProfileFile.LocalLibraryBlocksRemoval | commands/service_profile_lib_remove.go:80-92 | one directory whose name does not resolve makes every removal with dependencies fail |
| ProfileLibs.RemovalKeepsWanted | commands/service_profile_lib_remove.go:68-110 | local libraries, non-dependencies and everything in the closure of a remaining non-dependency survive, in order, with every copy |
| ProfileLibs.RemovalOutcome | commands/service_profile_lib_remove.go:51-110 | library not found exactly when no entry is meant; else the first one meant goes; with dependencies, a directory or an unresolved need is refused, everything else lost is an unneeded index entry of the closure, and with one entry a name all of those go |
| ProfileLibs.RequiredAre | commands/service_profile_lib_remove.go:80-96 | the required names are exactly those in the closure of a library that is no dependency |
| ProfileLibs.SortReleasesOrders | commands/service_profile_lib_remove.go:103 | the candidates are ordered by name, releases of one name by version |
| ProfileLibs.RemovalIsFilter | commands/service_profile_lib_remove.go:104-109 | with unique names the loop removes exactly the entries an unneeded candidate matches |
| ProfileLibs.RequiredCovers | commands/service_profile_lib_remove.go:80-96 | the required names include the closure of every library that is not a dependency |
| ProfileLibs.RemoveUndoesAdd | commands/service_profile_lib_add.go:110-121 | add with dependencies, then remove of the same version, restores the list when the closure is new to the profile and to what it needs |
| ProfileLibs.AddAllExtends | commands/service_profile_lib_add.go:77-121 | entries keep place, name and directory, and no non-dependency becomes a dependency |
| ProfileLibs.AddAllChanges | commands/service_profile_lib_add.go:77-121 | of the entries that were there only the first of a resolved name changes: its version only if overwriting is allowed, its dependency mark only for the root, which loses it |
| ProfileLibs.AddAllCounts | commands/service_profile_lib_add.go:83-87 | every name occurs as often as before, or once if it is new |
| ProfileLibs.AddAllEnters | commands/service_profile_lib_add.go:90-121 | a resolved release whose name does not refer to a local directory has an index entry after the call, the root not as a dependency, with the resolved version unless overwriting was forbidden |
| ProfileLibs.AddAllEntersIff | commands/service_profile_lib_add.go:77-121 | a resolved release has such an entry exactly when its name does not refer to a directory, or another entry was already as it should be |
| ProfileLibs.AddAllListsIff | commands/service_profile_lib_add.go:83-121 | a resolved name has an index entry after the call exactly when it had one or was not in the profile at all |
| ProfileFile.DirectoryTakesRelease | commands/service_profile_lib_add.go:83-107 | a release whose name refers to a directory leaves the file as it is, and is reported as added unless overwriting is forbidden |
| ProfileFile.LocalCopyTakesRelease | commands/service_profile_lib_add.go:83-107 | an instance: a library with a local copy is added, reported, not in the file, and cannot be removed |
| ProfileLibs.ReportsAre | commands/service_profile_lib_add.go:77-124 | the reports are, in order, the releases the original profile had no entry for or had in another, overwritable version, and the others |
| ProfileLibs.ReportedOnce | commands/service_profile_lib_add.go:83-107 | each resolved release is reported once: as added exactly when the original profile has no entry of its name, or one in another version and overwriting is allowed; as skipped otherwise |
| MemoryMerge.Merge | internal/arduino/builder/sketch.go:309-363 | both loops and the size test compute the outcome of the specification; that is, without the loops: the .hex holds exactly the bytes of the segments that overlap none taken before, the .bin is written exactly when its size is at most a valid maximum and holds them with padding, and it is an error exactly when a segment taken is too long |
| MemoryMerge.ChosenIsUnique | internal/arduino/builder/sketch.go:313-342 | there is only one way to take each segment that overlaps no earlier one taken |
| MemoryMerge.RangeIsHull | internal/arduino/builder/sketch.go:317-350 | when all segments taken end below 2^32, the size is the width of their hull |
| MemoryMerge.ImageHoldsAccepted | internal/arduino/builder/sketch.go:313-342 | the memory is exactly the accepted segments, each kept whole |
| MemoryMerge.LeftOutOverlaps | internal/arduino/builder/sketch.go:328-331 | a segment is left out only if it overlaps one accepted before it |
| MemoryMerge.BootloaderKept | internal/arduino/builder/sketch.go:313-316 | every segment of a non-overlapping bootloader is accepted whatever the sketch |
| MemoryMerge.HullIff | internal/arduino/builder/sketch.go:317-341 | the two addresses are the tight hull of the accepted segments exactly when all end below 2^32 |
| MemoryMerge.BinaryIsTheImageIff | internal/arduino/builder/sketch.go:344-363 | the size is that of the hull, every accepted byte is at its address minus the initial one, every other byte is 0xFF: exactly when no accepted segment reaches the top of the address space |
| MemoryMerge.TopByteLost | internal/arduino/builder/sketch.go:317-363 | a byte at the top address is in memory but missing from the .bin file |
| MemoryMerge.NothingAccepted | internal/arduino/builder/sketch.go:310-363 | with no accepted segment a one-byte file of padding is written |
| OrderedMap.Map.Set | internal/orderedmap/orderedmap.go:116-123 | the key moves to the end with the new value; list and map stay in one-to-one correspondence |
| OrderedMap.Map.Remove | internal/orderedmap/orderedmap.go:131-140 | the key leaves list and map, nothing else moves |
| OrderedMap.Map.Merge | internal/orderedmap/orderedmap.go:144-152 | old keys outside the source, then the source's keys in order, source values winning; the source may be the map itself |
| OrderedMap.MergeSelf | internal/orderedmap/orderedmap.go:144-152 | merging a map into itself changes nothing |
| OrderedMap.MergedLookup | internal/orderedmap/orderedmap.go:144-152 | a source key has the source's value, any other key the old one |
| OrderedMap.MergedDistinct | internal/orderedmap/orderedmap.go:144-152 | merging two duplicate-free key lists gives a duplicate-free list |
| OrderedMap.Map.Values | internal/orderedmap/orderedmap.go:171-177 | the values in key order |
| OrderedMap.Map.Clone | internal/orderedmap/orderedmap.go:180-184 | an equal map sharing nothing with the original |
| OrderedMap.Map.SortKeys | internal/orderedmap/orderedmap.go:161-163 | keys are permuted into order, values untouched |
| Fqbn.Parse | pkg/fqbn/fqbn.go:49-93 | accepts, rejects and reports as the grammar says, and builds a fresh object with the parsed options in order |
| Fqbn.FQBN.String | pkg/fqbn/fqbn.go:129-140 | prints the name the object stands for |
| Fqbn.FQBN.Match | pkg/fqbn/fqbn.go:109-121 | the loop over the target's options decides matching |
| Fqbn.FQBN.Clone | pkg/fqbn/fqbn.go:96-103 | an equal name with its own option map |
| Fqbn.RoundTrip | pkg/fqbn/fqbn.go:49-140 | parsing a printed well-formed name gives it back, option order included |
| Fqbn.ParseRange | pkg/fqbn/fqbn.go:49-93 | exactly the well-formed names can be parsed from some text |
| Fqbn.AcceptedIff | pkg/fqbn/fqbn.go:49-93 | a text is accepted exactly when it has three or four parts between colons, the first three of field characters and the third not empty, and a fourth of options between commas |
| Fqbn.ParsePairIs | pkg/fqbn/fqbn.go:72-89 | an option is a key and a value around the first equals sign with any spaces around both; which error each other text gives |
| Fqbn.TrimIsUnique | pkg/fqbn/fqbn.go:77-78 | the spaces around a key or value do not change what is read |
| Fqbn.OptionTextUnique | pkg/fqbn/fqbn.go:73-78 | a text is an option with one key and one value at most |
| Fqbn.IsSpaceIff | pkg/fqbn/fqbn.go:77-78 | the spaces are the 25 characters Unicode calls white space |
| Fqbn.OptionsAre | pkg/fqbn/fqbn.go:72-91 | the options read are the keys that occur, each with the value of its last occurrence, in the order of the last occurrences |
| Fqbn.ErrorIs | pkg/fqbn/fqbn.go:52-90 | the error is that of the number of parts, the empty board, the first wrong field or the first wrong option |
| Fqbn.FieldCharIff | pkg/fqbn/fqbn.go:45-46 | the field characters are the letters, the digits, underscore, dot and dash |
| Fqbn.NormalForm | pkg/fqbn/fqbn.go:49-140 | printing after parsing is an idempotent normal form |
| Fqbn.MatchIsPartialOrder | pkg/fqbn/fqbn.go:105-121 | matching is reflexive, transitive, and antisymmetric up to option order |
| Fqbn.MatchesIff | pkg/fqbn/fqbn.go:105-121 | a name matches exactly the names of the same board that leave out some of its options |
| DebugFqbn.IsDebugSupported | commands/service_debug_config.go:68-92 | unsupported and failing requests are told apart; the answer parses to the minimised name |
| DebugFqbn.MinimiseKeepsConfig | commands/service_debug_config.go:79-88 | the result has a subset of the options, is matched by the request and has the same debug configuration |
| DebugFqbn.OneMinimal | commands/service_debug_config.go:79-88 | if necessity is monotone among the names with the expected configuration, no single remaining option can be dropped |
| DebugFqbn.GreedyCanStopShort | commands/service_debug_config.go:79-88 | without monotone necessity the loop can keep an option that is not needed |
| QueryTokens.MatcherTokensFromQueryString | commands/utility_libraries_index_search_matcher.go:27-60 | the loop computes the scan of the whole query |
| QueryTokens.TokenizeInvertsPrint | commands/utility_libraries_index_search_matcher.go:27-60 | the tokenizer inverts the quoting printer on lowercase tokens exactly when the last token is not empty |
| QueryTokens.TokenizePrinted | commands/utility_libraries_index_search_matcher.go:47-57 | tokenizing any printed list lowercases it and loses only an empty last token |
| QueryTokens.TokenCount | commands/utility_libraries_index_search_matcher.go:33-57 | one token per space outside quotes, one more exactly when something was written after the last |
| QueryTokens.TokensAre | commands/utility_libraries_index_search_matcher.go:27-60 | the tokens are the lowercased texts between spaces outside quotes, without unescaped quotes and backslashes, the last one only if not empty |
| QueryTokens.PlainWords | commands/utility_libraries_index_search_matcher.go:27-60 | words without special characters become the tokens, each lowercased letter by letter |
| Linker.Link | internal/arduino/builder/linker.go:36-84 | exactly when the quoted command line is longer than 30000 characters, the files whose names end in .a pass through and each directory's other files form one archive; otherwise the list is used as it is |
| Linker.LinkSetPreserved | internal/arduino/builder/linker.go:59-82 | every file is linked as often as it was listed |
| Linker.MembersDistinct | internal/arduino/builder/linker.go:53-77 | file names inside an archive are distinct when the inputs are |
| IndexUpdate.IndexStore.Download | internal/arduino/resources/index.go:130-188 | an error keeps a pre-existing index (if the rollback works); success means a staged index whose signature, the downloaded one before that of the archive, is valid, or missing where that is not enforced, was installed; exactly when each error happens |
| YamlEntry.UpdateOrAddYamlRootEntry | internal/arduino/sketch/yaml.go:30-93 | writes the edited lines exactly when the text has the value at its key, or after a removal no such key |
| YamlEntry.EditedAre | internal/arduino/sketch/yaml.go:51-74 | line by line: an entry is replaced or taken out where it stands, a new one comes last, in place of a blank last line |
| YamlEntry.IsEntryIff | internal/arduino/sketch/yaml.go:55 | a line is an entry of the key when the key, a colon and a space stand at its beginning |
| YamlEntry.ReadLinesAre | internal/arduino/sketch/yaml.go:33-43 | the lines read are those the text is made of |
| YamlEntry.OthersKept | internal/arduino/sketch/yaml.go:53-74 | no non-blank line but the first of the key changes, moves or goes |
| YamlEntry.SettingTwice | internal/arduino/sketch/yaml.go:31-77 | setting a single-line value again on the written file changes nothing |
| YamlEntry.RemoveUndoesAdd | internal/arduino/sketch/yaml.go:53-74 | removing an added entry gives the non-blank lines back |
| YamlEntry.ReadBack | internal/arduino/sketch/yaml.go:33-43 | the written text reads back as the same lines |

## Left out

- Real time in port detection: the timer may fire after any event; what is counted is how often it is armed.
- The parts of Monitor before the goroutines start, and the contents of configuration messages, are one step each.
- CompilePool.CompileFiles: with sources it asks for at least one worker, because without one the call never returns, which `CompilePool.DeadlockIff` proves.
- ConfigMap.Map.Merge: the source is the map itself or shares no object with it; merging a map with one of its own sub-maps is not modelled.
- ConfigLoad.LoadDeterminedIff: is exact for inputs no leaf of which panics; with such leaves the condition is sufficient (`ConfigLoad.LoadIsDetermined`), but every order may panic on different ones.
- ConfigSchema.TryConversion: a float outside the range of the target integer is implementation-defined in Go; the model wraps an unsigned one and keeps a signed one, and nothing proved depends on the value.
- The schema types are those that have a typed getter and occur in the settings: bool, string, int, uint and slice of strings.
- AllKeys and InjectEnvVars, which look keys up and then call the setters that are modelled.
- Slices stored in two configurations share their backing array in Go; the model stores values.
- OrderedMap.Map.Merge: takes one source; the variadic form repeats it. Keys are values, not references, and the JSON form and the stability of the stable sort are not modelled.
- ProfileFile.ProjectFile.ProfileLibAdd: the project file is the library list of one profile, entry by entry; its YAML text, other profiles and a failing write are not modelled, and the reports are lists of names.
- ProfileLibs.EqualVersions: the version library is not part of this model; a missing version is taken to differ from every version when adding to an entry without one, and is passed to the resolver as a missing version.
- Linker.LinkSetPreserved: assumes that no listed archive is called objs.a in a directory of objects, and that every archive step succeeds on an empty archive.
- IndexUpdate.IndexStore.Download: the old signature file is not restored on an error, because the code looks for its backup in the temporary directory and never makes one.
- YamlEntry.SettingTwice: is for values written on one line; carriage returns in the project file are not modelled.
- DebugFqbn.OneMinimal: holds under monotone necessity; for other configuration functions `DebugFqbn.GreedyCanStopShort` shows it can fail.
- MemoryMerge.Merge: reading and writing the files, and the Intel HEX text, are not modelled.
- The command line layer, gRPC adapters, network, archives, the dependency resolver and the codecs.
