# Verified model of the Sovereign AI Node

This project models, in Dafny, the parts of the node's installer, support bundle and agent tooling whose behaviour cannot be
read off one function: a binary format, a canonical serialiser, a shell-script generator, the redaction pipeline of the
diagnostics bundle, the confirm-before-change protocol, the job runner, the gateway wait and the installation of the locked
runtime. Each module proves what its code promises for every input, every run or every state a crash can leave. Where the
promise fails, a lemma gives an input that shows it and another says exactly when the promise is kept.

`dafny verify dfyconfig.toml` checks everything.

## Modules

| file | what it models |
|---|---|
| `Crc32.dfy` (with `Words.dfy`, `Folding.dfy`) | the table-driven CRC-32 of section 8 of RFC 1952 against bit-serial division |
| `Zip.dfy`, `ZipDamage.dfy` | the archive writer and reader, after sections 4.3.7, 4.3.12 and 4.3.16 of PKWARE APPNOTE.TXT |
| `StableSerialize.dfy`, `StringOrder.dfy` | the key-sorting serialiser |
| `TemplateDiff.dfy` | the two template diffs that rest on it |
| `Shell.dfy`, `ExecWrapper.dfy`, `WrapperRuns.dfy` | the wrapper generator, and a lexer and evaluator for the sh it prints (sections 2.2, 2.3 and 2.5 of POSIX.1-2017 XCU) |
| `ExecApprovals.dfy`, `PathWritable.dfy` | reconciling approvals; whether the service user could change what runs at a path |
| `IpAddress.dfy`, `Ipv6Forms.dfy`, `IpMasker.dfy` | address parsers, the text forms of section 2.2 of RFC 4291, the token issuer |
| `KnownSecrets.dfy` | scrubbing known values |
| `Redact.dfy` | redacting values on a heap that may share and cycle |
| `Utf8.dfy`, `Tail.dfy`, `Shed.dfy` | tail truncation and shedding artifacts under a byte cap |
| `TypedToolArgv.dfy` | command lines from typed parameters |
| `ConfirmProtocol.dfy`, `Completion.dfy` | proposing, confirming, completing and pruning changes; what a completion marks |
| `JobRunner.dfy`, `GatewayReadiness.dfy` | the job state machine and the readiness wait |
| `LockedRuntime.dfy`, `PermissionWalk.dfy` | the staged directory swap; the permission walks on a disk with symbolic links |
| `Text.dfy`, `Wrappers.dfy` | strings, numerals, options and results |

## What turned out false, and when it holds

- **Wrappers with ten placeholders.** The generator numbers placeholders `"$1"`, `"$2"`, ... without braces, and sh reads
  `"$10"` as `$1` followed by `0`. `WrapperRuns.TenthPlaceholderBreaks` shows the wrong argv;
  `WrapperRuns.PromiseHoldsIffNinePlaceholders` says the wrapper keeps its promise exactly up to nine.
- **A scrubbed secret can survive.** Replacing by `[REDACTED:known]` removes every form of every secret without brackets from
  every text exactly when no form lies inside that marker (`KnownSecrets.KnownSecretsVanish`); a secret with a bracket can be
  put together again by the marker (`KnownSecrets.BracketSecretSurvives`). With brackets a condition is
  proved sufficient (`KnownSecrets.ScrubLeavesNoNeedle`); no exact one is known.
- **Two parameters with one flag.** The template schema does not forbid them, and a command line can then have two readings
  (`TypedToolArgv.SharedFlagHasTwoReadings`). All command lines of an operation can be read back exactly when no two different
  selections of parameters it permits (the required names in, one name from each exactly-one group) clash in every place
  (`TypedToolArgv.DecodesIffNoTwoAlike`).
- **Completion by code.** A completion marks every entry that has the code of its change. With 51 changes proposed while a command
  runs, its entry is pruned, its code can be given out again, and the completion marks a change nobody confirmed
  (`Completion.ReusedCodeIsMarked`). It marks only confirmed changes exactly when no pending entry has the code
  (`ConfirmProtocol.FinishMarksConfirmedIff`), and its own change and no other whenever less than 24 hours lie between
  confirmation and completion and fewer than 50 changes were recorded since its own was (`Completion.FinishMarksItsChange`).
- **Steps that share an id.** The job runner reports every run right exactly when step ids are distinct
  (`JobRunner.RunsRightIffDistinctIds`).
- **"A rerun always starts from a working tree"** (comment at src/openclaw/bootstrap.ts:657-658). A crash of a run that installs
  leaves a tree for the next run at every point exactly when the runtime itself worked at its start
  (`LockedRuntime.RerunHasTreeIff`); two crashes can lose every tree (`LockedRuntime.TwoCrashesCanLoseAll`).

Two corners that no parsed input reaches are proved as remarks on the expressions alone: an array of one undefined has the text
of the empty array (`StableSerialize.LoneUndefinedCollapses`), but parsed templates hold no undefined; and a write policy inside
`spec` is hidden by one at the top of a resource (`TemplateDiff.HiddenIff`, `TemplateDiff.HiddenPolicyFlip`), but the manifest
schema lets no resource have a policy there (src/bots/host-resources.ts:83-105). For manifests of that schema no policy flip is
missed (`TemplateDiff.NoFlipMissed`).

## How things are modelled

A character stands for one code unit outside the surrogate range, so lengths of strings with surrogate pairs are not modelled.
Compression, decompression and UTF-8 decoding are parameters with the law that they undo compression and encoding. Regular
expressions over whole texts, secret and personal key tests, hashes and the clock are parameters or inputs. CRC registers are
sequences of bits, lowest first. The checks of the file system, npm and the gateway are inputs. A run of the confirm protocol or
of an installation is a sequence of atomic steps; a handler of the plugin is one step up to its command and one after it.

## Model

| member | source | states |
|---|---|---|
| Crc32.BuildTable | src/support/zip.ts:36-47 | Fills a fresh table in which entry i is i divided on by eight zero bits |
| Crc32.TableStep | src/support/zip.ts:49-55 | One table lookup equals eight steps of bit-serial division by the reflected polynomial |
| Crc32.Compute | src/support/zip.ts:49-55 | The table loop computes the bit-serial checksum of every byte sequence |
| Crc32.DivideLinear | src/support/zip.ts:36-47 | Division is linear over exclusive or in register and message together |
| Crc32.ChecksumDetectsBurst | src/support/zip.ts:49-55 | Messages of equal length that differ only inside a window of 32 bits never share a checksum |
| Crc32.ChecksumDetectsByteChange | src/support/zip.ts:49-55 | Any change of up to four consecutive bytes changes the checksum |
| Zip.SafeNameStaysInside | src/support/zip.ts:34-76 | A safe name, followed segment by segment, stays below the target and reaches a file of that name |
| Zip.DosDateTimeReadsBack | src/support/zip.ts:58-67 | The DOS fields read back to the moment, year clamped to 1980-2107 and seconds rounded down to even |
| Zip.LocalHeaderBuffer | src/support/zip.ts:97-108 | The buffer written field by field in place is the local header of the format |
| Zip.CentralHeaderBuffer | src/support/zip.ts:110-125 | The same for the central directory header, with the zero fields it leaves alone |
| Zip.CreateZip | src/support/zip.ts:78-145 | Succeeds exactly when names are safe and distinct and every count, size and offset fits, and then returns the archive of the layout |
| Zip.EndIsFound | src/support/zip.ts:150-157 | The backward search finds the end record at length minus 22, whatever signatures the data contains |
| Zip.ReadZip | src/support/zip.ts:149-184 | The cursor-driven reader computes the contents function on every byte sequence, errors included |
| Zip.RoundTrip | src/support/zip.ts:78-184 | Reading an archive gives back exactly the entries it was built from, in order |
| ZipDamage.DamagedDataIsRejected | src/support/zip.ts:149-184 | When the stored bytes of one entry of a written archive are changed so that they decompress to a text that differs inside four consecutive bytes, reading fails with a checksum error naming that entry |
| StringOrder.SortForgetsOrder | src/installer/template-transition.ts:76-82 | Two lists of distinct keys sort alike exactly when they hold the same keys |
| StableSerialize.SerializeDecidesSame | src/installer/template-transition.ts:71-83 | Two values have one text exactly when they are the same up to key order and the one collapse |
| StableSerialize.LoneUndefinedCollapses | src/installer/template-transition.ts:71-83 | The collapse: an array of one undefined prints as the empty array (no parsed template holds one) |
| StableSerialize.SerializeDecidesEqual | src/installer/template-transition.ts:71-83 | On JSON values equal texts mean equal values as maps, arrays and scalars, and the other way round |
| TemplateDiff.BoundListIsSafe | src/installer/template-transition.ts:42-66 | What is listed holds no control character, is bounded, and is empty only when there was nothing to list |
| TemplateDiff.DiffToolTemplateSurfaces | src/installer/template-transition.ts:104-175 | Identical exactly when a previous template exists, the keys agree and the templates are equal; each named class exactly when its surface changed; unknown exactly when no named class is there and the templates differ or there was no previous one |
| TemplateDiff.DiffBotPackageSurfaces | src/installer/template-transition.ts:200-281 | The same for manifests, with each resource class exactly when some resource id shows it; between manifests of the schema a policy change exactly when some id in both has another policy |
| TemplateDiff.CompareResources | src/installer/template-transition.ts:236-251 | The loop lists exactly the added and changed resources and flags a policy change exactly when one is there |
| TemplateDiff.NoFlipMissed | src/installer/template-transition.ts:179-185 | With the resources the schema lets through, a policy change is flagged exactly when a resource in both lists has another policy in its spec |
| ExecWrapper.PlanExecWrapper | src/openclaw/exec-pinning.ts:46-85 | Plans a script for exactly the commands that start with an absolute path, numbering the placeholders |
| ExecWrapper.LexShellQuote | src/openclaw/exec-pinning.ts:27 | A quoted string is one literal word of sh, whatever characters it contains |
| ExecWrapper.LexContent | src/openclaw/exec-pinning.ts:60-84 | The printed script lexes to exactly the intended tokens, whatever the command's tokens contain |
| WrapperRuns.RunWrapper | src/openclaw/exec-pinning.ts:60-84 | The script exits 64 exactly on a wrong count or a leading dash, and otherwise executes its words |
| WrapperRuns.WrapperRunsPlannedCommand | src/openclaw/exec-pinning.ts:46-85 | With at most nine placeholders it executes the planned tokens with the k-th placeholder replaced by the k-th argument |
| WrapperRuns.TenthPlaceholderBreaks | src/openclaw/exec-pinning.ts:46-85 | With ten placeholders or more it executes something else |
| WrapperRuns.PromiseHoldsIffNinePlaceholders | src/openclaw/exec-pinning.ts:46-85 | The planned command is run for all arguments exactly when there are at most nine placeholders |
| ExecApprovals.PlanReachesExpected | src/openclaw/exec-pinning.ts:201-219 | Applying the plan turns what is allowed into exactly what is expected and touches nothing else |
| PathWritable.IsChainWritable | src/openclaw/exec-pinning.ts:99-122 | The walk to the root answers whether any place on the way is writable or cannot be inspected |
| PathWritable.SafeIffUntouchable | src/openclaw/exec-pinning.ts:93-122 | It calls a path safe exactly when no run of moves the user may make changes what is at the path; then none changes a directory above it either |
| IpAddress.ParseIpv4 | src/support/ip-mask.ts:120-137 | The loop computes the octets of the text |
| IpAddress.Ipv4ParsesExactly | src/support/ip-mask.ts:120-137 | A text parses to octets exactly when it is their dotted quad without leading zeros |
| IpAddress.ParseIpv6 | src/support/ip-mask.ts:144-191 | The parser computes the groups of the text, tail and gap included |
| Ipv6Forms.FormParses | src/support/ip-mask.ts:144-191 | Every form (full, gap over any zero run, dotted tail, either case, leading zeros) parses to the groups it stands for |
| Ipv6Forms.Ipv6ParsesExactly | src/support/ip-mask.ts:144-191 | A text parses to groups exactly when it is one of their forms |
| Ipv6Forms.KeyParsesBack | src/support/ip-mask.ts:325 | The canonical key parses to the groups it was printed from |
| IpMasking.IpMasker.Token | src/support/ip-mask.ts:291-303 | Answers a known request with its token and a new one with the next number of its class |
| IpMasking.IpMasker.Ipv4Token | src/support/ip-mask.ts:305-308 | Issues a token exactly for identifying addresses |
| IpMasking.IpMasker.MaskIpv6 | src/support/ip-mask.ts:311-327 | Replaces a candidate by prefix, token and suffix exactly when its address is identifying |
| IpMasking.TokensDiffer | src/support/ip-mask.ts:291-303 | Tokens are equal exactly when class and key are |
| IpMasking.TokensStay | src/support/ip-mask.ts:291-303 | A later request never changes an issued token |
| IpMasking.OrdinalsHaveNoGaps | src/support/ip-mask.ts:297-298 | Each class is numbered 1, 2, ... without gaps |
| IpMasking.FormsShareOneToken | src/support/ip-mask.ts:221-248 | The plain, the IPv4-mapped and the 64:ff9b:: form of one address make one request |
| IpMasking.Ipv6RequestsDiffer | src/support/ip-mask.ts:325 | Two IPv6 addresses masked as themselves make one request exactly when they are equal |
| KnownSecrets.KnownSecretSet.constructor | src/support/known-secrets.ts:73-87 | Stores the needle list of the values |
| KnownSecrets.NeedleListHolds | src/support/known-secrets.ts:61-87 | The list holds exactly the forms of the long enough trimmed values, each once, longest first |
| KnownSecrets.KnownSecretSet.Scrub | src/support/known-secrets.ts:95-107 | The loop computes the scrubbed text and the sum of the replacement counts |
| KnownSecrets.CountsExplainLength | src/support/known-secrets.ts:95-107 | The counts account exactly for the change in length |
| KnownSecrets.ScrubLeavesNoNeedle | src/support/known-secrets.ts:95-107 | No needle is left when none can share a character with the marker: later replacements recreate none |
| KnownSecrets.ClashWithoutBrackets | src/support/known-secrets.ts:32-39 | A needle without brackets shares a character with a marker only by lying inside it |
| KnownSecrets.CleanIffNoNeedleInMarker | src/support/known-secrets.ts:95-107 | A list of needles without brackets is removed from every text exactly when none lies inside the marker |
| KnownSecrets.KnownSecretsVanish | src/support/known-secrets.ts:61-107 | The same for every encoded form of every stored value |
| KnownSecrets.BracketSecretSurvives | src/support/known-secrets.ts:61-107 | A secret with a bracket, none of whose forms lies in the marker, is put together again by the marker although the set was built from it |
| Redact.Redactor.RedactValue | src/support/redact.ts:366-406 | Terminates, restores the set of ancestors and returns the specified output on every heap |
| Redact.Redactor.RedactObjectOrArray | src/support/redact.ts:409-443 | The same for one array or object, counting the identifying keys |
| Redact.WalkRedactsUnfolding | src/support/redact.ts:366-443 | On every heap the walk is the redaction of the tree unfolding, cut at ancestors and at depth 12 |
| Redact.SharedValuesAreRedactedAsTrees | src/support/redact.ts:385-401 | A value without cycles is redacted as the tree in which every reference is followed |
| Redact.BackIffCycle | src/support/redact.ts:386-388 | A cycle marker stands in the unfolding exactly when a chain of references comes back on itself |
| Redact.NoBackIsUnfolding | src/support/redact.ts:385-401 | Without one the value has such a tree |
| Redact.WithheldValuesDoNotLeak | src/support/redact.ts:409-443 | The output does not depend on values under secret or personal keys, on identifying keys but for their number, or on anything below the depth limit |
| Tail.TailKeepsWholeLines | src/support/tail.ts:47-67 | What is kept is the marker, with the bytes dropped, and the longest run of whole lines that leaves less than the budget, within it |
| Tail.TailFits | src/support/tail.ts:52-67 | The result stays within the cap exactly when the text does or the cap has room for the marker |
| Utf8.CutAfterNewline | src/support/tail.ts:22-23 | A newline byte is never part of a longer character, so what follows it encodes what follows a newline |
| Shed.Artifact.ApplyGuard | src/support/install-diagnostics.ts:962-989 | Withholds exactly the texts the scan finds something in, and keeps content only on collected artifacts |
| Shed.Artifact.Reduce | src/support/install-diagnostics.ts:1028-1045 | Shortens a text that stays above the floor and drops everything else |
| Shed.ShedArtifacts | src/support/install-diagnostics.ts:1017-1047 | The loop over the artifacts in place computes the specified new state of all of them |
| Shed.OrderListsCollected | src/support/install-diagnostics.ts:1019-1023 | The order lists exactly the collected artifacts, each once, least important first, larger first among equals |
| Shed.ShedFits | src/support/install-diagnostics.ts:1017-1047 | The total ends at most the cap exactly when the cap is not negative |
| Shed.ShedLeastImportantFirst | src/support/install-diagnostics.ts:1017-1047 | Nothing is touched before everything less important is dropped |
| Shed.OneShortened | src/support/install-diagnostics.ts:1030-1041 | At most one artifact is shortened; all others are as they were or dropped |
| Shed.ShortenedKeepsTail | src/support/install-diagnostics.ts:1030-1041 | The shortened one is a text that keeps marker and whole lines within its room and says how much it lost |
| TypedToolArgv.Build | src/openclaw/typed-tool-runtime.ts:80-156 | Accepts exactly the well-formed requests, with the command line of the specification; an error names a fault that is there |
| TypedToolArgv.DecodesIffNoTwoAlike | src/openclaw/typed-tool-runtime.ts:88-155 | Any two accepted requests with one command line give the same parameters the same values, exactly when no two different selections the operation permits clash in every place |
| TypedToolArgv.ArgvDecodes | src/openclaw/typed-tool-runtime.ts:144-155 | In particular that holds when no two parameters clash |
| TypedToolArgv.SharedFlagHasTwoReadings | src/openclaw/typed-tool-runtime.ts:144-155 | An operation the schema allows and two different requests with one command line |
| TypedToolArgv.StoredParamsRebuild | src/installer/real-service-typed-tool-plugin.ts:372-376 | The stored declared parameters are accepted again and give the command line that was validated |
| ConfirmProtocol.ConfirmRecordsIff | src/openclaw/typed-tool-runtime.ts:257-341 | In every state with the invariant a confirm step records a confirmation of a change exactly when the request names the change's own code, its entry survives the pruning and is pending, and the change as recorded may be committed: by its requester, an operator, on its account, before it expires |
| ConfirmProtocol.SmallStoreKeepsCommittable | src/openclaw/typed-tool-runtime.ts:257-265 | With at most 50 entries the pruning drops no change that may be committed |
| ConfirmProtocol.EveryRunKeepsInv | src/openclaw/typed-tool-runtime.ts:257-349 | In every run codes stay distinct, the store holds at most 51 entries, and each change is confirmed at most once, rightly |
| ConfirmProtocol.NeverPendingAgain | src/openclaw/typed-tool-runtime.ts:257-349 | A change that is not pending is pending in no later state of any run |
| ConfirmProtocol.FinishMarksConfirmedIff | src/openclaw/typed-tool-runtime.ts:342-349 | Completion by code marks only confirmed changes exactly when no pending one has the code |
| ConfirmProtocol.MarksConfirmedInRuns | src/openclaw/typed-tool-runtime.ts:342-349 | In a run where no completion meets a pending change only confirmed changes are marked |
| Completion.StoredFinishMarksOwn | src/openclaw/typed-tool-runtime.ts:342-349 | While the finishing change is still stored, completion alters its entry and no other |
| Completion.FinishMarksItsChange | src/installer/real-service-typed-tool-plugin.ts:428-465 | In a run where the steps between a confirmation and its completion lie within 24 hours, completion alters no other entry if at most 50 changes were recorded after the change, and its own entry is there to be marked if fewer were |
| Completion.ReusedCodeIsMarked | src/installer/real-service-typed-tool-plugin.ts:366-465 | The run of 51 proposals within the time limit of a command (line 100) after which a change nobody confirmed is marked as applied |
| ConfirmProtocol.Plugin.RecordChange | src/installer/real-service-typed-tool-plugin.ts:366-397 | Prunes, draws codes until one is free and stores the change as the protocol's propose step |
| ConfirmProtocol.Plugin.StartConfirmation | src/installer/real-service-typed-tool-plugin.ts:428-438 | Prunes, resolves and stores as the protocol's confirm step |
| ConfirmProtocol.Plugin.FinishConfirmation | src/installer/real-service-typed-tool-plugin.ts:454-465 | Stores the outcome of the command as the protocol's finish step |
| JobRunner.Job.Run | src/installer/job-runner.ts:34-118 | The loop that updates the job in place publishes exactly the specified snapshots |
| JobRunner.RunsAreHonest | src/installer/job-runner.ts:34-118 | With distinct ids every snapshot has done steps, at most one other that has begun, and waiting ones; the job fails at the first step that fails it and succeeds otherwise |
| JobRunner.RunsRightIffDistinctIds | src/installer/job-runner.ts:59-60 | Whatever the steps do, that holds exactly when no two steps share an id |
| GatewayReadiness.WaitForGatewayReady | src/installer/gateway-readiness.ts:74-119 | Ends within ceil(deadline/poll)+1 probes; ready exactly if the last probe succeeded; otherwise the unit failed or restarted or the deadline has passed; never earlier |
| GatewayReadiness.DecidesInTime | src/installer/gateway-readiness.ts:82-118 | The first round that decides is at most number ceil(deadline/poll) |
| GatewayReadiness.BoundIsReached | src/installer/gateway-readiness.ts:82-118 | That bound is reached for every deadline and poll interval |
| LockedRuntime.Installer.InstallLockedRuntime | src/openclaw/bootstrap.ts:660-731 | A failed npm ci leaves runtime, previous tree and link; a success leaves the new tree as the runtime, no staging or previous, the link into it, and a runtime that is current exactly if npm ci honoured the lock |
| LockedRuntime.Installer.LinkBin | src/openclaw/bootstrap.ts:992-1007 | Links the command exactly when the package names one that is there, through a rename |
| LockedRuntime.CrashLeavesTreeIff | src/openclaw/bootstrap.ts:660-731 | Every crash point leaves a working tree exactly when the runtime or the previous tree worked at the start |
| LockedRuntime.RerunHasTreeIff | src/openclaw/bootstrap.ts:652-659 | Every crash point of an installing run leaves one the next run keeps exactly when the runtime worked at the start |
| LockedRuntime.FailedRunKeepsTrees | src/openclaw/bootstrap.ts:692-693 | No state of a failing run changes runtime, previous tree or link |
| LockedRuntime.LinkNeverMissing | src/openclaw/bootstrap.ts:986-991 | The command's name is never missing once it was there |
| LockedRuntime.TwoCrashesCanLoseAll | src/openclaw/bootstrap.ts:660-731 | Two crashes and a third run can lose every tree although the runtime worked at first |
| PermissionWalk.FileTree.Walk | src/openclaw/bootstrap.ts:1122-1187 | The worklist ends and has fixed exactly what its roots lead to, links followed, and what lies below that over no further link |
| PermissionWalk.FileTree.EnsurePackageReadable | src/openclaw/bootstrap.ts:1119-1187 | Every package entry gets the readable mode |
| PermissionWalk.FileTree.HardenBundledExtensions | src/openclaw/bootstrap.ts:1189-1233 | Every extension entry loses the write access of others than its owner, also when both extension roots lead to one place |
| PermissionWalk.FileTree.RepairPermissions | src/openclaw/bootstrap.ts:733-735 | After both, every package entry is readable by all, directories and commands open to all, nothing else granted; no extension entry is writable by group or others, wherever its root leads; all else is as it was |
| PermissionWalk.PendingAfter | src/openclaw/bootstrap.ts:1125-1184 | Visiting a name takes only what it leads to off what is still to be visited |
| PermissionWalk.ResolveExtends | src/openclaw/bootstrap.ts:1180-1184 | A listed entry that is not a link is found under its directory's name, over no more links |
| PermissionWalk.VisitWeighsLess | src/openclaw/bootstrap.ts:1125-1184 | A visit leaves less to do, even where roots overlap |

## Left out

- KnownSecrets.ScrubLeavesNoNeedle: for needles with brackets the condition is proved sufficient, not necessary; it is exact for needles without (`CleanIffNoNeedleInMarker`).
- ZipDamage.DamagedDataIsRejected: speaks of what the damaged bytes decompress to, since nothing is assumed of how compression spreads a change.
- Redact.Redactor.RedactValue: the key `__proto__` and holes in arrays are not modelled, and numbers are opaque.
- PathWritable.SafeIffUntouchable: speaks of a path without symbolic links on the way; resolving links is not modelled.
- LockedRuntime.Installer.InstallLockedRuntime: modes and real file system failures are not modelled; a write of one file is one step.
- PermissionWalk.FileTree.Walk: calls that fail and trees that change under the walk are not modelled; a name is followed over 40 links at most.
- ConfirmProtocol.EveryRunKeepsInv: each read and rewrite of the store is one step, as the store has no lock; a store edited by hand is not modelled; sender names arrive normalised.
- JobRunner.Job.Run: timestamps and an observer that throws are not modelled, and the branch for an unknown step cannot be reached.
- GatewayReadiness.WaitForGatewayReady: needs a poll interval of at least one and a clock that sleeping advances.
- The slug and hash in a wrapper's path, NUL characters in commands, and sh beyond what wrappers use.
- Finding candidate addresses in a text, MAC addresses and version contexts; the text rules of the redactor.
- The order among needles of equal length, beyond the stable sort that defines it.
- Collecting diagnostics, loading secrets from files, manifests, and every process the node starts.
- Slash-command assignment, describing changes, version comparison and the rendered plugin files: flat code without a deep property.
