# Verified model of the policy builder's guards

The repository builds, checks, deploys and supervises *policy contracts*: generated Soroban contracts that
decide which calls a delegate may make for a smart account. This project models the parts of it that say no,
or that other parts rely on having said no, and proves what their acceptance means.

| Files | What they model |
|---|---|
| `Policy`, `PolicyRuns` | the generated contract (install, enforce, uninstall, the call counter, entry lifetimes) and all runs of it |
| `Worker`, `LiveHelper` | its two callers: the native worker's stateful sequence and the live helper's counter check |
| `Transcript`, `TranscriptHistory`, `WalletSends`, `CardMatch` | the online monitor of agent sessions, and the past-time meaning of what it lets through |
| `Leb128`, `WasmSections`, `WasmMeta`, `WasmPrint`, `Toolchain` | three readers and one printer of the same module format, and the toolchain reconciliation built on them |
| `Captured`, `Classify`, `Footprint` | the strict captured ledger under a host's storage overlay, the closure check and the state-difference classifier |
| `Capacity`, `Launcher` | build slots, launchers, runtime clients and containers as interleaved steps, and the programs that take them |
| `FrameProtocol`, `EventStream` | two stream readers that must not depend on how the stream is cut |
| `Prelude` | shared vocabulary |

Code that updates state in place is a class or a method with a loop here too; it is proved against a
specification function or predicate, and the results about runs are lemmas about that specification. A host
panic is an `Err` beside unchanged storage. Hashes, regular expressions, prose recognition and JSON decoding
are function values about which nothing is assumed, except where a lemma names an assumption (`Lossless`:
decoding text undoes encoding it).

Where the code turned out not to have a property in general, the exact condition and an input that breaks it
are both here:

| property | exactly when | an input that breaks it |
|---|---|---|
| a send keeps its slot, so later sends carry its bytes | `WalletSends.SlotIsKept`, `LaterSendAgrees` | `LateRefusalFreesTheSlot` |
| the authority was read for the grant that is assembled | `TranscriptHistory.AssemblyGrant` | `WalletSends.SecondAnswerSwapsTheGrant` |
| the helper's final check means one permit | `LiveHelper.FinalCheck` | `HelperAcceptsTwoPermits` |
| the card match finds every matching | `CardMatch.NestedIsExact` | `SelfBeforeAccountMisses` |
| a recorded stop prevents the runtime client | `Capacity.StopIsInTime` | `StopInTheWindowIsLate` |
| a stream over the limit gets one reply however it arrives | `EventStream.ArrivalMattersExactly` | `EndpointAnswerIsLost` |

The input for the helper's final check needs an account that reinstalls the rule under the same id during the
transfer. The helper only accepts one pinned account Wasm (`contracts/atomic-live-helper/src/lib.rs:155-161`), whose
code is not part of this model.

`build` keeps its slot only on the worker call's outer error. Beside a received frame, `worker.rs` also returns
`Ok` when it never started a launcher (`worker.rs:246-277`); that is the step `Decline`, and the slot still comes
back only when nothing of the job can run.

## Model

| member | source | states |
|---|---|---|
| Policy.MatchedCount | contracts/golden-transfer-policy/src/contract.rs:503-514 | The nested scan counts the set of expected signers that authenticated, however often the authenticated list repeats one. |
| Policy.SignersUnchanged | contracts/golden-transfer-policy/src/contract.rs:316-336 | Equal length plus membership of every expected signer decides exactly that the live list is a permutation of the expected one. |
| Prelude.SameLengthCover | contracts/golden-transfer-policy/src/contract.rs:316-336 | The pigeonhole step: a list as long as a duplicate-free one and covering it has the same multiset. |
| Policy.RefusalIs | contracts/golden-transfer-policy/src/contract.rs:295-363 | Conditions are tried in the published order, and the first that fails gives the code; if none fails there is a permit. |
| Policy.GeneratedPolicy.Remaining | contracts/golden-transfer-policy/src/contract.rs:204-223 | Cap minus uses, and a refusal when marker or counter is missing. |
| Policy.GeneratedPolicy.KeepAlive | contracts/golden-transfer-policy/src/contract.rs:369-376 | Marker, counter and instance are extended to the target, only when calls remain and the window is open. |
| Policy.GeneratedPolicy.Refusal | contracts/golden-transfer-policy/src/contract.rs:295-363 | The checks of an enforcement give the code of the first condition, stated by meaning, that fails. |
| Policy.GeneratedPolicy.Enforce | contracts/golden-transfer-policy/src/contract.rs:295-387 | Whole new state and result: refused with that code and storage unchanged, or one use spent and rent kept. |
| Policy.GeneratedPolicy.Install | contracts/golden-transfer-policy/src/contract.rs:417-449 | Refusals in order; otherwise a marker and a zero counter, with rent. |
| Policy.GeneratedPolicy.Uninstall | contracts/golden-transfer-policy/src/contract.rs:473-488 | Both entries of the key go, or nothing changes. |
| Policy.CheckTransfer | contracts/golden-transfer-policy/src/contract.rs:516-555 | The compiled tuple check accepts exactly one argument list. |
| Policy.CheckSwap | contracts/soroswap-swap-policy/src/contract.rs:520-567 | Accepts exactly five arguments: a bounded spend, a minimum to receive, one exact path, the account, anything. |
| Policy.TransferPermitsExactly | contracts/golden-transfer-policy/src/contract.rs:295-363 | The transfer contract permits exactly its one argument list, on its token, by its delegate under an unchanged rule, up to ledger 4223456 and twelve times. |
| Policy.SwapPermitsExactly | contracts/soroswap-swap-policy/src/contract.rs:299-367 | The swap contract permits exactly the swaps within its two bounds, on its router, by its delegate under an unchanged rule, up to ledger 4260000 and ten times. |
| PolicyRuns.PermitsExactly | contracts/golden-transfer-policy/src/contract.rs:295-363 | An enforcement permits if and only if the attempt is admissible and the installation has calls left. |
| PolicyRuns.MissingStateMeansNotInstalled | contracts/golden-transfer-policy/src/contract.rs:347-356 | With marker and counter together, the missing-counter branch is unreachable: that code means not installed. |
| PolicyRuns.ApplyKeeps | contracts/golden-transfer-policy/src/contract.rs:295-488 | Every call keeps marker and counter together and the cap, changes no other key, and changes nothing when it fails. |
| PolicyRuns.CounterFrom | contracts/golden-transfer-policy/src/contract.rs:354-387 | Over every run from any consistent state: a key is installed iff an install of it stands or it stood throughout, and the counter is the permits since that install, or the old count plus all permits. |
| PolicyRuns.CounterIsHistory | contracts/golden-transfer-policy/src/contract.rs:354-387 | Over every run from empty storage: installed iff some install was not undone, and then the counter is the number of permits since it, at most the cap. |
| PolicyRuns.CapAndWindow | contracts/golden-transfer-policy/src/contract.rs:295-363 | No installation permits more than its cap, and no permit falls past the window or on an inadmissible attempt. |
| PolicyRuns.OthersAreInvisible | contracts/golden-transfer-policy/src/contract.rs:295-488 | Non-interference: deleting all calls on other keys changes neither a key's entries nor the result of any next call on it. |
| PolicyRuns.ExtensionsAreBounded | contracts/golden-transfer-policy/src/contract.rs:369-376 | For every call, installs included: no lifetime of the instance or of any entry there is afterwards shrinks, or is extended past the window or the network's reach; new entries start from what the install wrote. |
| PolicyRuns.PermitKeepsAlive | contracts/golden-transfer-policy/src/contract.rs:369-376 | With r the smaller of the ledgers left in the window and the network's reach, or 0 after the last call: a permit leaves marker, counter and instance each alive until exactly r ledgers on if they lived at most r/2 ledgers more, and as they were otherwise. |
| PolicyRuns.InstallKeepsAlive | contracts/golden-transfer-policy/src/contract.rs:435-442 | The same of an install, starting from what it wrote, with a counter at zero. |
| PolicyRuns.TransferInstallLives | contracts/golden-transfer-policy/src/contract.rs:572-580 | Installing the transfer contract at ledger 3000000 keeps its marker until ledger 4223456, the end of its window. |
| PolicyRuns.InstanceOverRuns | contracts/golden-transfer-policy/src/contract.rs:369-376 | Over every run the instance's lifetime only grows, within the window and the network's reach at some call. |
| PolicyRuns.RentWhileStanding | contracts/golden-transfer-policy/src/contract.rs:369-376 | From any state in which a key stands, so do its marker's and counter's until it is uninstalled. |
| PolicyRuns.RentOverRuns | contracts/golden-transfer-policy/src/contract.rs:417-449 | Over every run since an install that stands, marker and counter live at least as long as it wrote them for, and longer only within both bounds, the install's own extension included. |
| PolicyRuns.ExhaustedIsFrozen | contracts/golden-transfer-policy/src/contract.rs:354-376 | An exhausted installation permits nothing and changes in nothing, lifetimes included, until it is uninstalled. |
| Worker.Runner.Attempt | execution-runtime/src/execution.rs:764-880 | One attempt keeps every context's effect or none, the consumed nonce included, and logs counters and snapshots around it. |
| Worker.EnforceAllCounts | execution-runtime/src/execution.rs:764-880 | Any number of contexts spends that many calls if they fit the cap, and is refused with the cap's code otherwise. |
| Worker.AttemptedCounts | execution-runtime/src/execution.rs:764-880 | So an attempt does, and a refused one leaves the world, nonces included, as it was. |
| Worker.Stateful | execution-runtime/src/execution.rs:1055-1137 | The sequence passes exactly when the deployed cap equals the declared one and is at least one. |
| LiveHelper.AllDistinct | contracts/atomic-live-helper/src/lib.rs:138-150 | The pairwise loop decides that the six roles are all different. |
| LiveHelper.InScopeExactly | contracts/atomic-live-helper/src/lib.rs:130-166 | Which invocations reach the account: an amount from 1 to 1000001, six roles no two of which are the same, and the three code checks. |
| LiveHelper.InstallAndTransfer | contracts/atomic-live-helper/src/lib.rs:130-220 | The first failing check is the error and leaves every contract as before; otherwise the effects of install and transfer, and the requested rule. |
| LiveHelper.DropIsPermits | contracts/atomic-live-helper/src/lib.rs:200-235 | While no install or uninstall of the key succeeds, the remaining count drops by exactly the permits of the schedule. |
| LiveHelper.CountSinceReinstall | contracts/atomic-live-helper/src/lib.rs:200-235 | After a reinstall the remaining count is the cap less the permits since then. |
| LiveHelper.FateOf | contracts/atomic-live-helper/src/lib.rs:200-220 | During any transfer an installed rule stood throughout, was reinstalled, or ended detached. |
| LiveHelper.FinalCheck | contracts/atomic-live-helper/src/lib.rs:195-220 | Exactly when the final check passes, for each of the three: one permit; permits since the reinstall plus the count before equal to the cap plus one; never. |
| LiveHelper.OnePermit | contracts/atomic-live-helper/src/lib.rs:195-220 | So without a successful install or uninstall of the key, it passes if and only if the candidate policy permitted exactly once. |
| LiveHelper.ReinstallHidesAPermit | contracts/atomic-live-helper/src/lib.rs:200-235 | Two permits around a reinstall show a drop of one. |
| LiveHelper.HelperAcceptsTwoPermits | contracts/atomic-live-helper/src/lib.rs:130-220 | The helper as a whole accepts such a transfer of a fresh rule, with no refusal. |
| Transcript.Monitor.OnUser | scripts/check-agent-transcript.py:670-680 | A user turn moves the flags exactly as the step function says. |
| Transcript.Monitor.OnCall | scripts/check-agent-transcript.py:695-773 | A call's resets, slot and findings, in the order the checker applies them. |
| Transcript.Monitor.OnAnswer | scripts/check-agent-transcript.py:801-825 | An answer's effect on card, authority, grant and staged sends. |
| Transcript.CheckEvents | scripts/check-agent-transcript.py:623-826 | The one-pass checker reports a finding exactly where the trace raises it. |
| TranscriptHistory.LatestAreHistory | scripts/check-agent-transcript.py:700-702 | The latest-call flags and the current grant are functions of the past of the trace. |
| TranscriptHistory.CardIsHistory | scripts/check-agent-transcript.py:672-689 | Shown, confirmed and lists-authority hold exactly when a card that completely states the current grant stands uncleared, was confirmed, lists it. |
| TranscriptHistory.OneCardStands | scripts/check-agent-transcript.py:686-689 | Two cards never stand together. |
| TranscriptHistory.HandoffRule | scripts/check-agent-transcript.py:645-662 | A printed command or proposal, a wallet send and a written proposal are found unconfirmed if and only if no card that completely states the grant current then was confirmed and stands uncleared; no other step is. |
| TranscriptHistory.CallsAndCards | scripts/check-agent-transcript.py:753-754 | Tool by tool: the four reset tools and the own server's wallet connection put every card away, and any other call leaves the card as it was. |
| TranscriptHistory.NoCardUntilTitle | scripts/check-agent-transcript.py:683-689 | After that no card is shown or confirmed until the next titled one. |
| TranscriptHistory.ResetHandoffIsFound | scripts/check-agent-transcript.py:645-650 | So a handoff after such a call, with no titled card between, is found unconfirmed. |
| TranscriptHistory.AuthorityIsHistory | scripts/check-agent-transcript.py:811-814 | The stored request is exactly that of the authority answer that still stands for the grant. |
| TranscriptHistory.AssemblyRule | scripts/check-agent-transcript.py:765-773 | An unsigned assembly, by tool or by command, passes if and only if it uses the tool, and authority answer, listing card, confirmation and bound request came in that order. |
| TranscriptHistory.OnlyAssemblies | scripts/check-agent-transcript.py:765-773 | The two assembly findings are raised by assemblies alone. |
| TranscriptHistory.AssemblyGrant | scripts/check-agent-transcript.py:801-824 | The grant of an evidenced assembly was fixed before its authority was read if and only if no answer to a synthesis came after that reading. |
| TranscriptHistory.AssemblyOrder | scripts/check-agent-transcript.py:753-824 | So with one answer per call, acceptance implies synthesis result, answer about that grant, card for it, confirmation, assembly, in this order. |
| TranscriptHistory.DecisionRule | scripts/check-agent-transcript.py:728-752 | Which of the three findings a synthesis raises: no statement replied to since the last one, a latest reply that does not plainly accept, or a statement that did not restate these decisions; none otherwise. |
| TranscriptHistory.UnreadableRule | scripts/check-agent-transcript.py:815-824 | A synthesis result is found unreadable if and only if it answers the latest synthesis without error and states no grant. |
| TranscriptHistory.CallIsLast | scripts/check-agent-transcript.py:630 | An answer is to the last call made under its identifier, wherever in the session that is. |
| WalletSends.SlotIsKept | scripts/check-agent-transcript.py:719-727 | While one confirmation stands, the send that holds its slot goes on holding it if and only if no answer in between refuses it. |
| WalletSends.RefusesExactly | scripts/check-agent-transcript.py:164-177 | Certainly refused means an error with one of four codes, or a declined call; any other answer may have left a draft. |
| WalletSends.HolderFixesBytes | scripts/check-agent-transcript.py:721-724 | Under a held slot a send passes the check on reuse if and only if it carries the holder's bytes. |
| WalletSends.LaterSendAgrees | scripts/check-agent-transcript.py:719-727 | Of two sends under one confirmation, the later passes exactly with the earlier one's bytes, as long as no answer in between refused the send that first carried them. |
| WalletSends.SendsAgree | scripts/check-agent-transcript.py:719-727 | So with prompt answers, two passing sends under one confirmation carry the same bytes unless the first was certainly refused. |
| WalletSends.LateRefusalFreesTheSlot | scripts/check-agent-transcript.py:805-806 | Without prompt answers it fails: a late refusal of the first send lets a third carry other bytes. |
| WalletSends.SecondAnswerSwapsTheGrant | scripts/check-agent-transcript.py:815-819 | A synthesis answered twice lets an assembly pass on authority read for the first grant and a card for the second. |
| CardMatch.PermittedCallsMatch | scripts/check-agent-transcript.py:330-347 | The loop with `remaining.pop` computes the greedy assignment on lists of equal length. |
| CardMatch.PositionalExactly | scripts/check-agent-transcript.py:335-337 | The index check means the argument numbers are 0 to n-1, each once, in some order. |
| CardMatch.AcceptanceMatches | scripts/check-agent-transcript.py:334-347 | Acceptance proves a one-to-one matching of displayed to permitted calls, none used twice, none left over. |
| CardMatch.NestedIsFound | scripts/check-agent-transcript.py:334-347 | When an earlier call that shares a display is shown only where the later one is, every existing matching is found. |
| CardMatch.NestedIsExact | scripts/check-agent-transcript.py:334-347 | For every spec: the loop misses no matching of any card if and only if some call cannot be displayed, or all number their arguments from 0 and are nested. |
| CardMatch.NotNestedMisses | scripts/check-agent-transcript.py:334-347 | Two calls of a list of any length that are not nested have a card that matches and is refused. |
| CardMatch.SelfBeforeAccountMisses | scripts/check-agent-transcript.py:296-347 | Such a pair: a `SELF` constraint before the account's own address; in the other order the same card is accepted. |
| Leb128.ReadUleb128 | crates/build-runner/src/lib.rs:603-613 | The Rust reader accepts exactly the `u32` of the WebAssembly grammar, with its value and rest. |
| Leb128.Reader.Take | scripts/check-wasm-exports.py:23-29 | Takes the next bytes and advances, or refuses and stays. |
| Leb128.Reader.U32 | scripts/check-wasm-exports.py:34-43 | The strict Python reader accepts exactly the same `u32`. |
| Leb128.LebU32 | scripts/check-wasm-imports.py:22-32 | The loose Python reader accepts exactly the grammar's `u35`. |
| Leb128.LooseReaderExceeds | scripts/check-wasm-imports.py:22-32 | It agrees with the strict ones where they accept; beyond them it accepts only a fifth byte from 0x10 to 0x7F and a value of at least 2^32. |
| Leb128.Uleb128 | crates/build-runner/src/lib.rs:1670-1681 | The printer's loop emits the canonical encoding. |
| Leb128.PrintedReads | crates/build-runner/src/lib.rs:1670-1681 | Every printed number is read back, with any bytes after it. |
| WasmSections.SplitForExports | scripts/check-wasm-exports.py:55-87 | The strict walk yields the module's sections or refuses. |
| WasmSections.SplitForImports | scripts/check-wasm-imports.py:42-69 | The loose walk yields the sections of the wider grammar or refuses, and below 4 GiB exactly what the strict walk does. |
| WasmSections.WalksAgree | scripts/check-wasm-imports.py:46-51 | On every byte string below 2^32 + 6 bytes the strict and the loose walk agree, refusals included. |
| WasmSections.ModulesAgree | scripts/check-wasm-imports.py:42-51 | So all three readers split every module of less than 4 GiB alike, or refuse it alike. |
| WasmSections.LooseWalkAcceptsMore | scripts/check-wasm-imports.py:22-32 | The bound is sharp: a section body of 2^32 bytes is accepted by the loose walk only. |
| WasmSections.StrictIsLoose | scripts/check-wasm-imports.py:46-51 | At any size, what the strict walk splits the loose one splits the same way. |
| WasmSections.WalkConsumesAll | crates/build-runner/src/lib.rs:637-651 | An accepted walk accounts for every byte: the module is its sections' ids, length encodings and bodies and nothing else. |
| WasmSections.PrintedWalks | crates/build-runner/src/lib.rs:1710-1714 | Printed sections are walked back exactly. |
| WasmMeta.CollectPayload | crates/build-runner/src/lib.rs:670-698 | The entry loop collects all entries of one section, or refuses an undecodable, repeated or 257th one. |
| WasmMeta.WasmContractMeta | crates/build-runner/src/lib.rs:630-702 | The map of all entries of all sections, exactly when they are readable, at most 256 and have distinct keys. |
| WasmPrint.PrintXdrString | crates/build-runner/src/lib.rs:1685-1692 | Length, bytes and zero padding to a multiple of four. |
| WasmPrint.XdrStringReads | crates/build-runner/src/lib.rs:1685-1692 | The reader takes back exactly the printed string (RFC 4506 section 4.11). |
| WasmPrint.OnlyPrintedReads | crates/build-runner/src/lib.rs:669-698 | And it takes nothing else for a string: length, bytes, and only zeros up to a multiple of four. |
| WasmPrint.RawReads | crates/build-runner/src/lib.rs:669-698 | Any entries printed in that form are read, whatever their bytes decode to. |
| WasmPrint.OnlyRawReads | crates/build-runner/src/lib.rs:669-698 | And a payload that is read is the printed form of the entries read from it. |
| WasmPrint.WasmWithMeta | crates/build-runner/src/lib.rs:1699-1716 | The test printer emits the module of its groups. |
| WasmPrint.PrintedModuleReads | crates/build-runner/src/lib.rs:630-702 | Round trip: a printed module, among any other sections, reads as exactly the map of its entries, or is refused when keys repeat or exceed 256. |
| WasmPrint.ModuleArrangementIsIrrelevant | crates/build-runner/src/lib.rs:623-629 | Permuting entries, moving them between sections or reordering sections changes nothing the reader reports. |
| WasmPrint.SectionOrderIsIrrelevant | crates/build-runner/src/lib.rs:623-629 | The same for section order in any module, however its lengths are encoded. |
| Toolchain.SpellingsAgree | crates/build-runner/src/lib.rs:721-743 | The `--version` line and the metadata spelling of one build reduce to the same version and revision. |
| Toolchain.VersionIsFirst | crates/build-runner/src/lib.rs:721-724 | The version of any text is its first word that starts with a digit, and there is none without such a word. |
| Toolchain.RevisionReads | crates/build-runner/src/lib.rs:725-728 | The revision of any text is the first word in its first pair of parentheses. |
| Toolchain.NoRevision | crates/build-runner/src/lib.rs:725-728 | There is none without such a pair, or with nothing but space in it. |
| Toolchain.MetadataReads | crates/build-runner/src/lib.rs:732-743 | A metadata value splits at its first `#`; without one it is all version. |
| Toolchain.ReconcileDeclaredToolchain | crates/build-runner/src/lib.rs:767-846 | Accepts if and only if the module is readable and all three keys agree with the manifest, spelled out key by key; otherwise the error is that of the first claim that is not confirmed. |
| Toolchain.ReconcilesExactly | crates/build-runner/src/lib.rs:767-846 | Reconciled means: readable, three equal versions, and for `cliver` a revision on both sides, equal. |
| Toolchain.CheckClaim | crates/build-runner/src/lib.rs:812-843 | One claim: its fault, if it has one, is a missing key, no version, another version, an unstated or another revision. |
| Toolchain.AcceptanceMeans | crates/build-runner/src/lib.rs:767-846 | Acceptance of any bytes implies a readable module that states `rsver`, `cliver` and `rssdkver` exactly once each, with the declared version and, for `cliver`, the declared revision. |
| Toolchain.VerdictIgnoresArrangement | crates/build-runner/src/lib.rs:623-629 | Two printed modules with the same entries get the same verdict. |
| Toolchain.VerdictIsAboutEntries | crates/build-runner/src/lib.rs:623-629 | So do two modules in any encoding that state the same entries or have the same sections. |
| Captured.StrictSource.Get | execution-runtime/src/captured.rs:74-99 | The captured entry, a declared absence, or a logged refusal; the logs grow accordingly. |
| Captured.EffectiveState | execution-runtime/src/captured.rs:735-756 | Captured entries overridden, in order, by the host's storage. |
| Captured.StepRefines | execution-runtime/src/captured.rs:74-99 | An accepted read, write, delete or frame step answers as the plain ledger and keeps the two in step. |
| Captured.OverlayRefinesLedger | execution-runtime/src/captured.rs:735-756 | Over every sequence the effective state is the plain ledger after the accepted operations, and the logs only grow. |
| Captured.UndeclaredIsRefused | execution-runtime/src/captured.rs:55-99 | The undeclared log is empty exactly when nothing was refused, rollbacks notwithstanding. |
| Captured.RefusedExactly | execution-runtime/src/captured.rs:55-99 | Which accesses are refused: the first to a captured key before the source was made strict, or to any other key after that unless it was declared absent. |
| Captured.CleanRunIsPlain | execution-runtime/src/captured.rs:735-756 | With that log empty at the end, every operation got the plain map's answer and the final state is the plain map. |
| Captured.RefusalIsRecorded | execution-runtime/src/captured.rs:55-99 | A refused key is in the log of every later state of every run, whatever was rolled back since. |
| Classify.Classify | execution-runtime/src/captured.rs:809-854 | What is reported unexpected is exactly what is, by kind, and nothing is exactly when the difference is an expected one; the created, written and extended lists are exact. |
| Classify.Agree | execution-runtime/src/captured.rs:1009-1072 | Gives up when a balance is gone; otherwise a case agrees exactly when the specification of its kind, permit or denial, holds, with the writable keys those of the prepared entries. |
| Classify.PermitAgreesExactly | execution-runtime/src/captured.rs:1009-1064 | An agreeing permit, in full: nothing undeclared, exactly the nonces new, other data only at the two balances and the counter, the balances moved against each other by the amount, the counter up by one. |
| Classify.DenialAgreesExactly | execution-runtime/src/captured.rs:1013-1071 | An agreeing denial, in full: attributed to the policy, the same entries, neither state hash nor counter moved. |
| Classify.AgreeingPermit | execution-runtime/src/captured.rs:1005-1064 | From closure check to verdict: the plain ledger gained exactly the nonces, lost nothing, changed data only at the two balances and the counter, the balances moved against each other, and every host answer was the ledger's. |
| Classify.AgreeingDenial | execution-runtime/src/captured.rs:1005-1071 | The plain ledger has the same entries and differs at most at the two balances and the counter; where the state hash tells the two states apart, not at all. |
| Classify.ObservedIsLedger | execution-runtime/src/captured.rs:1005-1037 | With nothing undeclared, the observed states before and after are those of the plain ledger. |
| Footprint.CheckFootprint | execution-runtime/src/captured.rs:495-570 | Accepts a capture exactly when it is the three-entry transfer closure, sorted, each entry its key's own, live and not from later. |
| Footprint.WritableAreBalances | execution-runtime/src/captured.rs:523-570 | An accepted capture has three entries and its writable keys are the two balances. |
| Footprint.CapturedAsPrepared | execution-runtime/src/captured.rs:558-569 | The ledger of an accepted capture is its three entries and nothing else. |
| Footprint.BeforeIsLexicographic | execution-runtime/src/captured.rs:498 | The order in which keys must be sorted is lexicographic. |
| Capacity.BuildSlots.New | crates/build-runner/src/lib.rs:190-200 | There are slots for every limit but zero, all of them free. |
| Capacity.BuildSlots.TryTake | crates/build-runner/src/lib.rs:203-214 | Takes one slot if and only if one is free, and never waits. |
| Capacity.BuildSlots.Available | crates/build-runner/src/lib.rs:217-220 | What is free, never below zero. |
| Capacity.RunKeeps | crates/build-runner/src/lib.rs:856-877 | Over every interleaving the count is exactly the held and retained slots and at most the limit. |
| Capacity.CountNeverWraps | crates/build-runner/src/lib.rs:223-228 | No guard is ever dropped at zero. |
| Capacity.LiveWorkIsCharged | deployment/worker-launcher.py:193-256 | Over every interleaving, whatever client or container may still run is charged to its own slot, so the limit bounds it. |
| Capacity.SettledIsFinal | deployment/worker-launcher.py:227-256 | After a confirmation, or after a build returned its slot, no continuation has a client or container of that job. |
| Capacity.AllKeptMeansBusy | crates/build-runner/src/lib.rs:863-877 | Retained slots are never given back; once all are, every later build is refused. |
| Capacity.StopPreventsClient | deployment/worker-launcher.py:131-133 | A stop recorded before the launcher looks for one means its client is never spawned, in any continuation. |
| Capacity.StopIsInTime | deployment/worker-launcher.py:131-133 | Recording a stop keeps an unspawned client from ever being spawned if and only if the launcher is not between its look and its spawn. |
| Capacity.StopInTheWindowIsLate | deployment/worker-launcher.py:131-135 | The run in which the stop falls in between and the client starts. |
| Capacity.KeptSlotMayHideAContainer | crates/build-runner/src/lib.rs:867-873 | Why the slot is kept: a run in which a container appears after its build gave up. |
| Launcher.World.Free | crates/build-runner/src/lib.rs:216-220 | After any run, the slots reported free and the charged ones make up the limit. |
| Launcher.World.Meanwhile | deployment/worker-launcher.py:33-39 | Steps of others cannot move a launcher's phase, undo a stop, start a client or bring a container back; the stop and the client change exactly by a signal and an exit among them. |
| Launcher.Drain | deployment/worker-launcher.py:138-152 | The output was read if and only if no stop was recorded before, it is within the limit, and some turn finds it closed after all of it was read with no stop and time left; otherwise the client was killed. |
| Launcher.Bounded | deployment/worker-launcher.py:125-159 | However it ends the client is dead; it ran exactly if no stop was recorded before the look and it could be spawned; there is a result, its whole output and status, if and only if it was not stopped, was read to the end and exited in time. |
| Launcher.Removed | deployment/worker-launcher.py:193-197 | Confirms exactly when nothing raised, the probe answered and there was no container at the probe; else the launcher ends without a frame. |
| Launcher.Launch | deployment/worker-launcher.py:227-256 | There is a frame if and only if nothing was launched or removal was confirmed, and then no continuation has anything of the job running; it carries the output if and only if the job succeeded: read to the end, status 0, acceptable. |
| Launcher.Deliver | deployment/worker-launcher.py:259-279 | What is written is the encoded output of a job that succeeded, when within the budget, and the encoding of no result otherwise. |
| Launcher.Build | crates/build-runner/src/lib.rs:856-882 | Refused exactly when every slot is charged; returns its slot only when nothing of the job runs or ever will; otherwise keeps it. |
| Launcher.CallWorker | crates/build-runner/src/worker.rs:203-343 | `Ok` only if no launcher was started or its frame was received; anything else keeps the slot. |
| FrameProtocol.ReadFrame | execution-runtime/src/protocol.rs:154-176 | The answer depends only on the whole stream; success leaves exactly the bytes after the newline; a failure consumed at most the limit. |
| FrameProtocol.FrameIsFirstLine | execution-runtime/src/protocol.rs:154-176 | A frame is read if and only if the stream starts with that line and its newline within the limit; the end error means no newline and no overflow. |
| FrameProtocol.InteractiveSigner.Emit | execution-runtime/src/protocol.rs:199-211 | Accepted exactly within both budgets; refused frames are charged too, except past the deadline. |
| FrameProtocol.OutputIsBounded | execution-runtime/src/protocol.rs:199-211 | Over every run exactly the accepted lines are written, within the output limit and the charge. |
| FrameProtocol.AcceptedExactly | execution-runtime/src/protocol.rs:199-211 | Over any run an attempt is accepted if and only if it is in time, of at most 256 KiB, and all attempts made in time, refused ones included, come to at most 16 MiB. |
| FrameProtocol.OverBudgetIsFinal | execution-runtime/src/protocol.rs:204-206 | Once over the output limit the signer accepts nothing more. |
| FrameProtocol.ReadFrames | execution-runtime/src/protocol.rs:154-176 | Repeated reading returns exactly the lines a stream holds, for every chunking, and leaves the tail. |
| FrameProtocol.Exchange | execution-runtime/src/protocol.rs:154-211 | What the writer accepted over any run is what the reader returns, in order, for every chunking. |
| EventStream.Feed | scripts/hosted_mcp.py:78-93 | The line loop is the line parser. |
| EventStream.ReadResponse | scripts/hosted_mcp.py:47-94 | The reply for this arrival of bytes, after at most limit + 1 of them. |
| EventStream.ScanResumes | scripts/hosted_mcp.py:76-93 | Cutting the text anywhere changes nothing: the parser resumes where it stopped. |
| EventStream.ScanDecides | scripts/hosted_mcp.py:82-93 | The loop's answer is that of the first dispatched payload that settles anything. |
| EventStream.SplitLines | scripts/hosted_mcp.py:83 | A payload's lines joined with newlines are the payload. |
| EventStream.WrittenAreRead | scripts/hosted_mcp.py:81-93 | Round trip: payloads of any number of lines, each line its own field, with either line ending, are the events read. |
| EventStream.StreamIsRead | scripts/hosted_mcp.py:78-93 | A stream reads as the joined field values of each event: the space after a colon is not part of a value, other lines count for nothing, an unfinished line is not read. |
| EventStream.ArrivalIsIrrelevant | scripts/hosted_mcp.py:56-94 | Within the limit the reply is that of a one-pass parse of the whole body, for every arrival. |
| EventStream.OverlongBodyIsRefused | scripts/hosted_mcp.py:65-75 | Beyond the limit a JSON body gives no answer, for every arrival. |
| EventStream.FirstSettlingEventAnswers | scripts/hosted_mcp.py:82-93 | Within the limit the reply is the verdict of the first event that has one. |
| EventStream.ReplyExactly | scripts/hosted_mcp.py:82-93 | A document answers if and only if some event decodes to it with the request's id and every earlier event is blank or another's document; the exit on bad text if and only if the first other event does not decode; no answer otherwise. |
| EventStream.BodyReplyExactly | scripts/hosted_mcp.py:71-75 | A JSON body within the limit answers if and only if it decodes to a document with the request's id, however it arrives. |
| EventStream.ReplyIsOfKept | scripts/hosted_mcp.py:56-94 | For every arrival and limit: a stream's reply is the one-pass answer of the bytes parsed before a read overran the limit. |
| EventStream.OverlongStreamAnswers | scripts/hosted_mcp.py:65-93 | Which arrivals get the answer: exactly those whose parsed bytes reach the place where the body settles it. |
| EventStream.ArrivalMattersExactly | scripts/hosted_mcp.py:65-68 | Over the limit the reply is the same for every arrival if and only if the first `limit` bytes settle nothing, or settle it at least 65535 bytes before the limit. |
| EventStream.LateAnswerMayBeLost | scripts/hosted_mcp.py:65-68 | For every other body, one arrival that is answered and one that is not. |
| EventStream.EndpointAnswerIsLost | scripts/hosted_mcp.py:65-68 | At a limit of 65536, a short event and a long tail: lost when its first byte arrives alone, given when 65536 bytes arrive together. |

## Left out

- Host behaviour: authorization, `extend_ttl`, storage frames and rollback are assumed contracts; archival and restoration of expired entries, events and hash payloads are not modelled.
- Podman: assumed to create a container only while its runtime client lives, never to bring a removed one back, and to answer "no such container" only when there is none.
- Capacity.RunKeeps: covers one API process, because the count starts at zero again after a restart; a panic unwinding out of the worker call, which would drop the guard, is not among the steps.
- Launcher.CallWorker: how `worker.rs` waits, cancels and compares the frame's fields is one choice, `heard`; it may hear nothing of a frame that was written, never a frame that was not.
- Capacity.LiveWorkIsCharged: each runtime command takes effect at one moment, and so does the spawn of the client.
- Launcher.Drain: bytes stay in the pipe between polls; selector and process errors count as a poll whose time is up.
- Capacity.BuildSlots.TryTake: the retry loop of `fetch_update` is one atomic step.
- Classify.AgreeingDenial: equal state hashes give equal states only where the hash tells the two apart, since no claim about collisions is made.
- Captured.OverlayRefinesLedger: a first access to a key is taken to go through the strict source, as the host's storage does; strings stand for encoded keys and entries.
- Classify.Classify: the order of the reported keys (a sorted union in the source) and the wording of surprises.
- Footprint.CheckFootprint: decoding of keys and entries is an input; so is the recorded authorization, the plan of the three cases and the candidate's own state.
- Policy.GeneratedPolicy.Install: install parameters and events; addresses are strings and host values other than addresses and i128 are their XDR.
- Worker.Stateful: the first attempts on mutated cases, controls and signatures; the original request is taken to be admissible, which is what the earlier steps of the run check.
- LiveHelper.InstallAndTransfer: account code pinning, policy code hash and delegate kind are inputs.
- Transcript.CheckEvents: findings that look at one text only (seeds, safety phrases, signing commands, the install skill, delegate addresses heard), proposal provenance and the comparison of a proposal with the connected wallet; `normalize` and `short_name`. JSON values are equal when they are the same value, while Python also equates 1, 1.0 and true.
- CardMatch.PermittedCallsMatch: the regular expressions that find displayed calls and match constraints; a constraint that cannot be displayed counts as not fitting.
- WasmSections.SplitForExports: decoding of export and import sections beyond the walk, and the allowlists compared with them.
- WasmMeta.WasmContractMeta: error wording; text decoding is a function value.
- Toolchain.ReconcileDeclaredToolchain: the wording of its errors.
- FrameProtocol.ReadFrame: I/O errors of the stream, which end it with that error.
- FrameProtocol.InteractiveSigner.Emit: write errors and JSON serialisation; payloads of `Exchange` are taken to be free of newlines, as compact JSON is.
- EventStream.ReadResponse: the deadline, the socket timer and transport errors; one response, not a reused connection.
- Cryptography, wall-clock time, process groups, temporary files, and the crates for evaluation, code generation and synthesis.
