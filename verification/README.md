# SecOC simulation: a verified model

A Dafny 4.11 model of the Secure Onboard Communication stack in `sim/` and
`api/state.py`, with proofs of what it guarantees over single calls and over
whole runs. `dafny verify dfyconfig.toml` checks everything.

## What is modelled

A sender protects a payload by appending a truncated freshness value and a
truncated HMAC. The receiver splits the frame, reconstructs the full freshness
value from its own last valid value L, recomputes the HMAC, and then either
commits the value and republishes the frame or counts a failure; the fifth
failure of one PDU locks the ECU out.

Each component is written twice. The classes follow the source's objects:
shared references, fields updated in place, loops where the source has loops.
Every method is proved against a function on values (`SecOCModel`, `EcuModel`,
`Policy`, `Nvm`, and so on), and the theorems are about those functions.

| files | part of the source |
|---|---|
| `Bytes`, `PduManager`, `SecurityProfile` | wire codec, profiles and their validated reload |
| `Freshness`, `Nvm`, `NvmCodec` | windowed reconstruction, persistent store, tagged-tree codec |
| `Keys`, `Policy`, `CanBus` | key store and records, fault escalation, bus and routing |
| `SecOCModel`, `SecOC` | the protocol on values, and the orchestrator and authenticator objects |
| `CallOutcomes`, `Traces` | what every call gives and leaves behind in every state, and the event log and bus over runs |
| `SecOCProtocol`, `SecOCRuns`, `ReplayRuns`, `NarrowField`, `HonestTraffic`, `Isolation`, `StackLockout`, `AlgorithmAgility` | theorems about calls and runs of the stack |
| `EcuModel`, `EcuObjects`, `EcuAccounting` | sender, receiver, application state, and runs at the ECU |
| `CrashSafety` | process crashes inside the commit, reboots, at-most-once delivery |
| `SignalBits`, `SignalPackager` | bit loops, shared transmit buffers, quantisation |
| `HashChain`, `BusScheduler` | audit journal and periodic scheduler |
| `Deployment` | the deployed configuration, and runs of it that witness what the theorems allow |

Conventions. L is the last valid freshness, W the window, M = 256^F the
manager's modulus, f and m the freshness and authenticator bytes on the wire.
HMAC-SHA256 and the journal's hash are arbitrary functions passed in; an HMAC
has 32 bytes. A journal theorem that needs it assumes that the hash has no
collision among the inputs of the journals it speaks about
(`HashChain.CollisionFreeHashExists` shows that this can be met). Random key material, time stamps and the profiler's verdict (`slow`)
are inputs. Python's `//` and `%` have positive divisors here, so they agree
with Dafny's. Exceptions are values (`Raised`, `Failed`, `Escaped`).

## Where the code and its documentation differ

The model follows the code.

- The policy engine speaks of five consecutive failures; the counts are
  cumulative. They are the rejections since the last `reset_ecu`, whatever was
  accepted between (`StackLockout.CountIsCumulative`), which is the number of
  consecutive ones exactly while no frame was accepted with failures counted
  (`StackLockout.ConsecutiveOrCumulative`). `Deployment.AcceptanceDoesNotForgive`
  is a run that locks out with one consecutive failure.
- `SecOC.reset` unlocks but keeps the counts, so after it "locked" need not
  follow from "a PDU is at the limit". `StackLockout.StackLockout` says after
  which runs it does not, and `Deployment.BareResetUnlocksAtLimit` is one.
- The journal promises that deleting any past entry is detected. Deleting the
  newest entry is not (`HashChain.DeletionDetected`), and after the first
  eviction a genuine journal no longer verifies (`HashChain.VerifiesUntilEviction`).
- The MAC covers the truncated freshness value, not the full one. So a recorded
  frame is accepted again once L has come within a window of a whole modulus
  past its value (`ReplayRuns.RecordedFrameReplays`), in the deployed
  configuration after as few as 4095 other acceptances
  (`Deployment.FirstFrameReplayed`).
- Honest traffic is accepted for ever only if the wire field is as wide as the
  modulus. With a narrower field, as on Classic CAN, it stops for good once the
  residue of L + 1 outgrows the field: after 255 frames from a fresh store, until
  a resync (`Deployment.ClassicTrafficStalls`). No sender can do better
  (`NarrowField.NarrowFieldRunsOut`, `Deployment.ClassicFramesRunOut`). With a
  wider field, which reload accepts too, it stops once the residue of L reaches
  the modulus (`HonestTraffic.HonestTraffic`).
- `on_frame_received` promises acceptance or a drop, but lets exceptions through
  past both counters. `EcuAccounting.EscapeIffRaises` says for which frames, and
  `Deployment.GenuineFrameEscapes` is one.
- A profile may name HMAC-SHA512, but the authenticator always computes
  HMAC-SHA256: the named algorithm changes no run
  (`AlgorithmAgility.RunIgnoresAlgorithm`), so the frames are those the profile
  asks for only where the two truncated MACs coincide
  (`AlgorithmAgility.SentAsNamedIff`). `Deployment.Sha512ProfileAccepted` gives
  such a profile, and `Deployment.Sha512ProfileIgnored` the frame sent under it.

## Model

| member | source | states |
|---|---|---|
| Bytes.FromToBytes | sim/pdu_manager.py:30-31 | reading back a number that fits its field is the identity |
| Bytes.ToFromBytes | sim/pdu_manager.py:65-67 | re-encoding a field that was read gives the same bytes |
| SecurityProfile.SecurityProfiles.Reload | sim/security_profile.py:107-144 | reload is all or nothing: it succeeds iff every entry passes, then holds exactly the configured PDUs with the values of their entries, a supported algorithm, and Classic CAN lengths both absent or summing to 4; the error is the first failing entry's |
| SecurityProfile.EntryOutcome | sim/security_profile.py:113-144 | an entry is accepted iff it has nothing outside the schema, one of the two algorithms, Classic CAN lengths both absent or summing to 4, and no key missing; otherwise the complaint is the first of the source's checks that fails |
| SecurityProfile.LengthsAre | sim/security_profile.py:69-75 | the lengths on Classic CAN are tfv and tmac, on CAN FD freshness and authenticator length |
| PduManager.ParseSplits | sim/pdu_manager.py:54-69 | a frame parses iff its length allows it, and the parts have the profile's lengths |
| PduManager.ClassicFramesAreEightBytes | sim/pdu_manager.py:60-64 | with a reloaded profile a Classic CAN frame parses iff it has 8 bytes |
| PduManager.ParseOfBuild | sim/pdu_manager.py:54-69 | parsing a built frame gives payload, truncated value and MAC back iff the trailer is non-empty or the payload spells zero |
| PduManager.BuildOfParse | sim/pdu_manager.py:29-32 | rebuilding any parsed frame gives the same bytes |
| Freshness.CandidateIsLeast | sim/freshness_manager.py:47-50 | the candidate is the least value above L congruent to the wire value, at most M above L |
| Freshness.AcceptedExactlyInWindow | sim/freshness_manager.py:45-55 | accepted values lie in (L, L+W] and are congruent; acceptance holds iff the window has a congruent value, and the least is taken |
| Freshness.TruncationInverted | sim/freshness_manager.py:45-55 | for W at most M every value of the window is recovered from its truncation |
| Freshness.ImmediateReplay | sim/freshness_manager.py:52-55 | a just accepted wire value is accepted again at once only if W >= M, and for one below M exactly then |
| Freshness.ReplayDistance | sim/freshness_manager.py:45-55 | a wire value accepted as v is accepted again only once L >= v + M - W; below M it is accepted iff (v - L - 1) mod M < W, which up to the next congruent value is L >= v + M - W |
| Freshness.CommitIsLocal | sim/freshness_manager.py:57-75 | a commit sets its PDU's value and touches no other PDU's value and no key record |
| Freshness.CommitIsTwoCells | sim/freshness_manager.py:57-75 | a commit sets the value and empties the window of its PDU, under the source's cell names, and changes no other cell |
| Freshness.CellCheckMeans | sim/freshness_manager.py:43-55 | for whatever the cell holds: a truth value counts as 0 or 1, a float is matched with the least congruent float above it if the window has one, anything but a number raises |
| Freshness.FreshnessManager.LoadLastValid | sim/freshness_manager.py:20-29 | the PDU's cell as it is, whatever it holds, 0 if absent |
| Freshness.FreshnessManager.ValidateFreshness | sim/freshness_manager.py:31-55 | for whatever the cell holds: raises on what is no number, reconstructs a float from a float, and otherwise computes the windowed reconstruction that the lemmas above characterise |
| Freshness.FreshnessManager.CommitFreshness | sim/freshness_manager.py:57-65 | value and empty window are in memory and in the file |
| Freshness.FreshnessManager.ReinitializeWindow | sim/freshness_manager.py:67-75 | the same with the peer's value |
| Nvm.NamesDisjoint | sim/freshness_manager.py:14-18 | cell names are injective in the PDU and disjoint across kinds, and none is the codec's tag |
| Nvm.ReloadAfterFlush | sim/nvm.py:47-59 | a flushed store is loaded back iff it does not imitate the tag |
| Nvm.OpeningOutcome | sim/nvm.py:46-53 | no file, or one that is not JSON, opens as an empty store; a document opens as the tree it stands for; opening raises iff it stands for none |
| Nvm.NvM.Open | sim/nvm.py:42-53 | opening a file gives a store over it that holds what the file holds; a document that is not an object, and one on which decoding raises, are told apart |
| Nvm.NvM.Flush | sim/nvm.py:55-59 | afterwards the file is the image of memory and no temporary file is left |
| Nvm.NvM.Write | sim/nvm.py:73-81 | the cell is set in memory and the file is up to date |
| NvmCodec.HexRoundTrip | sim/nvm.py:17-30 | every byte string survives hex and fromhex |
| NvmCodec.HexIsLowerCase | sim/nvm.py:17-19 | hex writes two lower-case digits a byte and nothing else |
| NvmCodec.FromHexSpells | sim/nvm.py:27-30 | fromhex reads exactly the bytes that a text spells in digits of either case with blanks between bytes, and raises on any other text |
| NvmCodec.EncodeIsJsonReady | sim/nvm.py:17-24 | an encoded tree contains no byte string |
| NvmCodec.RoundTrip | sim/nvm.py:17-34 | decode of encode gives the tree back iff no dictionary has exactly the marker as its key set |
| NvmCodec.DecodeReplaces | sim/nvm.py:27-34 | decoding any document replaces exactly the dictionaries that have the marker as their one key, and raises iff one of them spells no bytes |
| Keys.Hsm.HmacSha256 | sim/hsm.py:210-217 | HMAC under the stored key, creating it on first use; fails when unavailable or for a private key |
| Keys.Hsm.GenerateSymmetricKey | sim/hsm.py:190-192 | replaces the key unless the HSM is unavailable |
| Keys.RecordRoundTrip | sim/key_storage.py:40-61 | a key record rebuilds to the metadata it was made from |
| Keys.FromRecordIff | sim/key_storage.py:53-61 | a stored value rebuilds to metadata iff it spells it; an unknown lifecycle or a missing field fails |
| Keys.MetadataRoundTrip | sim/key_storage.py:34-61 | saved metadata is read back, also through the file codec, and no other PDU's changes |
| Keys.RotationTakesEffect | sim/key_manager.py:70-82 | rotation succeeds iff a record exists and the HSM is available; then the PDU resolves to the new key, one version up and active, the returned record is the stored one, nothing else changed; otherwise nothing changed, and the error says which was missing |
| Keys.ProvisionTakesEffect | sim/key_manager.py:30-38 | provisioning succeeds iff the HSM is available; then the same from version 1, for any PDU |
| Keys.KeyManager.ProvisionKey | sim/key_manager.py:30-38 | version 1 record and fresh key, durable on success |
| Keys.KeyManager.RotateKey | sim/key_manager.py:70-82 | performs the rotation, durable on success |
| Policy.SecurityPolicyEngine.EvaluateFailures | sim/security_policy_engine.py:22-27 | locks out, moves the ECU state and logs once, exactly at the limit and when not yet locked |
| Policy.SecurityPolicyEngine.ClearLockout | sim/security_policy_engine.py:37-43 | unlocks and returns to normal operation |
| Policy.FaultManager.Record | sim/fault_manager.py:32-35 | counts one failure of the PDU and evaluates authentication failures |
| Policy.RejectionIdentified | sim/event_logger.py:41-46 | rejection events are equal iff PDU and reason are |
| Policy.LockoutInvariant | sim/security_policy_engine.py:16-43 | after any run from a clean state: locked iff the ECU state is lockout; locked implies a PDU at the limit; the safe-state events logged are the resets that found it locked plus one if locked now |
| Policy.LockedIffAtLimit | sim/fault_manager.py:32-35 | after any run from a clean state, "locked iff some PDU is at the limit" fails iff an operation broke it (a bare reset with a PDU at the limit, or a fifth failure that is not evaluated) and no later reset_ecu or evaluated failure of a PDU with four failures healed it |
| Policy.BareResetKeepsCounts | sim/secoc.py:46-51 | a run with the bare reset that ends unlocked with a PDU at the limit |
| Policy.RejectionLocks | sim/secoc.py:140-143 | a rejection locks an unlocked ECU iff it is that PDU's fifth or later, and counts for no other PDU |
| CanBus.SharedBus.PublishFrame | sim/can_bus.py:49-50 | the frame is queued last and is the PDU's latest |
| CanBus.SharedBus.Consume | sim/can_bus.py:69-71 | frames leave in the order they came |
| CanBus.CanInterface.SendFrame | sim/can_interface.py:44-49 | publishes iff the payload fits the transport |
| CanBus.PduRouter.RouteToBus | sim/pdu_router.py:107-122 | publishes iff 8 bytes suffice, or 64 with CAN FD; otherwise the bus is unchanged |
| CanBus.RouteIff | sim/pdu_router.py:107-122 | a frame goes out iff 8 bytes hold it, or 64 with CAN FD, and is then published once |
| SecOC.Authenticator.GenerateTruncatedMac | sim/authenticator.py:61-76 | truncated HMAC of the protected region, one operation counted, a warning only over budget |
| SecOC.Authenticator.VerifyTruncatedMac | sim/authenticator.py:93-101 | the verdict is equality with the recomputed truncated HMAC |
| SecOC.Orchestrator.CheckFrame | sim/secoc.py:116-134 | the checks run in source order and change nothing but a key created on demand |
| SecOC.Orchestrator.ReceiveSecured | sim/secoc.py:116-138 | refines the protocol's receive, and an accepted value is in the file before the call returns |
| SecOC.Orchestrator.TransmitSecured | sim/secoc.py:84-100 | refines the protocol's transmit |
| SecOC.Orchestrator.RejectAndCount | sim/secoc.py:140-143 | logs the reason and counts an authentication failure |
| SecOC.Orchestrator.ResetLockout | sim/secoc.py:46-51 | unlocks and keeps counts, log, store and keys |
| SecOCProtocol.MacInputIsWirePrefix | sim/authenticator.py:95-99 | the receiver's MAC input is precisely the received bytes before the MAC iff the full value truncates to the wire field |
| SecOCProtocol.ExactAcceptance | sim/secoc.py:116-138 | for f <= F and a non-empty trailer: accepted iff the frame parses, the window has a congruent value, and the last m bytes are the truncated HMAC of all bytes before; which reason otherwise |
| SecOCProtocol.AcceptedAdvances | sim/secoc.py:125-138 | acceptance raises L by 1 to W, to the frame's value, and no other PDU's |
| SecOCProtocol.AcceptedTakesLeast | sim/freshness_manager.py:45-55 | the committed value is the least above L congruent to the wire field |
| SecOCProtocol.TransmitBuilds | sim/secoc.py:84-100 | the frame sent is payload, truncation of L + 1 and their MAC, and the receiver's key is in place afterwards |
| SecOCProtocol.NextIsFresh | sim/freshness_manager.py:45-55 | the truncation of L + 1 is reconstructed as L + 1 iff, for f <= F, (L + 1) mod M fits the wire field, and for f > F, L mod 256^f < M or the field just wraps; otherwise it is out of the window |
| SecOCProtocol.TransmitThenReceive | sim/secoc.py:84-138 | for any field lengths: a frame built at L is accepted at L iff that condition holds; then the padded payload comes back and L becomes L + 1, otherwise it is out of the window |
| CallOutcomes.KeyOfIff | sim/authenticator.py:41-44 | with keys by record the PDU's key id is the one its stored record spells, otherwise the profile's |
| CallOutcomes.RotationChangesKey | sim/key_manager.py:70-82 | after a rotation of a PDU with a record the next frame carries the new material's MAC, and frames are accepted exactly under it |
| CallOutcomes.ProvisionSetsKey | sim/key_manager.py:30-38 | after provisioning the same, with or without an earlier record |
| CallOutcomes.ProfileKeyUsed | sim/authenticator.py:41-44 | without a key manager the material under the profile's key id authenticates, whatever records exist |
| CallOutcomes.TransmitOutcome | sim/secoc.py:83-100 | transmit sends, for any input, iff the PDU has a profile with lengths for the transport, a Classic CAN payload has at most 4 bytes, the cell holds a whole number and there is a usable key; otherwise it raises for the first that is missing |
| CallOutcomes.ClassicFramesSentAreEightBytes | sim/secoc.py:83-92 | with a trailer of 4 bytes every frame sent on Classic CAN has exactly 8 bytes |
| CallOutcomes.ReceiveOutcome | sim/secoc.py:116-138 | the verdict in every state, for a non-empty trailer: the first check that fails, in the source's order, or acceptance under the key that is named |
| Traces.TransmitEffect | sim/authenticator.py:59-76 | one operation is counted and a missing key created exactly when a MAC is generated; nothing else changes |
| Traces.ReceiveEffect | sim/secoc.py:116-138 | a missing key is created exactly when a MAC is checked, and no operation is counted |
| Traces.ResyncTakesEffect | sim/freshness_manager.py:67-75 | a resync sets L and nothing else, and the peer's next frame is then accepted iff the next value fits |
| Traces.HsmFailureStopsAll | sim/hsm.py:219-225 | while the HSM fails nothing is sent, accepted or rekeyed, and switching it back undoes just that |
| Traces.RunWrites | sim/event_logger.py:30-46 | the log over any run: earlier entries stay, and exactly the rejections with PDU and reason, lockouts, resets and budget warnings are added, in order |
| Traces.RunPublishes | sim/can_bus.py:42-61 | over any run exactly the accepted frames are queued, in order behind the earlier ones, and each PDU's latest frame is the last of its own |
| SecOCRuns.StepGrowth | sim/secoc.py:94-138 | no operation but a resync moves L except an acceptance, by 1 to W |
| SecOCRuns.RunGrowth | sim/secoc.py:136-138 | over any run without resync, n acceptances raise L by n to W*n |
| SecOCRuns.ReplayDistanceOverRuns | sim/secoc.py:125-138 | between two acceptances of one wire field, of any width, L has grown to at least v + M - W, with at least M/W - 1 other acceptances, 4095 as deployed |
| SecOCRuns.WireValueFits | sim/pdu_manager.py:54-67 | for f <= F the wire field of a parsed frame is below M |
| SecOCRuns.CellsStayIntegers | sim/freshness_manager.py:57-75 | over any run freshness cells hold integers |
| ReplayRuns.RecordedFrameReplays | sim/authenticator.py:95-99 | for f <= F: an accepted frame, accepted as v, is accepted again under the same key iff (v - L - 1) mod M < W, so from v on first at L = v + M - W; otherwise it is out of the window |
| ReplayRuns.BoundAttained | sim/freshness_manager.py:45-55 | for f = F: n acceptances a window apart, with M - W <= W*n < M, bring a recorded frame back, without a resync |
| NarrowField.NarrowFieldRunsOut | sim/freshness_manager.py:45-55 | whoever sends: over a run without resync whose fields have at most f bytes, with 256^f < M and W <= M - 256^f, each acceptance uses up a residue for good, so at most 256^f - 1 - L mod M frames are accepted, or 256^f if L's residue is beyond the field |
| NarrowField.NeverTwice | sim/freshness_manager.py:45-55 | and in such a run no frame with the field of an accepted one is accepted again |
| AlgorithmAgility.RunIgnoresAlgorithm | sim/authenticator.py:59-76 | configurations that differ only in the algorithms their profiles name have the same runs |
| AlgorithmAgility.SentAsNamedIff | sim/authenticator.py:59-76 | the frame sent is the one the profile's algorithm asks for iff that is not HMAC-SHA512 or the two truncated MACs coincide |
| AlgorithmAgility.NamedFrameAcceptedIff | sim/authenticator.py:93-101 | a fresh frame built by the profile's algorithm is accepted iff the same holds, and mismatches otherwise |
| StackLockout.GuardOfRun | sim/secoc.py:140-143 | the fault state of any run of the stack is the run of its rejections, resets and logged events |
| StackLockout.StackLockout | sim/security_policy_engine.py:16-43 | for runs of the whole stack: the lockout invariant, the conservation of safe-state events, and that "locked iff some PDU is at the limit" fails iff a bare reset was taken with a PDU at the limit and no reset_ecu and no rejection of a PDU with four failures followed |
| StackLockout.CountIsCumulative | sim/fault_manager.py:32-35 | a PDU's failure count is its rejections since the last reset_ecu, whatever was accepted between |
| StackLockout.FifthRejectionLocks | sim/security_policy_engine.py:22-27 | a rejection locks an unlocked ECU iff it is at least the PDU's fifth since the last reset_ecu |
| StackLockout.ConsecutiveOrCumulative | sim/security_policy_engine.py:19-21 | the count is the number of consecutive failures iff no frame of the PDU was accepted with failures counted since the last reset_ecu, and larger otherwise |
| Isolation.JudgeKeys | sim/hsm.py:210-217 | checking a frame creates at most the one key its PDU uses, and only if absent |
| Isolation.VerdictDetermined | sim/secoc.py:116-134 | a PDU's verdict depends only on its own value, its key and the HSM's availability |
| Isolation.VerdictUnchangedElsewhere | sim/key_manager.py:70-82 | an operation on another PDU that installs no key under q's id leaves q's value, count and verdict on every frame unchanged |
| Isolation.IsolationOverRuns | sim/freshness_manager.py:14-18 | the same for whole runs, as long as q's key exists or no other PDU uses its id |
| HonestTraffic.ImmediateReplayVerdict | sim/secoc.py:125-138 | an accepted frame sent again at once is out of the window if W < M; for f <= F it is accepted iff W >= M |
| HonestTraffic.TransmissionsRepeat | sim/secoc.py:94-100 | without an acceptance in between the same payload gives the same frame |
| HonestTraffic.HonestTraffic | sim/secoc.py:84-138 | with f = F every honest frame is accepted; with f < F or f > F exactly the first ones until field or modulus is used up, and none after |
| HonestTraffic.ClassicCanStalls | config/secoc_profiles.json:8-9 | on the deployed Classic CAN profile a fresh receiver accepts exactly 255 honest frames |
| EcuAccounting.ReceiverAccounting | sim/receiver_ecu.py:89-107 | accepted + rejected + escaped = arrivals per managed PDU, and accepted <= growth of L <= W * accepted |
| EcuAccounting.EscapeIffRaises | sim/receiver_ecu.py:98-101 | an exception escapes iff the PDU is managed, the ECU in normal operation, and the PDU has no profile, or the frame parses and its freshness check meets no number or accepts a float, or the frame is fresh and there is no usable key |
| EcuAccounting.AllSettledIffNoneRaises | sim/receiver_ecu.py:89-107 | over any run accepted + rejected = arrivals iff no arrival of the PDU is such a frame |
| EcuAccounting.HealthyAccounting | sim/receiver_ecu.py:89-107 | with profiles, cells, records and HSM in order that holds over any run, and stays in order |
| EcuAccounting.FrameHandedOver | sim/receiver_ecu.py:89-107 | a handler is called exactly for an accepted frame of a PDU that has one, with its payload; never for a dropped frame or one on which an exception escapes |
| EcuAccounting.RunHandedOver | sim/receiver_ecu.py:89-107 | over any run the application sees exactly the accepted payloads of PDUs with a handler, in order |
| EcuAccounting.UnmanagedLeaveNoTrace | sim/receiver_ecu.py:89-90 | a run is the run without the arrivals for unmanaged PDUs |
| EcuAccounting.BoundedEscalation | sim/fault_manager.py:32-35 | whatever arrives: no count above 5, at most one PDU at 5, locked iff one is, at most 4n + 1 failures logged |
| EcuAccounting.GateIsolation | sim/receiver_ecu.py:89-107 | whatever arrives for other PDUs, q's frames get the result they would have got before, unless the ECU is locked out, and then all are dropped |
| EcuAccounting.ArrivalLocks | sim/security_policy_engine.py:22-27 | an arrival locks the ECU iff it is rejected and its PDU has four failures already |
| EcuAccounting.LockoutFreezes | sim/receiver_ecu.py:91-96 | from a locked-out state, over any arrivals: stack, accepted counts and deliveries stay, and each managed PDU's rejected count rises by exactly its arrivals |
| EcuAccounting.SendAccounted | sim/sender_ecu.py:60-70 | a frame that was built and is within the transport's limit goes onto the bus and moves the transmit count; otherwise bus and count are unchanged and the result says why; no send touches store or failure counts |
| EcuAccounting.CycleOutcome | sim/sender_ecu.py:60-70 | one send and receive: delivered, counted once on each side, L up by one, no failure |
| EcuAccounting.CleanCycles | sim/sender_ecu.py:60-70 | n cycles deliver the n payloads in order and end with L, tx and rx counts each up by n and no failure |
| EcuObjects.ReceiverEcu.OnFrameReceived | sim/receiver_ecu.py:89-107 | refines the gated reception |
| EcuObjects.ReceiverEcu.RegisterSignalHandler | sim/receiver_ecu.py:68-70 | registers for managed PDUs only |
| EcuObjects.SenderEcu.Send | sim/sender_ecu.py:60-70 | refines the gated send |
| EcuObjects.AppState.ResetEcuState | api/state.py:110-115 | unlocks, forgets the counts and logs the reset; everything else is kept |
| EcuObjects.AppState.NewDemEvents | api/state.py:125-130 | what was returned before plus this batch is the whole history |
| CrashSafety.CrashOutcome | sim/nvm.py:55-81 | after a crash at any step the reloaded value is L before the first rename and v from then on, the frame is on the bus only after the last step, and other PDUs and key records are unaffected |
| CrashSafety.StepsRefineReceive | sim/secoc.py:136-138 | all steps together are the protocol's commit and publication |
| CrashSafety.AtMostOnce | sim/secoc.py:136-138 | over any run with crashes and reboots and no resync the delivered values of a PDU strictly increase and never exceed the recoverable value |
| CrashSafety.FirstBoot | sim/nvm.py:42-53 | a device with no file, or one that is not JSON, boots with an empty store that is recoverable, and every L at 0 |
| CrashSafety.AtMostOnceFromFirstBoot | sim/secoc.py:136-138 | so from the first boot on the delivered values of a PDU are positive and strictly increase |
| CrashSafety.DeliveredIffPublished | sim/secoc.py:136-138 | a completed reception puts its frame on the bus iff its value counts as delivered |
| CrashSafety.RebootRejectsReplay | sim/freshness_manager.py:45-55 | a frame whose reception crashed at step n, offered again after the reboot: as fresh as before if n is before the first rename, otherwise out of the window for W < M; it was delivered iff all steps ran |
| CrashSafety.EarlyCrashLosesNothing | sim/nvm.py:55-59 | crashed before the first rename and with the same key, the frame is accepted after the reboot as it was |
| CrashSafety.NodeGrowth | sim/nvm.py:55-81 | over runs with crashes and reboots and no resync, n commits raise the recoverable value by n to W*n |
| CrashSafety.NodeGrowthFromFirstBoot | sim/nvm.py:42-81 | from the first boot on n commits give a recoverable value of n to W*n |
| CrashSafety.ReplayDistanceAcrossCrashes | sim/freshness_manager.py:45-55 | the replay distance holds across crashes: between two receptions of one wire field, the first committed at least up to the first rename, lie M/W - 1 other commits, and what the second delivers is at least M above the first |
| SignalBits.OrPower | sim/signal_packager.py:42-43 | OR with a single-bit mask sets that bit and nothing else |
| SignalBits.AndNotPower | sim/signal_packager.py:44-45 | AND with its complement clears that bit and nothing else |
| SignalBits.GetBits | sim/signal_packager.py:48-55 | the loop returns (N / 2^(8n-o-w)) mod 2^w of the buffer's number N, or fails if any bit of the field lies beyond the buffer |
| SignalBits.SetBits | sim/signal_packager.py:37-45 | the loop replaces exactly the bits of that field of N that lie inside the buffer, and fails after them iff any lies outside |
| SignalBits.GetAfterSet | sim/signal_packager.py:37-55 | get after set returns the raw value |
| SignalBits.SetKeepsDisjoint | sim/signal_packager.py:37-55 | every disjoint field reads as before |
| SignalPackager.Packager.PackSignal | sim/signal_packager.py:98-109 | refines packing on values, for any table: the shared buffer of the PDU is updated in place and others are untouched; only a field beyond the buffer's end changes anything on an error |
| SignalPackager.Packager.SendSignal | sim/signal_packager.py:149-152 | packs, then drops the PDU's buffer; on an error it is kept |
| SignalPackager.Packager.UnpackSignal | sim/signal_packager.py:125-132 | field times factor plus offset, or an error for unknown names, wrong lengths and fields beyond the end |
| SignalPackager.RoundingIsNearestEven | sim/signal_packager.py:99-99 | the raw value is the nearest integer, and where two are equally near the even one |
| SignalPackager.PackOutcome | sim/signal_packager.py:97-109 | for any table and value: which exception, in the source's order, or the PDU's buffer with the nearest-even raw value in the field; on an exception before the field is written nothing changes |
| SignalPackager.SendOutcome | sim/signal_packager.py:149-152 | sending is packing, after which the PDU has no buffer; a send that raises leaves what packing left |
| SignalPackager.UnpackOutcome | sim/signal_packager.py:124-132 | for any table: which exception, or raw times factor plus offset |
| SignalPackager.WithFieldPartial | sim/signal_packager.py:37-45 | a field beyond the buffer's end leaves its leading bits that fit written, and every disjoint field as it was |
| SignalPackager.StepRefines | sim/signal_packager.py:98-109 | with fields inside their PDUs and disjoint, a call succeeds iff the raw value fits, then its buffer shows every signal of the PDU; a failing call changes nothing |
| SignalPackager.RunRefines | sim/signal_packager.py:98-152 | after any run the live buffers show, per signal, the last raw value packed since the buffer was created, 0 if none |
| SignalPackager.ReturnedBufferUnpacks | sim/signal_packager.py:125-152 | every signal unpacks from a returned buffer as that value |
| SignalPackager.RawExact | sim/signal_packager.py:99-99 | an exactly representable value quantises to its own raw value |
| SignalPackager.Quantisation | sim/signal_packager.py:98-132 | a packed buffer unpacks iff it has the signal's configured length; then the value is off by at most half the factor's magnitude, exact values come back, and halfway values go to the even step |
| HashChain.HashChainedLog.LogEvent | sim/dem.py:87-97 | appends the chained entry and evicts the oldest one over the limit |
| HashChain.HashChainedLog.VerifyIntegrity | sim/dem.py:102-109 | true iff every entry chains to its predecessor, the first to genesis |
| HashChain.RunKeepsSuffix | sim/dem.py:93-97 | a run keeps the newest entries of the full chain and its last hash |
| HashChain.ShortRunVerifies | sim/dem.py:87-109 | a run of at most max_entries calls verifies and holds exactly the logged events |
| HashChain.VerifiesUntilEviction | sim/dem.py:96-109 | for max_entries >= 1, and no collision among what logging and verifying hash, a run verifies iff nothing was evicted |
| HashChain.NoRoomVerifies | sim/dem.py:96-97 | with max_entries <= 0 nothing is kept and verification succeeds |
| HashChain.LastHashDetermines | sim/dem.py:102-115 | two verified journals with the same last hash, and no collision among their inputs, are identical |
| HashChain.DeletionDetected | sim/dem.py:102-109 | without a collision, deleting an entry goes unnoticed iff it is the newest |
| HashChain.RearrangementDetected | sim/dem.py:102-109 | without a collision, entries of a verified journal, deleted, reordered or repeated at will, verify iff they are a prefix of it |
| HashChain.ModificationDetected | sim/dem.py:102-109 | without a collision, overwriting an entry goes unnoticed iff nothing changed or the newest entry was rehashed |
| HashChain.CollisionFreeHashExists | sim/dem.py:111-115 | some hash has no collision among any inputs, so the hypothesis of the rows above can be met |
| BusScheduler.Scheduler.SchedulePeriodic | sim/bus_scheduler.py:21-26 | appends an entry that last fired at 0 |
| BusScheduler.Scheduler.Tick | sim/bus_scheduler.py:38-43 | rewrites exactly the due entries and runs their callbacks in registration order; nothing while stopped |
| BusScheduler.FiredIsDue | sim/bus_scheduler.py:40-43 | a PDU's callback runs on a tick iff one of its entries is due |
| BusScheduler.FiredInOrder | sim/bus_scheduler.py:40-43 | the callbacks of a tick run once for each due entry, in registration order |
| BusScheduler.PeriodBounds | sim/bus_scheduler.py:38-43 | after k firings k*P <= last <= k*(P+g-1), and now - last < P |
| BusScheduler.FiringRate | sim/bus_scheduler.py:38-43 | so k*P <= now < k*(P+g-1) + P |
| Deployment.AcceptanceDoesNotForgive | sim/security_policy_engine.py:19-27 | deployed: four rejections, an acceptance and one rejection lock the ECU with one consecutive failure |
| Deployment.BareResetUnlocksAtLimit | sim/secoc.py:46-51 | deployed: five rejections and a bare reset end in normal operation with the PDU at the limit |
| Deployment.GenuineFrameEscapes | sim/receiver_ecu.py:98-101 | deployed, HSM unavailable: a genuine frame moves neither counter |
| Deployment.FirstFrameReplayed | sim/freshness_manager.py:45-55 | deployed: after 4095 other acceptances and no resync the first frame is accepted again |
| Deployment.ClassicTrafficStalls | config/secoc_profiles.json:8-9 | deployed, on Classic CAN: from a freshly provisioned store exactly the first 255 honest frames are accepted |
| Deployment.ClassicFramesRunOut | config/secoc_profiles.json:8-9 | deployed, on Classic CAN: whoever sends, at most 255 frames are ever accepted without a resync |
| Deployment.Sha512ProfileIgnored | sim/config.py:15-16 | deployed with HMAC-SHA512 in the profile: the frame sent is the HMAC-SHA256 frame, not the one asked for unless the truncated MACs coincide |
| Deployment.Sha512ProfileAccepted | sim/security_profile.py:107-144 | reload accepts that profile |

## Left out

- HTTP routers, WebSocket updates, dashboards, scenario runner, attack and fuzzing helpers: I/O and demonstration code.
- Real cryptography (ECDSA, AES-GCM, SHA-256, HMAC internals) and the CSM, CryIf and HmacCrypto wrappers, which pass calls through and turn every error into a failed job.
- JSON text, paths and fsync: a document is a tree, a rename is one atomic step, and crashes are process crashes. A crash inside a resync or a key rotation is not stepped through.
- A store over a document that is not an object: opening reports it, and the calls that would then raise are not modelled. A bytearray is read back as bytes.
- Floats are reals: NaN, infinities and rounding are absent, also in a freshness cell. No run of the stack writes anything but integers into one (SecOCRuns.CellsStayIntegers).
- Keys.FromRecord: a record whose pdu_id, key_id or version has another type than the one saved counts as absent, where the source does not check these types and still resolves the key.
- HashChain.HashChainedLog.LogEvent: time stamp and detail are the texts JSON gives them; the rendering itself is not modelled.
- Negative truncation lengths in a profile: lengths are natural numbers. A MAC length above 32 and an empty trailer are modelled; the theorems that need them excluded say so.
- Updating a profile's version string, monotonic counters and reset_to_defaults of the store, secure boot, DEM.clear and severity filters: they would add easy members only.
- Performance profiling: only whether the time budget was exceeded is an input.
- Handlers, callbacks and asyncio: handler and callback invocations are recorded as sequences; handlers that raise and callbacks that re-enter the scheduler are not modelled.
- Reloading profiles in the middle of a run, and restarting the bus: the configuration of a run is fixed and the bus only grows.
- PduRouter.route_from_bus and ECU registration, and the ECU lifecycle methods other than reset.
- SignalPackager.unpack_signal_from_pdu: the fan-out over a table's signals is repeated unpack_signal.
- SignalPackager: values, factors and offsets are reals, not floats. A zero factor is the error ZeroFactor, the source's ZeroDivisionError.
- BusScheduler.PeriodBounds: the entry is registered at time 0; one registered later also starts with last_fired_ms 0 and may fire on its first tick.
