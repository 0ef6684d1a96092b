# Verified models of the gents core protocols

A Dafny 4.11 model of the parts of gents whose correctness is a protocol, an
encoding or a projection over the replicated document store. `dafny verify
dfyconfig.toml` checks the whole project.

| component | files |
|---|---|
| crash-resumable schema migration | `MigrationNode`, `MigrationEngine`, `MigrationChain`, `MigrationResumption`, `MigrationTheorems`, `MigrationRuns`, `MigrationCounts` |
| cascade interrupt | `CascadeWalk`, `CascadeExact`, `CascadeDepth`, `CascadeLatch`, `CascadePreview`, `CascadeInterrupt`, `RequestLifecycle` |
| GraphQL literals and filter fragments | `GraphqlLiteral`, `GraphqlFilter` |
| canonical signing encoding, enrollment chain | `SigningPayload`, `Enrollment`, `EnrollmentReader`, `EnrollmentChain` |
| behavior readiness | `BehaviorReadiness` |
| single-flight contract loader | `SingleFlight` |
| desired-state apply and import forms | `Collections`, `ImportSanitize`, `ConfigWrites`, `ConfigApply`, `ConfigOutcome` |
| client turn derivation | `ClientTurn` |
| directory hints | `TopLevelEntries` |
| shared | `Prelude`, `Text`, `Sorting` |

Code that changes state step by step is modelled by classes and methods with
loops, each proved equal to a specification function; the theorems are about
those functions, about state machines over all interleavings, or about all runs.

## How the main results are stated

**Migration.** `MigrationNode` states the node contract: every call is one atomic
transition of a store of versions. `set_migration` leaves a placeholder without a
name when the destination is absent; a patch derives its version id from the
version it is applied to and from the versions stored under the collection's name,
leaves the result inactive and adopts an attached transform; activation moves the flag and the name pointer together; in-place
patches change metadata that no modelled field carries; `add_schema` is keyed by
the schema's own type name. `MigrationEngine.EnsureMigrations` performs a pass
over such a node and records every store it leaves, so a crash is a cut of that
record. `MigrationChain.WellFormed` describes the registries a maintainer may
ship: pins distinct, each pin the id the patch derives, collections interleaved in
any way, with or without lenses. `MigrationChain.OnChain` describes where on its
chain each collection may stand, including a placeholder, an unactivated patch or
a damaged transform ahead of the active version, and with any complete, inactive
foreign versions beside the chain; the empty store is such a store.
`MigrationChain.Undisturbed` says that with those foreign versions stored each
patch still derives its pin; a store without foreign versions is undisturbed.

**Cascade.** The walk is a depth-first preorder traversal over one snapshot, with
arbitrary, cyclic or shared call edges. The latch is a state machine of any number
of root and descendant latchers (fetch, conditional update, recheck) interleaved
with lifecycle transitions whose terminal states absorb.

**Signing.** Bytes are modelled as bytes; a record's signing payload is compared
with that of every other kind of record. Time parsing, hashing, trimming of byte
texts and JSON parsing are parameters of the statements.

**Every write of an apply run.** `ConfigWrites.ClosedAfterEveryWrite` is an
equivalence: with a reference relation that points only to earlier collections,
no state on the way has a dangling reference exactly when neither the first nor
the last has one and documents that are written over or deleted again refer to
what is already there.

## Where code and documentation disagree

The model follows the code.

- The migration design document
  (`docs/superpowers/specs/2026-07-28-lens-first-migration-design.md:271-281`) has
  foreign versions rejected before any step applies. The engine verifies lineages
  after the steps. A foreign version beside a baseline collection does fail every
  pass (`MigrationRuns.ForeignIsRefused`), but it is refused unwritten exactly when
  nothing was left to apply (`MigrationRuns.RefusedUnwritten`; the one exception is
  a patch that the node itself rejects because the foreign version disturbs its
  id). `MigrationRuns.ForeignVersionIsFoundLate` is a store where it is not. Beside
  a collection that a step added, foreign versions are not looked for at all
  (`MigrationTheorems.CompletedVerifies`).
- Under expectations of field names, an in-place step never counts as applied: by
  the node contract nothing it changes is a field
  (`MigrationRuns.InPlaceNeverApplies`).
- The preview signature is meant to hold the operator to what was shown
  (`crates/gents-desktop-bridge/src/cascade.rs:537-556`), but the signed text does
  not escape its separators. A call id that contains them lets a walk that marks
  one request carry the signature of a walk that marks two
  (`CascadePreview.ForgedSignature`). `CascadePreview.SignatureTextInjective` gives
  the exact condition and `CascadeInterrupt.ShownIsLatched` what it means for the
  operator.
- A root latcher looks its row up by the owner as given and writes it by the owner as
  trimmed (`crates/gents-desktop-bridge/src/cascade.rs:418-462`), so an owner with
  surrounding white space may be found but is never latched
  (`CascadeInterrupt.LatchesExactly`).
- The cascade walker is called `bfs` and is depth-first.
- The comment at `crates/gents-cli/src/config_bundle.rs:774-778` says that null
  makes an update skip a field; the one at lines 882-891 of that file, the update
  document contract (`crates/gents/src/config_client/desired_state.rs:159-161`) and
  the model take null to clear it.
- A revocation is meant to be a tombstone, but an update whose `revoked_at` is a
  non-empty blank text is written and the runtime trims it before deciding
  (`crates/gents/src/eth/call_tool.rs:651-655`), so the binding is usable again.
  `ImportSanitize.RevocationStands` gives the exact condition and
  `ImportSanitize.BlankRevives` the input.
- A retry chain that contains an older attempt with the empty id, or whose first
  attempt names the newest as its parent, does not show its newest attempt;
  `ClientTurn.ChainShowsNewest` is an equivalence with the excluded shapes, and
  `ClientTurn.BrokenChains` gives chains of both shapes that show nothing.

## Model

| member | source | states |
|---|---|---|
| MigrationEngine.VersionDescendsFrom | crates/gents-migration/src/engine.rs:460-483 | terminates on every predecessor graph, cyclic or dangling, and is true exactly when the ancestor is reached in one or more edges |
| MigrationEngine.EnsureMigrations | crates/gents-migration/src/engine.rs:34-65 | a pass leaves exactly the stores of the specified pass, one per node call; its fault is the steps' or else the lineage check's, and its report has the specified counts |
| MigrationEngine.RunRegisterBaseline | crates/gents-migration/src/engine.rs:89-114 | registers the baseline entry by entry, counting registered and already present ones, and stops at the first rejection |
| MigrationEngine.RunSteps | crates/gents-migration/src/engine.rs:120-169 | runs the steps in order, stops at the first fault and counts applied, current and repaired steps |
| MigrationEngine.RunAddCollection | crates/gents-migration/src/engine.rs:171-220 | adds a collection that is absent, checks one that is present |
| MigrationEngine.RunPatchVersioned | crates/gents-migration/src/engine.rs:222-458 | takes the arm that the version graph prescribes: skip an ancestor, verify the active pin, activate an inactive one, or attach, patch, verify and activate |
| MigrationEngine.CollectKnownPins | crates/gents-migration/src/engine.rs:682-705 | collects exactly the pins of baseline and steps |
| MigrationEngine.CollectTargetPins | crates/gents-migration/src/engine.rs:708-726 | maps each pinned baseline collection to the last pin of its steps |
| MigrationEngine.RunVerifyLineages | crates/gents-migration/src/engine.rs:625-680 | finds the first fault among the managed lineages, for any order in which the node lists versions |
| MigrationRuns.PassEnds | crates/gents-migration/src/engine.rs:120-169 | from any store on the chain, foreign versions or not, a pass either fails a step or climbs at every write and ends with every collection at its last version; it fails none when no id is disturbed |
| MigrationRuns.PassCompletes | crates/gents-migration/src/engine.rs:120-169 | undisturbed, a pass from any store on the chain runs through without a fault, climbing at every write and leaving foreign versions alone, and ends with every collection at its last version |
| MigrationRuns.PassIsConfluent | crates/gents-migration/src/engine.rs:34-65 | passes from two undisturbed stores that differ only in how far they got end in the same store |
| MigrationRuns.CrashResumption | crates/gents-migration/src/engine.rs:222-458 | whatever passes were cut between whichever node calls, the next uninterrupted pass leaves the store of a pass never interrupted, and succeeds exactly when no foreign version stands beside a baseline collection |
| MigrationRuns.NoRollback | crates/gents-migration/src/engine.rs:267-315 | between any two moments of an undisturbed run of passes and crashes no collection's active version moves back on its chain, foreign versions or not |
| MigrationRuns.FreshStoreIsOnChain | crates/gents-migration/src/engine.rs:89-114 | the empty store satisfies the hypotheses of the run theorems |
| MigrationRuns.CompletedIsIdle | crates/gents-migration/src/engine.rs:120-169 | a pass over a completed store writes nothing and finds every step current, whatever stands beside the chains |
| MigrationRuns.SecondPassIsIdle | crates/gents-migration/src/engine.rs:34-114 | after a pass a second one writes nothing, applies and repairs nothing, and succeeds exactly when the first did |
| MigrationTheorems.CompletedVerifies | crates/gents-migration/src/engine.rs:625-680 | a completed store passes the lineage check, in whatever order it is listed, exactly when no foreign version stands beside a baseline collection |
| MigrationRuns.ForeignIsRefused | crates/gents-migration/src/engine.rs:728-818 | for every well-formed registry and every store on the chain, a foreign version beside a baseline collection fails the pass |
| MigrationRuns.RefusedUnwritten | crates/gents-migration/src/engine.rs:34-65 | such a store is refused unwritten exactly when nothing was left to apply, unless the node rejects a disturbed patch; undisturbed, the lineage check refuses it |
| MigrationRuns.StepsAreCounted | crates/gents-migration/src/engine.rs:120-169 | on any store and registry, applied plus current equals the number of steps exactly when no step faults |
| MigrationCounts.AppliedIsProgress | crates/gents-migration/src/engine.rs:120-169 | on any store a step that does not fail reports applied exactly when its collection came to exist, its pin was activated, or its in-place patch was needed |
| MigrationCounts.RepairedIsRewired | crates/gents-migration/src/engine.rs:538-580 | a step reports a repair exactly when it rewrote the edge of its pin |
| MigrationCounts.AppliedCounts | crates/gents-migration/src/engine.rs:120-169 | on any store `applied` is the number of steps that made progress |
| MigrationCounts.RepairedCounts | crates/gents-migration/src/engine.rs:120-169 | `repaired` is the number of steps that rewrote an edge |
| MigrationCounts.FaultKeepsTally | crates/gents-migration/src/engine.rs:120-169 | a run that faults reports the counts of the steps before the fault |
| MigrationCounts.PassAppliesAhead | crates/gents-migration/src/engine.rs:34-65 | from any undisturbed store on the chain a pass applies exactly the added and versioned steps beyond where the collections stood |
| MigrationCounts.FreshPassAppliesAll | crates/gents-migration/src/engine.rs:34-65 | a pass over an empty store applies every added and every versioned step |
| MigrationRuns.EntriesAreCounted | crates/gents-migration/src/engine.rs:89-114 | registered plus already present equals the number of baseline entries when none is rejected |
| MigrationRuns.VerifiedLineage | crates/gents-migration/src/engine.rs:728-818 | an accepted listing has, for each pinned baseline collection, its root, only known pins beside it, and its last pin selected, with the fields the entry expects |
| MigrationRuns.VerifiedAddition | crates/gents-migration/src/engine.rs:625-680 | and for each pinned added collection its root, with the expected fields |
| MigrationRuns.KnownPinsExactly | crates/gents-migration/src/engine.rs:682-705 | the known pins are those of baseline entries, added collections and versioned steps |
| MigrationRuns.PointerLagIsRefused | crates/gents-migration/src/engine.rs:426-454 | an active pin that the name pointer does not name is an error that writes nothing |
| MigrationRuns.ActivatedIsVerified | crates/gents-migration/src/engine.rs:222-458 | a step that reports applied leaves its pin complete, active and holding every expected field |
| MigrationRuns.RepairLeaves | crates/gents-migration/src/engine.rs:538-580 | a repair fails exactly when the transform is wrong and there is no lens; otherwise the edge carries the expected transform or the lens's, and nothing else has changed |
| MigrationRuns.ActiveIsAccepted | crates/gents-migration/src/engine.rs:485-536 | an active pin is accepted exactly when the name pointer names it, its fields hold and its edge is right or repairable, and only that edge can change |
| MigrationRuns.InPlaceNeverApplies | crates/gents-migration/src/engine.rs:582-619 | by the node contract, under field-name expectations an in-place step is current exactly when the expectation already holds, and never applied |
| MigrationRuns.LateCheckIsShipped | crates/gents-migration/src/engine.rs:34-65 | a registry and a store with a foreign version that meet the hypotheses above, disturbed exactly when the derived id is not the pin |
| MigrationRuns.ForeignVersionIsFoundLate | crates/gents-migration/src/engine.rs:34-65 | that store is written to before it is refused, by the lineage check or, when the id is disturbed, by the step that stored the mismatching version |
| CascadeWalk.Walker.Descend | crates/gents-desktop-bridge/src/cascade.rs:136-266 | the recursive loop over seen set and row list computes the specified expansion, with the same error |
| CascadeWalk.RunWalk | crates/gents-desktop-bridge/src/cascade.rs:96-132 | a walk returns the specified rows or the specified error |
| CascadeWalk.ExpandFinds | crates/gents-desktop-bridge/src/cascade.rs:136-266 | an expansion adds distinct new rows, each read off a call of its parent or of an earlier expanded row, and covers the children of everything it expanded |
| CascadeExact.WalkIsExact | crates/gents-desktop-bridge/src/cascade.rs:96-266 | on any graph the rows are distinct, exclude the root, hang off expanded rows only, and no child of the root or of an expanded row is lost |
| CascadeExact.RowHasLine | crates/gents-desktop-bridge/src/cascade.rs:217-263 | every row is reached by a line of calls through expanded rows |
| CascadeExact.LineIsRow | crates/gents-desktop-bridge/src/cascade.rs:217-263 | on a tree, every line of calls through open requests ends in the row it reads off |
| CascadeExact.WhoIsInterrupted | crates/gents-desktop-bridge/src/cascade.rs:217-263 | on a tree WillInterrupt is exactly the non-terminal requests with a cascade call whose proper ancestors are open |
| CascadeExact.WhoIsWhere | crates/gents-desktop-bridge/src/cascade.rs:217-263 | on a tree each of the four classes holds exactly the requests that a line of calls through open requests leads to and whose own state and policy put them there |
| CascadeExact.RowColumns | crates/gents-desktop-bridge/src/cascade.rs:180-250 | every column of a row is its request's, or its call's as trimmed |
| CascadeExact.ColumnsAreTrimmed | crates/gents-desktop-bridge/src/cascade.rs:687-693 | a column is read trimmed, and as absent exactly when it is blank |
| CascadeExact.WalkStarts | crates/gents-desktop-bridge/src/cascade.rs:96-132 | a walk starts only from a stored root of the operator, and reports its state and latch |
| CascadeExact.DepthErrorHasWitness | crates/gents-desktop-bridge/src/cascade.rs:136-152 | on any graph a depth error names a request at the end of a line of eight open calls |
| CascadeDepth.DepthErrorExactly | crates/gents-desktop-bridge/src/cascade.rs:136-266 | on a tree of stored requests the walk fails exactly when eight open calls follow each other |
| CascadeLatch.StepAgrees | crates/gents-desktop-bridge/src/cascade.rs:407-495 | every step of every latcher and every lifecycle transition keeps the agreement of rows, writes and returned values |
| CascadeLatch.LatchIsWrittenOnce | crates/gents-desktop-bridge/src/cascade.rs:407-495 | in every interleaving a request is latched at most once, at most one caller is first, and all callers that return a latch return the stored timestamp |
| CascadeLatch.LatchIsPermanent | crates/gents-desktop-bridge/src/cascade.rs:407-495 | a stored latch never changes or disappears |
| CascadeLatch.NeverOntoTerminal | crates/gents-desktop-bridge/src/cascade.rs:608-675 | no step writes a latch onto a terminal row |
| CascadeLatch.UpdateLatches | crates/gents-desktop-bridge/src/cascade.rs:448-462 | in any interleaving an update latches its row exactly when the row is unlatched and pending, claimed or processing, and its owner is given as stored |
| CascadePreview.BuildPreview | crates/gents-desktop-bridge/src/cascade.rs:324-384 | the loop that pushes into four vectors yields the four buckets and the signature of the walk |
| CascadePreview.BucketsPartition | crates/gents-desktop-bridge/src/cascade.rs:324-384 | the four buckets together are the rows, as a multiset |
| CascadePreview.BucketMembers | crates/gents-desktop-bridge/src/cascade.rs:324-384 | a bucket holds exactly the rows of its classification |
| CascadePreview.PreviewLists | crates/gents-desktop-bridge/src/cascade.rs:324-384 | each list of a preview holds exactly the walk's rows of its class |
| CascadePreview.SignatureTextInjective | crates/gents-desktop-bridge/src/snapshot/operations_signature.rs:18-51 | if one of two inputs with the same text has no separator in its columns, they are the same up to row order exactly when they have the same number of rows |
| CascadePreview.SameInputSameTargets | crates/gents-desktop-bridge/src/cascade.rs:368-378 | equal signature inputs force equal lists of requests to interrupt |
| CascadePreview.SameTextSameTargets | crates/gents-desktop-bridge/src/snapshot/operations_signature.rs:18-51 | equal signed texts force the same set of requests to interrupt, when the columns of one contain no separator and the other has as many rows |
| CascadePreview.SameTextSameMarks | crates/gents-desktop-bridge/src/cascade.rs:324-384 | under the same condition two successful walks with equal texts mark the same requests |
| CascadePreview.SameTextSameColumns | crates/gents-desktop-bridge/src/cascade.rs:355-378 | and every signed column of every row agrees |
| CascadePreview.SameTextSameRoot | crates/gents-desktop-bridge/src/cascade.rs:355-378 | and the root's state and latch agree |
| CascadePreview.ForgedSignature | crates/gents-desktop-bridge/src/snapshot/operations_signature.rs:18-51 | two walks with the same signed text, one marking one request and the other two |
| CascadeInterrupt.LatchAloneIsTheProtocol | crates/gents-desktop-bridge/src/cascade.rs:407-495 | an undisturbed latch is a run of the interleaved protocol |
| CascadeInterrupt.LatchesExactly | crates/gents-desktop-bridge/src/cascade.rs:407-495 | every outcome of an undisturbed latcher and exactly when it is returned; it is the first to latch exactly when the row is its operator's, unlatched, and pending, claimed or processing |
| CascadeInterrupt.ShownIsLatched | crates/gents-desktop-bridge/src/cascade.rs:533-562 | if the signature shown is the one confirmed, the digest tells the two texts apart, the columns shown contain no separator and as many rows are found, the requests latched are those shown |
| CascadeInterrupt.RequestStore.Latch | crates/gents-desktop-bridge/src/cascade.rs:608-675 | one undisturbed latch sets at most its own row's timestamp, only where none was and the state was active, and returns what the row carries |
| CascadeInterrupt.RequestStore.LatchDescendants | crates/gents-desktop-bridge/src/cascade.rs:575-606 | latches only previewed requests, succeeds exactly when each is terminal, latched or running, and then all of them are settled |
| CascadeInterrupt.RequestStore.Interrupt | crates/gents-desktop-bridge/src/cascade.rs:507-573 | a stale preview writes nothing; a fresh one latches only the root and the previewed requests; an interrupt is accepted exactly when the root is found, not terminal and latched or running, and on a cascade also the signature matches and every target can be dealt with |
| CascadeInterrupt.RequestStore.LatchRoot | crates/gents-desktop-bridge/src/cascade.rs:407-495 | only the root can change, and it is latched exactly when it is interruptible |
| RequestLifecycle.ParseInvertsAsStr | crates/gents-protocol/src/request_lifecycle.rs:39-85 | a text parses to a state exactly when it is that state's text |
| RequestLifecycle.ClassesOf | crates/gents-protocol/src/request_lifecycle.rs:54-67 | which stored texts end a request, which run it, and which do neither |
| GraphqlLiteral.EscapeString | crates/gents-protocol/src/graphql.rs:213-226 | the buffer loop computes the escaped text |
| GraphqlLiteral.UnescapeEscape | crates/gents-protocol/src/graphql.rs:213-226 | unescaping the escaped text gives the original |
| GraphqlLiteral.EscapeEnds | crates/gents-protocol/src/graphql.rs:213-226 | an escaped text ends at the first quote after it, whatever follows |
| GraphqlLiteral.EscapedStaysOnLine | crates/gents-protocol/src/graphql.rs:213-226 | escaped text holds no line terminator and no tab, and a quote only after a backslash |
| GraphqlLiteral.LiteralsOf | crates/gents-protocol/src/graphql.rs:604-635 | the literals of null, booleans, numbers and strings, and of lists and objects of one part |
| GraphqlLiteral.NamesExactly | crates/gents-protocol/src/graphql.rs:92-112 | exactly which texts are names |
| GraphqlLiteral.UniqueReading | crates/gents-protocol/src/graphql.rs:604-635 | a text that starts with a rendering starts with the rendering of one value only, up to empty lists and null |
| GraphqlLiteral.UnambiguousPrinting | crates/gents-protocol/src/graphql.rs:604-635 | two renderable values render alike exactly when they are equal up to empty list = null |
| GraphqlLiteral.RenderableIsNamed | crates/gents-protocol/src/graphql.rs:92-112 | a value renders exactly when every object key in it is a GraphQL name |
| GraphqlFilter.ValidateFilterFragment | crates/gents-protocol/src/graphql.rs:143-211 | the stack loop accepts exactly the fragments the specified scanner accepts |
| GraphqlFilter.ContextNeutral | crates/gents-protocol/src/graphql.rs:143-211 | lexed on top of any outer delimiter stack an accepted fragment ends outside strings and comments with that stack, is never inside a comment, and never pops below the stack |
| GraphqlFilter.AcceptsExactly | crates/gents-protocol/src/graphql.rs:143-211 | a fragment is accepted exactly when it is one object that stays open until its last character, holds only allowed characters outside strings, and closes only what it opened |
| GraphqlFilter.NoBreakOut | crates/gents-protocol/src/graphql.rs:139-142 | outside strings an accepted fragment holds no parenthesis, comment sign or variable sign |
| GraphqlFilter.SingleObject | crates/gents-protocol/src/graphql.rs:143-211 | an accepted fragment is one object: its delimiters stay open until its last character |
| GraphqlFilter.EscapedStaysInside | crates/gents-protocol/src/graphql.rs:213-226 | scanning an escaped text inside quotes never leaves the string |
| GraphqlFilter.RenderedLeavesNoTrace | crates/gents-protocol/src/graphql.rs:604-635 | scanning the rendering of any value inside an object gives back the scanner state it started from |
| GraphqlFilter.RenderedObjectIsAccepted | crates/gents-protocol/src/graphql.rs:604-635 | every rendering of a JSON object is an accepted fragment |
| SigningPayload.EncodeWireLength | crates/gents-protocol/src/enrollment.rs:1070-1074 | the loop computes the unary length |
| SigningPayload.EncodedLength | crates/gents-protocol/src/enrollment.rs:1070-1074 | a length is that many zero bytes and then 0xff |
| SigningPayload.CanonicalDomainPayload | crates/gents-protocol/src/enrollment.rs:929-945 | the buffer loop computes the framed payload |
| SigningPayload.LowerHex | crates/gents-protocol/src/enrollment.rs:1076-1084 | the loop computes the hexadecimal text |
| SigningPayload.HexReads | crates/gents-protocol/src/enrollment.rs:1076-1084 | reading lower-case hexadecimal digits gives the bytes back |
| SigningPayload.DecodeInvertsPayload | crates/gents-protocol/src/enrollment.rs:929-945 | the decoder recovers domain, every field and whatever bytes follow |
| SigningPayload.DecodedIsPayload | crates/gents-protocol/src/enrollment.rs:929-945 | only payloads decode |
| SigningPayload.PrefixFree | crates/gents-protocol/src/enrollment.rs:929-945 | no payload is a prefix of another, over all domains and field lists |
| SigningPayload.HexInjective | crates/gents-protocol/src/enrollment.rs:1076-1084 | hexadecimal texts determine their bytes |
| Enrollment.OptionInjective | crates/gents-protocol/src/persona.rs:86-113 | an absent option and every present one have different texts |
| Enrollment.DomainTellsKind | crates/gents-protocol/src/enrollment.rs:459-532 | the signing domains of the nine kinds of record are told apart by length and one character |
| Enrollment.FieldsDetermine | crates/gents-protocol/src/enrollment.rs:459-532 | within one kind the signed field list determines every field but the signature |
| Enrollment.PersonaFieldsDetermine | crates/gents-protocol/src/persona.rs:86-113 | a persona request's field list determines every field but the signature, options included |
| Enrollment.SigningBytesDetermine | crates/gents-protocol/src/enrollment.rs:634-656 | a signing payload determines the kind of record and every signed field, and no record's payload is a prefix of another's |
| EnrollmentReader.RecordRoundTrip | crates/gents-protocol/src/enrollment.rs:459-532 | for all nine kinds of record a reader of the wire format recovers the kind and every field at its place from a signing payload and whatever follows it |
| EnrollmentChain.DigestInjective | crates/gents-protocol/src/enrollment.rs:947-952 | the request digest determines its fields |
| EnrollmentChain.DigestReads | crates/gents-protocol/src/enrollment.rs:71-91 | a request digest reads back as its tag, domain and thirteen fields in order |
| EnrollmentChain.ChainIsOrdered | crates/gents-protocol/src/enrollment.rs:94-175 | offer, request, decision and receipt that validate in turn are in time order, and the receipt is applied less than 90 days after the offer's expiry |
| EnrollmentChain.RequestExactly | crates/gents-protocol/src/enrollment.rs:94-175 | a request is accepted exactly when it is the one issued for the offer, with exact texts, a signature, and in the offer's window |
| EnrollmentChain.DecisionExactly | crates/gents-protocol/src/enrollment.rs:534-630 | a decision is accepted exactly when it is one the request's admin issued: an approval with a sequence and a lease of at most ninety days, or a denial with neither, in the request's window |
| EnrollmentChain.RevisionExactly | crates/gents-protocol/src/enrollment.rs:658-759 | a revision is accepted exactly when it is the admin's activation or a later revocation of the approval |
| EnrollmentChain.ReceiptExactly | crates/gents-protocol/src/enrollment.rs:788-873 | a receipt is accepted exactly when it is the admin's, under an accepted approval, applied between the decision and the end of the lease |
| EnrollmentChain.ChainIdentity | crates/gents-protocol/src/enrollment.rs:534-873 | records that validate in turn carry the offer's network, admin, owner and server and the request's candidate, and the offer's admin signed every one after the request |
| EnrollmentChain.DecisionBindsRequest | crates/gents-protocol/src/enrollment.rs:534-630 | requests accepted by one decision agree on every canonical field |
| EnrollmentChain.ActiveRevisionIsUnique | crates/gents-protocol/src/enrollment.rs:658-759 | accepted Active revisions of one approval differ only in the signature |
| EnrollmentChain.RevocationDominates | crates/gents-protocol/src/enrollment.rs:658-759 | an accepted revocation has a larger sequence than an accepted activation, is not earlier, and never shares its signing payload |
| EnrollmentChain.ReceiptsAgree | crates/gents-protocol/src/enrollment.rs:788-873 | accepted receipts of one approval differ only in time and signature |
| BehaviorReadiness.PublishSource | crates/gents-protocol/src/behavior_readiness.rs:142-205 | the loop over an ordered map publishes the specified snapshot or refuses |
| BehaviorReadiness.ProjectSummary | crates/gents-protocol/src/behavior_readiness.rs:322-371 | the counting loop computes the specified summary |
| BehaviorReadiness.ProjectReadiness | crates/gents-protocol/src/behavior_readiness.rs:375-469 | the loop computes the specified projection of every configured and published id |
| BehaviorReadiness.PublishedIsAccepted | crates/gents-protocol/src/behavior_readiness.rs:281-317 | every published snapshot is accepted by the decoder for its own agent |
| BehaviorReadiness.PublishedEntries | crates/gents-protocol/src/behavior_readiness.rs:142-205 | the published entries are exactly those of the sources |
| BehaviorReadiness.ReadyEndToEnd | crates/gents-protocol/src/behavior_readiness.rs:122-205 | a client sees Ready exactly when the source offered the behavior, the row is that agent's and under 46 seconds old, the process is ready and the router runs the active non-zero generation |
| BehaviorReadiness.SeenEndToEnd | crates/gents-protocol/src/behavior_readiness.rs:375-480 | everything else a client sees of a published row: which reason when nothing is known, and Unavailable exactly for a demotion or else the source's own reason |
| BehaviorReadiness.UnseenWithoutRow | crates/gents-protocol/src/behavior_readiness.rs:375-414 | without a row or with malformed configured ids nothing is known, and why |
| BehaviorReadiness.DecodesExactly | crates/gents-protocol/src/behavior_readiness.rs:281-317 | exactly which snapshots the decoder accepts, whoever wrote them |
| BehaviorReadiness.DecodeReasons | crates/gents-protocol/src/behavior_readiness.rs:281-317 | and why it refuses the others |
| BehaviorReadiness.PublishesExactly | crates/gents-protocol/src/behavior_readiness.rs:142-205 | a source is published exactly when its ids are canonical and named once and the default is assigned |
| BehaviorReadiness.ReadyCountIsCardinality | crates/gents-protocol/src/behavior_readiness.rs:322-371 | the ready count of ordered entries is the number of ready ids |
| BehaviorReadiness.ConsumersAgree | crates/gents-protocol/src/behavior_readiness.rs:322-469 | the summary is unknown for a reason exactly when the projection is; when observed its count and unavailable map are the projection's |
| SingleFlight.StepKeepsInv | crates/gents-lean-contract/src/lib.rs:51-76 | every step of every thread keeps the agreement of locks, cache and results |
| SingleFlight.SingleFlightHolds | crates/gents-lean-contract/src/lib.rs:51-76 | in every interleaving at most one thread builds or generates, one load per process succeeds by building, and every successful load is the cached payload |
| SingleFlight.CacheIsPermanent | crates/gents-lean-contract/src/lib.rs:51-76 | a cached payload stays |
| SingleFlight.FailureReleases | crates/gents-lean-contract/src/lib.rs:281-291 | a failing step caches nothing and lets go of both locks |
| SingleFlight.NeverStuck | crates/gents-lean-contract/src/lib.rs:319-360 | unless every caller has returned some caller can take a step |
| SingleFlight.EveryCallReturns | crates/gents-lean-contract/src/lib.rs:281-360 | every run is finite, and one that cannot go on has let every caller return with no lock held |
| SingleFlight.CachedLoadIsImmediate | crates/gents-lean-contract/src/lib.rs:58-60 | a load after a cached one returns in one step without a lock |
| ImportSanitize.NormalizeToolService | crates/gents-cli/src/desired_state/convert.rs:43-59 | trims the address fields, makes the path absolute, keeps every other field, and fails exactly on values that are not texts or a missing path |
| ImportSanitize.NormalizedFields | crates/gents-cli/src/desired_state/validate/storage.rs:8-37 | the stored addresses are the trimmed texts or empty, and the stored path is the trimmed one behind a slash |
| ImportSanitize.SanitizeImportDocument | crates/gents-cli/src/config_bundle.rs:762-906 | the edits and loops yield, field by field, the create or update form of each collection, and fail exactly where a tool service cannot be normalized |
| ImportSanitize.OnlyRuntimeFieldsStayOut | crates/gents-cli/src/config_bundle.rs:769-879 | neither form takes a field of the runtime from a document, an update resets some, and both carry every other field that holds something |
| ImportSanitize.CreateThenUpdate | crates/gents-cli/src/config_bundle.rs:762-906 | for every collection, creating and then updating with one document reads as creating |
| ImportSanitize.UpdateConverges | crates/gents-cli/src/config_bundle.rs:880-906 | what an update does to every field of every prior row: carried fields agree with the document, empty lists and null clear, protected and uncarried fields stay |
| ImportSanitize.UpdateRevokes | crates/gents-cli/src/config_bundle.rs:806-816 | a revoked binding survives an update exactly when the document carries no revocation or a real one |
| ImportSanitize.RevocationStands | crates/gents-cli/src/config_bundle.rs:806-816 | a revoked binding stays revoked through any sequence of updates exactly when every document is of that kind |
| ImportSanitize.TombstoneIsNeverCleared | crates/gents-cli/src/config_bundle.rs:806-816 | over any updates whose revocation is a text or null, a non-empty revocation stays non-empty |
| ImportSanitize.BlankRevives | crates/gents/src/eth/call_tool.rs:651-655 | a blank text revives a revoked binding |
| ConfigWrites.ClosedAfterEveryWrite | crates/gents-cli/src/config_import.rs:686-753 | ascending upserts then descending deletes leave no dangling reference after any single write exactly when there is none before and after, and rows that are put again or deleted refer to what is there |
| ConfigWrites.PruneClosed | crates/gents-cli/src/config_import.rs:736-751 | deletions in any order leave no dangling reference on the way exactly when whatever refers to a deleted row is deleted no later |
| ConfigWrites.ForwardPruneClosed | crates/gents-cli/src/config_import.rs:44-47 | deleting in apply order stays closed exactly when nothing that is deleted is referred to |
| ConfigWrites.ForwardPruneDangles | crates/gents/src/document_config/behavior.rs:66-72 | a behavior and the backend it names, deleted in apply order, leave a dangling reference on the way |
| ConfigApply.Reversed | crates/gents-cli/src/config_import.rs:31-42 | the in-place swaps yield the exact reverse, in a fresh array |
| ConfigApply.SelectionIsExact | crates/gents-cli/src/config_bundle.rs:908-952 | a selection succeeds exactly when every id to create or update has a document, and is the documents with those ids, sorted by id |
| ConfigApply.PutsWhen | crates/gents-cli/src/config_import.rs:116-151 | a collection can be written exactly when its documents are selected, named and sanitizable, and each its own row unless it has a writer of its own |
| ConfigApply.PutsAscend | crates/gents-cli/src/config_import.rs:699-729 | the writes of the first loop come in apply order |
| ConfigApply.DropsDescend | crates/gents-cli/src/config_import.rs:736-751 | the deletions of the second loop come in the opposite order |
| ConfigApply.ClosedThroughout | crates/gents-cli/src/config_import.rs:686-753 | for every plan, at every moment of the run, wherever it stops, no reference dangles, exactly when none does before it and after it and documents written over or deleted again refer to what is there |
| ConfigApply.ConfigTxn.ApplyDesiredStateChanges | crates/gents-cli/src/config_import.rs:686-753 | the two loops write the planned writes in order, stop only at a refused document, a failed call or an absent row, succeed exactly with all of them, and count them per collection |
| ConfigOutcome.DocumentIsApplied | crates/gents-cli/src/config_import.rs:699-729 | after a completed run a selected document that is not deleted stands in the row of its id, in its update form over an existing row and in its create form otherwise |
| ConfigOutcome.RowsAtTheEnd | crates/gents-cli/src/config_import.rs:686-753 | the rows at the end are those of before and those put, without those planned for deletion, and the rest is unchanged |
| ConfigOutcome.PutsExactly | crates/gents-cli/src/config_import.rs:755-777 | the rows put are those of the selected documents, by trimmed id |
| ConfigOutcome.PrincipalIsSelected | crates/gents-cli/src/config_import.rs:674-684 | the principal is selected whenever it is to be created or updated, and must then be there |
| Collections.OrderIsRanked | crates/gents/src/collection.rs:44-59 | the apply order lists each collection once, at its rank |
| Collections.OrderRefinesRank | crates/gents/src/collection.rs:156-174 | the apply order refines the dependency rank and lists every collection but workspace roots once |
| Collections.IdFieldsTell | crates/gents/src/collection.rs:133-151 | the id field of each collection; only the two kinds of binding share one |
| ClientTurn.PermutationInvariant | crates/gents-protocol/src/client_protocol.rs:201-221 | the turn does not depend on the order of the attempts |
| ClientTurn.ShownIsTheOnlyTip | crates/gents-protocol/src/client_protocol.rs:201-217 | with distinct ids an attempt is shown exactly when it is the only one not retried |
| ClientTurn.ChainShowsNewest | crates/gents-protocol/src/client_protocol.rs:201-221 | a retry chain of any length, in any order, shows its newest attempt, exactly when no older id is empty and the first does not name the newest |
| ClientTurn.ChainShows | crates/gents-protocol/src/client_protocol.rs:172-221 | what a client sees of a retry chain of any length, in any order, state by state: the newest attempt by its supersession, then its lifecycle, then its response |
| ClientTurn.EndedWins | crates/gents-protocol/src/client_protocol.rs:172-199 | an ended or superseded request is shown as ended whatever its response says |
| ClientTurn.BrokenChains | crates/gents-protocol/src/client_protocol.rs:201-221 | chains of both excluded shapes that show nothing |
| ClientTurn.OnlyChainsAreShown | crates/gents-protocol/src/client_protocol.rs:201-221 | attempts created in order that show a state are one retry chain |
| ClientTurn.RankNeverFalls | crates/gents-protocol/src/client_protocol.rs:30-39 | along every run of one attempt with absorbing terminal states, kept supersession and advancing response the rank never falls |
| ClientTurn.RankOrders | crates/gents-protocol/src/client_protocol.rs:30-39 | waiting ranks below streaming, and every ended state alike above it |
| TopLevelEntries.BinarySearch | crates/gents-fs-runner/src/tools.rs:49-51 | on a sorted list finds a match or the point of insertion |
| TopLevelEntries.TopLevelEntryNames | crates/gents-fs-runner/src/tools.rs:39-56 | the bounded loop returns the first ten of the sorted readable names |
| TopLevelEntries.HintsAreTheSmallest | crates/gents-fs-runner/src/tools.rs:39-56 | the hints are sorted, as many as fit, and no name left out is smaller |
| TopLevelEntries.ReadOrderDoesNotShow | crates/gents-fs-runner/src/tools.rs:39-56 | any order of the directory gives the same hints |

## Left out

- MigrationRuns.NoRollback: speaks of stores in which no foreign version disturbs an id, like the other run theorems; a disturbed id is any id at all, and could be that of a later link.
- Migration: foreign versions that are active.
- Migration: the optional descriptor digest, which includes the active flag and so cannot hold both before and after activation; expectations are field names, as in every shipped step.
- Migration: materialization of documents, lens execution, the static tables of collections and steps, and the process-wide lock that serializes passes; node calls are atomic and only passes are cut.
- Migration: the wording of errors; a fault is its kind.
- Cascade: the transport, and the retries around it; the clock is a function of the call.
- Cascade: the digest of the signature text is a parameter.
- GraphQL: block strings, the list-only helpers and the query builders; a number is its own text.
- Enrollment: signature checks, the offer token, operator command time windows, and the collision behaviour of hash-derived ids; timestamps are whole seconds behind a parsing function.
- Persona requests and hydration receipts: their shape checks; a hydration manifest is its JSON text and its sortedness check is not modelled.
- Readiness: JSON and RFC 3339 parsing are parameters; public messages are left out.
- Single flight: retries inside the build, forwarding of its output, and the extraction of the payload; different proofs directories have different locks and are separate instances of the model.
- ConfigApply.ConfigTxn.ApplyDesiredStateChanges: documents of a batch are written one by one, the second attempt after a failed batch, the tombstone lookup, minted identity fields and the behavior validation of the writers are not modelled; one clock value serves all documents.
- Config: the reachability filter of exports, and desired-state diffing; they would add only easy members.
- Client turn: the persisted-text entry points, which parse and then do the same.
- Directory hints: lossy decoding of names; glob and grep traversal.
- Login, telemetry, desktop commands, user interfaces, build scripts and the Python agent.
