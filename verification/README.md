# Reference semantics of the lazily specification, verified

This project models the executable reference behaviour behind the lazily specification and proves what
that behaviour is relied on for. Each module follows one component of the repository.

* **Latest durable projection** (`LatestDurable`, `LatestDurableProofs`, `LatestDurableHistory`): per key, a
  newest desired revision, at most one in-flight envelope and a durable frontier. The class
  `LatestDurableProjectionReference` updates its entries in place; each method is proved equal to the
  transition function `Step`, and the run-level guarantees are proved about `Step`. `LatestDurableHistory`
  derives every answer, refusals included, from three registers kept by reading the history.
* **Boundary ingress** (`BoundaryIngress`, `BoundaryIngressProofs`, `BoundaryIngressOrder`,
  `BoundaryIngressEnds`, `BoundaryIngressHistory`): the transition owner with its generation fence, snapshot
  bootstrap, bounded reorder buffer, receipts and observation revision. The class `Model` is proved equal to
  `Step`; runs of `Step` are proved to refine in-order replay of a log, the order of delivery is proved not to
  show in the end state exactly when there is room or no event is beyond the snapshot, and members, receipts and
  freshness are told from the history.
* **MessagePack** (`Utf8`, `MessagePack`, `MessagePackProofs`, `MessagePackShortest`, `MessagePackFormat`): the
  fixture generator's writer against the independently written reader, and both against the format.
* **Assertion-block schemas** (`SchemaInference`, `SchemaInferenceProofs`, `SchemaShape`, `SchemaBuilding`,
  `AssertionBlocks`, `AssertionRoutes`): finding the blocks of a document, filing them under pointers,
  inferring a closed schema from examples, and the routed schema of a corpus. `SchemaBuilding` holds the
  loops as they run, proved equal to the functions the theorems are about.
* **Wire compiler**, in three parts.
  * Schema to model (`SurfaceSchema`, `SurfaceLowering`, `SurfaceOutcome`, `SurfaceOrder`, `SurfaceBuilder`,
    `SurfaceMeaning`, `SurfaceKeywords`, `SurfaceModels`, `SurfaceEdges`): a JSON Schema subset with its meaning,
    including keywords that lowering does not look at; which nodes and definitions lower; the builder, as a class
    that fills its type list, emitted set and shared queue, with the types it ends with and their order; and what
    the built model accepts, against what the schema does.
  * Model to Python (`WireModel`, `WireCodec`, `WireCodecProofs`, `WireInstances`, `WireRoundTrips`, `WireEdges`):
    the strict reference reading, and the generated codec as an interpreter of plans, from JSON to instances and
    back.
  * What a target emits (`EmissionPlan`, `EmissionHelpers`, `EmissionProofs`, `HelperProofs`, `EmissionGaps`):
    the worklist, the plan, the helper functions a module defines, and when the generated code names and calls
    only what is there.

  `SurfaceToCodec` joins them, from the documents to the generated classes; `SurfaceExample` is a surface
  that goes through the whole pipeline, with its envelope emitted or not.
* **Standard library oracles** (`StdlibTimer`, `StdlibTimeout`, `StdlibBarrier`): three small state
  machines, each a class proved equal to a step function, and closed forms of their whole runs.
* **Brackets** (`Brackets`): the bracket matcher and the top-level comma splitter of the consumption
  check, against forests of properly nested groups.

JSON values are `Documents.Json`. Integers are unbounded in the model; the 64-bit ceiling is written out
where the code has it. Regular-expression matching and the hand-written external wire types are
parameters (`WireModel.Outside`).

## What the proofs found

* A field whose range or length limit sits under a list of references to a constrained alias, or under a
  second nullable, is decoded without its check. `WireEdges.FieldAgreesIffChecked` gives the exact
  condition, `WireEdges.OnlyHiddenConstraintsSlipThrough` shows that generation refuses everything else.
* Generated code can name a record that was flattened away into a union's variants and so has no class: a
  payload kept as one field may (`EmissionGaps.KeptPayloadMayNameNoClass`), and so may an envelope, emitted or
  left to hand-written code (`EmissionGaps.EnvelopeMayHaveNoClass`). A plan is closed exactly when none of
  the three does (`EmissionProofs.PlanClosedIff`).
* Generated code can call a helper function that nothing defines. Generation looks through an alias only where a
  record's field is one itself, while decoders look through it at every depth: with a number reached only
  through a nullable field's alias, or a kept payload's, every decoding of it fails
  (`EmissionGaps.AliasHelperIsMissing`). A module decodes as one with every helper exactly when it defines those
  that classes call which read some value (`HelperProofs.RendersAlikeIff`).
* A record whose codec carries an envelope's tag is misread wherever it is referred to, exactly because of the
  tag (`WireEdges.TaggedReferenceAgreesIff`). Rendering refuses such references in record fields only; a
  union's payload gets through (`EmissionGaps.TaggedPayloadIsMisread`).
* A hand-written type that is written as null is lost under a nullable
  (`WireRoundTrips.NullableExternalRoundTripsIff`).
* Keywords the builder does not read, such as `minItems` or siblings of a `$ref`, are dropped without a
  refusal (`SurfaceKeywords.MinItemsIsDropped`). The model agrees with the whole schema on a value exactly
  when no dropped keyword is effective there (`SurfaceModels.DefinitionMeaning`).
* `oneOf` accepts null only under an odd number of nested nullables; the model accepts it under any
  (`SurfaceMeaning.NullParity`).
* An envelope's inline record need not say `"type": "object"`, and is built as if it did. The envelope means what
  its schema does exactly when it does say so (`SurfaceModels.EnvelopeAgreesIff`).
* A second enum of one name gets the first one's values (`SurfaceEdges.SharedEnumAgreesIff`), and a definition
  whose name an inline enum took is dropped for the enum, which is harmless for an enum, a constant, a string or
  a union of just those values and never for another kind (`SurfaceEdges.DroppedDefinitionAgreesIff`).
* A shared nullable alias is followed in its user's scope. It is read as its schema exactly when both scopes
  mean the same by the shape it wraps (`SurfaceEdges.AliasReadIff`); with a string here and a
  boolean there it takes what is invalid and turns down what is valid (`SurfaceEdges.KeyInBothDocuments`).
* Any order of delivering a snapshot and a set of events goes through unrefused exactly when there are fewer
  distinct cursors than slots, or as many with one of them at or right after the snapshot
  (`BoundaryIngressOrder.RoomIff`). Any two orders end in the same state exactly when there is that room or no
  cursor is beyond the snapshot's (`BoundaryIngressEnds.AllEndAlikeIff`).
* A list seen only empty gets no `items`, so its schema accepts any list; `SchemaInferenceProofs.Licensed`
  states what inference really licenses.
* Two blocks share a pointer when their paths differ only in list positions, and also when one has an
  index where the other has the key `*` (`AssertionRoutes.PointerExact`).

## Model

| member | source | states |
|---|---|---|
| `LatestDurable.EntryCell.Upsert` | tests/test_latest_durable_projection.py:33-56 | A durable or older epoch is refused, the newest one is unchanged or a conflict by its value, and only a newer one becomes the desired revision |
| `LatestDurable.EntryCell.Ack` | tests/test_latest_durable_projection.py:78-92 | Only the epoch in flight is acknowledged; it becomes durable and leaves the envelope slot |
| `LatestDurable.LatestDurableProjectionReference.Claim` | tests/test_latest_durable_projection.py:58-76 | The object's new entries and the outcome are those of the claim transition: generation fence, one envelope at a time, desired moved in flight |
| `LatestDurable.LatestDurableProjectionReference.RequeueAll` | tests/test_latest_durable_projection.py:108-136 | The loop takes every in-flight envelope back and counts requeued and superseded ones exactly |
| `LatestDurable.LatestDurableProjectionReference.Reconnect` | tests/test_latest_durable_projection.py:108-136 | An older generation is refused, an equal one changes nothing, a newer one takes back all envelopes and fences the old generation |
| `LatestDurable.LatestDurableProjectionReference.Apply` | tests/test_latest_durable_projection.py:138-140 | Any operation leaves exactly the state and outcome of `Step`, with no entry shared between keys |
| `LatestDurableProofs.RetainedEpochsOrdered` | tests/test_latest_durable_projection.py:33-136 | After every run durable < in flight < desired for each key, and the in-flight envelope carries the current generation |
| `LatestDurableProofs.NewestRevisionNeverLost` | tests/test_latest_durable_projection.py:33-136 | After every run the last accepted revision of a key is desired, else in flight, else its epoch is the durable one |
| `LatestDurableProofs.DurableMovesOnlyByMatchingAck` | tests/test_latest_durable_projection.py:78-92 | The durable epoch changes only through an acknowledgement of the envelope in flight under the current generation, to its epoch, upwards |
| `LatestDurableProofs.AcceptedEpochsIncrease` | tests/test_latest_durable_projection.py:38-56 | Over any run the accepted epochs of one key strictly increase |
| `LatestDurableProofs.ClaimsNeverGoBack` | tests/test_latest_durable_projection.py:58-76 | Over any run claimed epochs of one key never decrease, and one epoch is only ever claimed with one value |
| `LatestDurableProofs.ClaimedWasAccepted` | tests/test_latest_durable_projection.py:58-76 | Every claimed envelope is a revision accepted at an earlier step |
| `LatestDurableProofs.ReconnectRefinesFailures` | tests/test_latest_durable_projection.py:94-136 | Reconnecting equals failing every in-flight envelope one at a time, in any order, then raising the generation; the two counts add up to the envelopes in flight |
| `LatestDurableHistory.RunRecords` | tests/test_latest_durable_projection.py:33-136 | After every run each entry is the one its key's three registers stand for: the newest accepted revision, the one out, and the durable epoch, kept by reading the history |
| `LatestDurableHistory.AnswersExact` | tests/test_latest_durable_projection.py:33-106 | After any run every answer to an upsert, claim, acknowledgement or failure, generation fences and refusals included, is the one the registers give |
| `LatestDurableHistory.ReconnectsExact` | tests/test_latest_durable_projection.py:108-136 | The answer to a reconnect, with both counts, from the history alone |
| `LatestDurableHistory.AcceptedIffNewer` | tests/test_latest_durable_projection.py:38-56 | After any run an upsert is accepted exactly when no accepted revision of the key has its epoch or a later one, whatever is in flight |
| `LatestDurableHistory.ClaimedIffWaiting` | tests/test_latest_durable_projection.py:58-76 | After any run a claim succeeds exactly under the current generation, with nothing out and the newest accepted revision not durable, and hands out that revision |
| `BoundaryIngress.Model.DrainContiguous` | tests/test_boundary_ingress_adapter.py:89-96 | The pop loop leaves the drained state: every buffered event right after the cursor applied in turn |
| `BoundaryIngress.Model.ApplySnapshot` | tests/test_boundary_ingress_adapter.py:119-143 | Fence, install, discard what the snapshot covers, drain |
| `BoundaryIngress.Model.ApplyDeliver` | tests/test_boundary_ingress_adapter.py:145-195 | Every branch of event delivery: stale, newer generation, bootstrap buffering, duplicate, next in order, full buffer, gap |
| `BoundaryIngress.Model.Apply` | tests/test_boundary_ingress_adapter.py:98-246 | Any operation leaves the object in exactly the state of `Step` |
| `BoundaryIngressProofs.DrainExact` | tests/test_boundary_ingress_adapter.py:89-96 | Draining stops exactly at the end of the buffered contiguous run, replays that run, and keeps what lies beyond |
| `BoundaryIngressProofs.RunConsistent` | tests/test_boundary_ingress_adapter.py:69-246 | In every reachable state the buffer is bounded; with a cursor every buffered cursor lies beyond the next one; live and invalid mean nothing buffered; replay required names the cursor to replay from |
| `BoundaryIngressProofs.RevisionCoversChanges` | tests/test_boundary_ingress_adapter.py:69-70 | A step raises the revision by at most one, and a step that does not raise it changes nothing an observer sees |
| `BoundaryIngressProofs.RefinesInOrderReplay` | tests/test_boundary_ingress_adapter.py:72-195 | In every reachable state with a cursor, keys and validation are the last accepted snapshot plus the log entries after it through the cursor, once each and in order |
| `BoundaryIngressOrder.SessionState` | tests/test_boundary_ingress_adapter.py:119-195 | Within one generation, however it was entered, the received cursors and the snapshot determine cursor, buffer, phase, replay point, keys and validation |
| `BoundaryIngressOrder.OrderDoesNotMatter` | tests/test_boundary_ingress_adapter.py:89-195 | Two unrefused deliveries of the same events and snapshot, in any orders and with any duplicates, end in the same state |
| `BoundaryIngressOrder.OrderDoesNotMatterWithRoom` | tests/test_boundary_ingress_adapter.py:89-195 | With room, any two deliveries of the same events and snapshot end in the same state |
| `BoundaryIngressOrder.RoomIff` | tests/test_boundary_ingress_adapter.py:166-195 | Every delivery of a snapshot and a set of events is unrefused exactly when there are fewer distinct cursors than slots, or as many with one at or right after the snapshot, or none |
| `BoundaryIngressOrder.FullBufferRefusesDuplicate` | tests/test_boundary_ingress_adapter.py:186-190 | One slot and one cursor that has to wait: a duplicate is refused in one order and not in the other, and the end states differ |
| `BoundaryIngressEnds.AllEndAlikeIff` | tests/test_boundary_ingress_adapter.py:119-195 | All deliveries of a snapshot and a set of events, in any orders, with any duplicates and however the generation is entered, end in the same state exactly when there is room or no cursor is beyond the snapshot's |
| `BoundaryIngressProofs.ReceiptTargetsAreFixed` | tests/test_boundary_ingress_adapter.py:197-237 | Until the next receipt is opened, a receipt with targets keeps them, and its acknowledgements are exactly those targets that acknowledged |
| `BoundaryIngressHistory.RunTells` | tests/test_boundary_ingress_adapter.py:98-246 | Over every run generation, members, clock and stale count are those of the history: members are the last accepted snapshot's, or none since a subscription, with the joins and leaves after it |
| `BoundaryIngressHistory.ReceiptsExact` | tests/test_boundary_ingress_adapter.py:197-237 | Over every run the receipt is for the members at its opening, or the first to join after it if there were none; it holds the acknowledgements of those since, and has converged exactly when it is for someone and all acknowledged |
| `BoundaryIngressHistory.RunUnsynced` | tests/test_boundary_ingress_adapter.py:98-177 | Until its snapshot arrives, a generation holds what the state it was entered in leaves to it: a subscription drops keys and replay point, an event keeps both, validation and stamp stay |
| `BoundaryIngressHistory.FirstIsHeld` | tests/test_boundary_ingress_adapter.py:165-177 | Until its snapshot arrives, what is held for a cursor is the event first delivered for it, and that is held wherever the buffer has room |
| `BoundaryIngressHistory.FreshExact` | tests/test_boundary_ingress_adapter.py:239-243 | An observer sees a fresh source exactly when the last tick is within the horizon of the stamp of the last log entry or snapshot taken in |
| `BoundaryIngressHistory.RevisionExact` | tests/test_boundary_ingress_adapter.py:69-70 | In reachable states the revision rises for the operations that always count, and for any other exactly when an observer sees a change |
| `BoundaryIngressHistory.PhaseExact` | tests/test_boundary_ingress_adapter.py:248-251 | In reachable states the source is ready, and live, exactly when the snapshot has arrived, nothing waits or was refused at the cursor and it is valid; invalid likewise |
| `Utf8.DecodeEncode` | scripts/gen_nodeid_exact_range_fixture.py:68-74 | Decoding an encoded string gives it back |
| `Utf8.EncodeDecode` | tests/test_schema_conformance.py:664-670 | Decoding is strict: bytes that decode are the encoding of the result |
| `Utf8.SpellsExact` | scripts/gen_nodeid_exact_range_fixture.py:68-74 | Encoding a string spells its characters, one after the other, by the octet table of section 3 of RFC 3629 |
| `MessagePack.Unpack` | tests/test_schema_conformance.py:633-674 | The reader as it runs returns what the recursive reading returns, error cases included; `MessagePackFormat.ReadExact` says what that reading is |
| `MessagePack.UnpackPairs` | tests/test_schema_conformance.py:650-657 | The loop fills the dictionary that the entries, assigned in reading order, leave |
| `MessagePackProofs.ReadsBack` | scripts/gen_nodeid_exact_range_fixture.py:52-86 | Wherever a writable document's output stands in the data, reading there returns the value it denotes and the position just past it |
| `MessagePackProofs.WriteIsSelfDelimiting` | scripts/gen_nodeid_exact_range_fixture.py:52-86 | Two outputs that start the same data denote the same value and have the same length |
| `MessagePackFormat.ReadExact` | tests/test_schema_conformance.py:633-674 | Reading returns a value and a position within the data exactly when the bytes between are one of the forms of that value: nil, fixint, uint 8 to 64, fixstr, str 8, fixarray, fixmap and map 16, of any width that holds it, the last entry of a key counting |
| `MessagePackFormat.WriteExact` | scripts/gen_nodeid_exact_range_fixture.py:52-86 | A document is written exactly when its numbers, strings, arrays and maps are within the writer's limits, and then as one of the forms of its value |
| `MessagePackShortest.ReadSize` | tests/test_schema_conformance.py:633-674 | Whatever the reader accepts within the data takes at least the least size of what it returns |
| `MessagePackShortest.WriteSize` | scripts/gen_nodeid_exact_range_fixture.py:52-86 | The writer takes the least size exactly when no written map repeats a key |
| `MessagePackShortest.CanonicalSame` | scripts/gen_nodeid_exact_range_fixture.py:83-86 | Keeping only the last pair of each key denotes the same value |
| `MessagePackShortest.ShortestIffKeysDistinct` | scripts/gen_nodeid_exact_range_fixture.py:52-86 | No accepted encoding of the same value is shorter than the writer's, exactly when no written map repeats a key |
| `SchemaBuilding.InferSchema` | scripts/gen_assertion_block_schema.py:136-152 | Grouping, merging and branching as they run produce the inferred schema |
| `SchemaBuilding.RequiredKeys` | scripts/gen_assertion_block_schema.py:113-115 | Intersecting key sets one object at a time leaves exactly the keys all objects have |
| `SchemaInferenceProofs.InferExact` | scripts/gen_assertion_block_schema.py:110-152 | The inferred schema accepts exactly what the examples license: a kind that occurred, keys that some object had, all keys that every object had, and below them the same of the values found there |
| `SchemaInferenceProofs.InferSound` | scripts/gen_assertion_block_schema.py:110-152 | Every example validates against the schema inferred from all |
| `SchemaInferenceProofs.InferDependsOnSetOnly` | scripts/gen_assertion_block_schema.py:110-152 | Permuting or repeating examples gives the identical schema |
| `SchemaShape.InferIffCanonical` | scripts/gen_assertion_block_schema.py:110-152 | A schema is the inferred one exactly when it is canonical: one branch for each kind that occurs, integers only without other numbers, in the fixed order, a union unless there is one, and so on inside objects and arrays |
| `AssertionBlocks.BlocksExact` | scripts/gen_assertion_block_schema.py:58-79 | What is found is exactly the objects at paths that end in a block name, or in a list element under one |
| `AssertionRoutes.EscapeInjective` | scripts/gen_assertion_block_schema.py:52-54 | The two replacements of pointer escaping lose nothing |
| `AssertionRoutes.PointerReads` | scripts/gen_assertion_block_schema.py:48-55 | The pointer of a path is the one text that reads, by sections 3 and 4 of RFC 6901, as its member names with a `*` for each list position |
| `AssertionRoutes.PointerExact` | scripts/gen_assertion_block_schema.py:48-55 | Two paths share a pointer exactly when they agree up to list positions, an index and the key `*` counting as one |
| `AssertionRoutes.RoutedExact` | scripts/gen_assertion_block_schema.py:155-203 | The routed schema accepts an instance of a route exactly when its value is licensed by the blocks filed under that route |
| `AssertionRoutes.RoutedIsInstance` | scripts/gen_assertion_block_schema.py:178-203 | Whatever the routed schema accepts is an instance of a route that occurs, licensed by the blocks filed under it |
| `AssertionRoutes.CollectRecords` | scripts/gen_assertion_block_schema.py:82-89 | The loops list every block of every document of the corpus, and nothing else |
| `AssertionRoutes.SchemaOfCorpus` | scripts/gen_assertion_block_schema.py:155-203 | The routed schema depends on the corpus only, not on the order its records were found in |
| `AssertionRoutes.EveryRecordValidates` | scripts/gen_assertion_block_schema.py:82-203 | Every block found in any document of the corpus validates, through exactly one route |
| `WireCodecProofs.DecodeExact` | scripts/wire_codegen.py:1590-1606 | For types with no construction check and with every helper they call defined, decoding succeeds exactly when the reference reading accepts the value less its dropped nulls |
| `WireCodecProofs.FieldExact` | scripts/wire_codegen.py:1630-1653 | A field is decoded and passes its check exactly when its key is absent, an explicit null, or well read |
| `WireCodecProofs.RecordExact` | scripts/wire_codegen.py:1804-1832 | A record is decoded exactly when the reference reading accepts it after optional explicit nulls are dropped |
| `WireCodecProofs.UnionReads` | tests/test_wire_codegen.py:531-538 | First-match reading of a union is: a unit tag, or one key whose first variant with a payload accepts the body |
| `WireCodecProofs.UnionExact` | scripts/wire_codegen.py:1927-1944 | A union is decoded exactly when the reference reading accepts it, flattened bodies and named payload fields included |
| `WireCodecProofs.FromWireExact` | scripts/wire_codegen.py:1916-2069 | Each generated class whose helpers are defined accepts exactly what the model's reference reading accepts, after dropping |
| `WireInstances.DecodesToExact` | scripts/wire_codegen.py:1590-1606 | What a decoder takes it turns into the one value that shows the document: its strings, numbers, bytes and items in order, None for null and absence, an external type's own wire form |
| `WireInstances.FromWireToExact` | scripts/wire_codegen.py:1916-2069 | The same for classes: an instance of that class, with the tag of the document and each field under its own name |
| `WireRoundTrips.ReencodeExact` | scripts/wire_codegen.py:1609-1627 | Re-encoding a decoded value gives the value less its optional explicit nulls |
| `WireRoundTrips.ReencodeWire` | scripts/wire_codegen.py:1945-1990 | The same for whole enums, records and unions |
| `WireRoundTrips.DecodeEncoded` | scripts/wire_codegen.py:1590-1627 | Decoding the encoding of a well-typed value gives it back, through lists, nullables, optionals and unions |
| `WireRoundTrips.DecodeToWire` | scripts/wire_codegen.py:1945-2069 | The same for instances of generated classes |
| `WireRoundTrips.DecodedIsTyped` | scripts/wire_codegen.py:1590-1653 | Whatever decodes is well typed, so the two round trips meet |
| `WireRoundTrips.NullableExternalRoundTripsIff` | scripts/wire_codegen.py:1602-1621 | A nullable hand-written type round-trips on all its values exactly when it never writes null itself |
| `WireEdges.FrameExact` | scripts/wire_codegen.py:2029-2045 | A tagged body's decoder accepts exactly the frames of its envelope |
| `WireEdges.FrameReencodes` | scripts/wire_codegen.py:2029-2038 | Re-encoding a decoded frame gives the frame less its optional explicit nulls |
| `WireEdges.FrameRoundTrips` | scripts/wire_codegen.py:2029-2069 | Decoding an encoded frame gives the instance back |
| `WireEdges.TaggedReferenceAgreesIff` | scripts/wire_codegen.py:1851-1867 | A reference to a record with a readable value that does without the tag is read as the model asks, on every value, exactly when the record's codec carries no tag |
| `WireEdges.FieldAgreesIffChecked` | scripts/wire_codegen.py:1630-1665 | A field, required or optional, agrees with the reference reading on every object exactly when its constraint is not buried under a list or a second nullable |
| `WireEdges.OnlyHiddenConstraintsSlipThrough` | scripts/wire_codegen.py:1639-1665 | An unchecked constraint that generation lets through is under a second nullable, or in a list of references to a constrained alias |
| `EmissionPlan.Reach` | scripts/wire_codegen.py:1744-1752 | The worklist ends with the least closed set holding the roots and visits each declaration at most once |
| `EmissionPlan.FlattenedBodies` | scripts/wire_codegen.py:1700-1730 | The loops over declarations and variants collect the flattened bodies, or refuse exactly a target that does not fit |
| `EmissionPlan.PyPlan` | scripts/wire_codegen.py:1692-1771 | A plan has, in model order and none twice, exactly the declarations that a chain of references from an unreferenced one leads to without passing an external type, less written-out records and a disabled envelope; it is refused exactly for a misfit target, a string whose upper limit or pattern makes a difference, or an emitted alias of no scalar |
| `EmissionPlan.ReachedExact` | scripts/wire_codegen.py:1733-1752 | What the worklist reaches is what a chain of references leads to, from a declaration nothing refers to or the body of such an envelope that is not wanted |
| `EmissionPlan.PlainIffUnlimited` | scripts/wire_codegen.py:455-476 | A string type passes exactly when, whatever its pattern matches, leaving out upper limit and pattern changes nothing it accepts |
| `EmissionHelpers.CollectHelpers` | scripts/wire_codegen.py:1866-1883 | The loops over records, flattened bodies and unions, with the rules for the two key-checking helpers, define exactly the helpers of the kinds seen |
| `EmissionHelpers.KeysAreEmitted` | scripts/wire_codegen.py:2071-2075 | The helpers that check keys are defined wherever a class, a tagged frame or a flattened body calls them |
| `EmissionHelpers.RecordCallsKeysHelper` | scripts/wire_codegen.py:1820-1832 | A record that reads some value has the helper for optional keys defined if it has any, and the plain one if it has none |
| `HelperProofs.DecodesAlikeIff` | scripts/wire_codegen.py:1590-1606 | Any module decodes as one with every helper exactly when it defines each helper called by a class or payload that reads some value, aliases looked through at every depth |
| `HelperProofs.RendersAlikeIff` | scripts/wire_codegen.py:1869-1880 | The same for rendered modules, with a guard read off the surface that suffices, and is exact where every class and payload reads some value |
| `EmissionProofs.PlanClosedIff` | scripts/wire_codegen.py:1707-1759 | The roots, and all that emitted declarations use (fields, kept payloads, inlined fields, envelope bodies), are emitted or external exactly when no kept payload, no emitted envelope and no root names a flattened record |
| `EmissionProofs.UseIsReached` | scripts/wire_codegen.py:1733-1752 | Whatever an emitted declaration uses was reached; only a kept payload or an envelope's body can have been flattened away |
| `EmissionGaps.KeptPayloadMayNameNoClass` | scripts/wire_codegen.py:1714-1728 | A surface and target that plan successfully and whose kept payload names a flattened record |
| `EmissionGaps.EnvelopeMayHaveNoClass` | scripts/wire_codegen.py:1723-1730 | A surface that plans successfully without kept payloads, whose envelope's body was flattened away, with the envelope emitted or not |
| `EmissionGaps.TaggedPayloadIsMisread` | scripts/wire_codegen.py:1854-1867 | A surface that plans and renders with every helper defined, whose union decoder turns down a value the model takes because its payload names the envelope's body |
| `EmissionGaps.AliasHelperIsMissing` | scripts/wire_codegen.py:1869-1879 | Surfaces that plan and render, with an alias of a number under a nullable field or as a kept payload: the model accepts any number, a module with every helper decodes it, and the rendered one fails |
| `EmissionProofs.PlanIsLowered` | scripts/wire_codegen.py:1692-1771 | A closed plan in which nothing refers to a tagged record and every helper called is defined satisfies what the codec theorems ask of a target, and an emitted envelope's body has its class |
| `SurfaceLowering.ExprLowersIff` | scripts/wire_codegen.py:136-176 | A node lowers exactly when it has a type: integers exactly where the valid ones are all from 0 or 0 to 2^64-1, strings and booleans always, inline enums by a PascalCase name, arrays by their items or as bytes, nullables by their inner shape, references by the definition they denote, nullable aliases followed finitely often |
| `SurfaceLowering.RecordLowersIff` | scripts/wire_codegen.py:247-279 | An object lowers exactly when it is closed, has properties, requires none but those, and each has a wire name and a type |
| `SurfaceLowering.UnionLowersIff` | scripts/wire_codegen.py:204-245 | Branches lower to a union exactly when there are two or more with distinct PascalCase tags, each a constant or a closed object of one required key with a type |
| `SurfaceLowering.DeclLowersIff` | scripts/wire_codegen.py:123-134 | A definition lowers exactly when it is an enum with values, a record, a union, a string, a boolean or an integer with a type |
| `SurfaceOrder.BlockKeepsOrder` | scripts/wire_codegen.py:293-348 | One more block of types keeps the order: shared names queued as first named, inline enums in front of the first type that names them |
| `SurfaceBuilder.Builder.TypeExpr` | scripts/wire_codegen.py:136-176 | Returns the node's lowering; types and queue only grow, by nothing but names the lowering refers to; each name newly emitted is an inline enum's and has a type, and every reference made has a type or will get one |
| `SurfaceBuilder.Builder.Reference` | scripts/wire_codegen.py:137-143 | A reference lowers to its name with a shared one queued, or to what the nullable alias it names lowers to |
| `SurfaceBuilder.Builder.RecordType` | scripts/wire_codegen.py:247-279 | The field loop builds the record's lowering, or refuses where there is none |
| `SurfaceBuilder.Builder.UnionType` | scripts/wire_codegen.py:204-245 | The branch loop builds the union's lowering: single-key closed objects or string constants, two or more distinct tags |
| `SurfaceBuilder.Builder.Emit` | scripts/wire_codegen.py:293-299 | A definition is modelled once, exactly when it declares something: one block of types, the inline enums it is first to name in front of its own; a nullable alias adds nothing and a name already emitted is passed over |
| `SurfaceBuilder.Builder.SharedDefinitions` | scripts/wire_codegen.py:341-348 | The growing queue is worked off: every shared definition referred to, also by shared ones, is emitted |
| `SurfaceBuilder.Builder.Build` | scripts/wire_codegen.py:301-364 | A model has distinct names, only known references, faithful entries and the envelope with a modelled carrier. Where names are apart it is refused exactly for a root that is no envelope, a reached definition that declares nothing, or nothing to declare; it has types for exactly the local definitions, the envelope, its record, and what reached definitions name; local definitions come in document order, then the envelope, then shared ones as first named, each inline enum before the type that first names it |
| `SurfaceMeaning.AnyVariant` | tests/test_wire_codegen.py:531-538 | With distinct tags, first match and any match coincide |
| `SurfaceMeaning.OneTagDecides` | scripts/wire_codegen.py:204-245 | With distinct tags, `oneOf` over the branches and the model's first match ask the same |
| `SurfaceMeaning.ExprAgrees` | scripts/wire_codegen.py:136-176 | A node and its lowered type read a value the same: accepted implies valid unless null meets an even nest of nullables, valid implies accepted where numbers fit |
| `SurfaceMeaning.DeclAgrees` | scripts/wire_codegen.py:281-291 | The same for whole definitions |
| `SurfaceModels.BuiltIsFaithful` | scripts/wire_codegen.py:301-364 | A build of documents where no name means two things is the lowering of each definition under its own name |
| `SurfaceModels.BuiltIsResolved` | scripts/wire_codegen.py:350-363 | Its references resolve, and never to the envelope |
| `SurfaceModels.AcceptedFits` | scripts/wire_codegen.py:162-171 | Whatever a model accepts holds only integers up to 2^64-1 and no number written with a fraction |
| `SurfaceKeywords.OneOfNarrows` | scripts/wire_codegen.py:204-245 | A `oneOf` no two of whose branches take a value is narrowed by exactly the dropped keywords of the branch that is read |
| `SurfaceKeywords.ExprNarrows` | scripts/wire_codegen.py:136-176 | For every node that lowers, the whole schema takes what it takes without the dropped keywords, less what they forbid on the way through the value |
| `SurfaceKeywords.SilentIsKept` | scripts/wire_codegen.py:136-176 | Documents written without such keywords drop nothing |
| `SurfaceKeywords.MinItemsIsDropped` | scripts/wire_codegen.py:171-175 | A list that must not be empty lowers to one that may be: the empty list is accepted and invalid |
| `SurfaceModels.DefinitionMeaning` | tests/test_wire_codegen.py:628-650 | Where no nest of nullables is even, and none is deeper than one if keywords were dropped, a modelled definition accepts exactly the valid values whose numbers fit, up to dropped keywords; it agrees with the whole schema on a value exactly when none is effective there |
| `SurfaceModels.EnvelopeMeaning` | scripts/wire_codegen.py:305-331 | The built envelope accepts exactly the frames that are valid under the root schema, with an object for a body and numbers that fit, up to dropped keywords |
| `SurfaceModels.EnvelopeAgreesIff` | scripts/wire_codegen.py:247-250 | It accepts on every value what its schema does exactly when its property is a reference or says that it is an object |
| `SurfaceMeaning.NullParity` | scripts/wire_codegen.py:60-69 | Null is valid exactly under an odd number of nested nullables, while the model accepts it under any |
| `SurfaceEdges.SharedEnumAgreesIff` | scripts/wire_codegen.py:148-155 | A further enum of a name, inline or passed over, is read as its schema exactly when both list the same values |
| `SurfaceEdges.DroppedOnlyForEnum` | scripts/wire_codegen.py:293-299 | A definition that has another type than its own in a finished build, and whose name is not the envelope's or its inline record's, lost it to an inline enum of its name |
| `SurfaceEdges.DroppedDefinitionAgreesIff` | scripts/wire_codegen.py:293-299 | Such a definition is read as its schema exactly when, by its kind, an enum lists the same values, a constant is the only one, a string's bounds and pattern admit just them, or a union has them as unit tags and no readable payload; never for another kind |
| `SurfaceEdges.AliasReadIff` | scripts/wire_codegen.py:136-142 | A shared nullable alias, whatever it wraps, has for the surface the type its inner shape has there, and is read as its schema exactly when both scopes mean the same by that shape and it is never null at home |
| `SurfaceEdges.KeyInBothDocuments` | scripts/wire_codegen.py:99-121 | A name that is a string in the surface and a boolean in the shared document: the alias accepts an invalid string and rejects a valid boolean |
| `SurfaceToCodec.ExternalsVanish` | tests/test_wire_codegen.py:498-547 | Correct hand-written types read as the declarations they stand for |
| `SurfaceToCodec.PipelineIsLowered` | scripts/wire_codegen.py:1692-1771 | For a built and planned clean surface with no flattened or tagged record named and every helper defined, references resolve, every class is covered by the codec theorems and the envelope's body has one |
| `SurfaceToCodec.FrameMeaning` | scripts/wire_codegen.py:2029-2069 | End to end with the envelope emitted: the generated decoder accepts exactly the frames valid under the root schema with an object for a body, optional nulls dropped and numbers fitting, up to dropped keywords |
| `SurfaceToCodec.BodyMeaning` | tests/test_wire_codegen.py:798-823 | End to end without an emitted envelope: the body's own decoder accepts exactly the bodies of valid frames, in the same sense |
| `StdlibTimer.Timer.Poll` | tests/test_stdlib_conformance.py:58-81 | State and observation are those of the timer's step |
| `StdlibTimer.TimerExact` | tests/test_stdlib_conformance.py:36-81 | However the clock steps back, the timer fires at exactly the first poll at or past its deadline, which is at most 2^64-1, and stays fired |
| `StdlibTimer.OverflowStays` | tests/test_stdlib_conformance.py:42-44 | A timer whose deadline would not fit stays unavailable |
| `StdlibTimer.TimerAnswers` | tests/test_stdlib_conformance.py:58-81 | What each poll answers, from the polls before it alone, overflow of the deadline included |
| `StdlibTimeout.Timeout.Poll` | tests/test_stdlib_conformance.py:107-177 | State, observation and adapter calls are those of the timeout's step |
| `StdlibTimeout.WaitingExact` | tests/test_stdlib_conformance.py:107-177 | While no poll decides, every poll calls the operation once and moves the clock |
| `StdlibTimeout.TimeoutExact` | tests/test_stdlib_conformance.py:84-177 | The first deciding poll fixes the outcome, clock before operation before cancellation; afterwards no adapter is called |
| `StdlibTimeout.UndecidedPollsAdvance` | tests/test_stdlib_conformance.py:120-147 | Polls that decide nothing never go back in time and stay before the deadline |
| `StdlibTimeout.TimeoutAnswers` | tests/test_stdlib_conformance.py:84-177 | Every answer, outcome, deadline and call count, from the polls alone: none before a deadline that fits, none but the first decision, and a call exactly where the clock lets an undecided poll reach the operation |
| `StdlibBarrier.Barrier.Apply` | tests/test_stdlib_conformance.py:207-285 | State and observation are those of the barrier's step |
| `StdlibBarrier.PendingExact` | tests/test_stdlib_conformance.py:191-285 | Until an operation settles it, the barrier holds the highest revision presented and counts the presentations |
| `StdlibBarrier.SettledExact` | tests/test_stdlib_conformance.py:191-285 | The first settling operation fixes status, revision and generation for good; satisfied implies the required revision was reached |
| `StdlibBarrier.BarrierAnswers` | tests/test_stdlib_conformance.py:191-285 | Every answer, status, revision, generation and cancellation count, from the operations alone: the cancellation is asked exactly by an observation that finds the barrier open and is settled by the cancellation or not at all |
| `StdlibBarrier.ReceiptsChangeNothing` | tests/test_stdlib_conformance.py:226-231 | A run equals the run without its receipts |
| `Brackets.Matching` | scripts/check-assert-with-consumption.py:152-168 | Returns an index exactly when the tokens from the start to it are one properly nested group |
| `Brackets.MatchingExact` | scripts/check-assert-with-consumption.py:152-168 | The stack scan and the forest reading of a group agree in both directions |
| `Brackets.SplitTopLevel` | scripts/check-assert-with-consumption.py:171-185 | The loop returns the parts between the commas read with no bracket open |
| `Brackets.PartsRejoin` | scripts/check-assert-with-consumption.py:171-185 | On any input the parts rejoin, over the commas cut at, to the original |
| `Brackets.PartsAreNested` | scripts/check-assert-with-consumption.py:171-185 | On properly nested input the parts are the forest cut at its own commas |
| `Brackets.SplitIsNested` | scripts/check-assert-with-consumption.py:171-185 | Each such part is properly nested and has no comma outside its groups |

## Left out

- Source text of the generated Rust, Go, Kotlin and Python files, and the other three backends: the model is what the Python codec does.
- `mutations` and `mutation` switches of the reference models: they change behaviour only to exercise fixtures.
- SurfaceBuilder.Builder.TypeExpr: documentation of inline enums is not modelled, so neither are refusals where it is missing.
- SurfaceBuilder.Builder.RecordType: descriptions and field defaults are not modelled, so neither are refusals for them; they carry no wire meaning.
- SurfaceBuilder.Builder.UnionType: titles and descriptions are not modelled, so neither are refusals for them.
- EmissionPlan.PyPlan: refusals for field defaults are not modelled, since the model's fields have none.
- SurfaceBuilder.Builder.Build: the exact refusal, the exact set of types and their order are stated where inline enums, the envelope and its inline record bear names of their own; elsewhere duplicate names and unknown references are refused as they are found.
- SurfaceModels.DefinitionMeaning: asks that no name in use means two things and that null means the same under every nest of nullables; `SurfaceMeaning.NullParity` and `SurfaceEdges` prove what happens with even nests, enums that share a name, definitions an enum displaces, and names both documents define.
- SurfaceModels.EnvelopeMeaning: asks the same, and that the envelope and its inline record bear names of their own.
- SurfaceEdges.DroppedDefinitionAgreesIff: leaves out a dropped definition that is a bare reference or a `oneOf` that is no union, which the builder refuses under a name of its own.
- SurfaceToCodec.FrameMeaning: asks in addition that fields carry their constraints where construction checks them, that no record flattened or tagged is named elsewhere and that every helper called is defined; `WireEdges`, `EmissionProofs`, `HelperProofs` and `EmissionGaps` prove what happens otherwise.
- SurfaceToCodec.BodyMeaning: asks the same.
- Keywords that loosen what a modelled keyword demands, `patternProperties` on a closed object and `prefixItems` before `items`: the schema model carries only dropped keywords that add a demand.
- WireRoundTrips.DecodeEncoded: asks that a hand-written type that can be null does not stand directly under a nullable; where it does, a value is lost.
- WireRoundTrips.DecodeToWire: asks the same, and the same of optional fields.
- WireEdges.FrameRoundTrips: asks the same.
- The shared definitions document as a surface of its own, where local and shared definitions are the same: the model keeps the two documents apart.
- Unbounded recursion through a nullable alias that leads back to itself: the model refuses it, the builder exhausts the stack.
- Key order of JSON objects: the modelled code looks keys up and compares objects without order, so properties and blocks are visited in any order.
- Actions and validations the ingress adapter asserts on: events are well formed in the model, as the fixture schema demands.
- `_snapshot_msgpack`: one fixed document built from the four writers, which `MessagePackProofs.ReadsBack` covers.
- MessagePack.Unpack: the reader slices silently past the end of the data, so `MessagePackFormat.ReadExact` and `MessagePackShortest.ReadSize` speak of results that end within it; beyond it, and for which error is raised, there is only the recursive reading.
- Brackets.SplitTopLevel: which brackets are open after a stray closing one is stated by the recursive reading alone.
- Per-language token heuristics, fixture replay loops, digests, file walking and command-line drivers: I/O and flat checks.
- Recursion depth limits of the Python interpreter.
