# A verified model of the schema generators, the credit rig and the development tooling

The project models the parts of the repository that carry unbounded guarantees, and proves those guarantees. Where the
source changes state (the schema document, the walk over a converted schema, the caches, the descriptor table, the file
system, the watcher) the model is a class or a method with loops, tied to a specification function; where it computes,
the model is a function. Protocols with several parties (the credit rig, dev reload) are step systems over explicit state.

| files | models |
|---|---|
| `JsonSchema.dfy` | JSON values, the JSON Schema 2020-12 keywords that Pydantic emits, and acceptance (`anyOf` and `oneOf` as in sections 10.2.1.2 and 10.2.1.3 of JSON Schema Core, `exclusiveMinimum` as in section 6.2.5 of JSON Schema Validation) |
| `CrdSchema.dfy`, `CrdAdmission.dfy`, `CrdExactness.dfy`, `CrdTermination.dfy`, `CrdKeywords.dfy` | the conversion to Kubernetes structural schemas, what the API server admits under the result, when the conversion returns, and what each node of it carries |
| `CrdWalks.dfy`, `CrdDecoration.dfy`, `CrdDecorationProof.dfy`, `CrdDecorationLimits.dfy`, `CrdSweep.dfy` | the four walks that finish the sweep CRD: typing, decorating with rules, loosening, stripping |
| `CrdImmutability.dfy` | the transition rules that freeze workload fields |
| `UnionRewrite.dfy`, `UnionKeywords.dfy`, `UnionMeaning.dfy`, `UnionPass.dfy`, `UnionExactness.dfy` | rewriting discriminated `oneOf` to `anyOf`: the rewriting, what a rewritten node carries, its effect on acceptance, and the pass as it runs over the document |
| `CreditRig.dfy`, `CreditRigProof.dfy`, `CreditRigOrder.dfy` | producer, workers, queues and the READY handshake of the credit benchmark |
| `DevReload.dfy` | the watcher, the condition variable and the event-stream clients |
| `SetupOutput.dfy`, `SetupRunner.dfy`, `SetupResults.dfy` | output mode, stream capture over a descriptor table, the two setup runners, and what they report |
| `TextMatching.dfy`, `MdToMdx.dfy`, `MdToMdxProof.dfy`, `MdAdmonitions.dfy` | fence-aware Markdown rewriting, its regular expressions written out as matchers |
| `Baseline.dfy`, `BaselineProof.dfy` | grandfathering violations by numbered keys |
| `EnclosingFunction.dfy`, `EnclosingFunctionProof.dfy`, `EnclosingAgreement.dfy` | the two ways of finding the function around a line or a node |
| `SettingsInheritance.dfy` | fields of a settings class with those of its bases |
| `VersionPatch.dfy`, `VersionPatchProof.dfy`, `VersionPatchFiles.dfy`, `VersionPatchPatterns.dfy` | patching the version in `pyproject.toml` and `uv.lock` |
| `Rounding.dfy`, `Binning.dfy`, `Suggestions.dfy` | histogram bins; weight suggestions |
| `Wrappers.dfy` | `Option` |

## What turned out false, or conditional

- The CRD conversion narrows in a few branches. `CrdAdmission` gives the condition, per branch, under which the branch
  is harmless: past the depth limit, a union of scalar types, an unmarked typeless leaf, null in a nullable union, a marked
  nullable union of several kinds, a union of references, and an inclusive next to an exclusive bound.
- The conversion of a definition that reaches itself by `$ref`, nullable and first-alternative hops alone never returns:
  the depth counter is not raised on those hops (`CycleNeverReturns`, `SelfReferenceNeverReturns`). It returns on every
  schema exactly when there is no such definition, which shows within as many hops as there are definitions
  (`TerminatesExactly`).
- Of two variants with the same tag the tag table keeps the last, so it leads back to every variant exactly when variants
  of one tag are one reference (`MappingIsFaithfulExactly`). Rewriting a union of references keeps the accepted
  documents exactly when no document fits two of them (`RefUnionExactly`). For tagged objects any two of which share a
  document apart from the tag, that is when the tags are distinct and at most one variant may leave its tag out
  (`TaggedUnionExactly`); variants that require nothing but their tag are of this kind (`PlainVariantsShare`), closed
  variants that require a property of their own are not, and exclude each other anyway (`ClosedVariantsApart`).
- With fewer credits than workers the credit rig's total is zero, and the producer waits for ever
  (`TooFewCreditsNeverFinish`).
- Numbered baseline keys can coincide when an identifier itself reads like a numbered one (`DistinctExactly`,
  `CollisionExample`).
- The line-based search and the node-based map agree on a node exactly when the innermost function on the line and the
  innermost function around the node have one name (`ToolsAgreeExactly`). On the line of a definition they differ: the
  search answers with the function itself, the map with the enclosing one (`DefinitionsDiffer`). With unique names they
  agree exactly when the functions on the line are those around the node.
- The docstring of the error `patch_version` raises says that nothing was written. After a failed staging or swap that
  holds exactly in the cases stated by `FailedStagingExactly`, `FailedFirstSwapExactly` and `FailedSecondSwapExactly`: one
  target may be the other's staging file, which is then overwritten or removed, and a failed second swap comes after the
  first file has been swapped in. A run that succeeds has done what it should exactly when the project file is not the
  lock's staging file (`SuccessExactly`).
- Applying a suggested weight settles a command for every runtime exactly when the default weight is below 150 or not a
  multiple of 50; two runtimes for one text may have no weight that suits both (`OneWeightForBothExactly`), and one round
  of suggestions is enough exactly when every suggested weight suits every runtime of its text
  (`OneRoundIsEnoughExactly`). The help text of `--default-threshold` says "exceeds", the code compares with `>=`; the
  model follows the code.
- `histogram` gives an empty recording as many zeros as there are bins only when the step divides the width
  (`EmptyLengthExactly`); with the computed bounds it always does.

## Model

| member | source | states |
|---|---|---|
| JsonSchema.SettledIsStable | tools/generate_crd.py:164-169 | acceptance of recursive schemas is well defined: once an evaluation has been followed to its end, a larger budget never changes the verdict |
| JsonSchema.AcceptsIsDecided | tools/generate_crd.py:164-169 | a settled evaluation agrees with `Accepts` in both directions |
| CrdAdmission.AdmissionNeverRejects | tools/generate_crd.py:164-452 | on schemas whose conversion takes no narrowing branch, every null-free value the source schema accepts is admitted by the converted one, with pruning and under strict field validation |
| CrdAdmission.Admission | tools/generate_crd.py:196-452 | the same at every depth, through references, nullable unions, unions, objects, arrays and additionalProperties |
| CrdAdmission.ObjectShapedIsSound | tools/generate_crd.py:124-143 | a schema that by its keywords leaves room for objects only accepts no null-free value but objects |
| CrdAdmission.UnionAdmits | tools/generate_crd.py:286-326 | a mixed union's node admits what any alternative accepts |
| CrdAdmission.NullableAdmits | tools/generate_crd.py:230-259 | a nullable union's node admits every null-free value of the union |
| CrdAdmission.ObjectAdmits | tools/generate_crd.py:393-430 | the object branch admits the fields: declared ones under their converted schemas, others under the converted additionalProperties |
| CrdExactness.NothingIllegalIsAdmitted | tools/generate_crd.py:164-452 | the converse: on schemas whose conversion takes no widening branch, what strict admission lets through the source schema accepts |
| CrdExactness.AdmissionIsExact | tools/generate_crd.py:164-452 | where no branch narrows or widens, the null-free values admitted are exactly those accepted |
| CrdExactness.Tightness | tools/generate_crd.py:196-452 | the converse at every depth, through references, nullable and scalar unions, objects, arrays and additionalProperties |
| CrdExactness.LeafBack | tools/generate_crd.py:346-441 | an ordinary node keeps every keyword of its own: type, enumeration, constant, bounds, lengths, pattern, format and required |
| CrdKeywords.ConversionMirrors | tools/generate_crd.py:164-452 | every converted node, at every depth, carries what its branch of the conversion calls for, keyword by keyword, described without the conversion: type, preserve-unknown, sentinel, description, default, enumeration, bounds, lengths, formats, required, and its converted children |
| CrdKeywords.OrdinaryKeywords | tools/generate_crd.py:323-452 | an ordinary node carries its own keywords: a default unless it is null, a constant as an enumeration, a numeric exclusive limit as a bound with a flag, any format but `path` |
| CrdKeywords.MixedFollows | tools/generate_crd.py:286-319 | a union of several kinds is a typeless node if some alternative is certainly no object, else an object; either way with no keyword but its description |
| CrdAdmission.PastTheLimitExactly | tools/generate_crd.py:221-228 | past the depth limit a plain type survives if and only if it is object (or null) |
| CrdAdmission.ScalarUnionExactly | tools/generate_crd.py:261-274 | keeping the first alternative of a scalar union never rejects if and only if that alternative covers the others |
| CrdAdmission.TypelessLeafExactly | tools/generate_crd.py:323-342 | an unmarked typeless leaf never rejects as an object if and only if it enumerates objects only |
| CrdAdmission.NullIsDroppedExactly | tools/generate_crd.py:230-240 | null is admitted by the node of `T` or null if and only if `T` is null |
| CrdAdmission.MarkedNullableExactly | tools/generate_crd.py:240-259 | a marked nullable union of several kinds becomes an object, which never rejects if and only if the kinds are object and null |
| CrdAdmission.RefAlternativesExactly | tools/generate_crd.py:276-300 | a union of references becomes an object, which never rejects if and only if every target is an object or null |
| CrdAdmission.TwoLowerBoundsExactly | tools/generate_crd.py:360-384 | with `minimum` and a numeric `exclusiveMinimum` the node never rejects if and only if the former is not the larger |
| CrdAdmission.TwoUpperBoundsExactly | tools/generate_crd.py:360-384 | with `maximum` and a numeric `exclusiveMaximum` the node never rejects if and only if the former is not the smaller |
| CrdTermination.MoreFuel | tools/generate_crd.py:164-169 | a call that returned returns the same node with any larger stack |
| CrdTermination.TerminatesExactly | tools/generate_crd.py:198-274 | the conversion returns on every schema if and only if no definition reaches itself by hops alone, and if and only if every chain of hops ends within as many references as there are definitions |
| CrdTermination.HopsEndExactly | tools/generate_crd.py:198-274 | some bound, no cycle and the computable bound are one condition, by counting the definitions on a chain |
| CrdTermination.CycleNeverReturns | tools/generate_crd.py:198-219 | a definition on a cycle of hops is converted by no budget |
| CrdTermination.SelfReferenceNeverReturns | tools/generate_crd.py:198-200 | in particular one that is a reference to itself |
| CrdTermination.Returns | tools/generate_crd.py:164-452 | the measure: remaining depth, then remaining hops, then the size of the node |
| CrdTermination.ReturnedMeansEnded | tools/generate_crd.py:198-274 | the converse: a call that returned followed a finite chain of hops |
| CrdTermination.NestingIsBounded | tools/generate_crd.py:221-228 | the result nests at most one level beyond the depth limit, also for models that contain themselves |
| CrdWalks.Schema.WalkApply | tools/generate_crd.py:781-789 | the walk changes every node reachable from the root once and no other, also where nodes are shared |
| CrdWalks.Schema.LoosenRuntime | tools/generate_crd.py:1225-1234 | one visit makes int-or-string exactly the present worker and port fields of a node with both `workers` and `apiPort` |
| CrdWalks.Schema.WalkLoosen | tools/generate_crd.py:781-789 | the loosening walk does so for every reachable node, and changes nothing else |
| CrdWalks.RuntimeFieldsExactly | tools/generate_crd.py:1225-1234 | which nodes are runtime fields: those that the three keys lead to in a properties dictionary with workers and an API port |
| CrdDecorationProof.KeptDecorated | tools/generate_crd.py:740-745 | decorating a node changes only `required`, `default` and the list of validations, keeps the other edges in order and adds only rule nodes behind them |
| CrdDecorationProof.VisitAttaches | tools/generate_crd.py:575-745 | one visit attaches the rules of the node's shapes; a visit that finds them all there adds no edge |
| CrdDecorationLimits.VisitIsLawful | tools/generate_crd.py:499-745 | one visit does nothing else: `required` is relaxed on configurations only, `default` dropped from the type of an endpoint only, and every new edge leads to a rule of the shapes that the undecorated node has; the visited node is trimmed |
| CrdDecorationLimits.LawfulThrough | tools/generate_crd.py:781-789 | so do any number of visits, in any order |
| CrdDecorationLimits.TrimmedStays | tools/generate_crd.py:549-593 | a configuration that requires no relaxable name, and an endpoint's type without default, stay so |
| CrdDecorationLimits.ShapesExactly | tools/generate_crd.py:499-737 | by which properties the four shapes are recognised |
| CrdDecorationLimits.RulesExactly | tools/generate_crd.py:575-737 | which rules a node is to have, by its shapes |
| CrdDecorationLimits.AddRuleExactly | tools/generate_crd.py:489-496 | a rule goes, with text and message, into a new dictionary behind the others, unless its text is there |
| CrdDecorationLimits.RelaxedExactly | tools/generate_crd.py:539-545 | `required` loses the three names that have a shorthand, in order, and goes if nothing is left |
| CrdDecorationProof.ShapeKept | tools/generate_crd.py:589-593 | decoration never changes which shapes a node has |
| CrdSweep.AddValidationRules | tools/generate_crd.py:489-496 | the loop adds a rule node for each text that the node lacks |
| CrdSweep.DecorateAll | tools/generate_crd.py:740-745 | the four decorators in order |
| CrdSweep.WalkDecorate | tools/generate_crd.py:781-789 | the walk over the graph it extends ends, keeps the graph decorated and closed, makes only the changes that the shapes call for, and leaves every node it has been at trimmed and with all its rules |
| CrdSweep.ReachKept | tools/generate_crd.py:781-789 | after decoration the graph is still acyclic, and of the original nodes no others can be reached than before |
| CrdSweep.FieldsAreOld | tools/generate_crd.py:1225-1234 | the loosening walk picks original nodes, never rules |
| CrdSweep.FieldsUnchanged | tools/generate_crd.py:1634-1637 | loosening and stripping do not change which nodes are runtime fields |
| CrdSweep.SettledNode | tools/generate_crd.py:748-778 | for one node: preserve-unknown is kept, a loosened node has no type or bounds, any other preserves without a type if and only if it did so before and carried the sentinel |
| CrdSweep.EntriesAtEnd | tools/generate_crd.py:748-778 | every other entry of the node survives as it was; a node that is not loosened keeps its type |
| CrdSweep.FinishSweep | tools/generate_crd.py:1634-1637 | after the four walks every node that can be reached is without sentinel; an original one is settled as above with its other entries as they were, loosened exactly if it is a runtime field, trimmed, and has the rules of its shapes and no others; a new one is a rule; the old edges survive but for the default of an endpoint's type |
| CrdImmutability.FieldRuleMeans | tools/generate_crd.py:1280-1285 | the generated rule never fails to evaluate, and holds exactly of the updates that keep the field's presence and value |
| CrdImmutability.FieldRuleIsInjective | tools/generate_crd.py:1280-1285 | different fields have different rule texts |
| CrdImmutability.FieldRuleExactly | tools/generate_crd.py:1280-1285 | the text of the rule |
| CrdImmutability.RuleOfOne | tools/generate_crd.py:1312-1327 | a field outside the mutable set gives its rule with its message, one inside none |
| CrdImmutability.FieldRulesExactly | tools/generate_crd.py:1312-1327 | field by field, in order |
| CrdImmutability.SpecNode.AddValidationRules | tools/generate_crd.py:489-496 | the loop adds the rules whose text is new, in order, each text once |
| CrdImmutability.AddedHas | tools/generate_crd.py:489-496 | de-duplication loses no rule text and invents none |
| CrdImmutability.AddedExactly | tools/generate_crd.py:489-496 | the rules added are those whose text neither the bag nor an earlier rule has, in order, behind the old ones |
| CrdImmutability.SpecNode.Freeze | tools/generate_crd.py:1288-1328 | the two errors and their conditions, with the node unchanged; otherwise one rule per declared field outside the mutable set |
| CrdImmutability.AdmitsExactly | tools/generate_crd.py:1288-1328 | after freezing, the node admits exactly the updates that all its earlier rules admit, whatever those say, and that agree on every declared field outside the mutable set |
| CrdImmutability.OnlyFieldRules | tools/generate_crd.py:1312-1327 | every generated rule is the rule of a declared field outside the mutable set |
| CrdImmutability.FrozenForever | tools/generate_crd.py:1294-1301 | over every run of admitted updates a frozen field keeps its creation-time presence and value |
| UnionMeaning.SomeIsOne | tools/generate_config_schema.py:374-415 | for objects tagged by one field with distinct constants, at most one of them optional, "some accepts" and "exactly one accepts" agree |
| UnionMeaning.RewritingIsExact | tools/generate_config_schema.py:374-444 | with properly discriminated unions the rewritten schema accepts exactly the same documents, through recursive definitions |
| UnionMeaning.RewritingOnlyWidens | tools/generate_config_schema.py:374-444 | when every `oneOf` is convertible the pass only widens |
| UnionRewrite.PartlyFixedKeepsTags | tools/generate_config_schema.py:350-372 | tag lookups give the original answers however far the pass has got with the definitions it reads |
| UnionRewrite.SameFix | tools/generate_config_schema.py:417-444 | so rewriting against the half-rewritten table equals rewriting against the original one |
| UnionPass.SchemaDocument.FixDiscriminatedUnions | tools/generate_config_schema.py:329-444 | the in-place pass leaves every definition and property rewritten, with discriminators and nothing else changed, and returns the number of unions among the nodes of the document |
| UnionPass.SchemaDocument.WalkDefinitions | tools/generate_config_schema.py:417-444 | the loop over the definitions, each looked up in a table it is changing |
| UnionPass.SchemaDocument.WalkProperties | tools/generate_config_schema.py:417-444 | the loop over the top-level properties |
| UnionPass.SecondRunChangesNothing | tools/generate_config_schema.py:329-444 | a second run converts nothing and changes nothing |
| UnionPass.FixedIsNotConvertible | tools/generate_config_schema.py:374-415 | no rewritten node is convertible again |
| UnionPass.FixesExactly | tools/generate_config_schema.py:417-444 | the count of a schema is the number of unions to be converted among the nodes visited |
| UnionKeywords.TagExactly | tools/generate_config_schema.py:350-372 | the tag of a reference: the constant `type` of its definition, for want of one its first constant property |
| UnionKeywords.UnionIsConvertible | tools/generate_config_schema.py:374-409 | converted are the nodes with at least two alternatives, all references tagged by one field that has a name |
| UnionKeywords.MappingIsDiscriminator | tools/generate_config_schema.py:392-415 | the discriminator names that field, and its table leads from each tag to the last alternative with it and from nothing else |
| UnionKeywords.FixRewrites | tools/generate_config_schema.py:329-444 | at every depth a converted node has its alternatives under `anyOf` and that discriminator, every other node the discriminator it had, and no other keyword changes |
| UnionKeywords.MappingHasTag | tools/generate_config_schema.py:392-412 | the tag table has an entry exactly for the tags of the alternatives |
| UnionKeywords.MappingIsSound | tools/generate_config_schema.py:392-412 | the entry of a tag is the last alternative that has it |
| UnionKeywords.MappingIsFaithfulExactly | tools/generate_config_schema.py:392-412 | the table leads from every alternative's tag back to it if and only if alternatives of one tag are one reference |
| UnionExactness.TwoMatchesRefused | tools/generate_config_schema.py:333-343 | a document two alternatives accept is refused under `oneOf` |
| UnionExactness.AnyMatchTaken | tools/generate_config_schema.py:333-343 | and accepted under `anyOf` |
| UnionExactness.VariantStays | tools/generate_config_schema.py:417-444 | the pass leaves a plain tagged object one with the same tag and the same required names |
| UnionExactness.TwoVariantsWiden | tools/generate_config_schema.py:374-415 | a document that two references accept is refused before the rewriting and accepted after it |
| UnionExactness.RefUnionExactly | tools/generate_config_schema.py:329-444 | for any convertible union of bare references the rewriting accepts the same documents if and only if no document fits two of them |
| UnionExactness.DiscriminatedIsExclusive | tools/generate_config_schema.py:333-343 | objects with distinct tags, at most one of them optional, exclude each other, whatever else they say |
| UnionExactness.TaggedUnionExactly | tools/generate_config_schema.py:329-444 | for a union of tagged objects any two of which share a document apart from the tag, the rewriting accepts the same documents if and only if the tags are distinct and at most one is optional |
| UnionExactness.PlainVariantsShare | tools/generate_config_schema.py:329-444 | variants that require nothing but their tag share one |
| UnionExactness.ClosedVariantsApart | tools/generate_config_schema.py:333-343 | a closed variant and one that requires a property the former lacks share none, so such a union is rewritten exactly without required tags |
| CreditRigProof.StepInv | dev/benchmarks/zmq_credit_bench.py:108-280 | every step of a worker or the producer keeps the invariant |
| CreditRigProof.RunInv | dev/benchmarks/zmq_credit_bench.py:108-280 | so does every interleaving |
| CreditRigProof.HandshakeIsComplete | dev/benchmarks/zmq_credit_bench.py:181-196 | after the handshake no READY is in flight and the identities are distinct and complete |
| CreditRigProof.EachCreditOnce | dev/benchmarks/zmq_credit_bench.py:198-274 | each credit sent is in exactly one worker queue, return queue or the latency record |
| CreditRigProof.NoEarlyQuit | dev/benchmarks/zmq_credit_bench.py:127-158 | a worker that has quit has echoed all it was sent, and nothing more will be sent |
| CreditRigProof.FairShare | dev/benchmarks/zmq_credit_bench.py:244-272 | round robin gives each dealer exactly `count // workers` credits |
| CreditRigProof.StepsDecrease | dev/benchmarks/zmq_credit_bench.py:108-280 | every step lowers the measure |
| CreditRigProof.RunLength | dev/benchmarks/zmq_credit_bench.py:300-325 | no run is longer than three steps per credit and per worker |
| CreditRigProof.NoDeadlock | dev/benchmarks/zmq_credit_bench.py:108-280 | until the benchmark is done some step is enabled, given a credit per worker |
| CreditRigProof.DoneMeansComplete | dev/benchmarks/zmq_credit_bench.py:202-207 | done means that the whole blast has been sent and recorded |
| CreditRigProof.EveryRunFinishes | dev/benchmarks/zmq_credit_bench.py:300-325 | a run that can go no further is done, with each credit recorded once |
| CreditRigProof.TooFewCreditsNeverFinish | dev/benchmarks/zmq_credit_bench.py:300-325 | with fewer credits than workers no run ever finishes |
| CreditRigOrder.QueuesInOrder | dev/benchmarks/zmq_credit_bench.py:108-160 | in every reachable state a worker holds its credits in the order in which they were sent, those echoed before those not |
| CreditRigOrder.RecordInOrder | dev/benchmarks/zmq_credit_bench.py:198-274 | addressed round robin, the credits of one worker are recorded in the order in which they were sent |
| CreditRigOrder.TurnsInOrder | dev/benchmarks/zmq_credit_bench.py:181-258 | credit `i` goes to the worker that announced itself as number `i`, modulo their number |
| CreditRigOrder.QuitExactly | dev/benchmarks/zmq_credit_bench.py:127-158 | a worker has quit if and only if it has echoed the number it was told |
| DevReload.Watcher.ScanUiFilesOnce | tools/operator_ui_proxy.py:210-220 | the generation grows by one exactly when the snapshot differs, and the snapshot is remembered |
| DevReload.Watcher.Watch | tools/operator_ui_proxy.py:202-207 | over any sequence of scans the generation grows by the number of changed ones |
| DevReload.NoLostWakeup | tools/operator_ui_proxy.py:156-182 | whenever the lock is free, a sleeping client that is not notified has seen the current generation |
| DevReload.ReloadMeansChange | tools/operator_ui_proxy.py:163-186 | a client is sent a reload only after a change later than its sample |
| DevReload.GenerationCountsChanges | tools/operator_ui_proxy.py:156-220 | between scans the generation is the number of scans that differed from the one before |
| DevReload.EveryChangeIsDelivered | tools/operator_ui_proxy.py:156-186 | when the program has nothing left to do, every client has had its reload, has left, or sleeps having missed nothing |
| DevReload.ProgramSettles | tools/operator_ui_proxy.py:156-186 | the program's own steps come to an end |
| DevReload.SpuriousWakeIsHarmless | tools/operator_ui_proxy.py:156-186 | a client woken without a change goes back to sleep, and nothing has changed |
| DevReload.CanLeave | tools/operator_ui_proxy.py:156-186 | a waiting client can be cancelled, and then leaves; nothing else changes |
| DevReload.ChangeIsPublished | tools/operator_ui_proxy.py:156-220 | a scan that finds a change raises the generation by one and wakes every sleeping client |
| SetupOutput.Process.EmitEvent | dev/kube.py:94-101 | an event reaches the original stdout, whatever is redirected, and no other file |
| SetupOutput.Process.EmitSummary | dev/kube.py:103-116 | the first call writes the summary, later ones nothing |
| SetupOutput.Process.AtExit | dev/kube.py:118-133 | the exit handler writes a result exactly if none has been streamed |
| SetupOutput.StreamEmitter.Enter | dev/kube.py:154-182 | entering saves both descriptors, points 1 and 2 and the Python streams at two new pipes, and remembers the original stdout once |
| SetupOutput.StreamEmitter.Exit | dev/kube.py:184-206 | leaving restores the table of the moment of entry |
| SetupRunner.RunActs | dev/kube.py:139-206 | bodies with captures nested to any depth and exceptions anywhere: descriptors 1 and 2 name the same files afterwards, events reach the original stdout and no other file, captured text does not reach it, and of the older files only that behind descriptor 1 gets anything, namely what is printed outside captures |
| SetupRunner.RunCapture | dev/kube.py:154-206 | the same for one capture, and what its body prints is in the capture's own pipe |
| SetupRunner.PrintedAsShown | dev/kube.py:154-206 | a captured body prints nothing where it is captured from, an uncaptured one the same under any label |
| SetupRunner.RunSetupStepsJson | dev/kube.py:4415-4477 | the streaming runner writes the specified events and one summary to stdout, no event to any other file and nothing to any other older file, and records the results |
| SetupRunner.StepIsAnnounced | dev/kube.py:4421-4473 | each processed step is announced as skipped, or as started and then either completed or failed |
| SetupRunner.StreamMirrorsResults | dev/kube.py:4421-4473 | the stream mirrors the result list in order, with the same labels and details |
| SetupRunner.StopsAtFirstFatal | dev/kube.py:4448-4473 | processing stops right after the first failure that is not both optional and tolerated, and only there |
| SetupRunner.RunProgram | dev/kube.py:103-133 | a whole run, exit handler included, writes exactly one summary, after all other events; no file but stdout gets an event, and stderr gets nothing |
| SetupRunner.WholeStream | dev/kube.py:4475-4477 | the specified stream ends in its only summary |
| SetupResults.ShownExactly | dev/kube.py:139-206 | a body shows the texts of its acts, those in captures included, before the first exception met in order, and ends with that exception |
| SetupResults.ResultsExactly | dev/kube.py:4415-4477 | a streaming run processes the steps up to the first that ends it; each is reported as skipped with its reason, as failed with the error its body raises, or as done with its detail, exactly by what its body does; and the stream is their texts in order |
| SetupResults.FirstFatalExactly | dev/kube.py:4480-4557 | the interactive runner raises the error of the first step that is not skipped, raises and is not tolerated |
| SetupRunner.RunQuietly | dev/kube.py:4517-4557 | one interactive step restores the whole descriptor table on success and on failure; all it writes is in the null device opened for it, and no older file gets anything |
| SetupRunner.RunSetupStepsInner | dev/kube.py:4480-4557 | the interactive runner restores it on success, tolerated failure and re-raise, raises exactly the first fatal error, and lets no step write to a file that was open before |
| MdToMdx.NextBlock | fern/md_to_mdx.py:62 | a block spans at least its two marks and lies in the text |
| MdToMdxProof.CommentConverts | fern/md_to_mdx.py:74-82 | a comment becomes its group between MDX marks, without the spaces around it, and conversion goes on behind it |
| MdToMdxProof.SplitOff | fern/md_to_mdx.py:62 | a fenced block behind a text without marks is split off as the second piece |
| MdToMdxProof.FewMarksOnePiece | fern/md_to_mdx.py:62 | a text is one piece if and only if it has at most one fence mark |
| MdToMdxProof.SplitLosesNothing | fern/md_to_mdx.py:65-68 | splitting by fences and joining is the identity |
| MdToMdxProof.ConvertAddsNoMarks | fern/md_to_mdx.py:77-82 | rewriting comments never creates a fence mark |
| MdToMdxProof.SplitAfterConvert | fern/md_to_mdx.py:65-82 | splitting the converted text gives the converted pieces |
| MdToMdxProof.ConvertFuses | fern/md_to_mdx.py:130-145 | two passes with a split each equal one split with the two rewritings composed, whatever the second one is |
| MdToMdxProof.FencesSurvive | fern/md_to_mdx.py:65-82 | after the comment pass the fenced blocks are the original ones, byte for byte and in order |
| MdAdmonitions.ExtractBlockquoteContent | fern/md_to_mdx.py:102-115 | the loop returns the unquoted leading lines, stripped at the end |
| MdAdmonitions.CalloutExactly | fern/md_to_mdx.py:95-99 | the matcher finds a callout if and only if the pattern's parts are there |
| MdAdmonitions.TypeExactly | fern/md_to_mdx.py:87-99 | the five types in letters of either case, and their tags |
| MdAdmonitions.StripExactly | fern/md_to_mdx.py:115 | the stripped text is the prefix that ends in no whitespace with only whitespace behind it |
| MdAdmonitions.HeaderFound | fern/md_to_mdx.py:95-99 | any first line the pattern describes is recognised with the groups the pattern gives |
| MdAdmonitions.NextCalloutIsFirst | fern/md_to_mdx.py:130-135 | the match used is the leftmost |
| MdAdmonitions.QuoteIsTaken | fern/md_to_mdx.py:95-99 | the content takes all the quoted lines and nothing behind them |
| MdAdmonitions.ExtractUndoesQuote | fern/md_to_mdx.py:102-115 | round trip: extracting what was quoted, with or without a space behind the marker, gives the lines back |
| MdAdmonitions.CalloutConverts | fern/md_to_mdx.py:118-135 | the first callout, on lines of its own behind any text, becomes on one line, or on lines of its own, indent, tag, its content without the trailing whitespace, closing tag and a line break; what is before it stays, and conversion goes on behind it |
| MdAdmonitions.JoinSplit | fern/md_to_mdx.py:123-127 | splitting into lines and joining is the identity |
| MdAdmonitions.MarkdownFuses | fern/md_to_mdx.py:141-145 | the whole conversion is one split with both rewritings on each outside piece |
| Baseline.Disambiguate | tools/check_ergonomics.py:139-170 | the loop numbers the occurrences of each key in the sorted order |
| BaselineProof.NumberedExactly | tools/check_ergonomics.py:139-170 | each violation keeps check, file, line and message; the first of its check, file and identifier keeps its identifier, the n-th gets a hash and n |
| BaselineProof.DecimalLeads | tools/check_ergonomics.py:139-170 | the number is written without leading zero |
| Baseline.Split | tools/check_ergonomics.py:721-723 | the violations whose keys the baseline lacks, and the others, in order |
| BaselineProof.KeyOfExactly | tools/check_ergonomics.py:118-136 | two violations have one key if and only if check, file and identifier agree |
| BaselineProof.FilteredExactly | tools/check_ergonomics.py:721-723 | each violation goes to one side, in order, by whether the baseline has its check, file and identifier |
| BaselineProof.SortedIsOrdered | tools/check_ergonomics.py:139-170 | the numbering order is by file, check, line and identifier |
| BaselineProof.BeforeExactly | tools/check_ergonomics.py:139-170 | the order: file, then check, then line, then identifier, texts by the codes of their characters |
| BaselineProof.SortedIsStable | tools/check_ergonomics.py:139-170 | violations that differ in nothing but the message keep their order |
| BaselineProof.SortedKeepsCount | tools/check_ergonomics.py:139-170 | sorting keeps the count of every key, so the input order does not matter |
| BaselineProof.NumberedLabelsDiffer | tools/check_ergonomics.py:118-136 | equal numbered labels come from the same identifier and number |
| BaselineProof.HashFreeIsClean | tools/check_ergonomics.py:139-170 | an identifier without a hash is never a numbered label |
| BaselineProof.BaseliningIsExact | tools/check_ergonomics.py:180-203 | against a baseline from another tree, the occurrences of each check, file and identifier are reported exactly as often as they exceed their number there |
| BaselineProof.GatePassesExactly | tools/check_ergonomics.py:721-723 | nothing is reported if and only if no check, file and identifier occurs more often than in the baselined tree |
| BaselineProof.DistinctExactly | tools/check_ergonomics.py:139-170 | the disambiguated keys are distinct if and only if no identifier is the label of a repeated one |
| BaselineProof.CollisionExample | tools/check_ergonomics.py:139-170 | two occurrences of one name and one of its own label share a key after disambiguation |
| EnclosingFunction.Finder.Parse | tools/ruff_baselined.py:134-140 | the tree cache holds what the parser gives |
| EnclosingFunction.Finder.EnclosingFunction | tools/ruff_baselined.py:143-171 | whatever was asked before, the answer is the uncached one, and every cache entry stays right |
| EnclosingFunction.SearchTree | tools/ruff_baselined.py:152-171 | the stack loop computes the specified search |
| EnclosingFunction.EnclosingFuncMap | tools/check_ergonomics.py:256-282 | the recursive walk records exactly the nodes below the root, each with its own answer |
| EnclosingFunctionProof.SearchFindsBest | tools/ruff_baselined.py:152-171 | the search ends with a covering function that starts last |
| EnclosingFunctionProof.SearchIsInnermost | tools/ruff_baselined.py:143-171 | for well-nested spans the search returns the innermost enclosing function |
| EnclosingFunctionProof.QualnamesExactly | tools/check_ergonomics.py:230-282 | a qualified name is the names of the classes and functions on the way, joined by dots, in both tools |
| EnclosingFunctionProof.CoversExactly | tools/ruff_baselined.py:152-171 | a function covers its lines from first to last, the first alone for want of a last |
| EnclosingAgreement.InnermostIsDeepest | tools/ruff_baselined.py:152-171 | all functions that cover a line are on the way to the innermost one |
| EnclosingAgreement.MapRecordsHost | tools/check_ergonomics.py:256-282 | the map records the name of the innermost function around the node |
| EnclosingAgreement.InBodyExactly | tools/check_ergonomics.py:256-282 | the functions on a line are those around a node if and only if the innermost of both are one |
| EnclosingAgreement.ToolsAgreeExactly | tools/check_ergonomics.py:256-282 | the tools agree on a node and a line if and only if the innermost function on the line and the one around the node have one name; with unique names, if and only if they are one function, that is, if the functions on the line are those around the node |
| EnclosingAgreement.ToolsAgree | tools/check_ergonomics.py:256-282 | for a node in function bodies, where the functions on its line are those around it, the map gives the same name as the search |
| EnclosingAgreement.DefinitionsDiffer | tools/check_ergonomics.py:256-282 | on every definition the search gives its own dotted name and the map the enclosing one; these are the same only for a module-level function called like the module |
| SettingsInheritance.FieldsWithBases | tools/generate_env_vars_docs.py:167-186 | the method with its path set and dictionary loops returns what the specification gives; it ends on every class table |
| SettingsInheritance.FailsExactlyOnCycles | tools/generate_env_vars_docs.py:167-186 | resolution raises if and only if a base cycle is reachable from the class; diamonds are accepted |
| SettingsInheritance.OwnDeclarationsWin | tools/generate_env_vars_docs.py:167-186 | each name appears once, and the class's own last declaration wins |
| SettingsInheritance.LaterBasesWin | tools/generate_env_vars_docs.py:174-183 | among the bases the last one that offers the name decides |
| SettingsInheritance.FieldsAreThoseOffered | tools/generate_env_vars_docs.py:155-186 | the names returned are exactly those declared by the class or an ancestor |
| SettingsInheritance.PutKeepsPlaces | tools/generate_env_vars_docs.py:174-186 | overwriting an entry keeps its place |
| SettingsInheritance.PutExactly | tools/generate_env_vars_docs.py:174-186 | a known name keeps its place with the new value, a new one goes last |
| SettingsInheritance.DocumentedExactly | tools/generate_env_vars_docs.py:155-164 | which items declare a field: parsed ones without leading underscore whose default mentions no factory |
| SettingsInheritance.ErrorNamesTheClass | tools/generate_env_vars_docs.py:167-179 | the error names the class met again, on the first chain that comes back |
| VersionPatchProof.Pep440IsPlain | tools/patch_version.py:35-38 | an accepted version holds no character that ends a string, a line or a table |
| VersionPatchPatterns.Pep440Exactly | tools/patch_version.py:34-38 | the versions accepted are exactly the texts made of the pattern's parts |
| VersionPatchPatterns.HeaderExactly | tools/patch_version.py:39-42 | the project header, with anything behind it on its line |
| VersionPatchPatterns.TableExactly | tools/patch_version.py:39-42 | the table is the body of the first header, up to the next table or the end |
| VersionPatchPatterns.VersionLineExactly | tools/patch_version.py:43 | what a version line is |
| VersionPatchPatterns.ProjectVersionExactly | tools/patch_version.py:78-95 | the project's version is that of the first version line of the table |
| VersionPatchPatterns.LockEntryExactly | tools/patch_version.py:55-61 | the root's entry, line by line, with either line break |
| VersionPatchPatterns.LockVersionExactly | tools/patch_version.py:98-107 | the lock's version is that of the first such entry |
| VersionPatchPatterns.CanonicalRun | tools/patch_version.py:50-52 | a run of separators in a name becomes one dash |
| VersionPatchPatterns.CanonicalLetter | tools/patch_version.py:50-52 | any other character stays, in lower case |
| VersionPatchPatterns.VerifiedExactly | tools/patch_version.py:110-126 | verified means that both texts parse, the project has the version, and there is one root, which has it too |
| VersionPatchPatterns.FailuresExactly | tools/patch_version.py:78-126 | which failure, in the order of the checks |
| VersionPatchProof.ProjectVersionStays | tools/patch_version.py:78-95 | the patched version is found again exactly where the old one was |
| VersionPatchProof.SmallestProject | tools/patch_version.py:40-43 | the matchers find the version of a smallest text where the patterns do |
| VersionPatchProof.LockVersionStays | tools/patch_version.py:98-107 | the same for the root entry of the lock |
| VersionPatchProof.ProjectRoundTrip | tools/patch_version.py:78-95 | patching to a version and back restores the pyproject text |
| VersionPatchProof.LockRoundTrip | tools/patch_version.py:98-107 | patching to a version and back restores the lock text |
| VersionPatchFiles.PatchingSplices | tools/patch_version.py:78-126 | a successful patch changes the two version strings and nothing else |
| VersionPatchFiles.InMemoryExactly | tools/patch_version.py:129-152 | the work in memory succeeds if and only if the version is valid, the parser reads that name, only the version strings differ, and the result is verified |
| VersionPatchFiles.RoundTrip | tools/patch_version.py:129-163 | patching back to the version both files carried restores both texts exactly, if and only if that version is valid, the parser reads the same name from the patched text and it verifies the original texts |
| VersionPatchFiles.NothingElseComesBack | tools/patch_version.py:129-163 | whatever patching back returns under the same name is the original texts |
| VersionPatchFiles.FileSystem.StageBoth | tools/patch_version.py:153-160 | the files left by each outcome of the two staging writes: complete, cut off, or not opened |
| VersionPatchFiles.FileSystem.PatchVersion | tools/patch_version.py:129-163 | the result and all files for every outcome of the checks, the staging writes and the two swaps |
| VersionPatchFiles.FailedStagingExactly | tools/patch_version.py:153-160 | when a failed staging leaves both targets as they were, over paths and texts |
| VersionPatchFiles.FailedStagingLeaves | tools/patch_version.py:153-160 | all files after a failed staging |
| VersionPatchFiles.FailedFirstSwapExactly | tools/patch_version.py:161-162 | when a failed first swap does |
| VersionPatchFiles.FailedSecondSwapExactly | tools/patch_version.py:161-162 | when a failed second swap does: if the first swap changed nothing |
| VersionPatchFiles.SuccessExactly | tools/patch_version.py:161-163 | a successful run has written both texts, changed nothing else and left no staging file, if and only if the project file is not the lock's staging file |
| Binning.Histogram | tools/compare_recordings.py:95-104 | each entry is the share of the samples counted in its bin; no samples give zeros |
| Binning.IndexIsInterval | tools/compare_recordings.py:100-102 | a sample is counted in a bin if and only if it lies in the bin's half-open interval |
| Binning.CountExactly | tools/compare_recordings.py:99-102 | a bin counts the samples that lie in it |
| Binning.PercentExactly | tools/compare_recordings.py:104 | a share is rounded to the nearest ten-thousandth, of two the even one |
| Binning.HistBoundsExactly | tools/compare_recordings.py:370-377 | the lower bound is the base bin of the least sample, the width one base bin more than the samples need, a step the fewest base bins with which five hundred suffice, the upper bound as many steps as cover the width |
| Binning.BoundedBins | tools/compare_recordings.py:370-377 | between one and five hundred bins, a whole number of steps wide |
| Binning.BoundsCover | tools/compare_recordings.py:370-377 | every sample of either recording lies inside the bounds |
| Binning.OneBin | tools/compare_recordings.py:370-388 | every sample falls in exactly one displayed bin, the one that counts it |
| Binning.NothingIsLost | tools/compare_recordings.py:95-104 | the counts of each recording sum to its number of samples |
| Binning.EmptyLengthExactly | tools/compare_recordings.py:96-98 | an empty recording gets one zero per bin if and only if the step divides the width |
| Binning.RoundingDrift | tools/compare_recordings.py:104 | rounding to four decimals moves the total by at most half a ten-thousandth per bin |
| Binning.Charts | tools/compare_recordings.py:379-388 | bin list and both histograms have equal length, at most five hundred; each share is that of its own bin, and shares of a non-empty recording total a hundred percent within a fortieth |
| Suggestions.RoundTo | tools/suggest_test_docs_weights.py:359-360 | a positive multiple of fifty within twenty-five of the number, ties to the even multiple |
| Suggestions.ReasonExactly | tools/suggest_test_docs_weights.py:408-419 | which reason is given, in the order of the tests |
| Suggestions.WeightExactly | tools/suggest_test_docs_weights.py:359-406 | the suggested weight: thirteen tenths of the runtime in whole seconds, to the nearest fifty |
| Suggestions.OfferExactly | tools/suggest_test_docs_weights.py:421-440 | what a suggestion says |
| Suggestions.OffersByCommand | tools/suggest_test_docs_weights.py:392-440 | the commands of one run in order; a failed run makes no suggestion but is matched |
| Suggestions.OffersByRun | tools/suggest_test_docs_weights.py:392-440 | the runs in order |
| Suggestions.DeriveSuggestions | tools/suggest_test_docs_weights.py:363-442 | the loops return the specified suggestions, and matched plus unmatched is the number of runs |
| Suggestions.SuggestedExactly | tools/suggest_test_docs_weights.py:392-440 | a suggestion is made if and only if some command and some usable run with its text draw it |
| Suggestions.Settled | tools/suggest_test_docs_weights.py:408-419 | with the default thresholds a suggested weight draws another suggestion from the same runtime only as the default weight, at two minutes or more |
| Suggestions.FixedPointsExactly | tools/suggest_test_docs_weights.py:71-73 | all runtimes settle after one suggestion if and only if the default weight is below 150 or no multiple of 50 |
| Suggestions.OneRoundIsEnoughExactly | tools/suggest_test_docs_weights.py:363-442 | however the suggestions are applied, the same runs suggest nothing more, if and only if every suggested weight suits every runtime of its text |
| Suggestions.OneRoundIsEnough | tools/suggest_test_docs_weights.py:363-442 | which holds when the usable runs of a text took the same time, with the default thresholds and an ordinary default weight |
| Suggestions.OneWeightForBothExactly | tools/suggest_test_docs_weights.py:415-420 | some weight suits both of two runtimes if and only if the longer is near enough to what the shorter allows |

## Left out

- JSON numbers are reals: an integer-valued float constant such as 1.0 counts as an integer, where the code leaves its type open.
- `type` is one name, not a list of names; the annotation keywords are `title`, `description` and `default`.
- `pattern` and `format` are oracles shared by both sides; `format` asserts, and `path` is asserted by neither side.
- Definition names hold no slash, so a reference is its last segment and whether it is local.
- The interpreter's recursion limit is an explicit budget in `Convert`; the theorems quantify over all budgets.
- Admission is modelled for structure, bounds and enumerations; the API server's evaluation of the CEL rules that the decorating walk attaches is not.
- The texts of the rules that the decorating walk attaches are a parameter of the model; which shape gets them, and the other changes of the decorators, are as in the source.
- EnclosingFuncMap: nodes are told apart by their position. In the source they are told apart by identity, and the parser shares some nodes without lines, such as expression contexts, whose entries overwrite each other.
- In the finishing walks the keywords a pass removes or adds are scalar entries of a node; a dictionary entry of the same name, as in a map of properties, is not removed.
- CEL field names that need escaping in a rule text are not modelled.
- Union rewriting treats the nested dictionaries of one schema as values: aliasing between two places of the document is not captured. Constants that cannot be dictionary keys are not modelled.
- The rewriting pass visits subschemas only. In the source it visits every dictionary, so it would also rewrite a `oneOf` inside a default or an enumerated value, and take a property that is called `oneOf` for the keyword.
- The Jinja, duration and shorthand passes of the config schema generator would add many side conditions and little else.
- ZeroMQ and the descriptor-edge reader are assumed to deliver each message once and in order per connection; PUSH may pick any worker that has started and not quit. Latencies, warm-up, processes and the publish/subscribe mode are not modelled.
- asyncio's lock is granted to waiting tasks in any order; HTTP headers and serving are not modelled, only the point at which a client samples the generation, sleeps, is notified, writes or leaves.
- Setup steps are lists of writes, events, nested captures and an outcome; reader threads appear as the events they emit. Timestamps, durations, KeyboardInterrupt and the summary's `status` field are not modelled. A replaced Python stream wrapper closes its descriptor.
- The callout pattern's IGNORECASE folds ASCII letters; the dotted and dotless Turkish letters that Python also folds are not modelled.
- Converting nested callouts takes a further run, as in the source; no idempotence is claimed.
- The numerals of a PEP 440 version and the lower-casing of project names are ASCII.
- LockVersionStays: requires of the canonical project name that it is not empty, holds no opening bracket and does not begin with a line break; every valid distribution name is so.
- FileSystem.PatchVersion: removing a staged file after a failed write is taken to work.
- The ergonomics and Ruff checks themselves, and reading and writing the baseline file, are not modelled; keys go through unchanged.
- Settings field parsing is an input: a class is its declared fields and bases.
- Shares and ratios are exact real arithmetic; only the rounding the source asks for is modelled. A runtime times 1.3 is thirteen tenths of it, truncated, which is what the float product gives for any runtime within a day.
- Suggestions carry the job and line of the link instead of the rendered URL; paths are not resolved against the repository root.
- Kubernetes, Helm and Docker calls, HTTP proxying, GPU samplers, downloads, rendering and command-line parsing are input and output.
