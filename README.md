# Questionnaire view model

This is a Dafny model of the core of `QuestionnaireViewModel` from the Android FHIR
data-capture library. A parsed FHIR `Questionnaire` is a forest of definition items.
Each item has a `linkId`, `enableWhen` rules that name other questions, and child items.
From it the view model builds a `QuestionnaireResponse` forest that mirrors it node for node.
Every time it is asked, it recomputes the list of view items, i.e. the
(questionnaire item, response item) pairs the screen shows. It does so in two stages:

1. **Stage 1** (`populateQuestionnaireItemViewItemList`) walks both forests in lockstep,
   in depth-first pre-order.
   - It never goes past the shorter sibling list.
   - Each item is handed to the enablement evaluator. The evaluator looks referenced
     questions up in an index of the whole response forest (`buildMap`), and a missing
     key throws (`!!`).
   - An enabled item yields its pair and then its children's pairs. A disabled item
     yields nothing, and none of its descendants appear either.
2. **Stage 2** (`getQuestionnaireItemViewItemList`) filters the stage-1 list once more
   with the same evaluator. This time a referenced question is looked up with `single`
   over the stage-1 list, which throws unless exactly one entry carries that linkId.

Answer edits call `notifyChangeCallback`, which bumps `modificationCount`. The counter is
the signal to recompute the projection.

The modules:

- `Questionnaire` (`questionnaire.dfy`) holds:
  - the data model: definition items, response items, view items and errors;
  - the pre-order traversals;
  - the `Distinct` and `Sublist` predicates.
- `Mirror` (`mirror.dfy`) covers `createQuestionnaireResponseItem` and the mirror relation.
- `LinkIndex` (`index.dfy`) covers `buildMap`. It has a specification function and a
  recursive method with a loop.
- `Projection` (`projection.dfy`) covers stage 1:
  - `Project`, the specification function;
  - `Populate`, the iterator loop with the same result;
  - lemmas about the output's order, provenance and enablement.
- `Refilter` (`refilter.dfy`) covers `single` and the stage-2 filter, along with
  `ViewItems`, which is the whole of `getQuestionnaireItemViewItemList`.
- `ViewModel` (`view_model.dfy`) defines the class `QuestionnaireViewModel`:
  - the fields `questionnaire`, `questionnaireResponse` and `modificationCount`;
  - the `init` block as a constructor;
  - `notifyChangeCallback`;
  - the projection as a method proved equal to `ViewItems`.
- `Scenarios` (`scenarios.dfy`) works two concrete questionnaires through, by proof, with a
  sample evaluator.

Two kinds of failure are modelled as `Result` errors:
- an exception thrown by `!!` is `MissingLinkId`;
- one thrown by `single` is `NotSingle(linkId, matches)`.

The enablement evaluator is a parameter. Its rules are not part of this model. It is
consulted with the item and with the response nodes its `enableWhen` questions resolve
to. Resolving a question that cannot be read is an error before the evaluator decides.

### A visible item that reads a hidden one

The two stages resolve a referenced question differently:
- Stage 1 resolves it through the `buildMap` index, which holds every node of the response
  forest, disabled or not (QuestionnaireViewModel.kt:52 and 117).
- Stage 2 resolves it with `single` over the stage-1 list only (QuestionnaireViewModel.kt:66-68).
  That list omits disabled items and their subtrees.

So when a visible item's rule reads a hidden item, stage 1 reads it without trouble, but
`single` finds no match in stage 2. The whole of `getQuestionnaireItemViewItemList` then
throws.
- `Refilter.Stage2RejectsHiddenReference` states this in general.
- `Scenarios.HiddenReferenceScenario` shows it on a questionnaire freshly mirrored by `init`.

`Refilter.Stage2AgreesWithStage1` gives a sufficient condition under which stage 2 changes
nothing: every question a visible item reads is itself visible. It states this for mirrored
forests with unique linkIds only.

## Model

| member | source | states |
|---|---|---|
| Mirror.MirrorItem | datacapture/src/main/java/com/google/android/fhir/datacapture/QuestionnaireViewModel.kt:140-149 | The response item created for a questionnaire item has the same linkId, no answer and as many children |
| Mirror.MirrorList | datacapture/src/main/java/com/google/android/fhir/datacapture/QuestionnaireViewModel.kt:81-83 | `init` adds one response item per top-level questionnaire item |
| Mirror.MirrorListMirrors | datacapture/src/main/java/com/google/android/fhir/datacapture/QuestionnaireViewModel.kt:81-83 | The response built by `init` mirrors the questionnaire at every depth: same lengths, same linkIds at each position |
| Mirror.MirrorListUnanswered | datacapture/src/main/java/com/google/android/fhir/datacapture/QuestionnaireViewModel.kt:140-149 | No node of the freshly built response carries an answer |
| Mirror.MirrorsSamePreorder | datacapture/src/main/java/com/google/android/fhir/datacapture/QuestionnaireViewModel.kt:79-83 | Mirrored forests have equal pre-order linkId sequences, so hierarchy and order are retained |
| Mirror.MirrorListPreorder | datacapture/src/main/java/com/google/android/fhir/datacapture/QuestionnaireViewModel.kt:81-83 | After `init`, the response's pre-order linkIds equal the questionnaire's, one response node per definition node |
| Questionnaire.RespPreorderIsNodeIds | datacapture/src/main/java/com/google/android/fhir/datacapture/QuestionnaireViewModel.kt:86-94 | The pre-order node list and the pre-order linkId list of a response forest agree position by position |
| Questionnaire.SublistDistinctIds | datacapture/src/main/java/com/google/android/fhir/datacapture/QuestionnaireViewModel.kt:62-70 | A sublist of a list with unique linkIds has unique linkIds, all drawn from the list |
| LinkIndex.ToMap | datacapture/src/main/java/com/google/android/fhir/datacapture/QuestionnaireViewModel.kt:89 | Definition: the top-level items keyed by linkId, a later item with a repeated linkId replacing an earlier one |
| LinkIndex.ChildIndex | datacapture/src/main/java/com/google/android/fhir/datacapture/QuestionnaireViewModel.kt:90-92 | Definition: the indexes of each item's children merged in list order, later entries winning, as the `putAll` loop does |
| LinkIndex.Index | datacapture/src/main/java/com/google/android/fhir/datacapture/QuestionnaireViewModel.kt:86-94 | Definition: what `buildMap` returns, the top-level map with every child index merged over it |
| LinkIndex.BuildMap | datacapture/src/main/java/com/google/android/fhir/datacapture/QuestionnaireViewModel.kt:86-94 | `buildMap`'s loop returns the top-level map merged with each item's child map, later entries winning, which is `Index` |
| LinkIndex.ToMapEntries | datacapture/src/main/java/com/google/android/fhir/datacapture/QuestionnaireViewModel.kt:89 | The top-level map's keys are the linkIds of the list, and each key maps to an item of the list carrying it |
| LinkIndex.PreorderSnoc | datacapture/src/main/java/com/google/android/fhir/datacapture/QuestionnaireViewModel.kt:90-92 | Pre-order of a forest extended by one item: the old pre-order, the item, then its subtree |
| LinkIndex.IndexKeys | datacapture/src/main/java/com/google/android/fhir/datacapture/QuestionnaireViewModel.kt:86-94 | The keys of `buildMap`'s result are exactly the linkIds of the response forest, at every depth |
| LinkIndex.IndexValues | datacapture/src/main/java/com/google/android/fhir/datacapture/QuestionnaireViewModel.kt:86-94 | Each key maps to a node of the response forest carrying that linkId |
| LinkIndex.IndexEntries | datacapture/src/main/java/com/google/android/fhir/datacapture/QuestionnaireViewModel.kt:86-94 | `buildMap` covers every response node: keys are all linkIds, and each maps to a node carrying it |
| LinkIndex.IndexFindsNode | datacapture/src/main/java/com/google/android/fhir/datacapture/QuestionnaireViewModel.kt:86-94 | With unique linkIds, a given node of the forest is exactly what the map returns for its linkId |
| LinkIndex.IndexFindsEveryNode | datacapture/src/main/java/com/google/android/fhir/datacapture/QuestionnaireViewModel.kt:86-94 | With unique linkIds, every node of the forest is exactly what the map returns for its linkId |
| LinkIndex.IndexMissing | datacapture/src/main/java/com/google/android/fhir/datacapture/QuestionnaireViewModel.kt:117 | A linkId is absent from the map iff no response node carries it, the case in which `!!` throws |
| Projection.MapResolver | datacapture/src/main/java/com/google/android/fhir/datacapture/QuestionnaireViewModel.kt:117 | Definition: the stage-1 lookup `map[linkId]!!`, the indexed node or `MissingLinkId` when the key is absent |
| Projection.Resolve | datacapture/src/main/java/com/google/android/fhir/datacapture/QuestionnaireViewModel.kt:117 | Reading the rules' questions succeeds iff every question resolves, then yields each resolved node in rule order; otherwise it fails with the error of one that does not |
| Projection.Evaluate | datacapture/src/main/java/com/google/android/fhir/datacapture/QuestionnaireViewModel.kt:117 | An evaluator call completes iff every question the item's rules reference resolves |
| Projection.Project | datacapture/src/main/java/com/google/android/fhir/datacapture/QuestionnaireViewModel.kt:104-130 | Definition: walk both lists in lockstep up to the shorter; an enabled item yields its pair, then its children's pairs, then its siblings'; a disabled item yields nothing; the first exception aborts the walk |
| Projection.Stage1 | datacapture/src/main/java/com/google/android/fhir/datacapture/QuestionnaireViewModel.kt:51-60 | Definition: `Project` over the whole questionnaire and response, resolving through the index built once for the pass |
| Projection.Populate | datacapture/src/main/java/com/google/android/fhir/datacapture/QuestionnaireViewModel.kt:104-130 | The two-iterator loop appends to the list exactly what `Project` yields, or stops with its exception |
| Projection.ExtendEnabled | datacapture/src/main/java/com/google/android/fhir/datacapture/QuestionnaireViewModel.kt:117-128 | For an enabled item, appending its level's stage-1 result equals appending its pair, then its children's pairs, then its later siblings' result; an exception from the children discards the list |
| Projection.ZipFromForests | datacapture/src/main/java/com/google/android/fhir/datacapture/QuestionnaireViewModel.kt:112-128 | Every lockstep pair takes its response node from the response forest and its definition linkId from the questionnaire |
| Projection.ZipMirrored | datacapture/src/main/java/com/google/android/fhir/datacapture/QuestionnaireViewModel.kt:101-102 | On structurally identical forests the lockstep pairs follow the questionnaire's pre-order and pair equal linkIds |
| Projection.ProjectSublistOfZip | datacapture/src/main/java/com/google/android/fhir/datacapture/QuestionnaireViewModel.kt:104-130 | Stage 1 emits pairs from the same sibling position in both trees, in depth-first pre-order: an order-preserving sublist of the full lockstep walk |
| Projection.ProjectKeepsEnabled | datacapture/src/main/java/com/google/android/fhir/datacapture/QuestionnaireViewModel.kt:117-121 | Every pair stage 1 emits is for an item the evaluator enabled |
| Projection.ProjectStopsAtShorter | datacapture/src/main/java/com/google/android/fhir/datacapture/QuestionnaireViewModel.kt:112-115 | Stage 1 consumes only as many items as the shorter list: the surplus of the longer list changes nothing |
| Projection.ProjectAllEnabled | datacapture/src/main/java/com/google/android/fhir/datacapture/QuestionnaireViewModel.kt:112-128 | When every item is enabled and every referenced question resolves, stage 1 is the full lockstep walk |
| Projection.Stage1AllEnabled | datacapture/src/main/java/com/google/android/fhir/datacapture/QuestionnaireViewModel.kt:52-60 | On mirrored forests with every item enabled, stage 1 yields one pair per node, in the questionnaire's pre-order, pairing equal linkIds |
| Projection.ProjectIdsWithin | datacapture/src/main/java/com/google/android/fhir/datacapture/QuestionnaireViewModel.kt:112-128 | Every linkId stage 1 emits is a linkId of the questionnaire |
| Projection.ProjectStep | datacapture/src/main/java/com/google/android/fhir/datacapture/QuestionnaireViewModel.kt:117-128 | One level of stage 1: a disabled head contributes nothing, an enabled one its own linkId, then its subtree's, then its siblings', each drawn from its own part of the questionnaire |
| Projection.SubtreeInPreorder | datacapture/src/main/java/com/google/android/fhir/datacapture/QuestionnaireViewModel.kt:122-127 | Every linkId in the subtree of a node reached by the lockstep descent is a linkId of the questionnaire |
| Projection.DisabledHidesSubtree | datacapture/src/main/java/com/google/android/fhir/datacapture/QuestionnaireViewModel.kt:117-128 | An item the evaluator disables, at any depth, contributes neither itself nor any descendant to stage 1, whatever their own rules say |
| Projection.EnabledPathEmitted | datacapture/src/main/java/com/google/android/fhir/datacapture/QuestionnaireViewModel.kt:117-128 | Conversely, an item that is enabled, and whose ancestors are all enabled, is emitted by stage 1: each enabled item yields its pair and is then descended into |
| Refilter.Matches | datacapture/src/main/java/com/google/android/fhir/datacapture/QuestionnaireViewModel.kt:66-67 | The entries `single` sees for a linkId come from entries carrying it; none when no entry carries it |
| Refilter.Single | datacapture/src/main/java/com/google/android/fhir/datacapture/QuestionnaireViewModel.kt:66-68 | `single` succeeds iff exactly one entry carries the linkId and then returns that entry's response item; otherwise it fails, recording the match count |
| Refilter.MatchesCount | datacapture/src/main/java/com/google/android/fhir/datacapture/QuestionnaireViewModel.kt:66-67 | `single` sees one match per entry carrying the linkId, so it succeeds iff exactly one entry carries it |
| Refilter.SingleResolver | datacapture/src/main/java/com/google/android/fhir/datacapture/QuestionnaireViewModel.kt:65-69 | Definition: the stage-2 lookup, `single` over the stage-1 list, closed over that list |
| Refilter.SingleFindsUnique | datacapture/src/main/java/com/google/android/fhir/datacapture/QuestionnaireViewModel.kt:66-68 | In a list with unique linkIds, `single` finds every entry by its linkId |
| Refilter.SingleRejectsDuplicates | datacapture/src/main/java/com/google/android/fhir/datacapture/QuestionnaireViewModel.kt:66-68 | Two entries with one linkId make `single` throw for it |
| Refilter.MatchesSeesEntry | datacapture/src/main/java/com/google/android/fhir/datacapture/QuestionnaireViewModel.kt:66-67 | An entry carrying the linkId is always among the matches |
| Refilter.ResolveAgrees | datacapture/src/main/java/com/google/android/fhir/datacapture/QuestionnaireViewModel.kt:63-69 | Two resolvers that agree on an item's questions give it the same resolution, whichever stage supplies them |
| Refilter.FilterEnabled | datacapture/src/main/java/com/google/android/fhir/datacapture/QuestionnaireViewModel.kt:62-70 | Definition: `filter` left to right, evaluating each entry with the `single` resolver over the whole list; the first exception aborts |
| Refilter.Stage2 | datacapture/src/main/java/com/google/android/fhir/datacapture/QuestionnaireViewModel.kt:62-70 | Definition: the stage-2 filter of the stage-1 list, resolving over that same list |
| Refilter.ViewItems | datacapture/src/main/java/com/google/android/fhir/datacapture/QuestionnaireViewModel.kt:51-71 | Definition: what `getQuestionnaireItemViewItemList` returns, stage 1 and then stage 2, an exception from either being the result |
| Refilter.FilterSublist | datacapture/src/main/java/com/google/android/fhir/datacapture/QuestionnaireViewModel.kt:62-70 | The stage-2 filter throws iff some entry's evaluation throws; otherwise it returns an order-preserving sublist keeping exactly the entries the evaluator enables, one per enabled position |
| Refilter.FilterFails | datacapture/src/main/java/com/google/android/fhir/datacapture/QuestionnaireViewModel.kt:62-70 | The stage-2 filter throws iff the evaluation of some entry throws |
| Refilter.FilterKeeps | datacapture/src/main/java/com/google/android/fhir/datacapture/QuestionnaireViewModel.kt:62-70 | A completed stage-2 filter returns an order-preserving sublist holding exactly the entries evaluated as enabled, as many as there are enabled positions |
| Refilter.FilterCount | datacapture/src/main/java/com/google/android/fhir/datacapture/QuestionnaireViewModel.kt:62-70 | A completed filter keeps exactly as many entries as there are positions the evaluator enables, so equal entries are never merged |
| Refilter.FilterKeepsAll | datacapture/src/main/java/com/google/android/fhir/datacapture/QuestionnaireViewModel.kt:62-70 | When the evaluator enables every entry, the filter returns its input unchanged |
| Refilter.Stage2RejectsHiddenReference | datacapture/src/main/java/com/google/android/fhir/datacapture/QuestionnaireViewModel.kt:62-70 | If a stage-1 entry's rule refers to a linkId absent from the stage-1 list, stage 2 throws |
| Refilter.VisibleResolvesAlike | datacapture/src/main/java/com/google/android/fhir/datacapture/QuestionnaireViewModel.kt:63-69 | On mirrored forests with unique linkIds, stage 1 shows each linkId once, and for each one `single` returns the same node the `buildMap` index does |
| Refilter.ViewItemsSublist | datacapture/src/main/java/com/google/android/fhir/datacapture/QuestionnaireViewModel.kt:51-71 | A successful projection is an order-preserving sublist of stage 1, and so of the full lockstep walk |
| Refilter.Stage2AgreesWithStage1 | datacapture/src/main/java/com/google/android/fhir/datacapture/QuestionnaireViewModel.kt:51-71 | A sufficient condition, on mirrored forests with unique linkIds: if every question a visible item refers to is visible, stage 2 keeps all of stage 1 and the projection equals stage 1 |
| ViewModel.QuestionnaireViewModel.constructor | datacapture/src/main/java/com/google/android/fhir/datacapture/QuestionnaireViewModel.kt:73-84 | `init` sets the questionnaire, adds the mirrored response items in order and leaves the counter at 0; the response mirrors the questionnaire, is unanswered and has the same pre-order linkIds |
| ViewModel.QuestionnaireViewModel.NotifyChange | datacapture/src/main/java/com/google/android/fhir/datacapture/QuestionnaireViewModel.kt:40-44 | `notifyChangeCallback` raises the counter by exactly one, so it never decreases; it changes nothing else and keeps the response mirroring the questionnaire |
| ViewModel.QuestionnaireViewModel.GetQuestionnaireItemViewItemList | datacapture/src/main/java/com/google/android/fhir/datacapture/QuestionnaireViewModel.kt:51-71 | The projection method returns `ViewItems` of the current questionnaire and response, a function of the current state alone; on the mirrored state every pair joins two items with the same linkId, a linkId of the questionnaire |
| Scenarios.Scenario1Index | datacapture/src/main/java/com/google/android/fhir/datacapture/QuestionnaireViewModel.kt:86-94 | `buildMap` of a group holding two questions finds the nested question by its linkId |
| Scenarios.Scenario1Evaluations | datacapture/src/main/java/com/google/android/fhir/datacapture/QuestionnaireViewModel.kt:117 | Through the index, the question whose rule reads an answer of "no" where "yes" is expected is disabled; the group and the other question are enabled |
| Scenarios.Scenario1Stage1 | datacapture/src/main/java/com/google/android/fhir/datacapture/QuestionnaireViewModel.kt:104-130 | Stage 1 on that group keeps the group and the question without rules, and drops the one whose rule is not met |
| Scenarios.RuleNotMetScenario | datacapture/src/main/java/com/google/android/fhir/datacapture/QuestionnaireViewModel.kt:51-71 | The full projection of that questionnaire is the group followed by the enabled question |
| Scenarios.Scenario2Mirror | datacapture/src/main/java/com/google/android/fhir/datacapture/QuestionnaireViewModel.kt:140-149 | The response `init` builds for a concrete three-item questionnaire |
| Scenarios.Scenario2Index | datacapture/src/main/java/com/google/android/fhir/datacapture/QuestionnaireViewModel.kt:86-94 | `buildMap` of that response finds a question nested inside a group and a top-level one |
| Scenarios.Scenario2Evaluations | datacapture/src/main/java/com/google/android/fhir/datacapture/QuestionnaireViewModel.kt:117 | Through the index, the group whose rule reads an unanswered question is disabled; the item whose rule reads the group's child is enabled |
| Scenarios.Scenario2Stage1 | datacapture/src/main/java/com/google/android/fhir/datacapture/QuestionnaireViewModel.kt:104-130 | Stage 1 drops a disabled group with its child and keeps an item whose rule reads that hidden child through the index |
| Scenarios.HiddenReferenceScenario | datacapture/src/main/java/com/google/android/fhir/datacapture/QuestionnaireViewModel.kt:62-70 | On the freshly built response, stage 2 finds no entry for the hidden child and the whole projection fails with `NotSingle("b", 0)` |

## Left out

- Parsing the questionnaire JSON and reading it from `SavedStateHandle`
  (QuestionnaireViewModel.kt:74-76): this is I/O and host plumbing. The constructor takes
  the parsed questionnaire's items.
- The `Canonical` reference stamped on the response (QuestionnaireViewModel.kt:77-78): it
  is metadata with no logic.
- The `Flow` built from `modificationCount` and the `viewModelScope` machinery
  (QuestionnaireViewModel.kt:45-48): this is reactive plumbing. The model keeps the counter
  as a field and makes the projection a method whose result depends only on the current
  state.
- The rules of `EnablementEvaluator`: its source is not part of this model, so it is an
  uninterpreted parameter. The model reads every referenced question before the evaluator
  decides, and fails if any cannot be read. An evaluator that short-circuits over its
  rules could avoid an exception the model reports. The sample evaluator in `Scenarios`
  only illustrates.
- Protobuf builders (`newBuilder`, `addItem`, `build()`): builders are plain tree values.
  A real view item holds a reference to the live response builder, so an answer written
  through it changes the response in place. The model has no such aliasing. Answer
  editing goes through `QuestionnaireItemViewItem`, which is not part of this model.
- The `notifyChangeCallback` reference carried by each view item
  (QuestionnaireViewModel.kt:120): view items are modelled as the pair of items only.
- `ViewModel.QuestionnaireViewModel.NotifyChange`: the counter is an unbounded `nat`. The
  Kotlin `Int` would wrap after 2^31 - 1 increments.
- `QuestionnaireItemAdapterTest.kt`: it tests the presentation layer's view-holder
  mapping, whose code is not part of this model.
