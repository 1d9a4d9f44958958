# Verified model of the Sorx CLI runtime logic

Sorx serves systems of record: it answers metric queries over a store, renders
manager cards for records and their hierarchy, collects start answers against a
schema, caches role assignments per tenant and publishes business events to NATS.
This project models the parts of that runtime that decide something, and proves
what they decide for all inputs and all runs. `dafny verify dfyconfig.toml` checks
every file.

| file | models |
|---|---|
| `Json.dfy`, `Sequences.dfy`, `Texts.dfy`, `TextOrder.dfy` | JSON values, dotted paths; selecting, summing and reordering sequences; texts and their order |
| `Aggregates.dfy`, `MetricQuery.dfy` | metric queries: filter push-down, grouping, six streaming aggregates |
| `FieldNames.dfy`, `Hierarchy.dfy` | default link fields, breadth-first search of the record hierarchy |
| `Records.dfy`, `ParentContext.dfy` | rows, the join along the path found, the text a new child is given for its parent |
| `Answers.dfy`, `AnswerOrder.dfy` | flattening answers, and exactly which trees survive the round trip |
| `LegacySchema.dfy`, `RequiredObjects.dfy` | legacy required paths, required objects |
| `Cards.dfy` | rewriting a create card for a parent |
| `Utf8.dfy`, `QueryText.dfy`, `QueryParams.dfy`, `Base64.dfy` | bytes as text, percent codec, query parameters and list targets, base64 |
| `RecordList.dfy`, `RecordSearch.dfy`, `ListPages.dfy` | sorting, searching and paging record lists, following the links |
| `ManagerList.dfy` | from the store, and from a create card, to the pages of the list |
| `RolesCache.dfy`, `RolesRuns.dfy` | the roles cache, one lookup at a time and with lookups interleaved |
| `EventQueue.dfy` | publishers, the bounded queue and the worker |
| `Visibility.dfy` | which actions and records a caller sees |

JSON objects are maps. The program visits their keys in the order of the texts, and
so do flattening and unflattening here, where it matters; other loops over an object
visit the keys in an arbitrary order, so that no result depends on it. Metric numbers are
exact reals, and a JSON number keeps its printed text, so that `1` and `1.0` are
different values with equal numbers. Texts of query strings and base64 are byte
sequences, well-formed UTF-8 where the program's types make them so. The resolver of role maps, the store, the NATS client and the clock are
parameters or steps whose outcome is arbitrary.

Results where the code and an expectation part ways:

- The comment at the head of `nats_events.rs` says that a full queue drops the
  oldest envelope. In every run of the code an envelope once accepted is never
  dropped afterwards (`EventQueue.AcceptedIsNeverDropped`); the dropped ones are
  exactly those that arrive at a full queue or at a closed worker
  (`EventQueue.DroppedExactlyOnArrival`).
- A map served as fresh from the roles cache is never a time-to-live older than the
  lookup's clock reading, but it can be newer by any amount, because ages below
  zero count as zero (`RolesRuns.OvertakenLookupSeesTheFuture`). Lookups that consult
  the cache some delay after reading the clock are within one time-to-live on both
  sides exactly when the delay is below it (`RolesRuns.HitsAreCloseExactlyWhenPrompt`).
- With interleaved lookups the cache need not hold the latest fetch
  (`RolesRuns.SlowFetchOverwritesNewer`). A run keeps the latest one all along
  exactly when no lookup stores its map over one of a later clock reading, a guard
  the code does not have (`RolesRuns.LatestKeptExactly`); one lookup at a time it
  always does (`RolesCache.CacheIsLatestFetch`).
- Percent-decoding cuts two characters out of the text after a percent sign. It
  stops the program exactly when such a cut falls inside a multi-byte character
  (`QueryText.DecodeFailsExactly`), as in `%a` followed by a two-byte letter
  (`QueryText.WideLetterAfterPercentStops`). A lookup of a parameter stops exactly
  when it reaches such a key, or such a value of the key it looks for
  (`QueryParams.ParamStopsExactly`).
- The base64 decoder accepts padding in the middle and non-zero spare bits
  (`Base64.InnerPaddingIsAccepted`, `Base64.SpareBitsAreAccepted`). A text is the
  encoding of what it decodes to exactly when it has neither
  (`Base64.ReencodesExactlyWhenCanonical`).
- A child created from its parent is listed under that parent, exactly unless the
  parent row holds an empty text in the field named after its record
  (`ParentContext.CreatedChildIsListed`, `ParentContext.EmptyOwnFieldHidesChild`),
  and it shows on the pages that the create card's own target leads to
  (`ManagerList.CreatedChildIsShown`).
  For a record more than one link below, the create card fills in the field of the
  first link, while the list goes by the field of the last one
  (`ParentContext.FirstLinkDoesNotList`); what is filled in counts exactly when the
  two fields share a name and the text is an id one step before
  (`ParentContext.CreatedDescendantIsListed`).
- An endpoint is hidden from every caller, whatever roles it holds, exactly when it
  is a command of a record whose access entry states no rule at all
  (`Visibility.HiddenFromAllExactly`).
- Flattening loses keys that contain dots (`Answers.DottedKeySplits`), and keeps only
  the last of several leaves with one path text. Over the tree itself the round trip
  holds exactly when the leaf kept under each text is at the position the text splits
  into, unless another text leads through that position, and nothing else lies below
  such a position (`AnswerOrder.RoundTripOverItselfExactly`). A leaf that is not kept
  need not be in place (`AnswerOrder.OnlyTheKeptLeafCounts`). Over an empty object the
  round trip holds exactly when, nulls and empty objects aside, no key holds a dot and
  no key at the top is empty (`Answers.RoundTripOverNothingExactly`).

## Model

| member | source | states |
|---|---|---|
| `MetricQuery.QueryMetric` | crates/greentic-sorx-cli/src/http_runtime.rs:7103-7206 | for every store that returns at least the records matching the pushed filter and at most the collection, in any order, the rows are those of the whole collection filtered by all filters, in the order of the serialised group keys; formula metrics, store failures and unknown dimensions give their errors in that order |
| `MetricQuery.PlanIs` | crates/greentic-sorx-cli/src/http_runtime.rs:7103-7150 | a plan joins the metric's filters with the query's, takes aggregate and field from the metric, and has the dimensions that the query names |
| `MetricQuery.QueryCanBeAsked` | crates/greentic-sorx-cli/src/http_runtime.rs:7103-7206 | every query over every collection can be asked: some store and some serialisation meet what is required of them |
| `MetricQuery.OperatorsDecide` | crates/greentic-sorx-cli/src/http_runtime.rs:7281-7311 | what each operator decides about the value at the field's path: gt and lt compare numbers strictly, gte and lte are their opposites, none of the four holds unless both sides are numbers, ne asks for a present and different value, in for an item of an array, and an unknown operator holds never |
| `MetricQuery.CountRow` | crates/greentic-sorx-cli/src/http_runtime.rs:7121-7202 | a count without dimensions is one row, the number of records whose values at the filters' paths compare as the operators ask |
| `MetricQuery.SampleIsWalked` | crates/greentic-sorx-cli/src/http_runtime.rs:7313-7323 | the aggregated value of a record is the one at the metric field's path |
| `MetricQuery.KeyIsWalked` | crates/greentic-sorx-cli/src/http_runtime.rs:7146-7165 | a record is grouped by the values at the paths of the dimensions' fields, or of their names, and by null where there is none |
| `MetricQuery.EqualityFilter` | crates/greentic-sorx-cli/src/http_runtime.rs:7269-7279 | the pushed filter asks of each top-level field what the last equality filter naming it asks, and nothing of any other field |
| `MetricQuery.EqualityIsPushed` | crates/greentic-sorx-cli/src/http_runtime.rs:7269-7279 | an equality on a top-level field is pushed unless a later one names the same field |
| `MetricQuery.PushedFilterIsWeaker` | crates/greentic-sorx-cli/src/http_runtime.rs:7269-7300 | a record that passes all filters passes the pushed filter, also when two equality filters name one field |
| `MetricQuery.PushdownPreservesAnswer` | crates/greentic-sorx-cli/src/http_runtime.rs:7121-7158 | rows that are right for the store's answer are right for the whole collection |
| `MetricQuery.AnswerIsUnique` | crates/greentic-sorx-cli/src/http_runtime.rs:7121-7202 | the rows and their order depend only on which records the collection holds, not on the order in which a store returns them |
| `MetricQuery.ExactStoreIsHonest` | crates/greentic-sorx-core/src/providers/memory.rs:337-355 | a store that applies exactly the pushed filter meets the contract asked of stores |
| `MetricQuery.FoldGroups` | crates/greentic-sorx-cli/src/http_runtime.rs:7145-7202 | one pass over the records gives one row per group with the aggregate of that group, in the order of the serialised keys, and one zero row when there is neither a record nor a dimension |
| `MetricQuery.GroupRecords` | crates/greentic-sorx-cli/src/http_runtime.rs:7146-7173 | the states built up in the loop are exactly the non-empty groups, each with the samples of its own records |
| `MetricQuery.RowsPartition` | crates/greentic-sorx-cli/src/http_runtime.rs:7134-7202 | every matching record is a sample of exactly one row |
| `MetricQuery.RowShows` | crates/greentic-sorx-cli/src/http_runtime.rs:7177-7195 | a row shows each dimension under its name with the value grouped by, unless that is null, and nothing else |
| `MetricQuery.RowsShowDifferentDimensions` | crates/greentic-sorx-cli/src/http_runtime.rs:7134-7202 | no two rows show the same dimensions although nulls are dropped and names may repeat |
| `MetricQuery.RowsAddUp` | crates/greentic-sorx-cli/src/http_runtime.rs:7145-7202 | the rows of a count add up to the matching records, those of a sum to their total |
| `MetricQuery.GroupingConserves` | crates/greentic-sorx-cli/src/http_runtime.rs:7145-7173 | any quantity added up per record is conserved by grouping |
| `MetricQuery.RowDimensionsDiffer` | crates/greentic-sorx-cli/src/http_runtime.rs:7177-7195 | different group keys give different dimension maps |
| `Aggregates.AggregateState.Push` | crates/greentic-sorx-cli/src/http_runtime.rs:7228-7249 | after each value the state is exactly what all values pushed so far call for |
| `Aggregates.AggregateState.Value` | crates/greentic-sorx-cli/src/http_runtime.rs:7251-7266 | the state answers each of the six aggregates with its mathematical value over the pushed samples |
| `Aggregates.SumOfOneMore` | crates/greentic-sorx-cli/src/http_runtime.rs:7228-7249 | one more sample adds one to the count, its number, if it is one, to the sum, and one to the distinct count exactly when it is a value not seen before |
| `Aggregates.ExtremesAreSamples` | crates/greentic-sorx-cli/src/http_runtime.rs:7236-7246 | minimum and maximum are numeric samples, and no numeric sample lies outside them |
| `Aggregates.WithoutNumbersZero` | crates/greentic-sorx-cli/src/http_runtime.rs:7251-7266 | without a numeric sample sum, average, minimum and maximum are zero |
| `Aggregates.AggregateOrderFree` | crates/greentic-sorx-cli/src/http_runtime.rs:7217-7267 | no aggregate depends on the order of the records |
| `Aggregates.AverageBetweenExtremes` | crates/greentic-sorx-cli/src/http_runtime.rs:7251-7266 | with a numeric value present, min <= avg <= max |
| `Aggregates.DistinctAtMostCount` | crates/greentic-sorx-cli/src/http_runtime.rs:7251-7266 | the distinct count never exceeds the count |
| `Hierarchy.HierarchyPath` | crates/greentic-sorx-cli/src/http_runtime.rs:4715-4749 | on every graph, cyclic or not, the search ends with the first path: the walk that comes first by length and then by the places of its links in the hierarchy; it ends with none exactly when there is no walk |
| `Hierarchy.StepIs` | crates/greentic-sorx-cli/src/http_runtime.rs:4731-4738 | every step carries the field its link names, or else the parent record in snake case and `_id` |
| `Hierarchy.FirstPathIsShortest` | crates/greentic-sorx-cli/src/http_runtime.rs:4715-4749 | the first path is a chained walk that no walk is shorter than |
| `Hierarchy.FirstPathIsUnique` | crates/greentic-sorx-cli/src/http_runtime.rs:4715-4749 | there is only one first path, so the search has one answer |
| `Hierarchy.WalksAreCovered` | crates/greentic-sorx-cli/src/http_runtime.rs:4723-4747 | while walks of n steps are being extended, every walk of at most n steps ends in a record already seen, which was first met by that walk or by an earlier one |
| `Hierarchy.FirstMeetingIsFirst` | crates/greentic-sorx-cli/src/http_runtime.rs:4723-4747 | the walk that first meets a record comes before all other walks to it, so the early return hands back the first path |
| `FieldNames.SnakeCase` | crates/greentic-sorx-cli/src/http_runtime.rs:4755-4776 | the loop computes the snake-case name that the law below speaks of |
| `FieldNames.SnakeIsSnake` | crates/greentic-sorx-cli/src/http_runtime.rs:4751-4776 | names hold lower-case letters, digits and single inner underscores; such names are kept, and a second conversion changes nothing |
| `FieldNames.SnakeIsWords` | crates/greentic-sorx-cli/src/http_runtime.rs:4755-4776 | the name is the letters and digits in lower case, with an underscore exactly before each later one that follows something else, or that is a capital after a lower-case letter or digit |
| `FieldNames.SalesOrderField` | crates/greentic-sorx-cli/src/http_runtime.rs:4751-4753 | a link to SalesOrder is in the field sales_order_id |
| `ParentContext.FilterByParent` | crates/greentic-sorx-cli/src/http_runtime.rs:2211-2246 | the target itself keeps one row, an unreachable target keeps all, otherwise a row stays exactly when a chain of linked rows along the first path leads to its id |
| `ParentContext.NarrowedByChains` | crates/greentic-sorx-cli/src/http_runtime.rs:2211-2246 | for the one path used, which is a shortest one, a row is kept exactly when it is listed and ends a chain from the parent |
| `ParentContext.JoinAlong` | crates/greentic-sorx-cli/src/http_runtime.rs:2227-2245 | the ids left after the loop, with or without the early break, are exactly the ends of chains of linked rows |
| `ParentContext.JoinIsChains` | crates/greentic-sorx-cli/src/http_runtime.rs:2227-2245 | iterated set join and existence of a chain of single rows are the same |
| `ParentContext.EmptyStaysEmpty` | crates/greentic-sorx-cli/src/http_runtime.rs:2241-2243 | once no id is left, later steps would find none either |
| `ParentContext.MatchesOneId` | crates/greentic-sorx-cli/src/http_runtime.rs:6547-6559 | a link value matches a set of ids exactly when it matches one of them alone |
| `ParentContext.MatchedTextIsId` | crates/greentic-sorx-cli/src/http_runtime.rs:6368-6390 | every non-empty text by which links match a value is collected as an id of that value |
| `ParentContext.IdIsMatchedText` | crates/greentic-sorx-cli/src/http_runtime.rs:6368-6390 | every collected id is a text by which links match the value, or the digits of a number inside it |
| `ParentContext.ScalarIdsExactly` | crates/greentic-sorx-cli/src/http_runtime.rs:6368-6390 | a text is an id of a value exactly when a way through list items and the keys id, value and record_id ends at that text, not empty, or at a number that prints as it |
| `ParentContext.MatchesIdsExactly` | crates/greentic-sorx-cli/src/http_runtime.rs:6547-6559 | a link value matches exactly when such a way ends at one of the ids as a text |
| `ParentContext.ContextIdsExactly` | crates/greentic-sorx-cli/src/http_runtime.rs:6338-6355 | a parent is known by its id and by what the fields id, record_id, the one named after the record and those ending in _uuid lead to in its first row, and by nothing else |
| `ParentContext.IdentifierTextLinks` | crates/greentic-sorx-cli/src/http_runtime.rs:6338-6355 | a link that names a parent row by any text of its identifier fields belongs to the parent |
| `ParentContext.ParentContextValue` | crates/greentic-sorx-cli/src/http_runtime.rs:2294-2312 | the text given to a new child for its parent: the row's own field, its least identifier, or another text of the parent |
| `ParentContext.ParentValueExactly` | crates/greentic-sorx-cli/src/http_runtime.rs:2294-2312 | that text is the one in the row's own field, else the least identifier of the row, else the parent's id |
| `ParentContext.ParentValueIsContextId` | crates/greentic-sorx-cli/src/http_runtime.rs:2248-2312 | that text is one by which the parent is known, exactly unless the row's own field is empty |
| `ParentContext.ListedByLastLink` | crates/greentic-sorx-cli/src/http_runtime.rs:2227-2245 | a row is listed under a parent exactly when the field of the path's last link leads to a row of the step before |
| `ParentContext.CreatedChildIsListed` | crates/greentic-sorx-cli/src/http_runtime.rs:2211-2312 | a row one link below the parent that carries the given text is listed under the parent, exactly unless the parent's own field is empty |
| `ParentContext.NumericIdentifierLists` | crates/greentic-sorx-cli/src/http_runtime.rs:2227-2245 | a child whose link holds the digits of a numeric id of the parent row is listed under the parent |
| `ParentContext.CreatedDescendantIsListed` | crates/greentic-sorx-cli/src/http_runtime.rs:2211-2291 | a row that was given the field of the path's first link, and not that of the last one, is listed exactly when the two are one field and the text is an id one step before |
| `ParentContext.EmptyOwnFieldHidesChild` | crates/greentic-sorx-cli/src/http_runtime.rs:6357-6366 | a parent with an empty own field whose new child is not listed |
| `ParentContext.FirstLinkDoesNotList` | crates/greentic-sorx-cli/src/http_runtime.rs:2278-2291 | a row created from a parent two links above that carries the parent's text and is not listed under it |
| `Answers.Flatten` | crates/greentic-sorx-cli/src/lib.rs:3393-3397 | the flat map is the one built in the order of the keys, and holds exactly the leaves of the tree under their paths |
| `Answers.FlattenInto` | crates/greentic-sorx-cli/src/lib.rs:3399-3421 | visiting the keys in order, all leaves below a value are added under their paths and nothing else is changed |
| `Answers.FlattenedAt` | crates/greentic-sorx-cli/src/lib.rs:3399-3421 | under every text that is the path of some leaf the flat map holds the last such leaf in the order of the keys, and under no other text anything |
| `Answers.Unflatten` | crates/greentic-sorx-cli/src/lib.rs:3423-3435 | the entries are applied in the order of their paths, and flat answers that are no object change nothing |
| `Answers.GivesBackExactlyWhenInPlace` | crates/greentic-sorx-cli/src/lib.rs:3423-3460 | applying a flat map changes nothing, in any order, exactly when every entry is already at the position its text splits into |
| `AnswerOrder.RoundTripOverItselfExactly` | crates/greentic-sorx-cli/src/lib.rs:3393-3460 | unflattening its flattened form over a tree gives the tree back exactly when the last leaf of every path text is at the position the text splits into, or another text leads through that position, and nothing lies below a text's position but what texts lead to |
| `AnswerOrder.CleanTreesAreGivenBack` | crates/greentic-sorx-cli/src/lib.rs:3393-3460 | every tree without dots in its keys and without an empty key at the top is given back |
| `AnswerOrder.ApplySettles` | crates/greentic-sorx-cli/src/lib.rs:3423-3460 | what every position of a tree shows after ascending paths have been applied: a branch where a path leads through, else the path's own leaf, else nothing below a path's end, else what was there |
| `AnswerOrder.PrefixComesFirst` | crates/greentic-sorx-cli/src/lib.rs:3423-3460 | in the order of the texts a path comes before every path that leads through it |
| `AnswerOrder.OnlyTheKeptLeafCounts` | crates/greentic-sorx-cli/src/lib.rs:3399-3460 | a tree with two leaves under one path text that is given back although one of them is not in place |
| `AnswerOrder.OneAnswer` | crates/greentic-sorx-cli/src/lib.rs:3399-3421 | a single answer, a list too, is flattened to itself, while null and an empty object leave nothing |
| `Answers.AnyOrderRoundTripExactly` | crates/greentic-sorx-cli/src/lib.rs:3393-3460 | whichever of several leaves with one path text were kept and in any order of the paths, the tree would be given back exactly when every leaf is at the position its path text splits into |
| `Answers.RoundTripOverNothingExactly` | crates/greentic-sorx-cli/src/lib.rs:3393-3460 | whichever leaf is kept under each path text and in any order of the paths, unflattening a flattened tree over an empty object gives the tree without nulls and empty objects exactly when that tree has no key with a dot and no empty key at the top |
| `AnswerOrder.RoundTripOverNothingInOrder` | crates/greentic-sorx-cli/src/lib.rs:3393-3460 | the same for the one flat map and the one order of the program |
| `Answers.LookAfterSet` | crates/greentic-sorx-cli/src/lib.rs:3437-3460 | setting a nested answer changes its own position, what leads to it and what was below it, and no other position |
| `Answers.ScalarFlattensToNothing` | crates/greentic-sorx-cli/src/lib.rs:3399-3421 | an answer that is no object has no flat entries |
| `Answers.DottedKeySplits` | crates/greentic-sorx-cli/src/lib.rs:3399-3460 | a key with a dot is not given back |
| `LegacySchema.ConvertLegacy` | crates/greentic-sorx-cli/src/lib.rs:2815-2836 | every object node reached through properties lists a key exactly when a legacy path other than the skipped one passes through node and key, lists it once, and nothing but such lists differs from the prepared default schema |
| `LegacySchema.PreparedHolds` | crates/greentic-sorx-cli/src/lib.rs:2815-2829 | the default schema gets the legacy title and, at tenant.tenant_id and server.public_base_url, the two local defaults |
| `LegacySchema.SkippedPathIs` | crates/greentic-sorx-cli/src/lib.rs:2829-2834 | every legacy path but providers.store.config_ref asks for its keys |
| `LegacySchema.LegacyPathsAre` | crates/greentic-sorx-cli/src/lib.rs:2860-2869 | the legacy paths are the texts in the legacy schema's own required list |
| `LegacySchema.RequiredExactly` | crates/greentic-sorx-cli/src/lib.rs:2871-2903 | the same for any schema without lists and any paths |
| `LegacySchema.OrderDoesNotMatter` | crates/greentic-sorx-cli/src/lib.rs:2829-2834 | the order and repetition of legacy paths do not affect any node's set |
| `LegacySchema.OnlyRequiredChanges` | crates/greentic-sorx-cli/src/lib.rs:2871-2903 | requiring paths changes nothing but lists of required keys |
| `LegacySchema.ClearedNode` | crates/greentic-sorx-cli/src/lib.rs:2838-2858 | after clearing, every node reached through properties is still there and lists nothing |
| `LegacySchema.ClearingReachesAll` | crates/greentic-sorx-cli/src/lib.rs:2838-2858 | clearing removes the lists under properties, additional properties and items at every depth, and keeps every other key |
| `LegacySchema.DefaultIsSet` | crates/greentic-sorx-cli/src/lib.rs:2905-2926 | a default given by path lands on the node at that path and changes nothing else there |
| `LegacySchema.RequirePathAt` | crates/greentic-sorx-cli/src/lib.rs:2871-2888 | what one path adds at every node of the schema |
| `RequiredObjects.Materialize` | crates/greentic-sorx-cli/src/lib.rs:3462-3500 | the two passes compute the completed answers that the lemmas below speak of |
| `RequiredObjects.MaterializedIsSettled` | crates/greentic-sorx-cli/src/lib.rs:3462-3500 | every present object-schema position becomes an object with all its required object children, at every depth |
| `RequiredObjects.RequiredObjectsAreThere` | crates/greentic-sorx-cli/src/lib.rs:3462-3500 | whatever is given for an object schema, every required property of object type is there as an object |
| `RequiredObjects.NothingElseIsAdded` | crates/greentic-sorx-cli/src/lib.rs:3482-3492 | a key is added only for a required property of object type |
| `RequiredObjects.UnchangedExactlyWhenSettled` | crates/greentic-sorx-cli/src/lib.rs:3462-3500 | answers are unchanged exactly when nothing is missing, and a second pass changes nothing |
| `RequiredObjects.UngovernedIsUntouched` | crates/greentic-sorx-cli/src/lib.rs:3462-3500 | positions outside object schemas keep their value, and stay absent when absent |
| `Cards.ApplyParentContext` | crates/greentic-sorx-cli/src/http_runtime.rs:2265-2312 | without a path the card stays as it is; with one it is rewritten for the first link of the first path, the text by which the parent is known and the encoded target of the parent's list, and meets both promises below |
| `Cards.RewriteIsComplete` | crates/greentic-sorx-cli/src/http_runtime.rs:2282-2291 | afterwards no array element contains the parent field's input, every surviving submit for the child carries target, route and parent value, and a second rewrite changes nothing |
| `Cards.RewriteFixpoints` | crates/greentic-sorx-cli/src/http_runtime.rs:2282-2291 | the rewrite leaves a card alone exactly when it is already in order |
| `Cards.SubmitsBecome` | crates/greentic-sorx-cli/src/http_runtime.rs:6431-6499 | at every position where a submit stood and survives: one that names the child or opens its plain list leads to the context target with both route keys; one that names it has the parent's text put into its input, whose other fields stay; one that only opens the list keeps its input; any other keeps its data |
| `Cards.RewriteInPlace` | crates/greentic-sorx-cli/src/http_runtime.rs:6392-6407 | every surviving position holds what stood there, rewritten, behind as many items as survive before it |
| `Cards.RouteIs` | crates/greentic-sorx-cli/src/http_runtime.rs:6618-6632 | the route of a target keeps letters, digits, underscores and hyphens, and has an underscore for anything else |
| `Cards.RemovedEverywhere` | crates/greentic-sorx-cli/src/http_runtime.rs:6392-6407 | after the removal no element of any array contains the input |
| `Cards.ContainsInputExactly` | crates/greentic-sorx-cli/src/http_runtime.rs:6409-6429 | an element contains an input exactly when some way inside it ends at an object with that id whose type starts with Input. |
| `Cards.RemoveFromKeeps` | crates/greentic-sorx-cli/src/http_runtime.rs:6400-6405 | an array keeps exactly its elements without the input, unchanged |
| `Cards.SetContextCarries` | crates/greentic-sorx-cli/src/http_runtime.rs:6431-6499 | every submit anywhere in the card is in order, also those inside the data just written |
| `Cards.UpdateData` | crates/greentic-sorx-cli/src/http_runtime.rs:6444-6476 | only the target, the two route keys and the input of a submit's data are written |
| `QueryText.Encode` | crates/greentic-sorx-cli/src/http_runtime.rs:6848-6860 | the loop computes the byte-wise encoding that decoding undoes |
| `QueryText.Decode` | crates/greentic-sorx-cli/src/http_runtime.rs:6819-6846 | the loop computes the decoding that the laws speak of, read as text with replacement characters, and stops where the program would |
| `QueryText.DecodeEncoded` | crates/greentic-sorx-cli/src/http_runtime.rs:6819-6860 | decoding undoes encoding for all byte sequences |
| `QueryText.DecodeTextEncoded` | crates/greentic-sorx-cli/src/http_runtime.rs:6819-6860 | for every well-formed text the decoded text of its encoding is the text itself |
| `Utf8.LossyKeepsExactly` | crates/greentic-sorx-cli/src/http_runtime.rs:6845-6845 | reading bytes as text changes nothing exactly on well-formed UTF-8, and reading the result again changes nothing |
| `Utf8.LossyIsValid` | crates/greentic-sorx-cli/src/http_runtime.rs:6845-6845 | whatever the bytes, what is read is well-formed |
| `Utf8.DecodeEncodedText` | crates/greentic-sorx-cli/src/http_runtime.rs:6845-6845 | every text of characters is read back from its UTF-8 bytes |
| `Utf8.EncodeDecodedText` | crates/greentic-sorx-cli/src/http_runtime.rs:6845-6845 | all well-formed bytes are the bytes of the text they are read as |
| `Utf8.LossyAfterText` | crates/greentic-sorx-cli/src/http_runtime.rs:6845-6845 | behind well-formed text, reading goes on as if it started there |
| `Utf8.BrokenCharacterIsReplaced` | crates/greentic-sorx-cli/src/http_runtime.rs:6845-6845 | a character that breaks off is replaced as one |
| `Utf8.StrayByteIsReplaced` | crates/greentic-sorx-cli/src/http_runtime.rs:6845-6845 | a byte that starts no character is replaced as one |
| `QueryText.DecodeFailsExactly` | crates/greentic-sorx-cli/src/http_runtime.rs:6829-6838 | decoding stops exactly when some percent sign is followed by a cut inside a character |
| `QueryText.WideLetterAfterPercentStops` | crates/greentic-sorx-cli/src/http_runtime.rs:6829-6838 | a percent sign, one letter and a two-byte letter stop the decoding wherever they stand |
| `QueryText.EncodedIsSafe` | crates/greentic-sorx-cli/src/http_runtime.rs:6848-6860 | an encoded text holds no separator of a query |
| `QueryText.EncodedByteIs` | crates/greentic-sorx-cli/src/http_runtime.rs:6848-6860 | letters, digits, hyphen, underscore, dot and tilde stand for themselves, a space is a plus sign, any other byte a percent sign and two capital hex digits |
| `QueryText.PercentStandsForByte` | crates/greentic-sorx-cli/src/http_runtime.rs:6824-6838 | two hex digits of either case after a percent sign stand for their byte, and a plus sign for a space |
| `QueryText.HexDigitIs` | crates/greentic-sorx-cli/src/http_runtime.rs:6829-6834 | hex digits are 0 to 9 and A to F, capital or small |
| `QueryText.PlainPercent` | crates/greentic-sorx-cli/src/http_runtime.rs:6829-6838 | a percent sign that no two hex digits follow stands for itself |
| `QueryParams.QueryParam` | crates/greentic-sorx-cli/src/http_runtime.rs:6804-6813 | the loop finds the first parameter whose decoded name matches |
| `QueryParams.ParamStopsExactly` | crates/greentic-sorx-cli/src/http_runtime.rs:6804-6813 | a lookup stops exactly when a part it reaches has a key, or the value of the key looked for, that cannot be decoded; it finds a text exactly when the first part of that name holds it |
| `QueryParams.BuiltQueryIsReadBack` | crates/greentic-sorx-cli/src/http_runtime.rs:6804-6813 | looking any name up in a built query gives the text the query was built from, or nothing for a name it was not built with |
| `QueryParams.TargetReadsBack` | crates/greentic-sorx-cli/src/http_runtime.rs:6515-6533 | page, q, parent_record and parent_id read back from a list target as they were given, q being absent for an empty search, and no other name is found |
| `QueryParams.NumberReadBack` | crates/greentic-sorx-cli/src/http_runtime.rs:6815-6817 | a printed page number parses back |
| `QueryParams.NumberExactly` | crates/greentic-sorx-cli/src/http_runtime.rs:6815-6817 | numbers are decimal digits, with or without a plus sign, up to the largest machine number |
| `QueryParams.ParameterNames` | crates/greentic-sorx-cli/src/http_runtime.rs:1674-1683 | the parameters are named page, q and search |
| `QueryParams.NoEqualsNoValue` | crates/greentic-sorx-cli/src/http_runtime.rs:6807-6807 | a part without an equals sign is a key with an empty value |
| `Base64.Decode` | crates/greentic-sorx-cli/src/lib.rs:2081-2110 | the two passes compute the decoding that the laws speak of, with its three errors |
| `Base64.AcceptedExactly` | crates/greentic-sorx-cli/src/lib.rs:2081-2110 | a text is accepted exactly when its characters all have a value, four by four, and padding stands only in the last one or two places of a quartet |
| `Base64.RoundTrip` | crates/greentic-sorx-cli/src/lib.rs:2081-2124 | any text that is the encoding of some bytes up to white space decodes to them |
| `Base64.EncodingDecodes` | crates/greentic-sorx-cli/src/lib.rs:2081-2124 | the encoding of section 4 of RFC 4648 decodes to the bytes |
| `Base64.PiecewiseDecoding` | crates/greentic-sorx-cli/src/lib.rs:2093-2109 | texts of whole quartets decode to the concatenation, and only if both are accepted |
| `Base64.ReencodesExactlyWhenCanonical` | crates/greentic-sorx-cli/src/lib.rs:2093-2109 | an accepted text is the encoding of its bytes exactly when padding comes once, last, with zero spare bits |
| `Base64.SpareBitsAreAccepted` | crates/greentic-sorx-cli/src/lib.rs:2093-2109 | a text with spare bits set is accepted and is not the encoding of what it decodes to |
| `Base64.InnerPaddingIsAccepted` | crates/greentic-sorx-cli/src/lib.rs:2093-2109 | a text with padding in the middle is accepted and is not the encoding of what it decodes to |
| `Base64.ShiftsLoseNothing` | crates/greentic-sorx-cli/src/lib.rs:2098-2107 | in every quartet of an accepted text no shift of a byte loses a bit, and no two parts of a byte overlap |
| `Base64.CharOf` | crates/greentic-sorx-cli/src/lib.rs:2112-2124 | every six-bit value and the padding have a character that reads back as that value |
| `Base64.AlphabetIs` | crates/greentic-sorx-cli/src/lib.rs:2112-2124 | the characters are those of table 1 of RFC 4648 in the order of their values |
| `Base64.WhiteSpaceIs` | crates/greentic-sorx-cli/src/lib.rs:2084-2084 | tab, line feed, form feed, carriage return and space are skipped, and nothing else |
| `Base64.BytesAreBits` | crates/greentic-sorx-cli/src/lib.rs:2098-2107 | four values are one number of twenty-four bits, of which the three bytes are the upper, middle and lower eight |
| `RecordList.SortIsUnique` | crates/greentic-sorx-cli/src/http_runtime.rs:6738-6745 | rows that ids tell apart have one descending order |
| `RecordList.SortSorts` | crates/greentic-sorx-cli/src/http_runtime.rs:6738-6745 | sorting keeps the rows and puts later timestamps first, among equal ones higher versions, and then higher ids |
| `RecordList.DescendingIsNewestFirst` | crates/greentic-sorx-cli/src/http_runtime.rs:6738-6745 | the order used for sorting is newest first: no row has a later timestamp, or with equal ones a higher version, or then a higher id, than one before it |
| `RecordList.TimestampIs` | crates/greentic-sorx-cli/src/http_runtime.rs:6747-6777 | the timestamp of a row is the text, number or flag under the first of the eleven named fields that it has, and empty without any |
| `RecordList.UpdatedOutranksCreated` | crates/greentic-sorx-cli/src/http_runtime.rs:6747-6777 | a row that says when it was updated is placed by that, whenever it was created |
| `TextOrder.FirstDifferenceDecides` | crates/greentic-sorx-cli/src/http_runtime.rs:6738-6745 | of two texts the one with the smaller character at the first difference is less |
| `RecordList.StoreOrderDoesNotMatter` | crates/greentic-sorx-cli/src/http_runtime.rs:6738-6764 | the order in which the store returns rows does not show |
| `ListPages.StoreOrderDoesNotShow` | crates/greentic-sorx-cli/src/http_runtime.rs:1674-1681 | the list behind any request is the same for stores that return the same rows in another order |
| `ListPages.StoreOrderDoesNotShowInJourneys` | crates/greentic-sorx-cli/src/http_runtime.rs:1674-1689 | so are the links of every page and all rows shown along them |
| `ManagerList.PagesShowTheDescendants` | crates/greentic-sorx-cli/src/http_runtime.rs:1659-1689 | opened under a parent and followed from page one, the pages show, newest first and as often as stored, exactly the rows matching the search to which a chain of linked rows leads from the parent |
| `ManagerList.PagesShowAll` | crates/greentic-sorx-cli/src/http_runtime.rs:1659-1689 | opened without a parent, the pages show, newest first, exactly the matching rows of the store |
| `ManagerList.ContextTargetIsRequest` | crates/greentic-sorx-cli/src/http_runtime.rs:6535-6545 | the target written into a create card is read as the first page of the list under that parent |
| `ManagerList.CreatedChildIsShown` | crates/greentic-sorx-cli/src/http_runtime.rs:2265-2312 | a row created from a parent one link above shows on the pages that the create card's target leads to, exactly unless the parent's own field is empty |
| `RecordSearch.FoundExactly` | crates/greentic-sorx-cli/src/http_runtime.rs:6779-6798 | a row matches exactly when its id, or a text, number or flag at whatever depth in it, holds the search, whatever the case of either |
| `Texts.ContainsMiddle` | crates/greentic-sorx-cli/src/http_runtime.rs:6779-6798 | a search is found wherever it stands in a text |
| `RecordSearch.ShorterSearchFindsMore` | crates/greentic-sorx-cli/src/http_runtime.rs:6779-6798 | a part of a search finds every row that the whole search finds |
| `ListPages.JourneyShowsEverything` | crates/greentic-sorx-cli/src/http_runtime.rs:1674-1689 | the pages reached by following the next links from page 1, read from the texts of those links, show the whole list, every row once and in order |
| `ListPages.JourneyEnds` | crates/greentic-sorx-cli/src/http_runtime.rs:5686-5697 | following the next links comes to an end from every readable request |
| `ListPages.LinkLeadsToNextPage` | crates/greentic-sorx-cli/src/http_runtime.rs:5686-5697 | the next link is read as the next page of the same search and parent |
| `ListPages.NextPageContinues` | crates/greentic-sorx-cli/src/http_runtime.rs:1682-1689 | a page with a next one is full, and the next one starts where it ends |
| `ListPages.TenPerPage` | crates/greentic-sorx-cli/src/http_runtime.rs:1682-1689 | page p shows the rows from 10 (p - 1) to 10 p, and has a next one exactly when more are left |
| `ListPages.RequestOf` | crates/greentic-sorx-cli/src/http_runtime.rs:1659-1686 | a query asks for the page it numbers or the first, for the trimmed text of q or else of search, and for a parent exactly when it names record and id, each under one of two names of which the first wins |
| `ListPages.AliasNames` | crates/greentic-sorx-cli/src/http_runtime.rs:1659-1664 | the second names of the parent's parameters are parentRecord and parentId |
| `ListPages.ListHoldsTheMatches` | crates/greentic-sorx-cli/src/http_runtime.rs:1674-1681 | the list is newest first and holds every matching row as often as it is stored |
| `ListPages.TargetIsRequest` | crates/greentic-sorx-cli/src/http_runtime.rs:1659-1686 | a list target is read as exactly the page, search and parent it was made from |
| `RolesCache.AdminRolesOverlay.TenantMap` | crates/greentic-sorx-cli/src/admin_roles.rs:187-223 | the cache and the map served after one lookup, also when the lock is poisoned before it or while the resolver is asked |
| `RolesCache.AdminRolesOverlay.RolesFor` | crates/greentic-sorx-cli/src/admin_roles.rs:175-182 | nothing without an email; with one, an answer whenever a map is served, and always for a cached tenant while the lock is sound |
| `Texts.TrimExactly` | crates/greentic-sorx-cli/src/admin_roles.rs:175-182 | trimming takes the white space off both ends, and all of it |
| `Texts.WhiteSpace` | crates/greentic-sorx-cli/src/admin_roles.rs:175-182 | which characters are white space, by their numbers |
| `RolesCache.FreshExactly` | crates/greentic-sorx-cli/src/admin_roles.rs:188-195 | a cached map is fresh to clock readings before one time-to-live from its own |
| `RolesCache.CacheIsLatestFetch` | crates/greentic-sorx-cli/src/admin_roles.rs:187-223 | in every sequential run the cache is the latest successful fetch of each tenant |
| `RolesCache.FetchesAreSpaced` | crates/greentic-sorx-cli/src/admin_roles.rs:187-205 | in every sequential run two successful fetches for a tenant start at least one time-to-live apart |
| `RolesRuns.ServedMapsAreJustified` | crates/greentic-sorx-cli/src/admin_roles.rs:187-223 | in every interleaving a hit comes from a fetch for the same tenant less than one time-to-live before the lookup's clock reading, and a stale map, or none, follows only the lookup's own failed fetch |
| `RolesRuns.RunKeepsInv` | crates/greentic-sorx-cli/src/admin_roles.rs:187-223 | every reachable state has all cached and served maps on the log of fetches |
| `RolesRuns.RunsGoOn` | crates/greentic-sorx-cli/src/admin_roles.rs:187-223 | new lookups can begin at any time, and every lookup can take its next step, and no other, whatever the resolver says |
| `RolesRuns.StoredTenantIsServed` | crates/greentic-sorx-cli/src/admin_roles.rs:206-221 | a lookup unfinished when a map was stored for its tenant never ends without one |
| `RolesRuns.PromptLookupIsClose` | crates/greentic-sorx-cli/src/admin_roles.rs:188-195 | consulting the cache within one time-to-live of reading the clock bounds the distance on both sides |
| `RolesRuns.OvertakenLookupSeesTheFuture` | crates/greentic-sorx-cli/src/admin_roles.rs:188-195 | without that, for every delay some run serves a map fetched that much later |
| `RolesRuns.HitsAreCloseExactlyWhenPrompt` | crates/greentic-sorx-cli/src/admin_roles.rs:188-195 | hits consulted a delay after their clock reading are within one time-to-live on both sides, in every run, exactly when the delay is below it |
| `RolesRuns.SlowFetchOverwritesNewer` | crates/greentic-sorx-cli/src/admin_roles.rs:198-204 | an interleaving in which an earlier fetch replaces a newer one |
| `RolesRuns.LatestKeptExactly` | crates/greentic-sorx-cli/src/admin_roles.rs:198-204 | in every interleaving the cache holds the latest stored fetch of each tenant all along exactly when no lookup stores its map over one of a later clock reading |
| `RolesRuns.UninterruptedIsSequential` | crates/greentic-sorx-cli/src/admin_roles.rs:187-223 | the steps of a lookup taken without interruption are the sequential lookup |
| `EventQueue.NatsEventSink.Publish` | crates/greentic-sorx-cli/src/nats_events.rs:135-153 | publishing always succeeds, keeps the capacity, and drops the incoming envelope when full or closed |
| `EventQueue.NatsEventSink.Drain` | crates/greentic-sorx-cli/src/nats_events.rs:92-106 | the worker's loop hands over, in order, exactly the queued envelopes that NATS accepts |
| `EventQueue.PublishIsAStep` | crates/greentic-sorx-cli/src/nats_events.rs:135-153 | a publish step changes the queue as the sink's method does |
| `EventQueue.DrainIsARun` | crates/greentic-sorx-cli/src/nats_events.rs:92-106 | from every state in which the worker receives, its steps over the queue form a run that hands over exactly what the loop does, and may then close |
| `EventQueue.EveryRun` | crates/greentic-sorx-cli/src/nats_events.rs:68-153 | in every run the queue holds at most 1024, every published envelope is in exactly one of five places, and what is handed over is in publish order without duplicates, ahead of what is held and queued |
| `EventQueue.RunsGoOn` | crates/greentic-sorx-cli/src/nats_events.rs:68-153 | publishers can publish exactly until they are dropped, and the worker can take its next step, waiting only for an envelope or the end |
| `EventQueue.CapacityIs` | crates/greentic-sorx-cli/src/nats_events.rs:30-30 | an open channel takes an envelope exactly while fewer than 1024 wait |
| `EventQueue.ClosedIsFinal` | crates/greentic-sorx-cli/src/nats_events.rs:76-106 | after the worker has closed nothing waits and nothing more is handed over |
| `EventQueue.NothingDroppedNothingMissing` | crates/greentic-sorx-cli/src/nats_events.rs:68-153 | a run that drops and loses nothing has exactly the published sequence handed over, held and queued |
| `EventQueue.AcceptedIsNeverDropped` | crates/greentic-sorx-cli/src/nats_events.rs:136-144 | in every run an envelope that was once accepted is never dropped later: it is handed over, held, queued or lost by the worker |
| `EventQueue.DroppedExactlyOnArrival` | crates/greentic-sorx-cli/src/nats_events.rs:135-153 | in every run the dropped envelopes are exactly those published to a full queue or after the worker closed |
| `Visibility.PolicySet` | crates/greentic-sorx-cli/src/http_runtime.rs:4186-4219 | an action is hidden exactly when the caller cannot see it, a record exactly when it has an endpoint and none is visible |
| `Visibility.RuleDecides` | crates/greentic-sorx-cli/src/http_runtime.rs:4221-4275 | beside the endpoint's own rule, reading goes by the record's read rule, creating, updating and deleting each by their own, and a command by any rule that is stated and met |
| `Visibility.RecordHiddenIs` | crates/greentic-sorx-cli/src/http_runtime.rs:4205-4219 | a record is hidden exactly when endpoints for it exist and the caller sees none of them |
| `Visibility.AllNamedRolesSee` | crates/greentic-sorx-cli/src/http_runtime.rs:4221-4275 | a caller holding every named role sees an endpoint exactly unless it is a command of a record whose access states no rule |
| `Visibility.HiddenFromAllExactly` | crates/greentic-sorx-cli/src/http_runtime.rs:4221-4275 | no caller at all sees an endpoint exactly when it is a command of a record whose access states no rule |
| `Visibility.MoreRolesHideNothing` | crates/greentic-sorx-cli/src/http_runtime.rs:4221-4275 | more roles never hide an action or a record |

## Left out

- JSON trees are values: `set_nested_answer`, `require_schema_path`, `clear_required_fields`, the materialisation and the card rewriting change a tree through a moving reference, and the model returns the changed tree. Update in place and aliasing are not captured.
- MetricQuery.QueryMetric: the serialisation of a group key is any function that gives the different keys of the collection different texts; the JSON printer itself is not modelled.
- MetricQuery.FilterHolds: starts from operators whose spelling is already normalised.
- Aggregates.AggregateState.Push: numbers are exact, so rounding, overflow and signed zero of 64-bit floats are not modelled.
- ParentContext.ParentValueIsContextId: asks that every number prints as some text, which JSON numbers do.
- RecordList.Sorted: the sorting algorithm of the library is not modelled; any algorithm that sorts gives the same list by `RecordList.SortIsUnique`.
- RolesRuns.Step: no lookup panics while it holds the lock, so interleaved runs have no poisoned lock.
- Visibility.PolicySet: relies on the router holding each endpoint under its own id, which its constructor ensures.
- The metric formula evaluator, the policy engine, the migration runner, the deployment registry and runtime invocation.
- Sockets, HTTP parsing, threads, files, environment variables, JWT checks, hashing and registry pulls.
- Rendering of card texts, locale tables and command-line definitions.
- The JWKS cache, approval and audit answers, presence announcements, the JSON-RPC dispatcher and the event bridge mapping, which would add only easier members.
