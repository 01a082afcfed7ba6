# WAX Labs proposals: list filtering, chain lookups and deliverable helpers

A Dafny model of the logic in the WAX Labs front end and in its notification service. WAX Labs is a
funding-proposal system on the WAX blockchain. The model covers five parts.

- **Proposal list page** (`GenericProposals`). It has three filters over the fetched proposals:
  status, category name and a case-insensitive name search. The "created" comparator orders
  proposals by `proposal_id`. An effect copies the proposal list, filters the copy and sorts it in
  place. The results of several table queries are flattened into one list.
- **Proposal card** (`ProposalGrid`). The requested amount is shown as the asset string with its
  last 13 characters cut off and `" WAX"` appended.
- **Notification service lookups** (`WaxQueries`). `get_proposal` and `get_profile` read one row
  of the labs contract's proposals table through a single-key range query. `get_proposal` skips
  empty rows and raises not-found when no non-empty row is left. `get_profile` decodes the first
  row, whatever it holds, and returns `None` when there is no row.
- **Deliverable list on the proposal page** (`Deliverables`). It covers the "last reviewed" label
  with its never-reviewed sentinel and the search for the first rejected deliverable. That search
  switches on the reject-comment query. It also covers the `reduce` from the comment response
  into an id-to-comment map, whether the reject-report entry is shown, and the 1-based numbering.
- **String helpers** (`Text`). These model JavaScript's `toLowerCase`, `includes` and `slice`.
  `Wrappers` holds `Option`.

JavaScript `undefined`/`null` and Python `None` are `Option.None`. A query-string filter value is a
`Selection`: missing, a single string or a list of strings. The outcome of a Python coroutine
annotated `-> Proposal | None` is `Outcome`: it either returns an optional value or raises.

The contract table is a `map` from primary key to decoded row. `get_table_rows` becomes
`GetTableRows`: the rows in the key range, in key order, cut to `limit`. The pydantic decoders
(`Proposal.model_validate`, `Proposal(**row)`) are function parameters. So are `Date.parse`
(`string -> Option<int>`, with `None` for NaN) and `format(parseISO(...))`. The never-reviewed
sentinel's value is also a parameter.

Three helper definitions carry no contract of their own. `CategoryName` is JavaScript's read
`categories[index]`, which is `undefined` outside the array. `CompareValue` is how `sort` reads a
comparator result: a number as itself and `undefined` as 0. `PassesAll` is the conjunction of the
category, status and name filters, as one predicate. The contracts of `FilterByCategories`,
`ComparisonAntisymmetric`, `SortedBy`, `ApplyFilters` and `FilterAndSort` state what follows from
them.

## Model

| member | source | states |
|---|---|---|
| `GenericProposals.FilterByStatus` | src/partials/GenericProposals.js:44-54 | A missing or empty-string status, or an empty list, accepts every proposal. A non-empty scalar accepts exactly the proposals whose status equals it. A non-empty list accepts exactly those whose status is in it. |
| `GenericProposals.FilterByCategories` | src/partials/GenericProposals.js:55-65 | The same four-case rule, applied to the category's name. A proposal whose category index has no name passes only an unconstrained filter. |
| `GenericProposals.FilterByName` | src/partials/GenericProposals.js:67-77 | An empty search accepts everything. Otherwise a proposal passes iff the lower-cased search occurs in the lower-cased proposer, title or description. |
| `GenericProposals.SearchIgnoresCase` | src/partials/GenericProposals.js:72-74 | Two search strings that are equal after lower-casing select the same proposals. |
| `GenericProposals.SearchLowerCasedIsSame` | src/partials/GenericProposals.js:72-74 | Lower-casing the search string beforehand never changes the result. |
| `GenericProposals.Filter` | src/partials/GenericProposals.js:82-84 | Every element `filter` keeps passes the predicate. The result is no longer than the input. |
| `GenericProposals.FilterCounts` | src/partials/GenericProposals.js:82-84 | `filter` keeps every copy of each accepted element and no copy of a rejected one. |
| `GenericProposals.FilterAppend` | src/partials/GenericProposals.js:82-84 | Filtering a concatenation concatenates the filtered parts, so `filter` keeps the input order. |
| `GenericProposals.FilterTwice` | src/partials/GenericProposals.js:82-84 | Two successive filters equal one filter by the conjunction, as sequences, so order is kept too. |
| `GenericProposals.ApplyFilters` | src/partials/GenericProposals.js:82-84 | The three successive filters equal one filter by the combined predicate, in input order. So the list holds exactly the proposals that pass all three, each as often as in the input. |
| `GenericProposals.ProposalComparison` | src/partials/GenericProposals.js:91-116 | The comparator answers only for "created" with a known mode. Ascending is negative iff a's id is smaller. Descending is negative iff a's id is larger. The result is zero iff the ids are equal. |
| `GenericProposals.ComparisonAntisymmetric` | src/partials/GenericProposals.js:105-114 | `cmp(a, b) == -cmp(b, a)`, with `undefined` read as 0. |
| `GenericProposals.ComparisonIsKeyDifference` | src/partials/GenericProposals.js:105-114 | The comparator is the difference of a sort key: the id, the negated id, or 0. |
| `GenericProposals.SortedByCreated` | src/partials/GenericProposals.js:105-114 | Sorted under created/ascending means non-decreasing ids. Sorted under created/descending means non-increasing ids. |
| `GenericProposals.SortedByUnknownOrder` | src/partials/GenericProposals.js:91-116 | When the comparator returns `undefined`, every order counts as sorted. |
| `GenericProposals.SortProposals` | src/partials/GenericProposals.js:85 | Sorting in place leaves the array sorted for the comparator and a permutation of the old one. The array is untouched when the comparator never answers. |
| `GenericProposals.SinkInto` | src/partials/GenericProposals.js:85 | One insertion step extends the sorted prefix by one element and keeps the same multiset. |
| `GenericProposals.FilterAndSort` | src/partials/GenericProposals.js:79-89 | The result is a permutation of the sub-multiset of `proposals` that passes every filter, and it is sorted. When the comparator never answers, the result is the filtered list in input order. `proposals` is only read, because the method has no `modifies` clause. |
| `GenericProposals.ConcatLength` | src/partials/GenericProposals.js:142-145 | The flattened list's length is the sum of the lists' lengths. |
| `GenericProposals.ConcatPlacesInOrder` | src/partials/GenericProposals.js:142-145 | Element `k` of list `i` lands at the combined length of lists `0..i-1`, plus `k`. So the lists appear one after another, in order. |
| `GenericProposals.FlattenResults` | src/partials/GenericProposals.js:142-145 | The `forEach` that appends each list yields their concatenation, of total length. |
| `Text.Lower` | src/partials/GenericProposals.js:72 | `toLowerCase` keeps the length and lower-cases each character. |
| `Text.LowerIdempotent` | src/partials/GenericProposals.js:72 | Lower-casing twice is lower-casing once. |
| `Text.Includes` | src/partials/GenericProposals.js:72-74 | `includes` is true iff the needle occurs at some position of the haystack. |
| `Text.Slice` | src/partials/ProposalGridSingle.js:12 | `slice` returns one contiguous piece of the string, no longer than it. In-range indices select exactly that range. `slice(0, -k)` drops the last `k` characters, or everything when `k` is at least the length. A start at or past the end, or past a non-negative end, gives the empty string. |
| `ProposalGrid.ReadableAmount` | src/partials/ProposalGridSingle.js:12 | The readable amount always ends with `" WAX"`. |
| `ProposalGrid.ReadableAmountKeepsPrefix` | src/partials/ProposalGridSingle.js:12 | The text before `" WAX"` is the input's prefix of length `max(0, len - 13)`. |
| `ProposalGrid.ShortAmountIsBareUnit` | src/partials/ProposalGridSingle.js:12 | An input of 13 characters or fewer gives exactly `" WAX"`. |
| `ProposalGrid.AssetShownAsWholeWax` | src/partials/ProposalGridSingle.js:12 | `<whole>.<8 decimals> WAX` is shown as `<whole> WAX`. |
| `WaxQueries.ProposalQuery` | notifications/src/notifications/wax_interface/queries/proposals.py:8-16 | `get_proposal` asks for the range holding only `proposal_id`, with `limit=1` and decoded rows. |
| `WaxQueries.ProfileQuery` | notifications/src/notifications/wax_interface/queries/profile.py:7-14 | `get_profile` asks for the range holding only `proposal_id`, with no limit and decoded rows. |
| `WaxQueries.RowsInRange` | notifications/src/notifications/wax_interface/queries/proposals.py:12-13 | The range yields one row per stored key inside it, in ascending key order: each stored key's row sits after the rows of the smaller stored keys. Every row yielded is stored under a key inside the range. An empty range yields nothing. |
| `WaxQueries.Take` | notifications/src/notifications/wax_interface/queries/proposals.py:14 | The result is a prefix of the rows. Its length is exactly `limit`, or all rows when there are fewer. No limit keeps every row. |
| `WaxQueries.GetTableRows` | notifications/src/notifications/wax_interface/queries/proposals.py:8-16 | The query yields the range's rows in key order, cut to `limit`. With no limit it yields all of them. With a limit it yields a prefix of exactly `min(limit, n)` rows, each stored under a key in the range. A single-key query with a non-zero limit yields exactly the row stored under that key, if any. |
| `WaxQueries.SingleKeyRange` | notifications/src/notifications/wax_interface/queries/proposals.py:12-13 | The range `lower = upper = id` yields exactly the row stored under `id`, if any. |
| `WaxQueries.FirstTruthyRow` | notifications/src/notifications/wax_interface/queries/proposals.py:8-20 | The search never returns `None`. It raises not-found iff no row is non-empty. Otherwise it returns the decoded first non-empty row, so empty rows are skipped. |
| `WaxQueries.FirstRow` | notifications/src/notifications/wax_interface/queries/profile.py:7-17 | It never raises. With rows, it returns the first one decoded, with no emptiness check. With no rows, it returns `None`. |
| `WaxQueries.GetProposal` | notifications/src/notifications/wax_interface/queries/proposals.py:7-20 | It returns the validated row stored under the id iff that row exists and is non-empty. Otherwise it raises `WaxObjectNotFound`. |
| `WaxQueries.GetProfile` | notifications/src/notifications/wax_interface/queries/profile.py:6-17 | It returns the decoded row stored under the id when there is one, and `None` otherwise. It never raises. |
| `WaxQueries.LimitOneDecidesByFirstRow` | notifications/src/notifications/wax_interface/queries/proposals.py:14-18 | With at most one row (`limit=1`), only that row decides the outcome. |
| `WaxQueries.ProfileReadsOnlyFirstRow` | notifications/src/notifications/wax_interface/queries/profile.py:14-15 | Rows after the first never affect `get_profile`. |
| `WaxQueries.LookupsAgreeOnTruthyFirstRow` | notifications/src/notifications/wax_interface/queries/profile.py:14-15 | On a non-empty first row, both lookups return the same decoded row. |
| `WaxQueries.LookupsDisagreeOnlyWithoutTruthyFirstRow` | notifications/src/notifications/wax_interface/queries/proposals.py:17-20 | The lookups differ only on an empty sequence or an empty first row. |
| `WaxQueries.AbsenceHandling` | notifications/src/notifications/wax_interface/queries/profile.py:6-17 | For a stored non-empty row, both lookups agree. For a missing key, `get_proposal` raises and `get_profile` returns `None`. For a stored empty row, `get_proposal` raises and `get_profile` decodes it. |
| `Deliverables.FormatLastReviewed` | src/components/ProposalDetail/ProposalDetailDeliverables.tsx:44-49 | The label is "-" or the formatted date. It is "-" for the sentinel and whenever `Date.parse` is falsy: NaN, and also 0 for the epoch. It is the formatted date when `Date.parse` is truthy and the input is not the sentinel. |
| `Deliverables.LastReviewedLabel` | src/components/ProposalDetail/ProposalDetailDeliverables.tsx:135 | The label is "-" or the formatted `review_time \|\| ''`. A review time that parses truthily and is not the sentinel is shown formatted. The sentinel shows "-". A review time that is missing or does not parse to a truthy number shows "-". |
| `Deliverables.MissingReviewTimeShowsDash` | src/components/ProposalDetail/ProposalDetailDeliverables.tsx:135 | A missing `review_time` becomes `''`, which does not parse, so the label is "-". |
| `Deliverables.FindRejected` | src/components/ProposalDetail/ProposalDetailDeliverables.tsx:51 | It finds a deliverable iff one is rejected, and then it returns the first rejected one. |
| `Deliverables.RejectedDeliverable` | src/components/ProposalDetail/ProposalDetailDeliverables.tsx:51 | Nothing is found while the list has not loaded. Once it has, a deliverable is found iff one is rejected, and it is the list's first rejected one. |
| `Deliverables.CommentQueryEnabled` | src/components/ProposalDetail/ProposalDetailDeliverables.tsx:63 | The comment query is enabled iff the loaded list has a rejected deliverable. |
| `Deliverables.CommentMap` | src/components/ProposalDetail/ProposalDetailDeliverables.tsx:57-61 | Every entry of the map is the id and comment of some item of the response. |
| `Deliverables.CommentMapKeys` | src/components/ProposalDetail/ProposalDetailDeliverables.tsx:57-61 | The map's keys are exactly the response's deliverable ids. An empty response gives an empty map. |
| `Deliverables.CommentMapLastWins` | src/components/ProposalDetail/ProposalDetailDeliverables.tsx:58 | For a repeated id, the comment of its last item is the one kept. |
| `Deliverables.CommentsByDeliverable` | src/components/ProposalDetail/ProposalDetailDeliverables.tsx:56-61 | The `reduce` loop, which overwrites `acc[id]` item by item, builds the comment map. |
| `Deliverables.ShowsRejectReport` | src/components/ProposalDetail/ProposalDetailDeliverables.tsx:157 | The entry shows iff the comment map has loaded, the deliverable has an id, and the map holds a non-empty comment for it. A missing key or `''` hides it. |
| `Deliverables.RejectReportShownIffLastCommentNonEmpty` | src/components/ProposalDetail/ProposalDetailDeliverables.tsx:157 | The reject-report entry shows iff the last response item for the deliverable's id has a non-empty comment. |
| `Deliverables.NumberedDeliverables` | src/components/ProposalDetail/ProposalDetailDeliverables.tsx:86-91 | Every deliverable is shown, in list order. The numbers run consecutively from 1 to n. |

## Left out

- GenericProposals.ProposalComparison: the requested-amount ordering (GenericProposals.js:93-104) is excluded by `requires order.field != RequestedField`. It depends on `requestedAmountToFloat` and floating-point subtraction, and `src/utils/util.js` is not part of this model.
- GenericProposals.SortProposals: it has the same requires as the comparator. It proves stability only for the case where the comparator never answers. JavaScript's built-in sort is stable, but stability in general is not stated.
- GenericProposals.SinkInto: it has the same requires as the comparator.
- GenericProposals.FilterAndSort: it has the same requires as the comparator. It states the output order exactly only when the comparator never answers. With "created" ordering it states sortedness and the multiset, but not the relative order of proposals with equal ids.
- Text.Lower: it lower-cases ASCII `A`-`Z` only. JavaScript's `toLowerCase` follows the full Unicode case mapping.
- The order-by string is taken already split into field and mode. The separator and the field and mode names come from `src/utils/vars.js`, which is not part of this model.
- `useQueryString` is not modelled. The model starts from the decoded filter values, and reading the query string into a `Selection` is left out.
- The network side is not modelled. This covers `getProposals`/`get_table_rows`, `Promise.all`, the cancellation flag, the default list of eight status queries, `wax.rpc.get_table_rows` in `ActiveProposals.js` and `VotingProposals.js`, and transport errors. Only the flattening of the fetched lists is modelled.
- The decoders are total functions, so the model has no pydantic validation errors. This applies to `Proposal.model_validate` and `Proposal(**row)`.
- WaxQueries.LookupsAgreeOnTruthyFirstRow: it, `LookupsDisagreeOnlyWithoutTruthyFirstRow` and `AbsenceHandling` take one shared decoder for both lookups. So they assume that `Proposal.model_validate(row)` and `Proposal(**row)` give the same proposal for a dictionary row. The model does not capture pydantic differences between the two, such as strict-mode validation.
- Raw rows (`full=False`) and the node's default row limit are not modelled. `get_profile`'s query is modelled as uncapped, and it reads only the first row anyway.
- Deliverables.FormatLastReviewed: `render`, which stands for `format(parseISO(x))`, is total. In the source, `parseISO` can reject a string that `Date.parse` accepts, for example a non-ISO date. `format` then throws a `RangeError`, and the model does not capture that throw.
- Text.Slice: Dafny strings hold Unicode scalar values, but JavaScript's `slice` and `includes` count UTF-16 code units. So the model differs from the source on text outside the Basic Multilingual Plane. `Text.Includes` has the same gap.
- `Date.parse`, `parseISO` and `format` are parameters. The value of `NEVER_REVIEWED_DATE` is a parameter too, because `src/constants.ts` is not part of this model.
- JavaScript object keys are strings. `Record<number, string>` is modelled as `map<int, string>`.
- React state, loading flags, query caching and all JSX rendering are not modelled. This includes the reject-report link target, the "completion report" entry and the admin action components.
- The listed UI files have no logic to verify, so they are not modelled: `ProfileCard.tsx`, `Header/Notifications.js`, `ProposalFilter.js`, `InProgressProposals.js`, `ArchivedProposals.js` and `NotificationGroup.tsx`.
- The schema migration, the service bootstrap (`main.py`), `queryClient.ts`, `main.tsx` and `performanceMonitoring.ts` are declarative, configuration or logging code, and are not modelled.
