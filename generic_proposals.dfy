/**
 * The proposal list page: the three filters (status, category, name search),
 * the "created" ordering, the filter-then-sort pipeline and the flattening of
 * the per-query result lists into one list.
 */
module GenericProposals {
  import opened Wrappers
  import opened Text

  /** A proposal row as the list page sees it. */
  datatype Proposal = Proposal(
    proposalId: int,
    proposer: string,
    title: string,
    description: string,
    status: string,
    category: int,            // index into the page's category names
    totalRequestedFunds: string)

  /**
   * A filter value read from the query string: missing (`null`/`undefined`),
   * a single string, or a list of strings.
   */
  datatype Selection = Absent | Single(value: string) | Many(values: seq<string>)

  /** JavaScript falsiness of a selection: missing, or the empty string. Lists are always truthy. */
  predicate Falsy(sel: Selection) {
    sel.Absent? || sel == Single("")
  }

  /** The selection constrains nothing: falsy, or an empty list. */
  predicate Unconstrained(sel: Selection) {
    Falsy(sel) || sel == Many([])
  }

  /**
   * The four-case rule shared by the status and category filters, applied to
   * `key` (which is `undefined`, i.e. `None`, when a category index has no name).
   */
  predicate SelectionAccepts(sel: Selection, key: Option<string>)
  {
    if Falsy(sel) then true
    else if sel.Single? then key == Some(sel.value)
    else if |sel.values| == 0 then true
    else key.Some? && key.value in sel.values
  }

  /** The status filter. */
  predicate FilterByStatus(statusList: Selection, p: Proposal)
    ensures Unconstrained(statusList) ==> FilterByStatus(statusList, p)
    ensures statusList.Single? && statusList.value != "" ==>
              (FilterByStatus(statusList, p) <==> p.status == statusList.value)
    ensures statusList.Many? && statusList.values != [] ==>
              (FilterByStatus(statusList, p) <==> p.status in statusList.values)
  {
    SelectionAccepts(statusList, Some(p.status))
  }

  /** `categories[index]`, `undefined` outside the array. */
  function CategoryName(categories: seq<string>, index: int): Option<string> {
    if 0 <= index < |categories| then Some(categories[index]) else None
  }

  /** The category filter: the same rule, applied to the category's name rather than its index. */
  predicate FilterByCategories(categoriesList: Selection, categories: seq<string>, p: Proposal)
    ensures Unconstrained(categoriesList) ==> FilterByCategories(categoriesList, categories, p)
    ensures categoriesList.Single? && categoriesList.value != "" ==>
              (FilterByCategories(categoriesList, categories, p) <==>
                 0 <= p.category < |categories| && categories[p.category] == categoriesList.value)
    ensures categoriesList.Many? && categoriesList.values != [] ==>
              (FilterByCategories(categoriesList, categories, p) <==>
                 0 <= p.category < |categories| && categories[p.category] in categoriesList.values)
  {
    SelectionAccepts(categoriesList, CategoryName(categories, p.category))
  }

  /** `search` occurs in `field` when case is ignored. */
  ghost predicate Mentions(field: string, search: string) {
    exists i :: OccursAt(Lower(field), Lower(search), i)
  }

  /** The search box: the lower-cased search string occurs in the lower-cased proposer, title or description. */
  predicate FilterByName(filterString: string, p: Proposal)
    ensures filterString == "" ==> FilterByName(filterString, p)
    ensures filterString != "" ==>
              (FilterByName(filterString, p) <==>
                 Mentions(p.proposer, filterString)
                 || Mentions(p.title, filterString)
                 || Mentions(p.description, filterString))
  {
    if filterString == "" then true
    else
      Includes(Lower(p.proposer), Lower(filterString))
      || Includes(Lower(p.title), Lower(filterString))
      || Includes(Lower(p.description), Lower(filterString))
  }

  /** Two search strings that agree up to case select the same proposals. */
  lemma SearchIgnoresCase(s: string, t: string, p: Proposal)
    requires Lower(s) == Lower(t)
    ensures FilterByName(s, p) == FilterByName(t, p)
  {
  }

  /** In particular, lower-casing the search string first changes nothing. */
  lemma SearchLowerCasedIsSame(s: string, p: Proposal)
    ensures FilterByName(Lower(s), p) == FilterByName(s, p)
  {
    LowerIdempotent(s);
    SearchIgnoresCase(Lower(s), s, p);
  }

  /** The page's filter state. */
  datatype FilterSettings = FilterSettings(
    statusList: Selection,
    categoriesList: Selection,
    categories: seq<string>,
    filterString: string)

  /** A proposal survives all three filters. */
  predicate Passes(f: FilterSettings, p: Proposal) {
    FilterByCategories(f.categoriesList, f.categories, p)
    && FilterByStatus(f.statusList, p)
    && FilterByName(f.filterString, p)
  }

  /** `Passes` as the predicate handed to `filter`. */
  function PassesAll(f: FilterSettings): Proposal -> bool {
    p => Passes(f, p)
  }

  /** `Array.prototype.filter`: keeps, in order, exactly the elements `keep` accepts, every copy of them. */
  function Filter(s: seq<Proposal>, keep: Proposal -> bool): (r: seq<Proposal>)
    ensures |r| <= |s|
    ensures forall i :: 0 <= i < |r| ==> keep(r[i])
  {
    if s == [] then []
    else (if keep(s[0]) then [s[0]] else []) + Filter(s[1..], keep)
  }

  /** `filter` keeps every element that passes, as often as it occurs, and nothing else. */
  lemma {:induction false} FilterCounts(s: seq<Proposal>, keep: Proposal -> bool)
    ensures forall x :: multiset(Filter(s, keep))[x] == if keep(x) then multiset(s)[x] else 0
  {
    if s != [] {
      assert s == [s[0]] + s[1..];
      FilterCounts(s[1..], keep);
    }
  }

  /**
   * `filter` keeps order: filtering a concatenation filters each part and
   * keeps the parts in place. With `Filter([x], keep)` being `[x]` or `[]`,
   * this pins down the result completely.
   */
  lemma {:induction false} FilterAppend(s: seq<Proposal>, t: seq<Proposal>, keep: Proposal -> bool)
    ensures Filter(s + t, keep) == Filter(s, keep) + Filter(t, keep)
  {
    if s != [] {
      var head := if keep(s[0]) then [s[0]] else [];
      assert (s + t)[0] == s[0];
      assert (s + t)[1..] == s[1..] + t;
      FilterAppend(s[1..], t, keep);
      calc {
        Filter(s + t, keep);
        head + Filter(s[1..] + t, keep);
        head + (Filter(s[1..], keep) + Filter(t, keep));
        (head + Filter(s[1..], keep)) + Filter(t, keep);
        Filter(s, keep) + Filter(t, keep);
      }
    } else {
      assert s + t == t;
    }
  }

  /** Filtering twice is filtering once by the conjunction. */
  lemma {:induction false} FilterTwice(s: seq<Proposal>, f: Proposal -> bool, g: Proposal -> bool, both: Proposal -> bool)
    requires forall x :: both(x) == (f(x) && g(x))
    ensures Filter(Filter(s, f), g) == Filter(s, both)
  {
    if s != [] {
      FilterTwice(s[1..], f, g, both);
      var rest := Filter(s[1..], f);
      if f(s[0]) {
        assert Filter(s, f) == [s[0]] + rest;
        assert ([s[0]] + rest)[1..] == rest;
      } else {
        assert Filter(s, f) == rest;
      }
    }
  }

  // ---- ordering ----------------------------------------------------------

  /** The order-by field and mode, as split from the order-by query string. */
  datatype OrderField = RequestedField | CreatedField | OtherField
  datatype OrderMode = Ascendant | Descendant | OtherMode
  datatype OrderBy = OrderBy(field: OrderField, mode: OrderMode)

  /**
   * The comparator passed to `sort`. `None` is the `undefined` that the
   * comparator returns for a field or mode it does not know.
   */
  function ProposalComparison(order: OrderBy, a: Proposal, b: Proposal): (c: Option<int>)
    requires order.field != RequestedField
    ensures c.Some? <==> Keyed(order)
    ensures c.Some? && order.mode == Ascendant ==> (c.value < 0 <==> a.proposalId < b.proposalId)
    ensures c.Some? && order.mode == Descendant ==> (c.value < 0 <==> a.proposalId > b.proposalId)
    ensures c.Some? ==> (c.value == 0 <==> a.proposalId == b.proposalId)
  {
    if order.field == CreatedField then
      if order.mode == Ascendant then Some(a.proposalId - b.proposalId)
      else if order.mode == Descendant then Some(b.proposalId - a.proposalId)
      else None
    else None
  }

  /** How `sort` reads a comparator result: `undefined` coerces to NaN, which counts as 0. */
  function CompareValue(c: Option<int>): int {
    c.GetOr(0)
  }

  /** The comparator is antisymmetric: swapping the arguments negates the result. */
  lemma ComparisonAntisymmetric(order: OrderBy, a: Proposal, b: Proposal)
    requires order.field != RequestedField
    ensures CompareValue(ProposalComparison(order, a, b)) == -CompareValue(ProposalComparison(order, b, a))
  {
  }

  /** The comparator answers at all: "created" ordering with a known mode. */
  predicate Keyed(order: OrderBy) {
    order.field == CreatedField && order.mode != OtherMode
  }

  /** The sort key the comparator is a difference of. */
  function Key(order: OrderBy, p: Proposal): int {
    if order.field == CreatedField && order.mode == Ascendant then p.proposalId
    else if order.field == CreatedField && order.mode == Descendant then -p.proposalId
    else 0
  }

  lemma ComparisonIsKeyDifference(order: OrderBy, a: Proposal, b: Proposal)
    requires order.field != RequestedField
    ensures CompareValue(ProposalComparison(order, a, b)) == Key(order, a) - Key(order, b)
  {
  }

  /** `s` is sorted for the comparator: it never says that an earlier element belongs after a later one. */
  ghost predicate SortedBy(s: seq<Proposal>, order: OrderBy)
    requires order.field != RequestedField
  {
    forall i, j :: 0 <= i < j < |s| ==> CompareValue(ProposalComparison(order, s[i], s[j])) <= 0
  }

  /** Under "created" ordering, sorted means ascending or descending `proposal_id`. */
  lemma SortedByCreated(s: seq<Proposal>, mode: OrderMode)
    requires mode != OtherMode
    ensures mode == Ascendant ==>
              (SortedBy(s, OrderBy(CreatedField, mode)) <==>
                 forall i, j :: 0 <= i < j < |s| ==> s[i].proposalId <= s[j].proposalId)
    ensures mode == Descendant ==>
              (SortedBy(s, OrderBy(CreatedField, mode)) <==>
                 forall i, j :: 0 <= i < j < |s| ==> s[i].proposalId >= s[j].proposalId)
  {
  }

  /** With an unknown ordering every list counts as sorted. */
  lemma SortedByUnknownOrder(s: seq<Proposal>, order: OrderBy)
    requires order.field != RequestedField && !Keyed(order)
    ensures SortedBy(s, order)
  {
  }

  lemma KeySortedIsSorted(s: seq<Proposal>, order: OrderBy)
    requires order.field != RequestedField
    requires forall i, j :: 0 <= i < j < |s| ==> Key(order, s[i]) <= Key(order, s[j])
    ensures SortedBy(s, order)
  {
  }

  /** `a[..k]` is in key order. */
  ghost predicate KeySortedPrefix(a: seq<Proposal>, order: OrderBy, k: int) {
    forall x, y :: 0 <= x < y < k && y < |a| ==> Key(order, a[x]) <= Key(order, a[y])
  }

  /** Exchanges the neighbours at `j - 1` and `j`. */
  method SwapDown(a: array<Proposal>, j: int)
    requires 0 < j < a.Length
    modifies a
    ensures a[..] == old(a[..])[j - 1 := old(a[j])][j := old(a[j - 1])]
    ensures multiset(a[..]) == multiset(old(a[..]))
  {
    a[j - 1], a[j] := a[j], a[j - 1];
  }

  /**
   * One pass of the insertion sort: moves `a[i]` down past every neighbour the
   * comparator puts after it, so that `a[..i + 1]` ends up in order.
   */
  method SinkInto(a: array<Proposal>, i: int, order: OrderBy)
    requires order.field != RequestedField
    requires 0 < i < a.Length
    requires KeySortedPrefix(a[..], order, i)
    modifies a
    ensures KeySortedPrefix(a[..], order, i + 1)
    ensures multiset(a[..]) == multiset(old(a[..]))
    ensures !Keyed(order) ==> a[..] == old(a[..])
  {
    var j := i;
    while j > 0 && CompareValue(ProposalComparison(order, a[j - 1], a[j])) > 0
      invariant 0 <= j <= i
      invariant forall x, y :: 0 <= x < y <= i && y != j ==> Key(order, a[x]) <= Key(order, a[y])
      invariant multiset(a[..]) == multiset(old(a[..]))
      invariant !Keyed(order) ==> a[..] == old(a[..])
    {
      ComparisonIsKeyDifference(order, a[j - 1], a[j]);
      SwapDown(a, j);
      j := j - 1;
    }
    if j > 0 {
      ComparisonIsKeyDifference(order, a[j - 1], a[j]);
    }
  }

  /**
   * `list.sort(proposalComparison)` on the array: an insertion sort that only
   * swaps neighbours the comparator puts the other way round, and so leaves
   * the array alone when the comparator always answers 0 (stability under
   * tied ids is not stated).
   */
  method SortProposals(a: array<Proposal>, order: OrderBy)
    requires order.field != RequestedField
    modifies a
    ensures SortedBy(a[..], order)
    ensures multiset(a[..]) == multiset(old(a[..]))
    ensures !Keyed(order) ==> a[..] == old(a[..])
  {
    var i := 1;
    while i < a.Length
      invariant a.Length == 0 || 1 <= i <= a.Length
      invariant KeySortedPrefix(a[..], order, i)
      invariant multiset(a[..]) == multiset(old(a[..]))
      invariant !Keyed(order) ==> a[..] == old(a[..])
    {
      SinkInto(a, i, order);
      i := i + 1;
    }
    KeySortedIsSorted(a[..], order);
  }

  /**
   * The three `filter` calls of the effect, in the source's order: category,
   * status, name. What is left is every proposal that passes all three, each
   * as often as in the input.
   */
  method ApplyFilters(copy: seq<Proposal>, settings: FilterSettings) returns (s: seq<Proposal>)
    ensures s == Filter(copy, PassesAll(settings))
    ensures forall p :: multiset(s)[p] == if Passes(settings, p) then multiset(copy)[p] else 0
  {
    var byCategory := p => FilterByCategories(settings.categoriesList, settings.categories, p);
    var byStatus := p => FilterByStatus(settings.statusList, p);
    var byName := p => FilterByName(settings.filterString, p);
    s := Filter(copy, byCategory);
    s := Filter(s, byStatus);
    s := Filter(s, byName);
    ghost var categoryAndStatus := p => byCategory(p) && byStatus(p);
    FilterTwice(copy, byCategory, byStatus, categoryAndStatus);
    FilterTwice(copy, categoryAndStatus, byName, PassesAll(settings));
    FilterCounts(copy, PassesAll(settings));
  }

  /**
   * The effect that recomputes the visible list: copy `proposals`
   * (`slice(0)`), filter the copy, sort it. The result holds exactly the
   * proposals that pass every filter, each as often as in `proposals`, in
   * comparator order. `proposals` is only read: the method may modify nothing.
   */
  method FilterAndSort(proposals: array<Proposal>, settings: FilterSettings, order: OrderBy)
    returns (filtered: seq<Proposal>)
    requires order.field != RequestedField
    ensures forall p :: multiset(filtered)[p] == if Passes(settings, p) then multiset(proposals[..])[p] else 0
    ensures forall p :: p in filtered <==> p in proposals[..] && Passes(settings, p)
    ensures SortedBy(filtered, order)
    ensures !Keyed(order) ==> filtered == Filter(proposals[..], PassesAll(settings))
  {
    var copy := proposals[..];
    var s := ApplyFilters(copy, settings);
    var buffer := new Proposal[|s|](k requires 0 <= k < |s| => s[k]);
    assert buffer[..] == s;
    SortProposals(buffer, order);
    filtered := buffer[..];
    forall p ensures p in filtered <==> p in copy && Passes(settings, p) {
      assert p in filtered <==> multiset(filtered)[p] > 0;
      assert p in copy <==> multiset(copy)[p] > 0;
    }
  }

  // ---- flattening ---------------------------------------------------------

  /** The lists one after another, in order. */
  function Concat<T>(lists: seq<seq<T>>): seq<T> {
    if lists == [] then [] else Concat(lists[..|lists| - 1]) + lists[|lists| - 1]
  }

  /** The sum of the lists' lengths. */
  function TotalLength<T>(lists: seq<seq<T>>): nat {
    if lists == [] then 0 else TotalLength(lists[..|lists| - 1]) + |lists[|lists| - 1]|
  }

  lemma {:induction false} ConcatLength<T>(lists: seq<seq<T>>)
    ensures |Concat(lists)| == TotalLength(lists)
  {
    if lists != [] {
      ConcatLength(lists[..|lists| - 1]);
    }
  }

  /** Element `k` of list `i` sits at `k` past the combined length of the lists before it. */
  lemma {:induction false} ConcatPlacesInOrder<T>(lists: seq<seq<T>>, i: nat, k: nat)
    requires i < |lists| && k < |lists[i]|
    ensures TotalLength(lists[..i]) + k < |Concat(lists)|
    ensures Concat(lists)[TotalLength(lists[..i]) + k] == lists[i][k]
  {
    var n := |lists| - 1;
    var front := lists[..n];
    ConcatLength(front);
    ConcatLength(lists);
    if i == n {
      assert lists[..i] == front;
    } else {
      assert front[..i] == lists[..i];
      ConcatPlacesInOrder(front, i, k);
    }
  }

  /** `values.forEach(list => proposalList = [...proposalList, ...list])`. */
  method FlattenResults<T>(values: seq<seq<T>>) returns (proposalList: seq<T>)
    ensures proposalList == Concat(values)
    ensures |proposalList| == TotalLength(values)
  {
    proposalList := [];
    var i := 0;
    while i < |values|
      invariant 0 <= i <= |values|
      invariant proposalList == Concat(values[..i])
    {
      assert values[..i + 1][..i] == values[..i];
      proposalList := proposalList + values[i];
      i := i + 1;
    }
    assert values[..i] == values;
    ConcatLength(values);
  }
}
