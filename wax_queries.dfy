/**
 * The notification service's two single-row lookups in the labs contract's
 * proposals table: `get_proposal`, for which absence is an error, and
 * `get_profile`, for which absence is an ordinary `None`.
 *
 * The contract table is a map from primary key to decoded row; the chain
 * client's `get_table_rows` yields the rows in a key range, cut to `limit`.
 * The pydantic decoding steps (`Proposal.model_validate(row)`,
 * `Proposal(**row)`) are function parameters.
 */
module WaxQueries {
  import opened Wrappers

  /** A decoded table row: the dictionary the chain client yields. */
  datatype Row = Row(fields: map<string, string>)

  /** Python truthiness of a row: a non-empty dictionary. */
  predicate Truthy(row: Row) {
    |row.fields| > 0
  }

  datatype QueryError = WaxObjectNotFound

  /**
   * How a coroutine annotated `-> Proposal | None` can end: it returns a
   * proposal or `None`, or it raises.
   */
  datatype Outcome<P> = Returned(value: Option<P>) | Raised(error: QueryError)

  /** The `get_table_rows` arguments the two lookups set. */
  datatype TableQuery = TableQuery(lowerBound: int, upperBound: int, limit: Option<nat>, full: bool)

  /** Key `k` lies in the query's inclusive bounds. */
  predicate Covers(q: TableQuery, k: int) {
    q.lowerBound <= k <= q.upperBound
  }

  /** `get_proposal`'s query: the single key `proposal_id`, at most one row, decoded rows. */
  function ProposalQuery(proposalId: int): (q: TableQuery)
    ensures forall k :: Covers(q, k) <==> k == proposalId
    ensures q.limit == Some(1) && q.full
  {
    TableQuery(proposalId, proposalId, Some(1), true)
  }

  /** `get_profile`'s query: the same single key, no `limit`. */
  function ProfileQuery(proposalId: int): (q: TableQuery)
    ensures forall k :: Covers(q, k) <==> k == proposalId
    ensures q.limit.None? && q.full
  {
    TableQuery(proposalId, proposalId, None, true)
  }

  /** How many keys in `lower..upper - 1` hold a row. */
  function StoredBetween(table: map<int, Row>, lower: int, upper: int): nat
    decreases upper - lower
  {
    if lower >= upper then 0
    else (if lower in table then 1 else 0) + StoredBetween(table, lower + 1, upper)
  }

  /**
   * The rows stored under keys `lower..upper`, in key order: one per stored
   * key, each at the position given by the number of stored keys before it,
   * and nothing that is not stored in the range.
   */
  function RowsInRange(table: map<int, Row>, lower: int, upper: int): (rows: seq<Row>)
    ensures lower > upper ==> rows == []
    ensures forall r :: r in rows ==> exists k :: lower <= k <= upper && k in table && table[k] == r
    ensures |rows| == StoredBetween(table, lower, upper + 1)
    ensures forall k :: lower <= k <= upper && k in table ==>
              StoredBetween(table, lower, k) < |rows| && rows[StoredBetween(table, lower, k)] == table[k]
    decreases upper - lower
  {
    if lower > upper then []
    else
      var rest := RowsInRange(table, lower + 1, upper);
      var head := if lower in table then [table[lower]] else [];
      assert forall k :: lower < k <= upper ==>
               StoredBetween(table, lower, k) == |head| + StoredBetween(table, lower + 1, k);
      head + rest
  }

  /** The first `limit` rows, or all of them when no limit is given. */
  function Take(rows: seq<Row>, limit: Option<nat>): (r: seq<Row>)
    ensures limit.Some? ==> |r| == if limit.value < |rows| then limit.value else |rows|
    ensures r <= rows
    ensures limit.None? ==> r == rows
  {
    if limit.Some? && limit.value < |rows| then rows[..limit.value] else rows
  }

  /**
   * What `get_table_rows` yields for a query (decoded rows only; `full` is
   * always set here): the range's rows in key order, cut to `limit`.
   */
  function GetTableRows(table: map<int, Row>, q: TableQuery): (rows: seq<Row>)
    ensures rows <= RowsInRange(table, q.lowerBound, q.upperBound)
    ensures q.limit.None? ==> rows == RowsInRange(table, q.lowerBound, q.upperBound)
    ensures q.limit.Some? ==>
              |rows| == if q.limit.value < |RowsInRange(table, q.lowerBound, q.upperBound)| then q.limit.value
                        else |RowsInRange(table, q.lowerBound, q.upperBound)|
    ensures q.limit.Some? ==> |rows| <= q.limit.value
    ensures forall r :: r in rows ==> exists k :: Covers(q, k) && k in table && table[k] == r
    ensures q.lowerBound == q.upperBound && q.limit != Some(0) ==>
              rows == if q.lowerBound in table then [table[q.lowerBound]] else []
  {
    var inRange := RowsInRange(table, q.lowerBound, q.upperBound);
    var rows := Take(inRange, q.limit);
    assert forall r :: r in rows ==> r in inRange;
    assert q.lowerBound == q.upperBound ==>
             inRange == if q.lowerBound in table then [table[q.lowerBound]] else [];
    rows
  }

  /** A single-key range yields the row stored under that key, if any. */
  lemma SingleKeyRange(table: map<int, Row>, key: int)
    ensures RowsInRange(table, key, key) == if key in table then [table[key]] else []
  {
  }

  /** Row `i` is the first truthy row. */
  ghost predicate FirstTruthyAt(rows: seq<Row>, i: int) {
    0 <= i < |rows| && Truthy(rows[i]) && forall j :: 0 <= j < i ==> !Truthy(rows[j])
  }

  /**
   * The `async for` of `get_proposal`: skip falsy rows, decode the first
   * truthy one, raise not-found when the rows run out. It never returns `None`.
   */
  function FirstTruthyRow<P>(rows: seq<Row>, validate: Row -> P): (r: Outcome<P>)
    ensures r.Returned? ==> r.value.Some?
    ensures r.Raised? <==> forall i :: 0 <= i < |rows| ==> !Truthy(rows[i])
    ensures r.Returned? ==> exists i :: FirstTruthyAt(rows, i) && r.value.value == validate(rows[i])
  {
    if rows == [] then Raised(WaxObjectNotFound)
    else if Truthy(rows[0]) then
      assert FirstTruthyAt(rows, 0);
      Returned(Some(validate(rows[0])))
    else
      var r := FirstTruthyRow(rows[1..], validate);
      assert r.Returned? ==> exists i :: FirstTruthyAt(rows, i) && r.value.value == validate(rows[i]) by {
        if r.Returned? {
          var i :| FirstTruthyAt(rows[1..], i) && r.value.value == validate(rows[1..][i]);
          assert FirstTruthyAt(rows, i + 1);
        }
      }
      r
  }

  /** The loop of `get_profile`: decode the first row whatever it holds, `None` when there is none. */
  function FirstRow<P>(rows: seq<Row>, construct: Row -> P): (r: Outcome<P>)
    ensures r.Returned?
    ensures r.value.Some? <==> |rows| > 0
    ensures |rows| > 0 ==> r.value.value == construct(rows[0])
  {
    if |rows| > 0 then Returned(Some(construct(rows[0]))) else Returned(None)
  }

  /** `get_proposal(proposal_id)`. */
  function GetProposal<P>(table: map<int, Row>, proposalId: int, validate: Row -> P): (r: Outcome<P>)
    ensures r == if proposalId in table && Truthy(table[proposalId])
                 then Returned(Some(validate(table[proposalId])))
                 else Raised(WaxObjectNotFound)
  {
    SingleKeyRange(table, proposalId);
    FirstTruthyRow(GetTableRows(table, ProposalQuery(proposalId)), validate)
  }

  /** `get_profile(proposal_id)`. */
  function GetProfile<P>(table: map<int, Row>, proposalId: int, construct: Row -> P): (r: Outcome<P>)
    ensures r == if proposalId in table then Returned(Some(construct(table[proposalId]))) else Returned(None)
  {
    SingleKeyRange(table, proposalId);
    FirstRow(GetTableRows(table, ProfileQuery(proposalId)), construct)
  }

  /** With at most one row, as `limit=1` guarantees, only that row decides `get_proposal`. */
  lemma LimitOneDecidesByFirstRow<P>(rows: seq<Row>, validate: Row -> P)
    requires |rows| <= 1
    ensures FirstTruthyRow(rows, validate) ==
              if |rows| == 1 && Truthy(rows[0]) then Returned(Some(validate(rows[0])))
              else Raised(WaxObjectNotFound)
  {
  }

  /** `get_profile` consumes only the first row: whatever follows it is never looked at. */
  lemma ProfileReadsOnlyFirstRow<P>(first: Row, rest: seq<Row>, construct: Row -> P)
    ensures FirstRow([first] + rest, construct) == FirstRow([first], construct)
  {
  }

  /** A present, non-empty first row: both lookups decode that same row. */
  lemma LookupsAgreeOnTruthyFirstRow<P>(rows: seq<Row>, decode: Row -> P)
    requires |rows| > 0 && Truthy(rows[0])
    ensures FirstTruthyRow(rows, decode) == FirstRow(rows, decode) == Returned(Some(decode(rows[0])))
  {
  }

  /** The lookups can only disagree when there is no row or the first row is empty. */
  lemma LookupsDisagreeOnlyWithoutTruthyFirstRow<P>(rows: seq<Row>, decode: Row -> P)
    requires FirstTruthyRow(rows, decode) != FirstRow(rows, decode)
    ensures rows == [] || !Truthy(rows[0])
  {
  }

  /**
   * On the contract table: a stored, non-empty row is found by both lookups;
   * a missing key is an error for `get_proposal` and `None` for `get_profile`;
   * a stored empty row is an error for `get_proposal` but decoded by `get_profile`.
   */
  lemma AbsenceHandling<P>(table: map<int, Row>, proposalId: int, decode: Row -> P)
    ensures proposalId in table && Truthy(table[proposalId]) ==>
              GetProposal(table, proposalId, decode) == GetProfile(table, proposalId, decode)
    ensures proposalId !in table ==>
              GetProposal(table, proposalId, decode) == Raised(WaxObjectNotFound)
              && GetProfile(table, proposalId, decode) == Returned(None)
    ensures proposalId in table && !Truthy(table[proposalId]) ==>
              GetProposal(table, proposalId, decode) == Raised(WaxObjectNotFound)
              && GetProfile(table, proposalId, decode) == Returned(Some(decode(table[proposalId])))
  {
  }
}
