/** The export stage: one fixed query over the `green_tripdata` table, a
    WHERE clause of five conditions and a SELECT list of sixteen columns,
    whose result is written to a single columnar file. */
module Export {
  import opened Wrappers
  import opened Trips
  import opened Seqs

  /** SQL's three truth values: a comparison with NULL is Unknown. */
  datatype Truth = True | False | Unknown

  /** SQL `AND`: False wins, then Unknown. */
  function And(a: Truth, b: Truth): Truth
  {
    if a == False || b == False then False
    else if a == Unknown || b == Unknown then Unknown
    else True
  }

  /** `x = k` for a nullable integer column. */
  function IntEquals(x: Option<int>, k: int): Truth
  {
    match x
    case None => Unknown
    case Some(v) => if v == k then True else False
  }

  /** `x > k` for a nullable amount column. */
  function Greater(x: Option<real>, k: real): Truth
  {
    match x
    case None => Unknown
    case Some(v) => if v > k then True else False
  }

  /** `x >= k` for a nullable amount column. */
  function AtLeast(x: Option<real>, k: real): Truth
  {
    match x
    case None => Unknown
    case Some(v) => if v >= k then True else False
  }

  /** The WHERE clause of the query, evaluated on one row. */
  function Where(t: Trip): Truth
  {
    And(And(And(And(
      IntEquals(t.paymentType, 1),
      Greater(t.fareAmount, 0.0)),
      AtLeast(t.tipAmount, 0.0)),
      Greater(t.tripDistance, 0.0)),
      Greater(t.totalAmount, 0.0))
  }

  /** WHERE keeps a row only when the clause is True, not False or Unknown. */
  predicate Kept(t: Trip)
  {
    Where(t) == True
  }

  /** The business rule in plain terms: paid by card (payment type 1), with a
      positive fare, distance and total and a non-negative tip, all present. */
  predicate MeetsAllConditions(t: Trip)
  {
    && t.paymentType == Some(1)
    && t.fareAmount.Some? && t.fareAmount.value > 0.0
    && t.tipAmount.Some? && t.tipAmount.value >= 0.0
    && t.tripDistance.Some? && t.tripDistance.value > 0.0
    && t.totalAmount.Some? && t.totalAmount.value > 0.0
  }

  /** The three-valued clause keeps exactly the rows meeting all five
      conditions; a NULL in any of the five columns excludes the row. */
  lemma KeptIff(t: Trip)
    ensures Kept(t) <==> MeetsAllConditions(t)
  {
  }

  /** The SELECT list, in order. `payment_type` is not among it. */
  const ExportColumns: seq<Column> := [
    VendorID, LpepPickupDatetime, LpepDropoffDatetime,
    PassengerCount, TripDistance, RatecodeID, FareAmount,
    Extra, MtaTax, TipAmount, TollsAmount, EhailFee,
    ImprovementSurcharge, TotalAmount, CongestionSurcharge,
    CbdCongestionFee]

  /** The SELECT list holds sixteen distinct table columns and leaves out
      `payment_type`. */
  lemma ExportColumnsShape()
    ensures |ExportColumns| == 16
    ensures forall k :: 0 <= k < |ExportColumns| ==> IsFileColumn(ExportColumns[k])
    ensures forall j, k :: 0 <= j < k < |ExportColumns| ==> ExportColumns[j] != ExportColumns[k]
    ensures PaymentType !in ExportColumns
  {
  }

  /** One output row: the cells of the selected columns, in SELECT order. */
  function Project(t: Trip): (row: seq<Cell>)
    ensures |row| == |ExportColumns|
  {
    seq(|ExportColumns|, k requires 0 <= k < |ExportColumns| => TripColumn(t, ExportColumns[k]).value)
  }

  /** The query's result set: the kept rows, projected, in table order. */
  function Query(table: seq<Trip>): (result: seq<seq<Cell>>)
    ensures |result| <= |table|
  {
    var kept := Filter(table, Kept);
    seq(|kept|, i requires 0 <= i < |kept| => Project(kept[i]))
  }

  /** A qualifying row projects to present amounts that satisfy the
      conditions: distance, fare and total positive, tip non-negative. */
  lemma ProjectedAmounts(t: Trip)
    requires MeetsAllConditions(t)
    ensures var row := Project(t);
            && row[4].RealCell? && row[4].r.Some? && row[4].r.value > 0.0
            && row[6].RealCell? && row[6].r.Some? && row[6].r.value > 0.0
            && row[9].RealCell? && row[9].r.Some? && row[9].r.value >= 0.0
            && row[13].RealCell? && row[13].r.Some? && row[13].r.value > 0.0
  {
    var row := Project(t);
    assert row[4] == RealCell(t.tripDistance);
    assert row[6] == RealCell(t.fareAmount);
    assert row[9] == RealCell(t.tipAmount);
    assert row[13] == RealCell(t.totalAmount);
  }

  /** Soundness: every result row comes from a table row meeting all five
      conditions, and carries that row's amounts, which satisfy them. */
  lemma QuerySound(table: seq<Trip>, i: nat)
    requires i < |Query(table)|
    ensures exists t :: t in table && MeetsAllConditions(t) && Query(table)[i] == Project(t)
    ensures var row := Query(table)[i];
            && row[4].RealCell? && row[4].r.Some? && row[4].r.value > 0.0
            && row[6].RealCell? && row[6].r.Some? && row[6].r.value > 0.0
            && row[9].RealCell? && row[9].r.Some? && row[9].r.value >= 0.0
            && row[13].RealCell? && row[13].r.Some? && row[13].r.value > 0.0
  {
    var kept := Filter(table, Kept);
    var t := kept[i];
    FilterMembership(table, Kept, t);
    KeptIff(t);
    assert Query(table)[i] == Project(t);
    ProjectedAmounts(t);
  }

  /** Completeness: each table row meeting all five conditions appears in the
      kept rows as often as in the table, and no other row appears. */
  lemma QueryComplete(table: seq<Trip>, t: Trip)
    ensures multiset(Filter(table, Kept))[t] == if MeetsAllConditions(t) then multiset(table)[t] else 0
    ensures |Query(table)| == |Filter(table, Kept)|
    ensures t in table && MeetsAllConditions(t) ==> Project(t) in Query(table)
  {
    FilterMultiplicity(table, Kept, t);
    KeptIff(t);
    if t in table && MeetsAllConditions(t) {
      var kept := Filter(table, Kept);
      FilterMembership(table, Kept, t);
      var i :| 0 <= i < |kept| && kept[i] == t;
      assert Query(table)[i] == Project(t);
    }
  }

  /** Every kept row has payment type 1, the column the SELECT list drops. */
  lemma KeptRowsPaidByCard(table: seq<Trip>)
    ensures forall t :: t in Filter(table, Kept) ==> t.paymentType == Some(1)
  {
    forall t | t in Filter(table, Kept) ensures t.paymentType == Some(1) {
      FilterMembership(table, Kept, t);
      KeptIff(t);
    }
  }

  /** Running the WHERE clause over its own result keeps everything: the
      query is idempotent on the rows it selects. */
  lemma WhereIdempotent(table: seq<Trip>)
    ensures Filter(Filter(table, Kept), Kept) == Filter(table, Kept)
    ensures Query(Filter(table, Kept)) == Query(table)
  {
    FilterIdempotent(table, Kept);
  }

  /** How one run of `transform_and_export_data` ends. */
  datatype ExportRun =
    | Written(rows: seq<seq<Cell>>)  // the result set, written to the output file
    | ErrorLogged                    // the query or the write raised; logged, not raised

  /** One run: `table` is None when the query cannot run (no such table, no
      connection); `writeSucceeds` is false when the file cannot be written. */
  function TransformAndExport(table: Option<seq<Trip>>, writeSucceeds: bool): (run: ExportRun)
    ensures run.Written? <==> table.Some? && writeSucceeds
  {
    if table.None? || !writeSucceeds then ErrorLogged else Written(Query(table.value))
  }

  /** The output file after a run: rewritten on success, left as it was when
      the error was logged. */
  function OutputFile(prior: Option<seq<seq<Cell>>>, run: ExportRun): Option<seq<seq<Cell>>>
  {
    match run
    case Written(rows) => Some(rows)
    case ErrorLogged => prior
  }

  /** A run either leaves the previous file alone or replaces it with the
      query's result, one row per table row meeting the five conditions. */
  lemma ExportOutcome(prior: Option<seq<seq<Cell>>>, table: Option<seq<Trip>>, writeSucceeds: bool)
    ensures var after := OutputFile(prior, TransformAndExport(table, writeSucceeds));
            if table.Some? && writeSucceeds
            then after.Some? && after.value == Query(table.value)
                 && |after.value| == |Filter(table.value, Kept)|
                 && forall row :: row in after.value ==> |row| == 16
            else after == prior
  {
    ExportColumnsShape();
  }
}
