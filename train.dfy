/** The training stage up to the fit: the empty-frame short-circuit, the
    three derived columns, the month split into training and test rows,
    `dropna` over the model's columns, and the split of the features into
    categorical and numerical ones. */
module Train {
  import opened Wrappers
  import opened Trips
  import opened Seqs
  import opened Strings

  /** The column the model predicts. */
  const Target: Column := TipAmount

  /** The twelve model inputs, in the order the frame is sliced with. */
  const Features: seq<Column> := [
    PassengerCount, TripDistance, RatecodeID, Extra, MtaTax, TollsAmount,
    ImprovementSurcharge, CongestionSurcharge, TripType, CbdCongestionFee,
    PickupHour, TripDurationMinutes]

  /** The columns one-hot encoded instead of scaled. */
  const CategoricalFeatures: seq<Column> := [RatecodeID, PickupHour, TripType]

  /** The month lists the entry point passes: January to April for
      training, May and June for testing. */
  const DefaultTrainingMonths: seq<string> := ["01", "02", "03", "04"]
  const DefaultTestingMonths: seq<string> := ["05", "06"]

  /** The decimal digit for `d`. */
  function Digit(d: int): (c: char)
    requires 0 <= d <= 9
    ensures '0' <= c <= '9'
  {
    (('0' as int) + d) as char
  }

  /** `strftime('%m')`: the month as two digits, zero-padded. */
  function MonthString(m: Month): (s: string)
    ensures |s| == 2
  {
    if m < 10 then ['0', Digit(m)] else ['1', Digit(m - 10)]
  }

  /** Reads a two-digit month string back; None for anything else. */
  function ParseMonthString(s: string): Option<int>
  {
    if |s| == 2 && '0' <= s[0] <= '9' && '0' <= s[1] <= '9'
    then Some(10 * (s[0] as int - '0' as int) + (s[1] as int - '0' as int))
    else None
  }

  /** The month string reads back as its month, so distinct months get
      distinct strings. */
  lemma MonthStringRoundTrip(m: Month)
    ensures ParseMonthString(MonthString(m)) == Some(m)
  {
  }

  /** The month strings are exactly `01` to `12`: month `m` gets the `m`-th. */
  lemma MonthStringsAreTwelveLabels(m: Month)
    ensures MonthString(m) == ["01", "02", "03", "04", "05", "06", "07", "08", "09", "10", "11", "12"][m - 1]
  {
  }

  /** The three columns lines 36-38 add to the frame; NaN/NaT stays missing. */
  datatype Derived = Derived(
    pickupHour: Option<int>,
    tripDurationMinutes: Option<real>,
    pickupMonthStr: Option<string>)

  /** One frame row: the columns read from the merged file, and the derived
      columns once they have been added. */
  datatype FrameRow = FrameRow(trip: Trip, derived: Option<Derived>)

  /** The derived columns of one row: the pickup hour, the signed ride time
      in minutes, and the two-digit pickup month. */
  function Derive(t: Trip): Derived
  {
    match t.pickup
    case None => Derived(None, None, None)
    case Some(p) =>
      Derived(
        Some(p.hour),
        match t.dropoff
        case None => None
        case Some(d) => Some((d.instant - p.instant) as real / 60.0),
        Some(MonthString(p.month)))
  }

  /** The frame after lines 36-38: every row gets its derived columns. */
  function WithDerivedColumns(rows: seq<FrameRow>): (r: seq<FrameRow>)
    ensures |r| == |rows|
  {
    seq(|rows|, i requires 0 <= i < |rows| => FrameRow(rows[i].trip, Some(Derive(rows[i].trip))))
  }

  /** After derivation every row keeps its trip columns, has an hour in 0..23
      and a month string among `01`..`12` whenever its pickup time is known,
      and has neither when it is not. */
  lemma DerivedColumnsInRange(rows: seq<FrameRow>, i: nat)
    requires i < |rows|
    ensures var r := WithDerivedColumns(rows)[i];
            && r.trip == rows[i].trip
            && r.derived.Some?
            && (r.derived.value.pickupHour.Some? <==> rows[i].trip.pickup.Some?)
            && (r.derived.value.pickupHour.Some? ==> 0 <= r.derived.value.pickupHour.value <= 23)
            && (r.derived.value.pickupMonthStr.Some? <==> rows[i].trip.pickup.Some?)
            && (r.derived.value.pickupMonthStr.Some? ==>
                  ParseMonthString(r.derived.value.pickupMonthStr.value) == Some(rows[i].trip.pickup.value.month))
  {
    var t := rows[i].trip;
    if t.pickup.Some? {
      MonthStringRoundTrip(t.pickup.value.month);
    }
  }

  /** Lines 36-38, in place: adds the derived columns to every row. */
  method AddDerivedColumns(df: array<FrameRow>)
    modifies df
    ensures df[..] == WithDerivedColumns(old(df[..]))
  {
    for i := 0 to df.Length
      invariant forall k :: 0 <= k < i ==> df[k] == FrameRow(old(df[k]).trip, Some(Derive(old(df[k]).trip)))
      invariant forall k :: i <= k < df.Length ==> df[k] == old(df[k])
    {
      df[i] := FrameRow(df[i].trip, Some(Derive(df[i].trip)));
    }
  }

  /** Looks a frame column up by name; None (a KeyError) for a derived
      column the frame does not have yet. */
  function FrameColumn(r: FrameRow, c: Column): (cell: Option<Cell>)
    ensures cell.Some? <==> IsFileColumn(c) || r.derived.Some?
  {
    if IsFileColumn(c) then TripColumn(r.trip, c)
    else match r.derived
      case None => None
      case Some(d) =>
        if c.PickupHour? then Some(IntCell(d.pickupHour))
        else if c.TripDurationMinutes? then Some(RealCell(d.tripDurationMinutes))
        else Some(TextCell(d.pickupMonthStr))
  }

  /** The row's `pickup_month_str`, when the frame has the column and the
      value is not missing. */
  function PickupMonth(r: FrameRow): Option<string>
  {
    if r.derived.Some? then r.derived.value.pickupMonthStr else None
  }

  /** `df['pickup_month_str'].isin(months)` for one row: a missing value is
      never in the list. */
  predicate InMonths(r: FrameRow, months: seq<string>)
  {
    PickupMonth(r).Some? && PickupMonth(r).value in months
  }

  /** `df[df['pickup_month_str'].isin(months)]`: the matching rows in frame order. */
  function SelectMonths(rows: seq<FrameRow>, months: seq<string>): (r: seq<FrameRow>)
    ensures forall k :: 0 <= k < |r| ==> r[k].derived.Some?
  {
    Filter(rows, (row: FrameRow) => InMonths(row, months))
  }

  /** A row is in a subset exactly when it is in the frame and its month
      string is one of the subset's months. */
  lemma SelectMonthsMembership(rows: seq<FrameRow>, months: seq<string>, r: FrameRow)
    ensures r in SelectMonths(rows, months) <==> r in rows && InMonths(r, months)
  {
    FilterMembership(rows, (row: FrameRow) => InMonths(row, months), r);
  }

  /** Month lists with no string in common give subsets with no row in common. */
  lemma SplitDisjoint(rows: seq<FrameRow>, trainingMonths: seq<string>, testingMonths: seq<string>, r: FrameRow)
    requires forall m :: m in trainingMonths ==> m !in testingMonths
    ensures !(r in SelectMonths(rows, trainingMonths) && r in SelectMonths(rows, testingMonths))
  {
    SelectMonthsMembership(rows, trainingMonths, r);
    SelectMonthsMembership(rows, testingMonths, r);
  }

  /** A row whose month string is in neither list, or is missing, is in
      neither subset. */
  lemma UnlistedMonthExcluded(rows: seq<FrameRow>, trainingMonths: seq<string>, testingMonths: seq<string>, r: FrameRow)
    requires !InMonths(r, trainingMonths) && !InMonths(r, testingMonths)
    ensures r !in SelectMonths(rows, trainingMonths) && r !in SelectMonths(rows, testingMonths)
  {
    SelectMonthsMembership(rows, trainingMonths, r);
    SelectMonthsMembership(rows, testingMonths, r);
  }

  /** The entry point's month lists are disjoint, so its two subsets are. */
  lemma DefaultSplitDisjoint(rows: seq<FrameRow>, r: FrameRow)
    ensures !(r in SelectMonths(rows, DefaultTrainingMonths) && r in SelectMonths(rows, DefaultTestingMonths))
  {
    SplitDisjoint(rows, DefaultTrainingMonths, DefaultTestingMonths, r);
  }

  /** The columns the subsets are sliced to: `[*Features, TARGET]`. */
  const ModelColumns: seq<Column> := Features + [Target]

  /** One row of `df[[*Features, TARGET]]`. */
  function ModelRow(r: FrameRow): (cells: seq<Cell>)
    requires r.derived.Some?
    ensures |cells| == |ModelColumns|
  {
    seq(|ModelColumns|, k requires 0 <= k < |ModelColumns| => FrameColumn(r, ModelColumns[k]).value)
  }

  /** A subset sliced to the model's columns. */
  function ModelMatrix(rows: seq<FrameRow>): (m: seq<seq<Cell>>)
    requires forall k :: 0 <= k < |rows| ==> rows[k].derived.Some?
    ensures |m| == |rows|
  {
    seq(|rows|, i requires 0 <= i < |rows| => ModelRow(rows[i]))
  }

  /** The row has no missing value. */
  predicate Complete(row: seq<Cell>)
  {
    forall k :: 0 <= k < |row| ==> !IsNull(row[k])
  }

  /** `dropna()`: keeps, in order, the rows with no missing value. */
  function DropNa(m: seq<seq<Cell>>): seq<seq<Cell>>
  {
    Filter(m, Complete)
  }

  /** `dropna` keeps exactly the complete rows: a kept row has no missing
      value and a dropped row had at least one. */
  lemma DropNaKeepsCompleteRows(m: seq<seq<Cell>>, row: seq<Cell>)
    ensures row in DropNa(m) ==> row in m && Complete(row)
    ensures row in m && row !in DropNa(m) ==> exists k :: 0 <= k < |row| && IsNull(row[k])
  {
    FilterMembership(m, Complete, row);
  }

  /** The training or test set: the subset for `months`, sliced to the
      model's columns, without incomplete rows. */
  function ModelSet(rows: seq<FrameRow>, months: seq<string>): seq<seq<Cell>>
  {
    DropNa(ModelMatrix(SelectMonths(rows, months)))
  }

  /** Every row of a model set comes from a frame row of one of its months,
      has the thirteen model columns, and none of them is missing. */
  lemma ModelSetRows(rows: seq<FrameRow>, months: seq<string>, cells: seq<Cell>)
    requires cells in ModelSet(rows, months)
    ensures |cells| == |ModelColumns| && Complete(cells)
    ensures exists r :: r in rows && InMonths(r, months) && r.derived.Some? && cells == ModelRow(r)
  {
    var selected := SelectMonths(rows, months);
    var m := ModelMatrix(selected);
    DropNaKeepsCompleteRows(m, cells);
    var i :| 0 <= i < |m| && m[i] == cells;
    SelectMonthsMembership(rows, months, selected[i]);
  }

  /** The column is not one-hot encoded. */
  predicate NotCategorical(c: Column)
  {
    c !in CategoricalFeatures
  }

  /** The source holds column names, and tests `col not in
      categorical_features` on names. Distinct columns have distinct names,
      so that test is membership of the column itself. */
  lemma CategoricalByName(c: Column)
    ensures Name(c) in Map(CategoricalFeatures, Name) <==> c in CategoricalFeatures
  {
    var names := Map(CategoricalFeatures, Name);
    if Name(c) in names {
      var k :| 0 <= k < |names| && names[k] == Name(c);
      NameInjective(c, CategoricalFeatures[k]);
    }
  }

  /** The test the comprehension applies to each column: not categorical
      (a list membership) and not a substring of `'tip_amount'` (Python's
      `in` on a string, which is a substring test, not list membership). */
  predicate IsNumerical(c: Column)
  {
    NotCategorical(c) && !Contains(Name(Target), Name(c))
  }

  /** `[col for col in columns if col not in categorical_features and col not
      in TARGET]`. */
  function NumericalFeatures(columns: seq<Column>): seq<Column>
  {
    Filter(columns, IsNumerical)
  }

  /** A column is kept exactly when it is listed, not categorical, and its
      name is not a substring of `'tip_amount'`, whether or not it is the
      target itself. */
  lemma NumericalFeaturesMembership(columns: seq<Column>, c: Column)
    ensures c in NumericalFeatures(columns) <==>
      c in columns && c !in CategoricalFeatures && !Contains(Name(Target), Name(c))
  {
    FilterMembership(columns, IsNumerical, c);
  }

  /** A column name with a character the target's name lacks is not a
      substring of it. */
  lemma NotContainedByChar(hay: string, needle: string, j: nat)
    requires j < |needle| && needle[j] !in hay
    ensures !Contains(hay, needle)
  {
    ContainsAtOffset(hay, needle);
    forall i | 0 <= i <= |hay| - |needle| ensures !OccursAt(hay, needle, i) {
      assert hay[i + j] in hay;
    }
  }

  /** On this schema the substring test is an equality test: the only
      column name inside `'tip_amount'` is `'tip_amount'` itself. Every
      other name is longer or has a character `'tip_amount'` lacks. */
  lemma SubstringTestIsTargetTest(c: Column)
    ensures Contains(Name(Target), Name(c)) <==> c == Target
  {
    var hay := Name(Target);
    match c
    case TipAmount => assert IsPrefix(hay, hay);
    case VendorID => NotContainedByChar(hay, Name(c), 0);
    case RatecodeID => NotContainedByChar(hay, Name(c), 0);
    case Extra => NotContainedByChar(hay, Name(c), 0);
    case MtaTax => NotContainedByChar(hay, Name(c), 6);
    case EhailFee => NotContainedByChar(hay, Name(c), 0);
    case TripType => NotContainedByChar(hay, Name(c), 1);
    case _ => LongerNotContained(hay, Name(c));
  }

  /** A column passes the test exactly when it is neither categorical nor
      the target. */
  lemma NumericalIff(c: Column)
    ensures IsNumerical(c) <==> c !in CategoricalFeatures && c != Target
  {
    SubstringTestIsTargetTest(c);
  }

  /** On `[*Features, TARGET]` the comprehension keeps, in feature order,
      the features that are not categorical, and drops the target. */
  lemma NumericalFeaturesOfModelColumns()
    ensures NumericalFeatures(ModelColumns) == Filter(Features, NotCategorical)
  {
    FilterSnoc(Features, Target, IsNumerical);
    NumericalIff(Target);
    forall k | 0 <= k < |Features| ensures IsNumerical(Features[k]) == NotCategorical(Features[k]) {
      NumericalIff(Features[k]);
    }
    FilterCongruent(Features, IsNumerical, NotCategorical);
  }

  /** The non-categorical features among the first four features. */
  lemma NonCategoricalFirst()
    ensures Filter([PassengerCount, TripDistance, RatecodeID, Extra], NotCategorical)
         == [PassengerCount, TripDistance, Extra]
  {
    FilterFour(PassengerCount, TripDistance, RatecodeID, Extra, NotCategorical);
  }

  /** The non-categorical features among the middle four features. */
  lemma NonCategoricalMiddle()
    ensures Filter([MtaTax, TollsAmount, ImprovementSurcharge, CongestionSurcharge], NotCategorical)
         == [MtaTax, TollsAmount, ImprovementSurcharge, CongestionSurcharge]
  {
    FilterFour(MtaTax, TollsAmount, ImprovementSurcharge, CongestionSurcharge, NotCategorical);
  }

  /** The non-categorical features among the last four features. */
  lemma NonCategoricalLast()
    ensures Filter([TripType, CbdCongestionFee, PickupHour, TripDurationMinutes], NotCategorical)
         == [CbdCongestionFee, TripDurationMinutes]
  {
    FilterFour(TripType, CbdCongestionFee, PickupHour, TripDurationMinutes, NotCategorical);
  }

  /** The non-categorical features, written out: nine columns in feature order. */
  lemma NonCategoricalFeatures()
    ensures Filter(Features, NotCategorical) == [
      PassengerCount, TripDistance, Extra, MtaTax, TollsAmount,
      ImprovementSurcharge, CongestionSurcharge, CbdCongestionFee, TripDurationMinutes]
  {
    var first := [PassengerCount, TripDistance, RatecodeID, Extra];
    var middle := [MtaTax, TollsAmount, ImprovementSurcharge, CongestionSurcharge];
    var last := [TripType, CbdCongestionFee, PickupHour, TripDurationMinutes];
    assert Features == first + middle + last;
    FilterConcat(first, middle, NotCategorical);
    FilterConcat(first + middle, last, NotCategorical);
    NonCategoricalFirst();
    NonCategoricalMiddle();
    NonCategoricalLast();
  }

  /** The numerical features the comprehension yields, written out. */
  lemma NumericalFeaturesListed()
    ensures NumericalFeatures(ModelColumns) == [
      PassengerCount, TripDistance, Extra, MtaTax, TollsAmount,
      ImprovementSurcharge, CongestionSurcharge, CbdCongestionFee, TripDurationMinutes]
  {
    NumericalFeaturesOfModelColumns();
    NonCategoricalFeatures();
  }

  /** Categorical and numerical features share no column, together they are
      the twelve features, and neither holds the target. */
  lemma FeaturePartition()
    ensures forall c :: c in CategoricalFeatures ==> c !in NumericalFeatures(ModelColumns)
    ensures forall c :: c in Features <==> c in CategoricalFeatures || c in NumericalFeatures(ModelColumns)
    ensures Target !in CategoricalFeatures && Target !in NumericalFeatures(ModelColumns)
  {
    NumericalFeaturesOfModelColumns();
    forall c ensures c in Filter(Features, NotCategorical) <==> c in Features && NotCategorical(c) {
      FilterMembership(Features, NotCategorical, c);
    }
  }

  /** Everything the fit receives: the two model sets and the two column lists. */
  datatype Prepared = Prepared(
    train: seq<seq<Cell>>,
    test: seq<seq<Cell>>,
    numerical: seq<Column>,
    categorical: seq<Column>)

  /** How a call ends: an empty frame stops at once; otherwise the data is
      prepared for the fit. */
  datatype TrainingRun = EmptyData | Ready(data: Prepared)

  /** Lines 40-52 on the frame with its derived columns. */
  function Prepare(rows: seq<FrameRow>, trainingMonths: seq<string>, testingMonths: seq<string>): Prepared
  {
    Prepared(
      ModelSet(rows, trainingMonths),
      ModelSet(rows, testingMonths),
      NumericalFeatures(ModelColumns),
      CategoricalFeatures)
  }

  /** `train_tip_prediction_model` up to the fit: an empty frame returns at
      once and untouched; otherwise the frame gains its derived columns in
      place and the data for the fit is prepared from it. */
  method TrainTipPredictionModel(df: array<FrameRow>, trainingMonths: seq<string>, testingMonths: seq<string>)
    returns (run: TrainingRun)
    modifies df
    ensures df.Length == 0 ==> run == EmptyData
    ensures df.Length > 0 ==>
      && df[..] == WithDerivedColumns(old(df[..]))
      && run == Ready(Prepare(df[..], trainingMonths, testingMonths))
  {
    if df.Length == 0 {
      return EmptyData;
    }
    AddDerivedColumns(df);
    run := Ready(Prepare(df[..], trainingMonths, testingMonths));
  }
}
