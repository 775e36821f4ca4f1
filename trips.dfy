/** The trip record: one row of a monthly green-taxi file and of the
    `green_tripdata` table. Every column may be missing (an SQL NULL, a pandas
    NaN or NaT), so each field is an Option. Amounts are exact rationals. */
module Trips {
  import opened Wrappers

  type Month = m: int | 1 <= m <= 12 witness 1
  type Hour = h: int | 0 <= h <= 23

  /** A decoded pandas timestamp: its calendar month, its hour of day, and
      its position on the time line in seconds. */
  datatype Timestamp = Timestamp(month: Month, hour: Hour, instant: int)

  datatype Trip = Trip(
    vendorId: Option<int>,
    pickup: Option<Timestamp>,
    dropoff: Option<Timestamp>,
    storeAndFwdFlag: Option<string>,
    ratecodeId: Option<int>,
    puLocationId: Option<int>,
    doLocationId: Option<int>,
    passengerCount: Option<int>,
    tripDistance: Option<real>,
    fareAmount: Option<real>,
    extra: Option<real>,
    mtaTax: Option<real>,
    tipAmount: Option<real>,
    tollsAmount: Option<real>,
    ehailFee: Option<real>,
    improvementSurcharge: Option<real>,
    totalAmount: Option<real>,
    paymentType: Option<int>,
    tripType: Option<int>,
    congestionSurcharge: Option<real>,
    cbdCongestionFee: Option<real>)

  /** One value of a table or frame column, missing or not. */
  datatype Cell =
    | IntCell(i: Option<int>)
    | RealCell(r: Option<real>)
    | TimeCell(t: Option<Timestamp>)
    | TextCell(s: Option<string>)

  /** The value is missing: SQL NULL, NaN or NaT. */
  predicate IsNull(c: Cell)
  {
    match c
    case IntCell(i) => i.None?
    case RealCell(r) => r.None?
    case TimeCell(t) => t.None?
    case TextCell(s) => s.None?
  }

  /** The column names the pipeline refers to: the 21 columns of a monthly
      file, then the 3 columns the training stage derives. */
  datatype Column =
    | VendorID | LpepPickupDatetime | LpepDropoffDatetime | StoreAndFwdFlag
    | RatecodeID | PULocationID | DOLocationID | PassengerCount | TripDistance
    | FareAmount | Extra | MtaTax | TipAmount | TollsAmount | EhailFee
    | ImprovementSurcharge | TotalAmount | PaymentType | TripType
    | CongestionSurcharge | CbdCongestionFee
    | PickupHour | TripDurationMinutes | PickupMonthStr

  /** The column's name as the file, the table and the frame spell it. */
  function Name(c: Column): string
  {
    match c
    case VendorID => "VendorID"
    case LpepPickupDatetime => "lpep_pickup_datetime"
    case LpepDropoffDatetime => "lpep_dropoff_datetime"
    case StoreAndFwdFlag => "store_and_fwd_flag"
    case RatecodeID => "RatecodeID"
    case PULocationID => "PULocationID"
    case DOLocationID => "DOLocationID"
    case PassengerCount => "passenger_count"
    case TripDistance => "trip_distance"
    case FareAmount => "fare_amount"
    case Extra => "extra"
    case MtaTax => "mta_tax"
    case TipAmount => "tip_amount"
    case TollsAmount => "tolls_amount"
    case EhailFee => "ehail_fee"
    case ImprovementSurcharge => "improvement_surcharge"
    case TotalAmount => "total_amount"
    case PaymentType => "payment_type"
    case TripType => "trip_type"
    case CongestionSurcharge => "congestion_surcharge"
    case CbdCongestionFee => "cbd_congestion_fee"
    case PickupHour => "pickup_hour"
    case TripDurationMinutes => "trip_duration_minutes"
    case PickupMonthStr => "pickup_month_str"
  }

  /** The column belongs to a monthly file (it is not derived by training). */
  predicate IsFileColumn(c: Column)
  {
    !(c.PickupHour? || c.TripDurationMinutes? || c.PickupMonthStr?)
  }

  /** Reads a column of a trip record; None for a derived column, which a
      record read from a file or the table does not have. */
  function TripColumn(t: Trip, c: Column): (cell: Option<Cell>)
    ensures cell.Some? <==> IsFileColumn(c)
  {
    match c
    case VendorID => Some(IntCell(t.vendorId))
    case LpepPickupDatetime => Some(TimeCell(t.pickup))
    case LpepDropoffDatetime => Some(TimeCell(t.dropoff))
    case StoreAndFwdFlag => Some(TextCell(t.storeAndFwdFlag))
    case RatecodeID => Some(IntCell(t.ratecodeId))
    case PULocationID => Some(IntCell(t.puLocationId))
    case DOLocationID => Some(IntCell(t.doLocationId))
    case PassengerCount => Some(IntCell(t.passengerCount))
    case TripDistance => Some(RealCell(t.tripDistance))
    case FareAmount => Some(RealCell(t.fareAmount))
    case Extra => Some(RealCell(t.extra))
    case MtaTax => Some(RealCell(t.mtaTax))
    case TipAmount => Some(RealCell(t.tipAmount))
    case TollsAmount => Some(RealCell(t.tollsAmount))
    case EhailFee => Some(RealCell(t.ehailFee))
    case ImprovementSurcharge => Some(RealCell(t.improvementSurcharge))
    case TotalAmount => Some(RealCell(t.totalAmount))
    case PaymentType => Some(IntCell(t.paymentType))
    case TripType => Some(IntCell(t.tripType))
    case CongestionSurcharge => Some(RealCell(t.congestionSurcharge))
    case CbdCongestionFee => Some(RealCell(t.cbdCongestionFee))
    case PickupHour => None
    case TripDurationMinutes => None
    case PickupMonthStr => None
  }

  /** Distinct columns have distinct names, so comparing columns is
      comparing their names, as the source does. */
  lemma NameInjective(a: Column, b: Column)
    requires Name(a) == Name(b)
    ensures a == b
  {
  }
}
