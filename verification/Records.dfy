/** The rows of the shopping-trends dataset, before and after the Age Range column is added. */
module Records {
  import opened Wrappers

  /** A row of the raw survey file: the columns the dashboard uses. */
  datatype SurveyRow = SurveyRow(
    gender: string,
    age: int,
    subscription: string,
    color: string,
    season: string,
    size: string)

  /** A row of the augmented file; `ageRange` is `None` where pandas leaves NaN. */
  datatype Record = Record(
    gender: string,
    age: int,
    ageRange: Option<string>,
    subscription: string,
    color: string,
    season: string,
    size: string)

  /** The columns that the four charts count. */
  datatype Field = SubscriptionStatus | Color | Season | Size

  /** `row[field]` for one of the counted columns. */
  function Value(r: Record, f: Field): string
  {
    match f
    case SubscriptionStatus => r.subscription
    case Color => r.color
    case Season => r.season
    case Size => r.size
  }

  /** `df[field]` as a list of values, in row order. */
  function Column(rows: seq<Record>, f: Field): (c: seq<string>)
  {
    seq(|rows|, i requires 0 <= i < |rows| => Value(rows[i], f))
  }
}
