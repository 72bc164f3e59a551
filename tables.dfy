/**
 * Column-oriented tables as the pipeline receives them: a table is a list of
 * columns, a column a list of cell values. Also the conversions of a cell
 * value to text and to a number, and the removal of null entries that
 * `GetTable` applies to a reply.
 */
module Tables {
  import opened Wrappers
  import opened Text

  /** The kinds of exception the pipeline can meet. Any of them ends the whole query. */
  datatype Fault =
    | TransportFault    // SendMessage threw, or its reply was not a table reply
    | IndexOutOfRange   // a column or a row index past the end
    | FormatFault       // Convert.ToDouble of a non-numeric text

  /** `HelperPartialSettings.CellValue`: the interop value of one cell. */
  datatype CellValue =
    | NullValue
    | TextValue(text: string)
    | NumberValue(number: Decimal)

  type Column = seq<CellValue>

  type Table = seq<Column>

  /** A reply payload before clean-up: null stands for a missing array or a
      missing cell anywhere along the path. */
  type Payload = Option<seq<Option<seq<Option<CellValue>>>>>

  /** `Convert.ToString(value)`: null becomes the empty string, a text stays
      as it is, and a number is written "-1" exactly when it is -1. */
  function ToText(v: CellValue): (r: string)
    ensures v.NullValue? ==> r == ""
    ensures v.TextValue? ==> r == v.text
    ensures v.NumberValue? ==> |r| > 0 && (r == "-1" <==> IsMinusOne(v.number))
  {
    match v
    case NullValue => ""
    case TextValue(s) => s
    case NumberValue(d) =>
      MinusOneText(d);
      FormatDecimalStart(d);
      FormatDecimal(d)
  }

  /** `Convert.ToDouble(value)`: null becomes zero, a number stays as it is,
      and a text must parse; None is the format exception. */
  function ToDouble(v: CellValue): (r: Option<Decimal>)
    ensures v.NullValue? ==> r == Some(Decimal(0, 0))
    ensures v.NumberValue? ==> r == Some(v.number)
    ensures v == TextValue("-1") ==> r.Some? && IsMinusOne(r.value)
    ensures v == TextValue("") ==> r.None?
  {
    match v
    case NullValue => Some(Decimal(0, 0))
    case TextValue(s) =>
      MinusOneText(Decimal(-1, 0));
      ParseDouble(s)
    case NumberValue(d) => Some(d)
  }

  /** A number that was turned into text is read back as the same number. */
  lemma NumberTextRoundTrip(d: Decimal)
    ensures ToDouble(TextValue(ToText(NumberValue(d)))).Some?
    ensures SameValue(ToDouble(TextValue(ToText(NumberValue(d)))).value, d)
  {
    FormatParseRoundTrip(d);
  }

  /** Two numeric cells give the same text, and so the same dictionary key,
      exactly when they hold the same number. */
  lemma NumberTextSameValue(a: Decimal, b: Decimal)
    ensures ToText(NumberValue(a)) == ToText(NumberValue(b)) <==> SameValue(a, b)
  {
    FormatSameValue(a, b);
  }

  // ---------------------------------------------------------------------------
  // Dropping nulls: `Where(x => x != null)`

  function CountPresent<T>(xs: seq<Option<T>>): nat
    decreases |xs|
  {
    if xs == [] then 0
    else CountPresent(xs[..|xs| - 1]) + (if xs[|xs| - 1].Some? then 1 else 0)
  }

  /** The values of the non-null entries of xs, in their original order: the
      entry at position i lands at position CountPresent(xs[..i]). */
  function Present<T(!new)>(xs: seq<Option<T>>): (r: seq<T>)
    ensures |r| == CountPresent(xs)
    ensures forall x :: x in r <==> Some(x) in xs
    decreases |xs|
  {
    if xs == [] then []
    else Present(xs[..|xs| - 1]) + (if xs[|xs| - 1].Some? then [xs[|xs| - 1].value] else [])
  }

  /** Every non-null entry keeps its relative position. */
  lemma {:induction false} PresentOrder<T(!new)>(xs: seq<Option<T>>, i: nat)
    requires i < |xs| && xs[i].Some?
    ensures CountPresent(xs[..i]) < |Present(xs)|
    ensures Present(xs)[CountPresent(xs[..i])] == xs[i].value
    decreases |xs|
  {
    var init := xs[..|xs| - 1];
    if i < |xs| - 1 {
      assert init[..i] == xs[..i];
      PresentOrder(init, i);
    } else {
      assert init == xs[..i];
    }
  }

  /** A list without nulls loses nothing. */
  lemma {:induction false} PresentOfAllPresent<T(!new)>(xs: seq<T>)
    ensures Present(seq(|xs|, i requires 0 <= i < |xs| => Some(xs[i]))) == xs
    decreases |xs|
  {
    var wrapped := seq(|xs|, i requires 0 <= i < |xs| => Some(xs[i]));
    if xs != [] {
      var init := xs[..|xs| - 1];
      assert wrapped[..|xs| - 1] == seq(|init|, i requires 0 <= i < |init| => Some(init[i]));
      PresentOfAllPresent(init);
      assert init + [xs[|xs| - 1]] == xs;
    }
  }

  /** The clean-up `GetTable` applies to a reply: null columns are dropped, and
      in every remaining column the null cells are dropped. A null reply is no
      columns. */
  function CleanColumns(payload: Payload): (t: Table)
    ensures payload.None? ==> t == []
    ensures payload.Some? ==> |t| == CountPresent(payload.value)
    ensures payload.Some? ==> forall j :: 0 <= j < |payload.value| && payload.value[j].Some? ==>
              CountPresent(payload.value[..j]) < |t| &&
              t[CountPresent(payload.value[..j])] == Present(payload.value[j].value)
  {
    match payload
    case None => []
    case Some(columns) =>
      var kept := Present(columns);
      forall j | 0 <= j < |columns| && columns[j].Some?
        ensures CountPresent(columns[..j]) < |kept| && kept[CountPresent(columns[..j])] == columns[j].value
      {
        PresentOrder(columns, j);
      }
      seq(|kept|, i requires 0 <= i < |kept| => Present(kept[i]))
  }
}
