/** The relational steps of the analysis lambda: loading the BLS quarterly rows and the
    population table, the 2013-2018 population subset, the best year of every series, and
    the PRS30006032 / Q01 rows joined with the population and sorted by year. The printed
    statistics (mean, standard deviation, rounding) are not part of this model. */
module Report {
  import opened Wrappers
  import opened Text
  import opened TriggerEvent

  /** One row of the BLS data file after loading. */
  datatype BlsRow = BlsRow(seriesId: string, year: int, period: string, value: real)

  /** One row of the population table; `None` is a missing population (NaN). */
  datatype PopRow = PopRow(year: int, population: Option<int>)

  /** Why loading fails: a column the pipeline names is missing, a cell does not convert, or
      the population document is not a list of records under `data`. */
  datatype LoadError =
    | MissingColumn(name: string)
    | BadInt(text: string)
    | BadReal(text: string)
    | BadYear
    | BadPopulation
    | NoRecords

  // ---- Integers as `int()` reads them -------------------------------------------------

  /** Text `int()` accepts: an optional sign followed by at least one ASCII digit. */
  predicate IsIntText(u: string) {
    if u != [] && (u[0] == '+' || u[0] == '-') then u[1..] != [] && AllDigits(u[1..])
    else u != [] && AllDigits(u)
  }

  /** `int(text)`: surrounding whitespace is ignored, then a signed decimal integer. */
  function ParseInt(text: string): (r: Option<int>)
    ensures r.Some? <==> IsIntText(Strip(text))
    ensures r.Some? && AllDigits(Strip(text)) ==> r.value == DigitsValue(Strip(text))
  {
    var u := Strip(text);
    if !IsIntText(u) then None
    else if u[0] == '-' then Some(-(DigitsValue(u[1..]) as int))
    else if u[0] == '+' then Some(DigitsValue(u[1..]))
    else Some(DigitsValue(u))
  }

  /** Whitespace around a number does not change what `int()` reads. */
  lemma ParseIntIgnoresSpace(text: string)
    ensures ParseInt(Strip(text)) == ParseInt(text)
  {
    StripIdempotent(text);
  }

  // ---- The BLS file -------------------------------------------------------------------

  /** A tab-separated file as `read_csv` splits it: the header and the records' cells. */
  datatype Csv = Csv(header: seq<string>, records: seq<seq<string>>)

  /** Every record has `width` cells. */
  predicate Width(records: seq<seq<string>>, width: nat) {
    forall k :: 0 <= k < |records| ==> |records[k]| == width
  }

  /** `read_csv` yields one cell per column in every record. */
  predicate Rectangular(csv: Csv) {
    Width(csv.records, |csv.header|)
  }

  /** The position `rename(columns=lambda c: c.strip())` gives column `name`: the first
      column whose stripped name it is. */
  function FirstNamed(header: seq<string>, name: string): (r: Option<nat>)
    ensures r.None? <==> forall j :: 0 <= j < |header| ==> Strip(header[j]) != name
    ensures r.Some? ==> r.value < |header| && Strip(header[r.value]) == name
    ensures r.Some? ==> forall j :: 0 <= j < r.value ==> Strip(header[j]) != name
  {
    if header == [] then None
    else if Strip(header[0]) == name then Some(0)
    else match FirstNamed(header[1..], name)
      case None => None
      case Some(j) => Some(j + 1)
  }

  /** The query `period.str.startswith('Q')`: the records of quarterly periods, in order. */
  function Quarterly(records: seq<seq<string>>, period: nat, width: nat): (r: seq<seq<string>>)
    requires period < width && Width(records, width)
    ensures Width(r, width)
    ensures forall k :: 0 <= k < |r| ==> r[k] in records && StartsWith(r[k][period], "Q")
  {
    if records == [] then []
    else
      var last := records[|records| - 1];
      Quarterly(records[..|records| - 1], period, width) + (if StartsWith(last[period], "Q") then [last] else [])
  }

  /** A record whose period starts with `Q` survives the query. */
  lemma {:induction false} QuarterlyKeeps(records: seq<seq<string>>, period: nat, width: nat, k: nat)
    requires period < width && Width(records, width)
    requires k < |records| && StartsWith(records[k][period], "Q")
    ensures records[k] in Quarterly(records, period, width)
  {
    if k < |records| - 1 {
      var init := records[..|records| - 1];
      assert init[k] == records[k];
      QuarterlyKeeps(init, period, width, k);
    }
  }

  /** The query keeps every quarterly record as often as the file holds it, and no other
      record. */
  lemma {:induction false} QuarterlyExact(records: seq<seq<string>>, period: nat, width: nat)
    requires period < width && Width(records, width)
    ensures forall r :: multiset(Quarterly(records, period, width))[r] ==
                        if |r| == width && StartsWith(r[period], "Q") then multiset(records)[r] else 0
  {
    if records != [] {
      var init, last := records[..|records| - 1], records[|records| - 1];
      QuarterlyExact(init, period, width);
      assert records == init + [last];
    }
  }

  /** The query keeps the file's order: filtering two stretches of records one after the
      other gives the filtered first stretch followed by the filtered second. */
  lemma {:induction false} QuarterlyConcat(a: seq<seq<string>>, b: seq<seq<string>>, period: nat, width: nat)
    requires period < width && Width(a, width) && Width(b, width)
    ensures Width(a + b, width)
    ensures Quarterly(a + b, period, width) == Quarterly(a, period, width) + Quarterly(b, period, width)
    decreases |b|
  {
    if b == [] {
      assert a + b == a;
    } else {
      var init, last := b[..|b| - 1], b[|b| - 1];
      QuarterlyConcat(a, init, period, width);
      assert (a + b)[..|a + b| - 1] == a + init;
      assert (a + b)[|a + b| - 1] == last;
    }
  }

  /** One column of `astype` conversion: every cell read by `read` (`int()` for `year`,
      `float()` for `value`); the text of the first cell it rejects is the error. */
  function Column<T>(records: seq<seq<string>>, col: nat, width: nat, read: string -> Option<T>): (r: Result<seq<T>, string>)
    requires col < width && Width(records, width)
    ensures r.Success? ==> |r.value| == |records|
    ensures r.Success? ==> forall k :: 0 <= k < |records| ==> read(records[k][col]) == Some(r.value[k])
    ensures r.Failure? ==> read(r.error).None?
  {
    if records == [] then Success([])
    else match Column(records[..|records| - 1], col, width, read)
      case Failure(e) => Failure(e)
      case Success(xs) =>
        var cell := records[|records| - 1][col];
        match read(cell)
        case None => Failure(cell)
        case Some(x) =>
          assert forall k :: 0 <= k < |records| - 1 ==> records[..|records| - 1][k] == records[k];
          Success(xs + [x])
  }

  /** A column converts exactly when every one of its cells does. */
  lemma {:induction false} ColumnFails<T>(records: seq<seq<string>>, col: nat, width: nat, read: string -> Option<T>)
    requires col < width && Width(records, width)
    ensures Column(records, col, width, read).Failure? <==> exists k :: 0 <= k < |records| && read(records[k][col]).None?
  {
    if records != [] {
      var init := records[..|records| - 1];
      ColumnFails(init, col, width, read);
      assert forall k :: 0 <= k < |init| ==> init[k] == records[k];
      if Column(init, col, width, read).Success? && read(records[|records| - 1][col]).None? {
        assert read(records[|records| - 1][col]).None?;
      }
    }
  }

  /** The positions of the four columns `_load_bls_df` uses. */
  datatype BlsColumns = BlsColumns(sid: nat, period: nat, year: nat, value: nat)

  /** A record whose year cell is no integer or whose value cell is no number. */
  predicate Unreadable(rec: seq<string>, c: BlsColumns, toReal: string -> Option<real>) {
    c.year < |rec| && c.value < |rec| && (ParseInt(rec[c.year]).None? || toReal(rec[c.value]).None?)
  }

  /** A quarterly record that does not convert. */
  predicate Unconvertible(rec: seq<string>, c: BlsColumns, toReal: string -> Option<real>) {
    c.period < |rec| && StartsWith(rec[c.period], "Q") && Unreadable(rec, c, toReal)
  }

  /** The type conversion of the kept records, `year` and `value` converted in the order
      the columns come (the first failing column raises), then the rows assembled: stripped
      series id, year, period as read, value. */
  function Convert(kept: seq<seq<string>>, c: BlsColumns, width: nat, toReal: string -> Option<real>)
    : (r: Result<seq<BlsRow>, LoadError>)
    requires c.sid < width && c.period < width && c.year < width && c.value < width && Width(kept, width)
    ensures r.Failure? ==> (r.error.BadInt? && ParseInt(r.error.text).None?) || (r.error.BadReal? && toReal(r.error.text).None?)
    ensures r.Success? ==> |r.value| == |kept|
    ensures r.Success? ==> forall k :: 0 <= k < |kept| ==>
      r.value[k] == BlsRow(Strip(kept[k][c.sid]), r.value[k].year, kept[k][c.period], r.value[k].value)
      && ParseInt(kept[k][c.year]) == Some(r.value[k].year) && toReal(kept[k][c.value]) == Some(r.value[k].value)
  {
    var years, values := Column(kept, c.year, width, ParseInt), Column(kept, c.value, width, toReal);
    if years.Failure? && (c.year < c.value || values.Success?) then Failure(BadInt(years.error))
    else if values.Failure? then Failure(BadReal(values.error))
    else
      Success(seq(|kept|, k requires 0 <= k < |kept| =>
        BlsRow(Strip(kept[k][c.sid]), years.value[k], kept[k][c.period], values.value[k])))
  }

  /** Conversion fails exactly when some kept record does not convert. */
  lemma ConvertFails(kept: seq<seq<string>>, c: BlsColumns, width: nat, toReal: string -> Option<real>)
    requires c.sid < width && c.period < width && c.year < width && c.value < width && Width(kept, width)
    ensures Convert(kept, c, width, toReal).Failure? <==> exists k :: 0 <= k < |kept| && Unreadable(kept[k], c, toReal)
  {
    ColumnFails(kept, c.year, width, ParseInt);
    ColumnFails(kept, c.value, width, toReal);
  }

  /** The columns by their stripped names (the first column of a name); a missing one is an
      error, checked in the order the pipeline first uses the columns. */
  function FindColumns(header: seq<string>): (r: Result<BlsColumns, LoadError>)
    ensures r.Success? ==> var c := r.value;
      && c.sid < |header| && c.period < |header| && c.year < |header| && c.value < |header|
      && Strip(header[c.sid]) == "series_id" && Strip(header[c.period]) == "period"
      && Strip(header[c.year]) == "year" && Strip(header[c.value]) == "value"
    ensures r.Failure? ==> r.error.MissingColumn? && forall j :: 0 <= j < |header| ==> Strip(header[j]) != r.error.name
  {
    var sid, period, year, value :=
      FirstNamed(header, "series_id"), FirstNamed(header, "period"), FirstNamed(header, "year"), FirstNamed(header, "value");
    if sid.None? then Failure(MissingColumn("series_id"))
    else if period.None? then Failure(MissingColumn("period"))
    else if year.None? then Failure(MissingColumn("year"))
    else if value.None? then Failure(MissingColumn("value"))
    else Success(BlsColumns(sid.value, period.value, year.value, value.value))
  }

  /** `_load_bls_df` after the file is read: strip the column names, strip `series_id`, keep
      the quarterly periods, then convert the types. */
  function LoadBls(csv: Csv, toReal: string -> Option<real>): (r: Result<seq<BlsRow>, LoadError>)
    requires Rectangular(csv)
    ensures r.Success? ==> FindColumns(csv.header).Success?
    ensures r.Success? ==> forall k :: 0 <= k < |r.value| ==> StartsWith(r.value[k].period, "Q")
  {
    match FindColumns(csv.header)
    case Failure(e) => Failure(e)
    case Success(c) =>
      Convert(Quarterly(csv.records, c.period, |csv.header|), c, |csv.header|, toReal)
  }

  /** `row` is what the load makes of record `rec`: a quarterly period, the series id
      stripped, the period as read, the year as `int()` reads it and the value as `float()`
      reads it. */
  predicate ReadFrom(row: BlsRow, rec: seq<string>, c: BlsColumns, toReal: string -> Option<real>) {
    && c.sid < |rec| && c.period < |rec| && c.year < |rec| && c.value < |rec|
    && StartsWith(rec[c.period], "Q")
    && row.seriesId == Strip(rec[c.sid]) && row.period == rec[c.period] && ParseInt(rec[c.year]) == Some(row.year)
    && toReal(rec[c.value]) == Some(row.value)
  }

  /** The loaded rows are read, one for one and in order, from the quarterly records of the
      file (which `QuarterlyExact` counts); every series id is stripped. */
  lemma LoadBlsRows(csv: Csv, toReal: string -> Option<real>)
    requires Rectangular(csv) && LoadBls(csv, toReal).Success?
    ensures var c, rows := FindColumns(csv.header).value, LoadBls(csv, toReal).value;
      var kept := Quarterly(csv.records, c.period, |csv.header|);
      && |rows| == |kept|
      && forall i :: 0 <= i < |rows| ==> ReadFrom(rows[i], kept[i], c, toReal)
    ensures var c, rows := FindColumns(csv.header).value, LoadBls(csv, toReal).value;
      forall i :: 0 <= i < |rows| ==>
        Strip(rows[i].seriesId) == rows[i].seriesId && exists rec :: rec in csv.records && ReadFrom(rows[i], rec, c, toReal)
  {
    var c, width := FindColumns(csv.header).value, |csv.header|;
    var kept := Quarterly(csv.records, c.period, width);
    var rows := LoadBls(csv, toReal).value;
    assert rows == Convert(kept, c, width, toReal).value;
    forall i | 0 <= i < |rows|
      ensures Strip(rows[i].seriesId) == rows[i].seriesId
      ensures exists rec :: rec in csv.records && ReadFrom(rows[i], rec, c, toReal)
    {
      StripIdempotent(kept[i][c.sid]);
      assert ReadFrom(rows[i], kept[i], c, toReal);
    }
  }

  /** One quarterly record that does not convert makes the load fail. */
  lemma UnconvertibleFails(csv: Csv, toReal: string -> Option<real>, rec: seq<string>)
    requires Rectangular(csv) && FindColumns(csv.header).Success?
    requires rec in csv.records && Unconvertible(rec, FindColumns(csv.header).value, toReal)
    ensures LoadBls(csv, toReal).Failure?
  {
    var c, width := FindColumns(csv.header).value, |csv.header|;
    var k :| 0 <= k < |csv.records| && csv.records[k] == rec;
    var kept := Quarterly(csv.records, c.period, width);
    QuarterlyKeeps(csv.records, c.period, width, k);
    var i :| 0 <= i < |kept| && kept[i] == csv.records[k];
    ConvertFails(kept, c, width, toReal);
    assert Convert(kept, c, width, toReal).Failure?;
  }

  /** With all four columns present, the load fails exactly when some quarterly record does
      not convert: every quarterly record is converted, and no other record is. */
  lemma LoadBlsFails(csv: Csv, toReal: string -> Option<real>)
    requires Rectangular(csv) && FindColumns(csv.header).Success?
    ensures LoadBls(csv, toReal).Failure? <==>
      exists rec :: rec in csv.records && Unconvertible(rec, FindColumns(csv.header).value, toReal)
  {
    var c, width := FindColumns(csv.header).value, |csv.header|;
    if LoadBls(csv, toReal).Failure? {
      var kept := Quarterly(csv.records, c.period, width);
      assert LoadBls(csv, toReal) == Convert(kept, c, width, toReal);
      ConvertFails(kept, c, width, toReal);
      var i :| 0 <= i < |kept| && Unreadable(kept[i], c, toReal);
      assert |kept[i]| == width && StartsWith(kept[i][c.period], "Q");
      assert Unconvertible(kept[i], c, toReal) && kept[i] in csv.records;
    }
    if exists rec :: rec in csv.records && Unconvertible(rec, c, toReal) {
      var rec :| rec in csv.records && Unconvertible(rec, c, toReal);
      UnconvertibleFails(csv, toReal, rec);
    }
  }

  // ---- The population table -----------------------------------------------------------

  /** `astype({"year": int})` on one record's `Year`: a number, a boolean, or text `int()`
      reads; a missing value (NaN) or any other kind fails. */
  function YearOf(v: Option<Json>): (r: Result<int, LoadError>)
    ensures r.Failure? <==> v.None? || !(v.value.JNumber? || v.value.JBool? || (v.value.JString? && ParseInt(v.value.s).Some?))
  {
    if v.None? then Failure(BadYear)
    else match v.value
      case JNumber(n) => Success(n)
      case JBool(b) => Success(if b then 1 else 0)
      case JString(t) => if ParseInt(t).Some? then Success(ParseInt(t).value) else Failure(BadInt(t))
      case _ => Failure(BadYear)
  }

  /** One record's `Population`: a number, or missing (absent or `null`). */
  function PopulationOf(v: Option<Json>): Result<Option<int>, LoadError> {
    if v.None? || v.value.JNull? then Success(None)
    else if v.value.JNumber? then Success(Some(v.value.n))
    else Failure(BadPopulation)
  }

  function Get(fields: map<string, Json>, name: string): Option<Json> {
    if name in fields then Some(fields[name]) else None
  }

  /** The records `json_normalize` turns into rows: a list of objects, or one object. */
  function RecordsOf(v: Json): Option<seq<map<string, Json>>> {
    match v
    case JObject(fields) => Some([fields])
    case JArray(items) =>
      if forall k :: 0 <= k < |items| ==> items[k].JObject? then Some(seq(|items|, k requires 0 <= k < |items| => items[k].fields))
      else None
    case _ => None
  }

  /** The rows of the records, in order, with the first conversion failure as the error. */
  function PopRows(records: seq<map<string, Json>>): (r: Result<seq<PopRow>, LoadError>)
    ensures r.Success? ==> |r.value| == |records|
    ensures r.Success? ==> forall k :: 0 <= k < |records| ==>
      (YearOf(Get(records[k], "Year")) == Success(r.value[k].year)
       && PopulationOf(Get(records[k], "Population")) == Success(r.value[k].population))
  {
    if records == [] then Success([])
    else match PopRows(records[..|records| - 1])
      case Failure(e) => Failure(e)
      case Success(rows) =>
        var rec := records[|records| - 1];
        match YearOf(Get(rec, "Year"))
        case Failure(e) => Failure(e)
        case Success(y) =>
          match PopulationOf(Get(rec, "Population"))
          case Failure(e) => Failure(e)
          case Success(p) =>
            assert forall k :: 0 <= k < |records| - 1 ==> records[..|records| - 1][k] == records[k];
            Success(rows + [PopRow(y, p)])
  }

  /** `_load_pop_df` after the object is decoded: the records under `data`, the `Year` and
      `Population` columns (each must occur in some record), `Year` converted to an integer. */
  function LoadPop(data: Json): (r: Result<seq<PopRow>, LoadError>)
    ensures r.Success? ==> data.JObject? && "data" in data.fields
  {
    if !(data.JObject? && "data" in data.fields) then Failure(NoRecords)
    else match RecordsOf(data.fields["data"])
      case None => Failure(NoRecords)
      case Some(records) =>
        if !exists k :: 0 <= k < |records| && "Year" in records[k] then Failure(MissingColumn("Year"))
        else if !exists k :: 0 <= k < |records| && "Population" in records[k] then Failure(MissingColumn("Population"))
        else PopRows(records)
  }

  /** A loaded population row is one record's year and population, in record order. */
  lemma LoadPopRows(data: Json)
    requires LoadPop(data).Success?
    ensures var records := RecordsOf(data.fields["data"]);
      && records.Some? && |LoadPop(data).value| == |records.value|
      && forall k :: 0 <= k < |records.value| ==>
        YearOf(Get(records.value[k], "Year")) == Success(LoadPop(data).value[k].year)
        && PopulationOf(Get(records.value[k], "Population")) == Success(LoadPop(data).value[k].population)
  {
  }

  // ---- The population subset ----------------------------------------------------------

  predicate InStatYears(p: PopRow) {
    2013 <= p.year <= 2018
  }

  /** `year.between(2013, 2018)`: both ends included, order kept. */
  function Subset(pop: seq<PopRow>): seq<PopRow> {
    if pop == [] then []
    else Subset(pop[..|pop| - 1]) + (if InStatYears(pop[|pop| - 1]) then [pop[|pop| - 1]] else [])
  }

  /** The subset holds every row of the years 2013 to 2018 as often as the table does, and
      nothing else. */
  lemma {:induction false} SubsetExact(pop: seq<PopRow>)
    ensures forall p :: multiset(Subset(pop))[p] == if InStatYears(p) then multiset(pop)[p] else 0
  {
    if pop != [] {
      var init, last := pop[..|pop| - 1], pop[|pop| - 1];
      SubsetExact(init);
      assert pop == init + [last];
    }
  }

  // ---- The best year of every series --------------------------------------------------

  /** `groupby(['series_id','year']).value.sum()` for one group. */
  function GroupSum(bls: seq<BlsRow>, series: string, year: int): real {
    if bls == [] then 0.0
    else
      var last := bls[|bls| - 1];
      GroupSum(bls[..|bls| - 1], series, year) + (if last.seriesId == series && last.year == year then last.value else 0.0)
  }

  /** The years of one series' rows, in row order. */
  function YearsOf(bls: seq<BlsRow>, series: string): (ys: seq<int>)
    ensures forall y :: y in ys <==> exists k :: 0 <= k < |bls| && bls[k].seriesId == series && bls[k].year == y
    ensures forall k :: 0 <= k < |bls| && bls[k].seriesId == series ==> bls[k].year in ys
  {
    if bls == [] then []
    else
      var last := bls[|bls| - 1];
      assert forall k :: 0 <= k < |bls| - 1 ==> bls[..|bls| - 1][k] == bls[k];
      YearsOf(bls[..|bls| - 1], series) + (if last.seriesId == series then [last.year] else [])
  }

  /** The row `drop_duplicates` keeps for a series: its year and that year's sum. */
  datatype Best = Best(year: int, yearSum: real)

  /** The best of the given years: the largest sum, the earliest year among equal sums. */
  function BestAmong(bls: seq<BlsRow>, series: string, ys: seq<int>): Best
    requires ys != []
  {
    if |ys| == 1 then Best(ys[0], GroupSum(bls, series, ys[0]))
    else
      var prev, y := BestAmong(bls, series, ys[..|ys| - 1]), ys[|ys| - 1];
      var t := GroupSum(bls, series, y);
      if t > prev.yearSum || (t == prev.yearSum && y < prev.year) then Best(y, t) else prev
  }

  /** The chosen year is one of the years, its sum is that year's sum, no year sums more,
      and no earlier year sums as much. */
  lemma {:induction false} BestAmongIsArgmax(bls: seq<BlsRow>, series: string, ys: seq<int>)
    requires ys != []
    ensures var b := BestAmong(bls, series, ys);
      && b.year in ys && b.yearSum == GroupSum(bls, series, b.year)
      && forall y :: y in ys ==>
           GroupSum(bls, series, y) < b.yearSum || (GroupSum(bls, series, y) == b.yearSum && b.year <= y)
  {
    if |ys| > 1 {
      var init := ys[..|ys| - 1];
      BestAmongIsArgmax(bls, series, init);
      assert forall y :: y in ys <==> y in init || y == ys[|ys| - 1];
    }
  }

  function SeriesIds(bls: seq<BlsRow>): set<string> {
    set k | 0 <= k < |bls| :: bls[k].seriesId
  }

  /** The best-year table: sort the group sums by series and descending sum (ties keep the
      groups' ascending year order, the sort being on two keys) and keep each series' first. */
  function BestYear(bls: seq<BlsRow>): (r: map<string, Best>)
    ensures r.Keys == SeriesIds(bls)
  {
    map s | s in SeriesIds(bls) :: BestAmong(bls, s, YearsOf(bls, s))
  }

  /** One row per series, holding the year whose sum is largest over that series' years
      (the earliest such year) and that sum. */
  lemma BestYearIsArgmax(bls: seq<BlsRow>, series: string)
    requires series in SeriesIds(bls)
    ensures var b := BestYear(bls)[series];
      && (exists k :: 0 <= k < |bls| && bls[k].seriesId == series && bls[k].year == b.year)
      && b.yearSum == GroupSum(bls, series, b.year)
      && forall k :: 0 <= k < |bls| && bls[k].seriesId == series ==>
           GroupSum(bls, series, bls[k].year) < b.yearSum
           || (GroupSum(bls, series, bls[k].year) == b.yearSum && b.year <= bls[k].year)
  {
    var ys := YearsOf(bls, series);
    var k :| 0 <= k < |bls| && bls[k].seriesId == series;
    assert bls[k].year in ys;
    BestAmongIsArgmax(bls, series, ys);
  }

  // ---- The PRS30006032 / Q01 join -----------------------------------------------------

  predicate IsTarget(r: BlsRow) {
    r.seriesId == "PRS30006032" && r.period == "Q01"
  }

  /** The query `series_id == 'PRS30006032' and period == 'Q01'`, order kept. */
  function Target(bls: seq<BlsRow>): (r: seq<BlsRow>)
    ensures forall k :: 0 <= k < |r| ==> IsTarget(r[k]) && r[k] in bls
  {
    if bls == [] then []
    else
      var last := bls[|bls| - 1];
      Target(bls[..|bls| - 1]) + (if IsTarget(last) then [last] else [])
  }

  /** The query keeps every row of the target series and quarter as often as the table
      holds it, and nothing else. */
  lemma {:induction false} TargetExact(bls: seq<BlsRow>)
    ensures forall r :: multiset(Target(bls))[r] == if IsTarget(r) then multiset(bls)[r] else 0
  {
    if bls != [] {
      var init, last := bls[..|bls| - 1], bls[|bls| - 1];
      TargetExact(init);
      assert bls == init + [last];
    }
  }

  /** A row of the left join: the BLS row and the population it met, `None` when none. */
  datatype MergedRow = MergedRow(row: BlsRow, population: Option<int>)

  /** A row of the final table. */
  datatype JoinedRow = JoinedRow(seriesId: string, year: int, period: string, value: real, population: int)

  /** The population rows of one year, in table order. */
  function YearRows(pop: seq<PopRow>, year: int): (r: seq<PopRow>)
    ensures forall k :: 0 <= k < |r| ==> r[k] in pop && r[k].year == year
  {
    if pop == [] then []
    else YearRows(pop[..|pop| - 1], year) + (if pop[|pop| - 1].year == year then [pop[|pop| - 1]] else [])
  }

  function MergeEach(t: BlsRow, matches: seq<PopRow>): seq<MergedRow> {
    if matches == [] then [] else MergeEach(t, matches[..|matches| - 1]) + [MergedRow(t, matches[|matches| - 1].population)]
  }

  /** `target.merge(pop, on="year", how="left")`: every target row with each population row of
      its year, or once with a missing population when there is none. */
  function LeftJoin(target: seq<BlsRow>, pop: seq<PopRow>): seq<MergedRow> {
    if target == [] then []
    else
      var t := target[|target| - 1];
      var matches := YearRows(pop, t.year);
      LeftJoin(target[..|target| - 1], pop) + (if matches == [] then [MergedRow(t, None)] else MergeEach(t, matches))
  }

  /** `dropna(subset=["population"])` with the population then taken as an integer. */
  function DropMissing(rows: seq<MergedRow>): (r: seq<JoinedRow>)
    ensures |r| <= |rows|
  {
    if rows == [] then []
    else
      var m := rows[|rows| - 1];
      DropMissing(rows[..|rows| - 1])
        + (if m.population.Some? then [JoinedRow(m.row.seriesId, m.row.year, m.row.period, m.row.value, m.population.value)] else [])
  }

  // The join as an inner join, defined independently of the steps the pipeline takes.

  function Pairs(t: BlsRow, pop: seq<PopRow>): seq<JoinedRow> {
    if pop == [] then []
    else
      var p := pop[|pop| - 1];
      Pairs(t, pop[..|pop| - 1])
        + (if p.year == t.year && p.population.Some? then [JoinedRow(t.seriesId, t.year, t.period, t.value, p.population.value)] else [])
  }

  /** Every target row with every population row of its year that has a population. */
  function InnerJoin(target: seq<BlsRow>, pop: seq<PopRow>): seq<JoinedRow> {
    if target == [] then [] else InnerJoin(target[..|target| - 1], pop) + Pairs(target[|target| - 1], pop)
  }

  lemma {:induction false} DropMissingConcat(a: seq<MergedRow>, b: seq<MergedRow>)
    ensures DropMissing(a + b) == DropMissing(a) + DropMissing(b)
    decreases |b|
  {
    if b == [] {
      assert a + b == a;
    } else {
      DropMissingConcat(a, b[..|b| - 1]);
      assert (a + b)[..|a + b| - 1] == a + b[..|b| - 1];
    }
  }

  lemma {:induction false} DropMissingMergeEach(t: BlsRow, pop: seq<PopRow>)
    ensures DropMissing(MergeEach(t, YearRows(pop, t.year))) == Pairs(t, pop)
  {
    if pop != [] {
      var init, p := pop[..|pop| - 1], pop[|pop| - 1];
      DropMissingMergeEach(t, init);
      if p.year == t.year {
        var ms := YearRows(init, t.year);
        assert YearRows(pop, t.year) == ms + [p];
        assert (ms + [p])[..|ms + [p]| - 1] == ms;
        assert MergeEach(t, ms + [p]) == MergeEach(t, ms) + [MergedRow(t, p.population)];
        DropMissingConcat(MergeEach(t, ms), [MergedRow(t, p.population)]);
        assert [MergedRow(t, p.population)][..0] == [];
        assert DropMissing([MergedRow(t, p.population)])
            == (if p.population.Some? then [JoinedRow(t.seriesId, t.year, t.period, t.value, p.population.value)] else []);
        assert Pairs(t, pop) == Pairs(t, init)
            + (if p.population.Some? then [JoinedRow(t.seriesId, t.year, t.period, t.value, p.population.value)] else []);
      } else {
        assert YearRows(pop, t.year) == YearRows(init, t.year) + [];
        assert YearRows(pop, t.year) == YearRows(init, t.year);
        assert Pairs(t, pop) == Pairs(t, init) + [];
        assert Pairs(t, pop) == Pairs(t, init);
      }
    }
  }

  lemma {:induction false} PairsWithoutMatches(t: BlsRow, pop: seq<PopRow>)
    requires YearRows(pop, t.year) == []
    ensures Pairs(t, pop) == []
  {
    if pop != [] {
      PairsWithoutMatches(t, pop[..|pop| - 1]);
    }
  }

  /** The left join followed by dropping missing populations is the inner join. */
  lemma {:induction false} LeftJoinThenDrop(target: seq<BlsRow>, pop: seq<PopRow>)
    ensures DropMissing(LeftJoin(target, pop)) == InnerJoin(target, pop)
  {
    if target != [] {
      var init, t := target[..|target| - 1], target[|target| - 1];
      LeftJoinThenDrop(init, pop);
      var matches := YearRows(pop, t.year);
      var tail := if matches == [] then [MergedRow(t, None)] else MergeEach(t, matches);
      DropMissingConcat(LeftJoin(init, pop), tail);
      if matches == [] {
        PairsWithoutMatches(t, pop);
        assert DropMissing(tail) == [];
      } else {
        DropMissingMergeEach(t, pop);
      }
    }
  }

  // ---- Sorting by year ----------------------------------------------------------------

  predicate SortedByYear(rows: seq<JoinedRow>) {
    forall i, j :: 0 <= i < j < |rows| ==> rows[i].year <= rows[j].year
  }

  /** Place one row into year-sorted rows, after the rows of the same or an earlier year. */
  function InsertByYear(x: JoinedRow, rows: seq<JoinedRow>): (r: seq<JoinedRow>)
    requires SortedByYear(rows)
    ensures |r| == |rows| + 1 && (r[0] == x || (rows != [] && r[0] == rows[0]))
    ensures SortedByYear(r)
  {
    if rows == [] then [x]
    else if x.year < rows[0].year then [x] + rows
    else [rows[0]] + InsertByYear(x, rows[1..])
  }

  /** Inserting a row adds exactly that row. */
  lemma {:induction false} InsertByYearAdds(x: JoinedRow, rows: seq<JoinedRow>)
    requires SortedByYear(rows)
    ensures multiset(InsertByYear(x, rows)) == multiset(rows) + multiset{x}
  {
    if rows != [] && x.year >= rows[0].year {
      InsertByYearAdds(x, rows[1..]);
      assert rows == [rows[0]] + rows[1..];
    }
  }

  /** `sort_values("year")`: the rows in ascending year order. The sort pandas uses here is
      not stable, so only the order of years, not of rows within a year, is fixed. */
  function SortByYear(rows: seq<JoinedRow>): (r: seq<JoinedRow>)
    ensures SortedByYear(r) && multiset(r) == multiset(rows)
  {
    if rows == [] then []
    else
      assert rows == rows[..|rows| - 1] + [rows[|rows| - 1]];
      InsertByYearAdds(rows[|rows| - 1], SortByYear(rows[..|rows| - 1]));
      InsertByYear(rows[|rows| - 1], SortByYear(rows[..|rows| - 1]))
  }

  /** The third report's table. */
  function Joined(bls: seq<BlsRow>, pop: seq<PopRow>): seq<JoinedRow> {
    SortByYear(DropMissing(LeftJoin(Target(bls), pop)))
  }

  lemma {:induction false} PairsRows(t: BlsRow, pop: seq<PopRow>)
    ensures forall j :: j in Pairs(t, pop) ==>
      && j.seriesId == t.seriesId && j.year == t.year && j.period == t.period && j.value == t.value
      && exists p :: p in pop && p.year == j.year && p.population == Some(j.population)
  {
    if pop != [] {
      var init := pop[..|pop| - 1];
      PairsRows(t, init);
      assert forall p :: p in init ==> p in pop;
    }
  }

  lemma {:induction false} InnerJoinRows(target: seq<BlsRow>, pop: seq<PopRow>)
    ensures forall j :: j in InnerJoin(target, pop) ==>
      && (exists t :: t in target && j == JoinedRow(t.seriesId, t.year, t.period, t.value, j.population))
      && exists p :: p in pop && p.year == j.year && p.population == Some(j.population)
  {
    if target != [] {
      var init, t := target[..|target| - 1], target[|target| - 1];
      InnerJoinRows(init, pop);
      PairsRows(t, pop);
      assert forall x :: x in init ==> x in target;
    }
  }

  /** Every row of the joined table is a PRS30006032 / Q01 row of the BLS data with the
      population of a population row of its year; the rows are in ascending year order and
      are exactly the inner join's rows. */
  lemma JoinedRowsMatch(bls: seq<BlsRow>, pop: seq<PopRow>)
    ensures SortedByYear(Joined(bls, pop))
    ensures multiset(Joined(bls, pop)) == multiset(InnerJoin(Target(bls), pop))
    ensures forall j :: j in Joined(bls, pop) ==>
      && j.seriesId == "PRS30006032" && j.period == "Q01"
      && (exists b :: b in bls && j == JoinedRow(b.seriesId, b.year, b.period, b.value, j.population))
      && exists p :: p in pop && p.year == j.year && p.population == Some(j.population)
  {
    var target := Target(bls);
    LeftJoinThenDrop(target, pop);
    InnerJoinRows(target, pop);
    var joined, inner := Joined(bls, pop), InnerJoin(target, pop);
    assert multiset(joined) == multiset(inner);
    forall j | j in joined
      ensures j.seriesId == "PRS30006032" && j.period == "Q01"
      ensures exists b :: b in bls && j == JoinedRow(b.seriesId, b.year, b.period, b.value, j.population)
      ensures exists p :: p in pop && p.year == j.year && p.population == Some(j.population)
    {
      assert j in multiset(joined);
      assert j in inner;
      var t :| t in target && j == JoinedRow(t.seriesId, t.year, t.period, t.value, j.population);
      var k :| 0 <= k < |target| && target[k] == t;
      assert IsTarget(t) && t in bls;
    }
  }

  // ---- The reports --------------------------------------------------------------------

  /** The three tables `run_reports` computes before printing: the population subset, the
      best-year table and the joined table. */
  datatype Reports = Reports(subset: seq<PopRow>, bestYear: map<string, Best>, joined: seq<JoinedRow>)

  function RunReports(pop: seq<PopRow>, bls: seq<BlsRow>): (r: Reports)
    ensures r.bestYear.Keys == SeriesIds(bls)
    ensures SortedByYear(r.joined)
  {
    Reports(Subset(pop), BestYear(bls), Joined(bls, pop))
  }
}
