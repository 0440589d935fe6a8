/**
 * `parseLifeExpectancyTable` over lines already split into fields, and the
 * lookup `data[sex][age]` on its result.
 *
 * The table maps "m" and "f" to maps from age to expectancy. Expectancies
 * are of an opaque type `V`, read by a caller-supplied `parseValue` that
 * stands for `strconv.ParseFloat`; `zero` stands for the float zero that a
 * Go map read of an absent key yields.
 */
module Table {
  import opened Wrappers
  import opened Decimal

  type Data<V> = map<string, map<int, V>>

  /** One line of the table: an age and the male and female expectancies. */
  datatype Row<V> = Row(age: int, male: V, female: V)

  /**
   * Why a line is rejected. `MissingField(i)` is the out-of-range index
   * `fields[i]`, a run-time panic in the program; the other three are the
   * `log.Fatalln` exits after a failed conversion.
   */
  datatype LineError = MissingField(index: nat) | BadAge | BadMale | BadFemale

  /** Why the table cannot be built: no data file for the year, or a rejected line (counted from 0). */
  datatype TableError = NoDataFile(year: int) | BadLine(line: nat, error: LineError)

  /**
   * The per-line conversions in the program's order: age from field 0, male
   * expectancy from field 1, female expectancy from field 2. Fields after
   * the third are ignored.
   */
  function ParseLine<V>(fields: seq<string>, parseValue: string -> Option<V>): (r: Result<Row<V>, LineError>)
    ensures r.Success? <==>
      |fields| >= 3 && Atoi(fields[0]).Some? && parseValue(fields[1]).Some? && parseValue(fields[2]).Some?
    ensures r.Success? ==>
      r.value == Row(Atoi(fields[0]).value, parseValue(fields[1]).value, parseValue(fields[2]).value)
  {
    if |fields| < 1 then Failure(MissingField(0))
    else match Atoi(fields[0])
      case None => Failure(BadAge)
      case Some(age) =>
        if |fields| < 2 then Failure(MissingField(1))
        else match parseValue(fields[1])
          case None => Failure(BadMale)
          case Some(male) =>
            if |fields| < 3 then Failure(MissingField(2))
            else match parseValue(fields[2])
              case None => Failure(BadFemale)
              case Some(female) => Success(Row(age, male, female))
  }

  /**
   * The error a rejected line reports is the first check it fails, in the
   * order the program makes them.
   */
  lemma ParseLineErrors<V>(fields: seq<string>, parseValue: string -> Option<V>)
    ensures ParseLine(fields, parseValue) == Failure(MissingField(0)) <==> |fields| == 0
    ensures ParseLine(fields, parseValue) == Failure(BadAge) <==> |fields| >= 1 && Atoi(fields[0]).None?
    ensures ParseLine(fields, parseValue) == Failure(MissingField(1)) <==>
      |fields| == 1 && Atoi(fields[0]).Some?
    ensures ParseLine(fields, parseValue) == Failure(BadMale) <==>
      |fields| >= 2 && Atoi(fields[0]).Some? && parseValue(fields[1]).None?
    ensures ParseLine(fields, parseValue) == Failure(MissingField(2)) <==>
      |fields| == 2 && Atoi(fields[0]).Some? && parseValue(fields[1]).Some?
    ensures ParseLine(fields, parseValue) == Failure(BadFemale) <==>
      |fields| >= 3 && Atoi(fields[0]).Some? && parseValue(fields[1]).Some? && parseValue(fields[2]).None?
  {
  }

  /** The table before any line: both maps present and empty. */
  function EmptyData<V>(): (d: Data<V>)
    ensures d.Keys == {"m", "f"}
    ensures d["m"] == map[] && d["f"] == map[]
  {
    map["m" := map[], "f" := map[]]
  }

  /** `result["m"][age] = spanMale` then `result["f"][age] = spanFemale`. */
  function Store<V>(d: Data<V>, row: Row<V>): Data<V>
    requires "m" in d && "f" in d
  {
    d["m" := d["m"][row.age := row.male]]["f" := d["f"][row.age := row.female]]
  }

  /** The table built from rows in order; a later row for an age overwrites an earlier one. */
  function Fold<V>(rows: seq<Row<V>>): (d: Data<V>)
    ensures d.Keys == {"m", "f"}
  {
    if |rows| == 0 then EmptyData()
    else Store(Fold(rows[..|rows| - 1]), rows[|rows| - 1])
  }

  /** The rows of all lines, or the first rejected line. */
  function ParseRows<V>(lines: seq<seq<string>>, parseValue: string -> Option<V>): (r: Result<seq<Row<V>>, TableError>)
    ensures r.Success? ==> |r.value| == |lines|
  {
    if |lines| == 0 then Success([])
    else match ParseRows(lines[..|lines| - 1], parseValue)
      case Failure(e) => Failure(e)
      case Success(rows) =>
        match ParseLine(lines[|lines| - 1], parseValue)
          case Failure(e) => Failure(BadLine(|lines| - 1, e))
          case Success(row) => Success(rows + [row])
  }

  /** `parseLifeExpectancyTable` once the data file's lines are in hand. */
  function BuildTable<V>(lines: seq<seq<string>>, parseValue: string -> Option<V>): Result<Data<V>, TableError> {
    match ParseRows(lines, parseValue)
    case Failure(e) => Failure(e)
    case Success(rows) => Success(Fold(rows))
  }

  /**
   * `parseLifeExpectancyTable(year)`: the embedded files are a map from year
   * to the data file's lines; a year without a file is fatal.
   */
  function LoadTable<V>(files: map<int, seq<seq<string>>>, year: int, parseValue: string -> Option<V>): (r: Result<Data<V>, TableError>)
    ensures year !in files ==> r == Failure(NoDataFile(year))
    ensures r.Success? <==> year in files && AllLinesParse(files[year], parseValue)
    ensures r.Success? ==> r.value.Keys == {"m", "f"} && r.value["m"].Keys == r.value["f"].Keys
  {
    if year !in files then Failure(NoDataFile(year))
    else
      BuildTableSucceeds(files[year], parseValue);
      if AllLinesParse(files[year], parseValue) then
        BuildTableKeys(files[year], parseValue);
        BuildTable(files[year], parseValue)
      else
        BuildTable(files[year], parseValue)
  }

  /**
   * Parsing succeeds exactly when every line parses, and then yields one row
   * per line; otherwise it reports the first line that does not parse.
   */
  lemma {:induction false} ParseRowsMeaning<V>(lines: seq<seq<string>>, parseValue: string -> Option<V>)
    ensures ParseRows(lines, parseValue).Success? <==>
      forall i :: 0 <= i < |lines| ==> ParseLine(lines[i], parseValue).Success?
    ensures ParseRows(lines, parseValue).Success? ==>
      forall i :: 0 <= i < |lines| ==> ParseRows(lines, parseValue).value[i] == ParseLine(lines[i], parseValue).value
    ensures ParseRows(lines, parseValue).Failure? ==>
      var e := ParseRows(lines, parseValue).error;
      e.BadLine? && e.line < |lines| &&
      ParseLine(lines[e.line], parseValue) == Failure(e.error) &&
      forall j :: 0 <= j < e.line ==> ParseLine(lines[j], parseValue).Success?
  {
    if |lines| > 0 {
      var init := lines[..|lines| - 1];
      ParseRowsMeaning(init, parseValue);
      assert forall i :: 0 <= i < |init| ==> init[i] == lines[i];
    }
  }

  /** The ages the rows mention. */
  function Ages<V>(rows: seq<Row<V>>): set<int> {
    set i | 0 <= i < |rows| :: rows[i].age
  }

  /** Both maps of a built table have as keys exactly the ages of its rows. */
  lemma {:induction false} FoldKeys<V>(rows: seq<Row<V>>)
    ensures Fold(rows)["m"].Keys == Ages(rows)
    ensures Fold(rows)["f"].Keys == Ages(rows)
  {
    if |rows| > 0 {
      var init := rows[..|rows| - 1];
      FoldKeys(init);
      assert Ages(rows) == Ages(init) + {rows[|rows| - 1].age} by {
        forall a | a in Ages(rows) ensures a in Ages(init) + {rows[|rows| - 1].age} {
          var i :| 0 <= i < |rows| && rows[i].age == a;
          if i < |rows| - 1 {
            assert init[i] == rows[i];
          }
        }
        forall a | a in Ages(init) ensures a in Ages(rows) {
          var i :| 0 <= i < |init| && init[i].age == a;
          assert rows[i] == init[i];
        }
      }
    }
  }

  /**
   * The last row for an age decides both of its entries: whatever earlier
   * rows said, both maps hold that row's values.
   */
  lemma {:induction false} FoldLastWins<V>(rows: seq<Row<V>>, j: int)
    requires 0 <= j < |rows|
    requires forall k :: j < k < |rows| ==> rows[k].age != rows[j].age
    ensures rows[j].age in Fold(rows)["m"] && Fold(rows)["m"][rows[j].age] == rows[j].male
    ensures rows[j].age in Fold(rows)["f"] && Fold(rows)["f"][rows[j].age] == rows[j].female
  {
    if j < |rows| - 1 {
      var init := rows[..|rows| - 1];
      assert init[j] == rows[j];
      FoldLastWins(init, j);
    }
  }

  /** A row for an age that is already present replaces both of its entries. */
  lemma StoreOverwrites<V>(d: Data<V>, first: Row<V>, second: Row<V>)
    requires "m" in d && "f" in d
    requires first.age == second.age
    ensures Store(Store(d, first), second) == Store(d, second)
  {
    assert d["m"][first.age := first.male][second.age := second.male] == d["m"][second.age := second.male];
    assert d["f"][first.age := first.female][second.age := second.female] == d["f"][second.age := second.female];
  }

  /**
   * The loop of `parseLifeExpectancyTable`: each line is parsed in turn and
   * stored into both maps; the first rejected line ends the parse.
   */
  method ParseTable<V>(lines: seq<seq<string>>, parseValue: string -> Option<V>) returns (r: Result<Data<V>, TableError>)
    ensures r == BuildTable(lines, parseValue)
    ensures r.Success? ==> r.value.Keys == {"m", "f"} && r.value["m"].Keys == r.value["f"].Keys
  {
    var data: Data<V> := EmptyData();
    ghost var rows: seq<Row<V>> := [];
    var i := 0;
    while i < |lines|
      invariant 0 <= i <= |lines|
      invariant ParseRows(lines[..i], parseValue) == Success(rows)
      invariant data == Fold(rows)
    {
      var line := ParseLine(lines[i], parseValue);
      assert lines[..i + 1][..i] == lines[..i];
      if line.Failure? {
        r := Failure(BadLine(i, line.error));
        BuildStopsAtFailure(lines, parseValue, i);
        return;
      }
      data := Store(data, line.value);
      rows := rows + [line.value];
      assert rows[..|rows| - 1] == rows[..i];
      i := i + 1;
    }
    assert lines[..i] == lines;
    r := Success(data);
    FoldKeys(rows);
  }

  /** Parsing stops at the first rejected line, whatever follows it. */
  lemma {:induction false} BuildStopsAtFailure<V>(lines: seq<seq<string>>, parseValue: string -> Option<V>, i: nat)
    requires i < |lines|
    requires ParseRows(lines[..i], parseValue).Success?
    requires ParseLine(lines[i], parseValue).Failure?
    ensures BuildTable(lines, parseValue) == Failure(BadLine(i, ParseLine(lines[i], parseValue).error))
  {
    ParseRowsMeaning(lines[..i], parseValue);
    ParseRowsMeaning(lines, parseValue);
    var e := ParseRows(lines, parseValue).error;
    forall j | 0 <= j < i ensures ParseLine(lines[j], parseValue).Success? {
      assert lines[..i][j] == lines[j];
    }
  }

  /** Every line has an integer age and two expectancies. */
  predicate AllLinesParse<V>(lines: seq<seq<string>>, parseValue: string -> Option<V>) {
    forall i :: 0 <= i < |lines| ==> ParseLine(lines[i], parseValue).Success?
  }

  /** The table is built exactly when every line parses. */
  lemma BuildTableSucceeds<V>(lines: seq<seq<string>>, parseValue: string -> Option<V>)
    ensures BuildTable(lines, parseValue).Success? <==> AllLinesParse(lines, parseValue)
  {
    ParseRowsMeaning(lines, parseValue);
  }

  /** A successfully built table has both maps, keyed by exactly the ages of its lines. */
  lemma BuildTableKeys<V>(lines: seq<seq<string>>, parseValue: string -> Option<V>)
    requires AllLinesParse(lines, parseValue)
    ensures BuildTable(lines, parseValue).Success?
    ensures BuildTable(lines, parseValue).value.Keys == {"m", "f"}
    ensures BuildTable(lines, parseValue).value["m"].Keys
         == BuildTable(lines, parseValue).value["f"].Keys
         == set i | 0 <= i < |lines| :: Atoi(lines[i][0]).value
  {
    ParseRowsMeaning(lines, parseValue);
    var rows := ParseRows(lines, parseValue).value;
    FoldKeys(rows);
    assert Ages(rows) == set i | 0 <= i < |lines| :: Atoi(lines[i][0]).value;
  }

  /**
   * In a successfully built table, the last line for an age sets both its
   * male and its female entry.
   */
  lemma BuildTableLastLineWins<V>(lines: seq<seq<string>>, parseValue: string -> Option<V>, j: int)
    requires AllLinesParse(lines, parseValue)
    requires 0 <= j < |lines|
    requires forall k :: j < k < |lines| ==>
      ParseLine(lines[k], parseValue).value.age != ParseLine(lines[j], parseValue).value.age
    ensures BuildTable(lines, parseValue).Success?
    ensures
      var d := BuildTable(lines, parseValue).value;
      var row := ParseLine(lines[j], parseValue).value;
      row.age in d["m"] && d["m"][row.age] == row.male &&
      row.age in d["f"] && d["f"][row.age] == row.female
  {
    ParseRowsMeaning(lines, parseValue);
    var rows := ParseRows(lines, parseValue).value;
    FoldLastWins(rows, j);
  }

  /** `data[sex][age]`: a missing sex or a missing age reads as the zero value. */
  function Lookup<V>(data: Data<V>, sex: string, age: int, zero: V): V {
    if sex in data && age in data[sex] then data[sex][age] else zero
  }

  /**
   * In a built table, an age is absent exactly when no line mentions it, and
   * looking it up then yields the zero value.
   */
  lemma LookupBuilt<V>(lines: seq<seq<string>>, parseValue: string -> Option<V>, sex: string, age: int, zero: V)
    requires AllLinesParse(lines, parseValue)
    requires sex == "m" || sex == "f"
    ensures BuildTable(lines, parseValue).Success?
    ensures
      var d := BuildTable(lines, parseValue).value;
      (age !in d[sex] <==> forall i :: 0 <= i < |lines| ==> Atoi(lines[i][0]).value != age) &&
      (age !in d[sex] ==> Lookup(d, sex, age, zero) == zero)
  {
    BuildTableKeys(lines, parseValue);
    ParseRowsMeaning(lines, parseValue);
  }

  /**
   * In a built table, looking up the age of line `j`, when no later line
   * repeats it, yields that line's male value for "m" and its female value
   * for "f".
   */
  lemma LookupLastLine<V>(lines: seq<seq<string>>, parseValue: string -> Option<V>, sex: string, j: int, zero: V)
    requires AllLinesParse(lines, parseValue)
    requires sex == "m" || sex == "f"
    requires 0 <= j < |lines|
    requires forall k :: j < k < |lines| ==> Atoi(lines[k][0]).value != Atoi(lines[j][0]).value
    ensures BuildTable(lines, parseValue).Success?
    ensures
      var d := BuildTable(lines, parseValue).value;
      Lookup(d, sex, Atoi(lines[j][0]).value, zero)
        == if sex == "m" then parseValue(lines[j][1]).value else parseValue(lines[j][2]).value
  {
    BuildTableLastLineWins(lines, parseValue, j);
  }
}
