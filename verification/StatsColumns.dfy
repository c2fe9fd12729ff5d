/** The statistics script: per-step rows of statistics turned into one column per statistic, with
    gaps filled for steps in which a variable was missing. */
module StatsColumns {
  import opened Wrappers

  datatype Stats = Stats(min: real, max: real, mean: real, median: real, std: real, variance: real)

  /** What reading one variable in one step gives. */
  datatype Reading = ReadFailed | Empty | NonNumeric | Numeric(stats: Stats)

  /** The variables available in one step, each once. */
  type Step = seq<(string, Reading)>

  const STAT_NAMES: seq<string> := ["min", "max", "mean", "median", "std", "var"]

  function StatValue(s: Stats, name: string): real {
    if name == "min" then s.min else if name == "max" then s.max else if name == "mean" then s.mean
    else if name == "median" then s.median else if name == "std" then s.std else s.variance
  }

  /** Each statistic's name selects its own value. */
  lemma StatValuesInOrder(s: Stats, k: int)
    requires 0 <= k < |STAT_NAMES|
    ensures StatValue(s, STAT_NAMES[k]) == [s.min, s.max, s.mean, s.median, s.std, s.variance][k]
  {
    assert STAT_NAMES == ["min", "max", "mean", "median", "std", "var"];
    assert k == 0 || k == 1 || k == 2 || k == 3 || k == 4 || k == 5;
    assert "min"[1] == 'i' && "max"[1] == 'a' && |"mean"| == 4 && |"median"| == 6 && "std"[0] == 's' && "var"[0] == 'v';
  }

  // ----- Output names -----

  function OutName(variable: string, stat: string): string {
    variable + "_" + stat
  }

  lemma StatNamesHaveNoUnderscore(k: int)
    requires 0 <= k < |STAT_NAMES|
    ensures '_' !in STAT_NAMES[k]
  {
    assert STAT_NAMES == ["min", "max", "mean", "median", "std", "var"];
    assert k == 0 || k == 1 || k == 2 || k == 3 || k == 4 || k == 5;
  }

  lemma StatNamesDistinct(k: int, l: int)
    requires 0 <= k < |STAT_NAMES| && 0 <= l < |STAT_NAMES| && STAT_NAMES[k] == STAT_NAMES[l]
    ensures k == l
  {
    assert STAT_NAMES == ["min", "max", "mean", "median", "std", "var"];
    assert |STAT_NAMES[0]| == 3 && |STAT_NAMES[1]| == 3 && |STAT_NAMES[2]| == 4 && |STAT_NAMES[3]| == 6;
    assert STAT_NAMES[0][0] == 'm' && STAT_NAMES[0][1] == 'i' && STAT_NAMES[1][0] == 'm' && STAT_NAMES[1][1] == 'a';
    assert STAT_NAMES[4][0] == 's' && STAT_NAMES[5][0] == 'v';
  }

  lemma LastUnderscore(v: string, s: string)
    requires '_' !in s
    ensures var n := OutName(v, s);
            |v| < |n| && n[|v|] == '_' && n[..|v|] == v && n[|v| + 1..] == s
            && forall k :: |v| < k < |n| ==> n[k] != '_'
  {
    var n := OutName(v, s);
    forall k | |v| < k < |n| ensures n[k] != '_' {
      assert n[k] == s[k - |v| - 1];
    }
  }

  /** A name ends in an underscore and a statistic in only one way, whatever the variable is called. */
  lemma OutNameInjective(v: string, s: string, v': string, s': string)
    requires '_' !in s && '_' !in s' && OutName(v, s) == OutName(v', s')
    ensures v == v' && s == s'
  {
    hide OutName;
    LastUnderscore(v, s);
    LastUnderscore(v', s');
  }

  // ----- Rows -----

  /** Entry j of the row belongs to the statistic k of variable i. */
  ghost predicate Contributes(step: Step, i: int, k: int, name: string, x: real) {
    && 0 <= i < |step| && 0 <= k < |STAT_NAMES| && step[i].1.Numeric?
    && name == OutName(step[i].0, STAT_NAMES[k]) && x == StatValue(step[i].1.stats, STAT_NAMES[k])
  }

  ghost predicate DistinctVariables(step: Step) {
    forall i, j :: 0 <= i < j < |step| ==> step[i].0 != step[j].0
  }

  /** A step's row says exactly what its variables' statistics are. */
  ghost predicate IsRow(row: map<string, real>, step: Step, i: int, k: int) {
    && (forall name :: name in row ==> exists a, b :: Before(a, b, i, k) && Contributes(step, a, b, name, row[name]))
    && (forall a, b, name, x :: Before(a, b, i, k) && Contributes(step, a, b, name, x) ==>
        name in row && row[name] == x)
  }

  predicate Before(a: int, b: int, i: int, k: int) {
    a < i || (a == i && b < k)
  }

  lemma ContributionsDistinct(step: Step, a: int, b: int, a': int, b': int, name: string, x: real, y: real)
    requires DistinctVariables(step) && Contributes(step, a, b, name, x) && Contributes(step, a', b', name, y)
    ensures a == a' && b == b' && x == y
  {
    StatNamesHaveNoUnderscore(b);
    StatNamesHaveNoUnderscore(b');
    OutNameInjective(step[a].0, STAT_NAMES[b], step[a'].0, STAT_NAMES[b']);
    StatNamesDistinct(b, b');
  }

  lemma RowGrows(row: map<string, real>, step: Step, i: int, k: int)
    requires DistinctVariables(step) && 0 <= i < |step| && step[i].1.Numeric? && 0 <= k < |STAT_NAMES|
    requires IsRow(row, step, i, k)
    ensures IsRow(row[OutName(step[i].0, STAT_NAMES[k]) := StatValue(step[i].1.stats, STAT_NAMES[k])], step, i, k + 1)
  {
    var n, x := OutName(step[i].0, STAT_NAMES[k]), StatValue(step[i].1.stats, STAT_NAMES[k]);
    var row' := row[n := x];
    hide OutName;
    hide StatValue;
    assert Contributes(step, i, k, n, x);
    forall name | name in row'
      ensures exists a, b :: Before(a, b, i, k + 1) && Contributes(step, a, b, name, row'[name])
    {
      if name == n {
        assert Before(i, k, i, k + 1);
      } else {
        var a, b :| Before(a, b, i, k) && Contributes(step, a, b, name, row[name]);
        assert Before(a, b, i, k + 1);
      }
    }
    forall a, b, name, y | Before(a, b, i, k + 1) && Contributes(step, a, b, name, y)
      ensures name in row' && row'[name] == y
    {
      if name == n {
        ContributionsDistinct(step, a, b, i, k, n, y, x);
      } else {
        assert Before(a, b, i, k);
      }
    }
  }

  lemma RowSkips(row: map<string, real>, step: Step, i: int)
    requires 0 <= i < |step|
    requires (IsRow(row, step, i, 0) && !step[i].1.Numeric?) || IsRow(row, step, i, |STAT_NAMES|)
    ensures IsRow(row, step, i + 1, 0)
  {
    hide OutName;
    hide StatValue;
    forall name | name in row
      ensures exists a, b :: Before(a, b, i + 1, 0) && Contributes(step, a, b, name, row[name])
    {
      var k := if IsRow(row, step, i, |STAT_NAMES|) then |STAT_NAMES| else 0;
      var a, b :| Before(a, b, i, k) && Contributes(step, a, b, name, row[name]);
      assert Before(a, b, i + 1, 0);
    }
    forall a, b, name, y | Before(a, b, i + 1, 0) && Contributes(step, a, b, name, y)
      ensures name in row && row[name] == y
    {
      if IsRow(row, step, i, |STAT_NAMES|) {
        assert Before(a, b, i, |STAT_NAMES|);
      } else {
        assert Before(a, b, i, 0);
      }
    }
  }

  /** One step's statistics, and the output names seen so far. */
  method ReadStep(step: Step, seen: set<string>) returns (row: map<string, real>, written: set<string>)
    requires DistinctVariables(step)
    ensures IsRow(row, step, |step|, 0)
    ensures written == seen + row.Keys
  {
    row, written := map[], seen;
    hide IsRow;
    assert IsRow(row, step, 0, 0) by { EmptyRow(step); }
    for i := 0 to |step|
      invariant IsRow(row, step, i, 0) && written == seen + row.Keys
    {
      if step[i].1.Numeric? {
        var stats := step[i].1.stats;
        for k := 0 to |STAT_NAMES|
          invariant IsRow(row, step, i, k) && written == seen + row.Keys
        {
          var outName := OutName(step[i].0, STAT_NAMES[k]);
          RowGrows(row, step, i, k);
          row := row[outName := StatValue(stats, STAT_NAMES[k])];
          written := written + {outName};
        }
      }
      RowSkips(row, step, i);
    }
  }

  lemma EmptyRow(step: Step)
    ensures IsRow(map[], step, 0, 0)
  {
    forall a, b, name, x | Before(a, b, 0, 0) && Contributes(step, a, b, name, x) ensures false {
    }
  }

  // ----- Columns -----

  type Series = seq<Option<real>>

  function Gaps(n: nat): Series {
    seq(n, _ => None)
  }

  function Lookup(row: map<string, real>, name: string): Option<real> {
    if name in row then Some(row[name]) else None
  }

  /** The columns agree with the rows: one column per name in any row, one entry per row. */
  ghost predicate Agree(columns: map<string, Series>, rows: seq<map<string, real>>) {
    && (forall name :: name in columns <==> exists k :: 0 <= k < |rows| && name in rows[k])
    && (forall name :: name in columns ==> IsColumn(columns[name], rows, name))
  }

  ghost predicate IsColumn(column: Series, rows: seq<map<string, real>>, name: string) {
    |column| == |rows| && forall k :: 0 <= k < |rows| ==> column[k] == Lookup(rows[k], name)
  }

  /** New names start with gaps for the steps before. */
  method Backfill(columns: map<string, Series>, row: map<string, real>, n: nat) returns (filled: map<string, Series>)
    ensures forall name :: name in filled <==> name in columns || name in row
    ensures forall name :: name in filled ==> filled[name] == if name in columns then columns[name] else Gaps(n)
  {
    hide Gaps;
    filled := columns;
    var todo := row.Keys;
    while todo != {}
      invariant todo <= row.Keys
      invariant forall name :: name in filled <==> name in columns || (name in row && name !in todo)
      invariant forall name :: name in filled ==> filled[name] == if name in columns then columns[name] else Gaps(n)
      decreases |todo|
    {
      var name :| name in todo;
      if name !in filled {
        filled := filled[name := Gaps(n)];
      }
      todo := todo - {name};
    }
  }

  /** Every column gets one more entry. */
  method AppendRow(columns: map<string, Series>, row: map<string, real>) returns (longer: map<string, Series>)
    ensures longer.Keys == columns.Keys
    ensures forall name :: name in columns ==> longer[name] == columns[name] + [Lookup(row, name)]
  {
    longer := columns;
    var todo := columns.Keys;
    while todo != {}
      invariant todo <= columns.Keys && longer.Keys == columns.Keys
      invariant forall name :: name in columns ==>
                  longer[name] == if name in todo then columns[name] else columns[name] + [Lookup(row, name)]
      decreases |todo|
    {
      var name :| name in todo;
      longer := longer[name := longer[name] + [Lookup(row, name)]];
      todo := todo - {name};
    }
  }

  lemma AgreeGrows(columns: map<string, Series>, rows: seq<map<string, real>>, row: map<string, real>,
                   filled: map<string, Series>, longer: map<string, Series>)
    requires Agree(columns, rows)
    requires forall name :: name in filled <==> name in columns || name in row
    requires forall name :: name in filled ==> filled[name] == if name in columns then columns[name] else Gaps(|rows|)
    requires longer.Keys == filled.Keys
    requires forall name :: name in filled ==> longer[name] == filled[name] + [Lookup(row, name)]
    ensures Agree(longer, rows + [row])
  {
    var rows' := rows + [row];
    hide IsColumn;
    hide Gaps;
    hide Lookup;
    forall name ensures name in longer <==> exists k :: 0 <= k < |rows'| && name in rows'[k] {
      if name in columns {
        var k :| 0 <= k < |rows| && name in rows[k];
        assert name in rows'[k];
      } else if name in row {
        assert name in rows'[|rows|];
      }
    }
    forall name | name in longer ensures IsColumn(longer[name], rows', name) {
      if name !in columns {
        GapsAreColumn(rows, name);
      }
      ColumnGrows(filled[name], rows, row, name);
    }
  }

  lemma GapsAreColumn(rows: seq<map<string, real>>, name: string)
    requires !exists k :: 0 <= k < |rows| && name in rows[k]
    ensures IsColumn(Gaps(|rows|), rows, name)
  {
  }

  lemma ColumnGrows(column: Series, rows: seq<map<string, real>>, row: map<string, real>, name: string)
    requires IsColumn(column, rows, name)
    ensures IsColumn(column + [Lookup(row, name)], rows + [row], name)
  {
  }

  /** The whole file: as many entries as steps in every column, entry k being step k's statistic or
      a gap, and as many columns as names ever written. */
  method ProcessFile(steps: seq<Step>)
    returns (writtenSteps: nat, writtenVars: set<string>, columns: map<string, Series>,
             ghost rows: seq<map<string, real>>)
    requires forall k :: 0 <= k < |steps| ==> DistinctVariables(steps[k])
    ensures writtenSteps == |steps| == |rows|
    ensures forall k :: 0 <= k < |steps| ==> IsRow(rows[k], steps[k], |steps[k]|, 0)
    ensures Agree(columns, rows) && writtenVars == columns.Keys
  {
    hide IsRow;
    hide DistinctVariables;
    writtenSteps, writtenVars, columns, rows := 0, {}, map[], [];
    for s := 0 to |steps|
      invariant writtenSteps == s == |rows|
      invariant forall k :: 0 <= k < s ==> IsRow(rows[k], steps[k], |steps[k]|, 0)
      invariant Agree(columns, rows) && writtenVars == columns.Keys
    {
      var row;
      row, writtenVars := ReadStep(steps[s], writtenVars);
      var filled := Backfill(columns, row, writtenSteps);
      var longer := AppendRow(filled, row);
      AgreeGrows(columns, rows, row, filled, longer);
      hide Agree;
      columns := longer;
      rows := rows + [row];
      writtenSteps := writtenSteps + 1;
    }
  }

  /** Any table the script could produce for these steps is the same: the rows fix the columns. */
  lemma RowUnique(row: map<string, real>, row': map<string, real>, step: Step)
    requires IsRow(row, step, |step|, 0) && IsRow(row', step, |step|, 0)
    ensures row == row'
  {
    hide OutName;
    hide StatValue;
    forall name ensures name in row <==> name in row' {
      if name in row {
        var a, b :| Before(a, b, |step|, 0) && Contributes(step, a, b, name, row[name]);
      }
      if name in row' {
        var a, b :| Before(a, b, |step|, 0) && Contributes(step, a, b, name, row'[name]);
      }
    }
    forall name | name in row ensures row[name] == row'[name] {
      var a, b :| Before(a, b, |step|, 0) && Contributes(step, a, b, name, row[name]);
    }
  }
}
