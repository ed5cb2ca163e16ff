/** The data-frame model: a table is an ordered list of column labels and a sequence of rows; a row
    maps a column label to its cell, and a label absent from a row is a missing value (pandas NaN). */
module Tables {
  import opened Wrappers
  import opened Seqs

  /** A cell: text as scraped, or a number (stats, the `Season` year, the 0/1 `MVP` flag, fill value 0). */
  datatype Value = Text(s: string) | Num(x: real)

  type Row = map<string, Value>

  datatype Table = Table(columns: seq<string>, rows: seq<Row>)

  /** The cell of `r` under `c`, or `None` when it is missing. */
  function Get(r: Row, c: string): Option<Value>
  {
    if c in r then Some(r[c]) else None
  }

  /** Column labels are distinct and every present cell belongs to a column of the table. */
  predicate WellFormed(t: Table)
  {
    && Distinct(t.columns)
    && forall i, c :: 0 <= i < |t.rows| && c in t.rows[i] ==> c in t.columns
  }

  /** No cell of any column is missing. */
  predicate Complete(t: Table)
  {
    forall i, c :: 0 <= i < |t.rows| && c in t.columns ==> c in t.rows[i]
  }

  /** The column pandas builds when a scalar is assigned to `df[name]`: the value once per row. */
  function Repeat(n: nat, v: Value): (r: seq<Value>)
    ensures |r| == n && forall i :: 0 <= i < n ==> r[i] == v
  {
    seq(n, _ => v)
  }

  /** Column assignment: overwrites the column in place when the label exists, otherwise appends it
      as the last column. */
  function WithColumn(t: Table, name: string, values: seq<Value>): (u: Table)
    requires |values| == |t.rows|
    ensures u.columns == if name in t.columns then t.columns else t.columns + [name]
    ensures |u.rows| == |t.rows|
    ensures forall i :: 0 <= i < |u.rows| ==> name in u.rows[i] && u.rows[i][name] == values[i]
    ensures forall i, c :: 0 <= i < |u.rows| && c != name ==> Get(u.rows[i], c) == Get(t.rows[i], c)
    ensures WellFormed(t) ==> WellFormed(u)
  {
    var cols := if name in t.columns then t.columns else t.columns + [name];
    assert name !in t.columns && Distinct(t.columns) ==> Distinct(cols);
    Table(cols, seq(|t.rows|, i requires 0 <= i < |t.rows| => t.rows[i][name := values[i]]))
  }

  /** Filling with 0 on one row: every column of `cols` missing from `r` gets the number 0. */
  function FillRow(r: Row, cols: seq<string>): Row
  {
    map c | c in r.Keys + (set c' | c' in cols) :: if c in r then r[c] else Num(0.0)
  }

  /** `fillna(0)`: missing cells become 0; present cells are untouched. */
  function FillMissing(t: Table): (u: Table)
    ensures u.columns == t.columns && |u.rows| == |t.rows|
    ensures Complete(u)
    ensures forall i, c :: 0 <= i < |t.rows| && c in t.rows[i] ==> c in u.rows[i] && u.rows[i][c] == t.rows[i][c]
    ensures forall i, c :: 0 <= i < |t.rows| && c in u.rows[i] && c !in t.rows[i] ==> c in t.columns && u.rows[i][c] == Num(0.0)
    ensures WellFormed(t) ==> WellFormed(u)
  {
    Table(t.columns, seq(|t.rows|, i requires 0 <= i < |t.rows| => FillRow(t.rows[i], t.columns)))
  }

  /** Filling an already complete table changes nothing. */
  lemma FillCompleteUnchanged(t: Table)
    requires WellFormed(t) && Complete(t)
    ensures FillMissing(t) == t
  {
    var u := FillMissing(t);
    forall i | 0 <= i < |t.rows| ensures u.rows[i] == t.rows[i] {
      assert u.rows[i].Keys == t.rows[i].Keys;
    }
  }

  /** The rows of all tables, table after table, each in its own order. */
  function Rows(ts: seq<Table>): seq<Row>
  {
    if ts == [] then [] else Rows(ts[..|ts| - 1]) + ts[|ts| - 1].rows
  }

  /** The column labels of all tables, table after table (repetitions kept). */
  function AllColumns(ts: seq<Table>): (cs: seq<string>)
    ensures forall c :: c in cs <==> exists k :: 0 <= k < |ts| && c in ts[k].columns
  {
    if ts == [] then []
    else
      var cs := AllColumns(ts[..|ts| - 1]) + ts[|ts| - 1].columns;
      assert forall k :: 0 <= k < |ts| - 1 ==> ts[..|ts| - 1][k] == ts[k];
      cs
  }

  /** Every row of the concatenation comes from one of the tables. */
  lemma {:induction false} RowsOrigin(ts: seq<Table>, i: int)
    requires 0 <= i < |Rows(ts)|
    ensures exists k, j :: 0 <= k < |ts| && 0 <= j < |ts[k].rows| && Rows(ts)[i] == ts[k].rows[j]
  {
    var init := ts[..|ts| - 1];
    if i < |Rows(init)| {
      RowsOrigin(init, i);
      var k, j :| 0 <= k < |init| && 0 <= j < |init[k].rows| && Rows(init)[i] == init[k].rows[j];
      assert Rows(ts)[i] == ts[k].rows[j];
    } else {
      assert Rows(ts)[i] == ts[|ts| - 1].rows[i - |Rows(init)|];
    }
  }

  /** `pd.concat` with a fresh index: rows one table after another; the columns are the union
      of all labels in order of first appearance; a row lacks the labels its own table did not have. */
  function Concat(ts: seq<Table>): (u: Table)
    ensures u.columns == Dedup(AllColumns(ts)) && u.rows == Rows(ts)
    ensures Distinct(u.columns)
    ensures forall c :: c in u.columns <==> exists k :: 0 <= k < |ts| && c in ts[k].columns
    ensures (forall k :: 0 <= k < |ts| ==> WellFormed(ts[k])) ==> WellFormed(u)
  {
    var u := Table(Dedup(AllColumns(ts)), Rows(ts));
    assert (forall k :: 0 <= k < |ts| ==> WellFormed(ts[k])) ==> WellFormed(u) by {
      if forall k :: 0 <= k < |ts| ==> WellFormed(ts[k]) {
        forall i, c | 0 <= i < |u.rows| && c in u.rows[i] ensures c in u.columns {
          RowsOrigin(ts, i);
        }
      }
    }
    u
  }

  /** The concatenation lists each label once, in order of its first appearance among the tables'
      labels, table after table (pandas' unsorted column union). */
  lemma ConcatColumnsInFirstAppearanceOrder(ts: seq<Table>)
    ensures forall i :: 0 <= i < |Concat(ts).columns| ==> Concat(ts).columns[i] in AllColumns(ts)
    ensures forall i, j :: 0 <= i < j < |Concat(ts).columns| ==>
              IndexOf(AllColumns(ts), Concat(ts).columns[i]) < IndexOf(AllColumns(ts), Concat(ts).columns[j])
  {
    DedupOntoFirstAppearance([], AllColumns(ts));
  }

  /** The column reordering of `main`: the first occurrence of `name` is taken out and put in front. */
  function MoveToFront(cols: seq<string>, name: string): (r: seq<string>)
    requires name in cols
    ensures |r| == |cols| && r[0] == name
    ensures multiset(r) == multiset(cols)
    ensures Distinct(cols) ==> r == [name] + Filter(cols, Other(name))
  {
    if Distinct(cols) then RemoveFirstDistinct(cols, name); [name] + RemoveFirst(cols, name)
    else [name] + RemoveFirst(cols, name)
  }

  /** Numeric conversion with coercion, for one cell: numbers stay as they are, text is parsed by
      `parse` (the float parser) and unparseable text becomes missing (`None`, NaN). */
  function ToNumeric(parse: string -> Option<real>, v: Value): (r: Option<Value>)
    ensures r.Some? ==> r.value.Num?
    ensures v.Num? ==> r == Some(v)
    ensures r.None? <==> v.Text? && parse(v.s).None?
    ensures v.Text? && parse(v.s).Some? ==> r == Some(Num(parse(v.s).value))
  {
    match v
    case Num(_) => Some(v)
    case Text(s) => if parse(s).Some? then Some(Num(parse(s).value)) else None
  }

  /** One row with the columns in `cols` converted by `ToNumeric`; a cell that does not convert is
      dropped (becomes missing). */
  function CoerceRow(r: Row, cols: set<string>, parse: string -> Option<real>): (u: Row)
    ensures forall c :: c in u ==> c in r
    ensures forall c :: c !in cols ==> Get(u, c) == Get(r, c)
    ensures forall c :: c in cols && c in u ==> u[c].Num?
    ensures forall c :: c in cols && c in r && r[c].Num? ==> c in u && u[c] == r[c]
  {
    map c | c in r && (c !in cols || ToNumeric(parse, r[c]).Some?) ::
      if c in cols then ToNumeric(parse, r[c]).value else r[c]
  }

  /** The conversion loop as one function of the table: every listed label the table has is
      converted. */
  function Coerce(t: Table, numeric: seq<string>, parse: string -> Option<real>): (u: Table)
    ensures u.columns == t.columns && |u.rows| == |t.rows|
    ensures forall i, c :: 0 <= i < |t.rows| && c !in numeric ==> Get(u.rows[i], c) == Get(t.rows[i], c)
    ensures forall i, c :: 0 <= i < |t.rows| && c in numeric && c in t.columns ==>
              Get(u.rows[i], c) == if c in t.rows[i] then ToNumeric(parse, t.rows[i][c]) else None
    ensures forall i, c :: 0 <= i < |t.rows| && c in u.rows[i] ==> c in t.rows[i]
    ensures WellFormed(t) ==> WellFormed(u)
  {
    var cols := set c | c in numeric && c in t.columns;
    Table(t.columns, seq(|t.rows|, i requires 0 <= i < |t.rows| => CoerceRow(t.rows[i], cols, parse)))
  }

  /** Converting one more column after a set of columns is converting the union. */
  lemma CoerceRowStep(r: Row, cols: set<string>, c: string, parse: string -> Option<real>)
    ensures CoerceRow(CoerceRow(r, cols, parse), {c}, parse) == CoerceRow(r, cols + {c}, parse)
  {
    var u := CoerceRow(CoerceRow(r, cols, parse), {c}, parse);
    var w := CoerceRow(r, cols + {c}, parse);
    assert u.Keys == w.Keys;
  }

  /** Processing one more listed name extends the coercion by that name (used by the coercion loop). */
  lemma CoerceStep(t: Table, numeric: seq<string>, c: string, parse: string -> Option<real>)
    ensures Coerce(Coerce(t, numeric, parse), [c], parse) == Coerce(t, numeric + [c], parse)
  {
    var s := set x | x in numeric && x in t.columns;
    var s' := set x | x in numeric + [c] && x in t.columns;
    var one := set x | x in [c] && x in t.columns;
    var u := Coerce(Coerce(t, numeric, parse), [c], parse);
    var w := Coerce(t, numeric + [c], parse);
    forall i | 0 <= i < |t.rows| ensures u.rows[i] == w.rows[i] {
      if c in t.columns {
        assert one == {c} && s' == s + {c};
        CoerceRowStep(t.rows[i], s, c, parse);
      } else {
        assert one == {} && s' == s;
        var v := CoerceRow(t.rows[i], s, parse);
        assert CoerceRow(v, {}, parse).Keys == v.Keys;
      }
    }
  }

  /** Coercion is idempotent: coercing already coerced columns changes nothing. */
  lemma CoerceIdempotent(t: Table, numeric: seq<string>, parse: string -> Option<real>)
    ensures Coerce(Coerce(t, numeric, parse), numeric, parse) == Coerce(t, numeric, parse)
  {
    var s := set x | x in numeric && x in t.columns;
    var u := Coerce(t, numeric, parse);
    var w := Coerce(u, numeric, parse);
    forall i | 0 <= i < |t.rows| ensures w.rows[i] == u.rows[i] {
      assert w.rows[i].Keys == u.rows[i].Keys;
    }
  }
}
