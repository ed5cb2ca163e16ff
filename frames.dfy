/** A pandas DataFrame as a mutable object, for the places where the scrapers assign a column in
    place: the `MVP` flags, the `Season` stamp, and each numeric column after conversion. */
module Frames {
  import opened Wrappers
  import opened Tables

  class Frame {
    var columns: seq<string>
    var rows: seq<Row>

    /** The current contents as a table value. */
    function ToTable(): Table
      reads this
    {
      Table(columns, rows)
    }

    constructor (t: Table)
      ensures ToTable() == t
    {
      columns := t.columns;
      rows := t.rows;
    }

    /** Column assignment with one value per row. */
    method SetColumn(name: string, values: seq<Value>)
      requires |values| == |rows|
      modifies this
      ensures ToTable() == WithColumn(old(ToTable()), name, values)
    {
      var t := WithColumn(ToTable(), name, values);
      columns, rows := t.columns, t.rows;
    }

    /** Column assignment of one scalar, which pandas repeats on every row. */
    method Broadcast(name: string, v: Value)
      modifies this
      ensures ToTable() == WithColumn(old(ToTable()), name, Repeat(|old(rows)|, v))
    {
      SetColumn(name, Repeat(|rows|, v));
    }

    /** Replaces an existing column by its numeric conversion (`pd.to_numeric` with coercion). */
    method ToNumericColumn(name: string, parse: string -> Option<real>)
      requires name in columns
      modifies this
      ensures ToTable() == Coerce(old(ToTable()), [name], parse)
    {
      var t := Coerce(ToTable(), [name], parse);
      columns, rows := t.columns, t.rows;
    }
  }

  /** The conversion loop: each listed label the frame has, in list order, is converted in place. */
  method CoerceNumeric(frame: Frame, numeric: seq<string>, parse: string -> Option<real>)
    modifies frame
    ensures frame.ToTable() == Coerce(old(frame.ToTable()), numeric, parse)
  {
    ghost var start := frame.ToTable();
    assert Coerce(start, [], parse) == start by {
      var u := Coerce(start, [], parse);
      forall i | 0 <= i < |start.rows| ensures u.rows[i] == start.rows[i] {
        assert u.rows[i].Keys == start.rows[i].Keys;
      }
    }
    for k := 0 to |numeric|
      invariant frame.ToTable() == Coerce(start, numeric[..k], parse)
    {
      CoerceStep(start, numeric[..k], numeric[k], parse);
      assert numeric[..k] + [numeric[k]] == numeric[..k + 1];
      if numeric[k] in frame.columns {
        frame.ToNumericColumn(numeric[k], parse);
      } else {
        assert Coerce(frame.ToTable(), [numeric[k]], parse) == frame.ToTable() by {
          var t := frame.ToTable();
          var u := Coerce(t, [numeric[k]], parse);
          forall i | 0 <= i < |t.rows| ensures u.rows[i] == t.rows[i] {
            assert u.rows[i].Keys == t.rows[i].Keys;
          }
        }
      }
    }
    assert numeric[..|numeric|] == numeric;
  }
}
