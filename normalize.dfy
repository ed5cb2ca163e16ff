/** The per-table cleaning and column normalisation shared by `get_basic_stats` and
    `get_advanced_stats` in both scrapers: drop missing and repeated-header `Player` rows, rename the
    columns that are present using a static abbreviation map, then keep only the desired columns
    that exist, in the desired order. */
module Normalize {
  import opened Wrappers
  import opened Seqs
  import opened Text
  import opened Tables

  /** Abbreviation map of the per-game table, in dictionary order. */
  const BasicMapping: seq<(string, string)> := [
    ("Tm", "Team"), ("Pos", "Position"), ("G", "Games"), ("MP", "Minutes"), ("PTS", "Points"),
    ("TRB", "Rebounds"), ("AST", "Assists"), ("STL", "Steals"), ("BLK", "Blocks"),
    ("TOV", "Turnovers"), ("FG%", "FG_Pct"), ("3P%", "3P_Pct"), ("FT%", "FT_Pct")]

  /** Columns kept from the per-game table, in output order. */
  const BasicColumns: seq<string> := [
    "Player", "Team", "Position", "Season", "Games", "Minutes", "Points", "Rebounds", "Assists",
    "Steals", "Blocks", "Turnovers", "FG_Pct", "3P_Pct", "FT_Pct"]

  /** Abbreviation map of the advanced table, in dictionary order. */
  const AdvancedMapping: seq<(string, string)> := [
    ("PER", "Player_Efficiency_Rating"), ("WS", "Win_Shares"), ("BPM", "Box_Plus_Minus"),
    ("USG%", "Usage_Rate"), ("VORP", "Value_Over_Replacement"), ("WS/48", "Win_Shares_Per_48")]

  /** Columns kept from the advanced table, in output order. */
  const AdvancedColumns: seq<string> := [
    "Player", "Player_Efficiency_Rating", "Win_Shares", "Box_Plus_Minus", "Usage_Rate",
    "Value_Over_Replacement", "Win_Shares_Per_48"]

  /** Columns converted with `pd.to_numeric(..., errors='coerce')` before the dataset is written. */
  const NumericColumns: seq<string> := [
    "Minutes", "Points", "Rebounds", "Assists", "Steals", "Blocks", "Turnovers", "FG_Pct", "3P_Pct",
    "FT_Pct", "Player_Efficiency_Rating", "Win_Shares", "Box_Plus_Minus", "Usage_Rate",
    "Value_Over_Replacement", "Win_Shares_Per_48"]

  // ----- Row cleaning -----

  /** The not-null mask on `Player`, for one row. */
  predicate HasPlayer(r: Row)
  {
    "Player" in r
  }

  /** The negated header mask (the `Player` cell does not contain "Player"), for one row. */
  predicate NotHeader(r: Row)
  {
    !("Player" in r && r["Player"].Text? && Contains(r["Player"].s, "Player"))
  }

  /** A data row: its `Player` cell is present, is text, and does not contain "Player". */
  predicate IsPlayerRow(r: Row)
  {
    "Player" in r && r["Player"].Text? && !Contains(r["Player"].s, "Player")
  }

  /** The row cleaning at the start of both stats lookups. Fails when there is no `Player` column (`df['Player']` raises),
      when the frame has rows but none of them has a `Player` cell (the column is then numeric, so
      the string accessor raises), or when a present `Player` cell is not text (the string accessor
      or the negated mask raises); otherwise drops rows with a missing `Player` and then rows whose
      `Player` contains "Player". */
  function Clean(t: Table): (r: Option<Table>)
    ensures r.None? <==> || "Player" !in t.columns
                         || (|t.rows| > 0 && forall i :: 0 <= i < |t.rows| ==> "Player" !in t.rows[i])
                         || exists i :: 0 <= i < |t.rows| && "Player" in t.rows[i] && !t.rows[i]["Player"].Text?
    ensures r.Some? ==> r.value.columns == t.columns
    ensures r.Some? ==> forall x :: x in r.value.rows <==> x in t.rows && IsPlayerRow(x)
  {
    if "Player" !in t.columns then None
    else
      var present := Filter(t.rows, HasPlayer);
      assert present == [] <==> forall i :: 0 <= i < |t.rows| ==> "Player" !in t.rows[i] by {
        if present != [] {
          assert present[0] in present;
        }
        if exists i :: 0 <= i < |t.rows| && "Player" in t.rows[i] {
          var i :| 0 <= i < |t.rows| && "Player" in t.rows[i];
          assert HasPlayer(t.rows[i]) && t.rows[i] in present;
        }
      }
      if |t.rows| > 0 && present == [] then None
      else if exists x: Row :: x in present && !x["Player"].Text? then
        assert exists i :: 0 <= i < |t.rows| && "Player" in t.rows[i] && !t.rows[i]["Player"].Text?;
        None
      else
        Some(Table(t.columns, Filter(present, NotHeader)))
  }

  /** On rows whose present `Player` cells are all text, the two masks keep exactly the data rows. */
  lemma {:induction false} TwoMasks(s: seq<Row>)
    requires forall x: Row :: x in s && "Player" in x ==> x["Player"].Text?
    ensures Filter(Filter(s, HasPlayer), NotHeader) == Filter(s, IsPlayerRow)
  {
    if s != [] {
      TwoMasks(s[1..]);
      assert Filter(s, HasPlayer) == (if HasPlayer(s[0]) then [s[0]] else []) + Filter(s[1..], HasPlayer);
      FilterAppend(if HasPlayer(s[0]) then [s[0]] else [], Filter(s[1..], HasPlayer), NotHeader);
      assert [s[0]][1..] == [];
    }
  }

  /** Cleaning keeps exactly the data rows, in their source order. */
  lemma CleanKeepsDataRowsInOrder(t: Table)
    requires Clean(t).Some?
    ensures Clean(t).value.rows == Filter(t.rows, IsPlayerRow)
  {
    TwoMasks(t.rows);
  }

  /** Cleaning a cleaned table changes nothing. */
  lemma CleanIdempotent(t: Table)
    requires Clean(t).Some?
    ensures Clean(Clean(t).value) == Clean(t)
  {
    var u := Clean(t).value;
    FilterKeepsAll(u.rows, HasPlayer);
    FilterKeepsAll(u.rows, NotHeader);
    if |u.rows| > 0 {
      assert IsPlayerRow(u.rows[0]);
    }
  }

  // ----- Renaming -----

  /** Renaming one label on one row: the cell under `src` moves to `dst`. */
  function RenameKey(r: Row, src: string, dst: string): Row
  {
    if src in r then (r - {src})[dst := r[src]] else r
  }

  /** Renaming one label of a frame: every column labelled `src` is relabelled `dst`. */
  function Rename(t: Table, src: string, dst: string): (u: Table)
    ensures |u.columns| == |t.columns| && |u.rows| == |t.rows|
  {
    Table(seq(|t.columns|, i requires 0 <= i < |t.columns| => if t.columns[i] == src then dst else t.columns[i]),
          seq(|t.rows|, i requires 0 <= i < |t.rows| => RenameKey(t.rows[i], src, dst)))
  }

  /** The rename loop as a function of the table: the map's entries in order, each applied when its
      source label is a column at that point. */
  function Renamed(t: Table, mapping: seq<(string, string)>): (u: Table)
    ensures |u.columns| == |t.columns| && |u.rows| == |t.rows|
    decreases |mapping|
  {
    if mapping == [] then t
    else
      var (src, dst) := mapping[0];
      Renamed(if src in t.columns then Rename(t, src, dst) else t, mapping[1..])
  }

  /** The rename loop itself: rebinding the table once per mapping entry whose source column exists. */
  method RenameColumns(t: Table, mapping: seq<(string, string)>) returns (u: Table)
    ensures u == Renamed(t, mapping)
  {
    u := t;
    for k := 0 to |mapping|
      invariant Renamed(t, mapping) == Renamed(u, mapping[k..])
    {
      assert mapping[k..][1..] == mapping[k + 1..];
      var (src, dst) := mapping[k];
      if src in u.columns {
        u := Rename(u, src, dst);
      }
    }
    assert mapping[|mapping|..] == [];
  }

  /** The label that `mapping` gives to column `c`: the target of the first entry for `c`, or `c`. */
  function Relabel(mapping: seq<(string, string)>, c: string): string
  {
    if mapping == [] then c
    else if mapping[0].0 == c then mapping[0].1
    else Relabel(mapping[1..], c)
  }

  /** No entry's source label is any entry's target label, so renames do not chain. */
  predicate NoChains(mapping: seq<(string, string)>)
  {
    forall i, j :: 0 <= i < |mapping| && 0 <= j < |mapping| ==> mapping[i].0 != mapping[j].1
  }

  /** `Relabel` does not merge two columns of `cols` into one label. */
  predicate RelabelInjective(mapping: seq<(string, string)>, cols: seq<string>)
  {
    forall i, j :: 0 <= i < j < |cols| ==> Relabel(mapping, cols[i]) != Relabel(mapping, cols[j])
  }

  /** A label that is no entry's source is left alone by `Relabel`. */
  lemma {:induction false} RelabelOther(mapping: seq<(string, string)>, c: string)
    requires forall i :: 0 <= i < |mapping| ==> mapping[i].0 != c
    ensures Relabel(mapping, c) == c
  {
    if mapping != [] {
      RelabelOther(mapping[1..], c);
    }
  }

  /** One step of the rename loop, under the hypotheses of `RenamedRelabels`. */
  lemma RenameStep(t: Table, mapping: seq<(string, string)>) returns (t1: Table)
    requires mapping != [] && NoChains(mapping) && WellFormed(t) && RelabelInjective(mapping, t.columns)
    ensures t1 == (if mapping[0].0 in t.columns then Rename(t, mapping[0].0, mapping[0].1) else t)
    ensures NoChains(mapping[1..]) && WellFormed(t1) && |t1.rows| == |t.rows| && |t1.columns| == |t.columns|
    ensures forall i :: 0 <= i < |t.columns| ==> Relabel(mapping[1..], t1.columns[i]) == Relabel(mapping, t.columns[i])
    ensures RelabelInjective(mapping[1..], t1.columns)
    ensures forall i, k :: 0 <= i < |t.rows| && 0 <= k < |t.columns| ==> Get(t1.rows[i], t1.columns[k]) == Get(t.rows[i], t.columns[k])
  {
    var (o, n) := mapping[0];
    var rest := mapping[1..];
    RelabelOther(rest, n);
    t1 := if o in t.columns then Rename(t, o, n) else t;
    forall i | 0 <= i < |t.columns|
      ensures Relabel(rest, t1.columns[i]) == Relabel(mapping, t.columns[i])
    {
    }
    // a column other than `o` cannot already carry the label `n`
    RelabelOther(mapping, n);
    forall k | 0 <= k < |t.columns| && t.columns[k] != o && o in t.columns
      ensures t.columns[k] != n
    {
      var ko :| 0 <= ko < |t.columns| && t.columns[ko] == o;
      assert Relabel(mapping, t.columns[k]) != Relabel(mapping, t.columns[ko]);
    }
    assert o in t.columns ==> n !in t.columns;
    assert Distinct(t1.columns);
    forall i, c | 0 <= i < |t1.rows| && c in t1.rows[i] ensures c in t1.columns {
      if o in t.columns && c == n {
        var ko :| 0 <= ko < |t.columns| && t.columns[ko] == o;
        assert t1.columns[ko] == n;
      } else if o in t.columns {
        assert c in t.rows[i];
        assert c in t.columns;
        var kc :| 0 <= kc < |t.columns| && t.columns[kc] == c;
        assert t1.columns[kc] == c;
      }
    }
    forall i, k | 0 <= i < |t.rows| && 0 <= k < |t.columns|
      ensures Get(t1.rows[i], t1.columns[k]) == Get(t.rows[i], t.columns[k])
    {
      if o in t.columns {
        var r := t.rows[i];
        assert o != n;
        if t.columns[k] == o {
          assert n !in r;
        } else {
          assert t.columns[k] != n;
        }
      }
    }
  }

  /** Renaming relabels each column `c` as `Relabel(mapping, c)` and moves its cells with it; labels
      the mapping does not mention, and every cell value, are unchanged; no other column appears. */
  lemma {:induction false} RenamedRelabels(t: Table, mapping: seq<(string, string)>)
    requires NoChains(mapping) && WellFormed(t) && RelabelInjective(mapping, t.columns)
    ensures WellFormed(Renamed(t, mapping))
    ensures forall i :: 0 <= i < |t.columns| ==> Renamed(t, mapping).columns[i] == Relabel(mapping, t.columns[i])
    ensures forall i, k :: 0 <= i < |t.rows| && 0 <= k < |t.columns| ==>
              Get(Renamed(t, mapping).rows[i], Relabel(mapping, t.columns[k])) == Get(t.rows[i], t.columns[k])
    decreases |mapping|
  {
    if mapping != [] {
      var t1 := RenameStep(t, mapping);
      RenamedRelabels(t1, mapping[1..]);
    }
  }

  /** A label that the mapping neither renames nor produces keeps its column and all its cells. */
  lemma {:induction false} RenamedKeeps(t: Table, mapping: seq<(string, string)>, c: string)
    requires forall i :: 0 <= i < |mapping| ==> mapping[i].0 != c && mapping[i].1 != c
    ensures c in t.columns ==> c in Renamed(t, mapping).columns
    ensures forall i :: 0 <= i < |t.rows| ==> Get(Renamed(t, mapping).rows[i], c) == Get(t.rows[i], c)
    decreases |mapping|
  {
    if mapping != [] {
      var (o, n) := mapping[0];
      var t1 := if o in t.columns then Rename(t, o, n) else t;
      if c in t.columns {
        var k :| 0 <= k < |t.columns| && t.columns[k] == c;
        assert t1.columns[k] == c;
      }
      RenamedKeeps(t1, mapping[1..], c);
    }
  }

  // ----- Column selection -----

  /** The test "is one of `cols`", as a value to filter with. */
  function In(cols: seq<string>): string -> bool
  {
    c => c in cols
  }

  /** The desired labels the frame has, in desired order. */
  function Available(desired: seq<string>, cols: seq<string>): (a: seq<string>)
    ensures forall c :: c in a <==> c in desired && c in cols
    ensures Distinct(desired) ==> Distinct(a)
  {
    if Distinct(desired) then
      FilterDistinct(desired, In(cols));
      Filter(desired, In(cols))
    else
      Filter(desired, In(cols))
  }

  /** One row restricted to the labels in `cols`. */
  function Project(r: Row, cols: seq<string>): Row
  {
    map c | c in r && c in cols :: r[c]
  }

  /** Column selection: fails when the frame has none of the desired labels; otherwise keeps the
      available ones, in desired order, with their cells. */
  function Select(t: Table, desired: seq<string>): (r: Option<Table>)
    ensures r.None? <==> forall c :: c in desired ==> c !in t.columns
    ensures r.Some? ==> r.value.columns == Available(desired, t.columns) && |r.value.rows| == |t.rows|
    ensures r.Some? ==> forall i, c :: 0 <= i < |t.rows| && c in r.value.columns ==> Get(r.value.rows[i], c) == Get(t.rows[i], c)
    ensures r.Some? && Distinct(desired) ==> WellFormed(r.value)
  {
    var cols := Available(desired, t.columns);
    if cols == [] then
      assert forall c :: c in desired ==> c !in t.columns;
      None
    else
      assert cols[0] in cols;
      Some(Table(cols, seq(|t.rows|, i requires 0 <= i < |t.rows| => Project(t.rows[i], cols))))
  }

  // ----- The whole normaliser -----

  /** Cleaning, renaming and selection, as one function of the scraped table. */
  function Normalized(t: Table, mapping: seq<(string, string)>, desired: seq<string>): Option<Table>
  {
    match Clean(t)
    case None => None
    case Some(c) => Select(Renamed(c, mapping), desired)
  }

  /** The normaliser as the source runs it: filter, rename loop, selection. */
  method NormalizeTable(t: Table, mapping: seq<(string, string)>, desired: seq<string>) returns (r: Option<Table>)
    ensures r == Normalized(t, mapping, desired)
  {
    var cleaned := Clean(t);
    if cleaned.None? {
      return None;
    }
    var renamed := RenameColumns(cleaned.value, mapping);
    r := Select(renamed, desired);
  }

  /** The mapping neither renames a column to `Player` nor renames `Player` away. */
  predicate KeepsPlayer(mapping: seq<(string, string)>)
  {
    forall i :: 0 <= i < |mapping| ==> mapping[i].0 != "Player" && mapping[i].1 != "Player"
  }

  /** With `Player` among the desired columns and left alone by the mapping, normalisation fails
      exactly when cleaning fails (the "no matching columns" branch cannot be taken); on success the
      result is well formed, its columns are desired columns, `Player` is one of them, and its rows
      are the data rows of the scraped table in source order, with their `Player` cells unchanged. */
  lemma NormalizedShape(t: Table, mapping: seq<(string, string)>, desired: seq<string>)
    requires KeepsPlayer(mapping) && "Player" in desired && Distinct(desired)
    ensures Normalized(t, mapping, desired).None? <==> Clean(t).None?
    ensures Normalized(t, mapping, desired).Some? ==>
              var u := Normalized(t, mapping, desired).value;
              && WellFormed(u)
              && "Player" in u.columns
              && (forall c :: c in u.columns ==> c in desired)
              && |u.rows| == |Filter(t.rows, IsPlayerRow)|
              && forall i :: 0 <= i < |u.rows| ==>
                   Get(u.rows[i], "Player") == Get(Filter(t.rows, IsPlayerRow)[i], "Player")
                   && IsPlayerRow(u.rows[i])
  {
    if Clean(t).Some? {
      var c := Clean(t).value;
      CleanKeepsDataRowsInOrder(t);
      RenamedKeeps(c, mapping, "Player");
      var rn := Renamed(c, mapping);
      assert "Player" in rn.columns;
      var u := Select(rn, desired).value;
      forall i | 0 <= i < |u.rows|
        ensures Get(u.rows[i], "Player") == Get(c.rows[i], "Player") && IsPlayerRow(u.rows[i])
      {
        assert c.rows[i] in c.rows;
      }
    }
  }

  // ----- Facts about the two scrapers' constant tables -----

  /** Both abbreviation maps keep `Player` and never chain renames; both desired lists are distinct
      and contain `Player`. */
  lemma ConstantsWellChosen()
    ensures KeepsPlayer(BasicMapping) && KeepsPlayer(AdvancedMapping)
    ensures NoChains(BasicMapping) && NoChains(AdvancedMapping)
    ensures Distinct(BasicColumns) && Distinct(AdvancedColumns)
    ensures "Player" in BasicColumns && "Player" in AdvancedColumns
  {
  }

  /** The per-game and advanced desired lists share only `Player`. */
  lemma DesiredListsShareOnlyPlayer()
    ensures forall c :: c in BasicColumns && c in AdvancedColumns ==> c == "Player"
  {
  }

  /** The labels the scrapers add themselves (`MVP`, and `Season` in the advanced table) are not
      selected from the site's tables, and neither they nor `Player` are among the columns coerced
      to numbers. */
  lemma AddedLabelsAreFresh()
    ensures "MVP" !in BasicColumns && "MVP" !in AdvancedColumns && "Season" !in AdvancedColumns
    ensures "MVP" !in NumericColumns && "Season" !in NumericColumns && "Player" !in NumericColumns
  {
  }
}
