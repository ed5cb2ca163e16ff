/** The left join of the per-game and advanced tables on `Player`: every basic row, in order, is emitted once per
    advanced row with an equal `Player` cell (in advanced order), or once on its own when there is no
    such row; the advanced cells other than `Player` are added to it. */
module Merge {
  import opened Wrappers
  import opened Seqs
  import opened Tables

  /** The join key of a row (a missing key only matches a missing key, as in pandas). */
  function Key(r: Row): Option<Value>
  {
    Get(r, "Player")
  }

  /** The test "has join key `key`", as a value to filter with. */
  function HasKey(key: Option<Value>): Row -> bool
  {
    a => Key(a) == key
  }

  /** The advanced rows matching `key`, in advanced order. */
  function Matches(adv: seq<Row>, key: Option<Value>): seq<Row>
  {
    Filter(adv, HasKey(key))
  }

  /** A basic row extended with the non-key cells of a matching advanced row. */
  function Merged(b: Row, a: Row): (m: Row)
    ensures forall k :: k in b ==> k in m && m[k] == b[k]
    ensures forall k :: k in a && k != "Player" && k !in b ==> k in m && m[k] == a[k]
    ensures forall k :: k in m ==> k in b || (k in a && k != "Player")
  {
    map k | k in b.Keys + (a.Keys - {"Player"}) :: if k in b then b[k] else a[k]
  }

  /** The output rows for one basic row: the row alone when no advanced row shares its key, and
      otherwise one merged row per matching advanced row, in advanced order. */
  function JoinRow(b: Row, adv: seq<Row>): (out: seq<Row>)
    ensures |out| == if Matches(adv, Key(b)) == [] then 1 else |Matches(adv, Key(b))|
    ensures Matches(adv, Key(b)) == [] ==> out == [b]
    ensures Matches(adv, Key(b)) != [] ==>
              forall j :: 0 <= j < |out| ==> out[j] == Merged(b, Matches(adv, Key(b))[j])
    ensures forall a :: a in adv && Key(a) == Key(b) ==> Merged(b, a) in out
    ensures Matches(adv, Key(b)) != [] ==>
              forall x :: x in out ==> exists a :: a in adv && Key(a) == Key(b) && x == Merged(b, a)
    ensures forall x :: x in out ==> forall k :: k in b ==> k in x && x[k] == b[k]
  {
    var ms := Matches(adv, Key(b));
    if ms == [] then [b]
    else
      var out := seq(|ms|, j requires 0 <= j < |ms| => Merged(b, ms[j]));
      assert forall a :: a in adv && Key(a) == Key(b) ==> Merged(b, a) in out by {
        forall a | a in adv && Key(a) == Key(b) ensures Merged(b, a) in out {
          assert HasKey(Key(b))(a);
          var j :| 0 <= j < |ms| && ms[j] == a;
          assert out[j] == Merged(b, a);
        }
      }
      assert forall x :: x in out ==> exists a :: a in adv && Key(a) == Key(b) && x == Merged(b, a) by {
        forall x | x in out ensures exists a :: a in adv && Key(a) == Key(b) && x == Merged(b, a) {
          var j :| 0 <= j < |out| && out[j] == x;
          assert ms[j] in ms && HasKey(Key(b))(ms[j]);
        }
      }
      out
  }

  /** The output rows for a sequence of basic rows. */
  function JoinRows(bs: seq<Row>, adv: seq<Row>): (out: seq<Row>)
    ensures |out| >= |bs|
  {
    if bs == [] then [] else JoinRow(bs[0], adv) + JoinRows(bs[1..], adv)
  }

  /** What the left join needs of two tables: both have `Player` and share no other label. */
  predicate Joinable(b: Table, a: Table)
  {
    && "Player" in b.columns && "Player" in a.columns
    && forall c :: c in b.columns && c in a.columns ==> c == "Player"
  }

  /** The left join on `Player`. pandas raises unless both tables have a `Player` column; the two
      tables share no other column label, so no suffixes are added. */
  function LeftJoin(basic: Table, adv: Table): (u: Table)
    requires Joinable(basic, adv)
    ensures u.columns == basic.columns + Filter(adv.columns, Other("Player"))
    ensures u.rows == JoinRows(basic.rows, adv.rows)
    ensures |u.rows| >= |basic.rows|
    ensures WellFormed(basic) && WellFormed(adv) ==> WellFormed(u)
  {
    var cols := basic.columns + Filter(adv.columns, Other("Player"));
    var u := Table(cols, JoinRows(basic.rows, adv.rows));
    assert WellFormed(basic) && WellFormed(adv) ==> WellFormed(u) by {
      if WellFormed(basic) && WellFormed(adv) {
        FilterDistinct(adv.columns, Other("Player"));
        forall i, j | 0 <= i < j < |cols| ensures cols[i] != cols[j] {
          if i < |basic.columns| <= j {
            assert cols[j] in Filter(adv.columns, Other("Player"));
          }
        }
        forall i, k | 0 <= i < |u.rows| && k in u.rows[i] ensures k in cols {
          JoinRowsOrigin(basic.rows, adv.rows, i);
        }
      }
    }
    u
  }

  /** Each output row is a basic row, or a basic row merged with a matching advanced row. */
  lemma {:induction false} JoinRowsOrigin(bs: seq<Row>, adv: seq<Row>, i: int)
    requires 0 <= i < |JoinRows(bs, adv)|
    ensures exists p :: 0 <= p < |bs| && (JoinRows(bs, adv)[i] == bs[p]
              || exists q :: 0 <= q < |adv| && Key(adv[q]) == Key(bs[p]) && JoinRows(bs, adv)[i] == Merged(bs[p], adv[q]))
  {
    var first := JoinRow(bs[0], adv);
    if i < |first| {
      assert JoinRows(bs, adv)[i] == first[i];
      if Matches(adv, Key(bs[0])) != [] {
        assert first[i] in first;
        var a :| a in adv && Key(a) == Key(bs[0]) && first[i] == Merged(bs[0], a);
        var q :| 0 <= q < |adv| && adv[q] == a;
      }
    } else {
      JoinRowsOrigin(bs[1..], adv, i - |first|);
      var p :| 0 <= p < |bs[1..]| && (JoinRows(bs[1..], adv)[i - |first|] == bs[1..][p]
              || exists q :: 0 <= q < |adv| && Key(adv[q]) == Key(bs[1..][p]) && JoinRows(bs[1..], adv)[i - |first|] == Merged(bs[1..][p], adv[q]));
      assert bs[1..][p] == bs[p + 1];
    }
  }

  /** Order: the output for `a + b` is the output for `a` followed by the output for `b`. */
  lemma {:induction false} JoinRowsAppend(a: seq<Row>, b: seq<Row>, adv: seq<Row>)
    ensures JoinRows(a + b, adv) == JoinRows(a, adv) + JoinRows(b, adv)
  {
    if a == [] {
      assert a + b == b;
    } else {
      assert (a + b)[1..] == a[1..] + b;
      JoinRowsAppend(a[1..], b, adv);
    }
  }

  /** The block of basic row `p` comes after the blocks of the rows before it and before those of
      the rows after it: every basic row's output appears in the join, in basic order. */
  lemma JoinRowsBlock(bs: seq<Row>, adv: seq<Row>, p: int)
    requires 0 <= p < |bs|
    ensures JoinRows(bs, adv) == JoinRows(bs[..p], adv) + JoinRow(bs[p], adv) + JoinRows(bs[p + 1..], adv)
  {
    var rest := [bs[p]] + bs[p + 1..];
    assert bs == bs[..p] + rest;
    JoinRowsAppend(bs[..p], rest, adv);
    assert rest[1..] == bs[p + 1..];
  }

  /** The join has as many rows as the basic table exactly when no basic row has two or more
      advanced matches. */
  lemma {:induction false} JoinRowsLength(bs: seq<Row>, adv: seq<Row>)
    ensures |JoinRows(bs, adv)| == |bs| <==> forall i :: 0 <= i < |bs| ==> |Matches(adv, Key(bs[i]))| <= 1
  {
    if bs != [] {
      JoinRowsLength(bs[1..], adv);
      assert forall i :: 1 <= i < |bs| ==> bs[i] == bs[1..][i - 1];
    }
  }

  /** Advanced `Player` cells are pairwise different. */
  predicate UniqueKeys(adv: seq<Row>)
  {
    forall j, j' :: 0 <= j < j' < |adv| ==> Key(adv[j]) != Key(adv[j'])
  }

  /** With unique advanced keys a key has at most one match, namely the advanced row carrying it. */
  lemma {:induction false} UniqueMatch(adv: seq<Row>, key: Option<Value>)
    requires UniqueKeys(adv)
    ensures |Matches(adv, key)| <= 1
    ensures forall j :: 0 <= j < |adv| && Key(adv[j]) == key ==> Matches(adv, key) == [adv[j]]
    ensures (forall j :: 0 <= j < |adv| ==> Key(adv[j]) != key) ==> Matches(adv, key) == []
  {
    if adv != [] {
      assert UniqueKeys(adv[1..]) by {
        forall j, j' | 0 <= j < j' < |adv[1..]| ensures Key(adv[1..][j]) != Key(adv[1..][j']) {
          assert adv[1..][j] == adv[j + 1] && adv[1..][j'] == adv[j' + 1];
        }
      }
      UniqueMatch(adv[1..], key);
      forall j | 1 <= j < |adv| ensures adv[j] == adv[1..][j - 1] { }
      if Key(adv[0]) == key {
        assert forall j :: 1 <= j < |adv| ==> Key(adv[j]) != key;
        assert Matches(adv[1..], key) == [];
      }
    }
  }

  /** With unique advanced keys the join is row-for-row: output row `i` is basic row `i` merged with
      the advanced row of the same player, or basic row `i` alone when no advanced row matches. */
  lemma {:induction false} LeftJoinUniqueKeys(bs: seq<Row>, adv: seq<Row>)
    requires UniqueKeys(adv)
    ensures |JoinRows(bs, adv)| == |bs|
    ensures forall i, j :: 0 <= i < |bs| && 0 <= j < |adv| && Key(adv[j]) == Key(bs[i]) ==>
              JoinRows(bs, adv)[i] == Merged(bs[i], adv[j])
    ensures forall i :: 0 <= i < |bs| && (forall j :: 0 <= j < |adv| ==> Key(adv[j]) != Key(bs[i])) ==>
              JoinRows(bs, adv)[i] == bs[i]
  {
    if bs != [] {
      LeftJoinUniqueKeys(bs[1..], adv);
      UniqueMatch(adv, Key(bs[0]));
      var first := JoinRow(bs[0], adv);
      assert |first| == 1;
      assert JoinRows(bs, adv) == first + JoinRows(bs[1..], adv);
      forall i | 1 <= i < |bs| ensures bs[i] == bs[1..][i - 1] && JoinRows(bs, adv)[i] == JoinRows(bs[1..], adv)[i - 1] { }
    }
  }
}
