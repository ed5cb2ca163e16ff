/** `nba_mvp_scraper.py`: per season, the MVP winner, the per-game and the advanced tables are looked
    up in that order, left-joined on `Player`, flagged with `MVP` and stamped with `Season`; seasons
    from a start to an end year are aggregated, missing cells filled with 0 and numeric columns
    coerced; `main` moves `Season` to the front. */
module MvpScraper {
  import opened Wrappers
  import opened Seqs
  import opened Tables
  import opened Frames
  import opened Normalize
  import opened Merge
  import opened Pages

  // ----- scrape_season -----

  /** The `MVP` column: 1 for a row whose `Player` cell is the winner's name, 0 for every other row. */
  function MvpFlags(rows: seq<Row>, winner: string): (flags: seq<Value>)
    ensures |flags| == |rows|
  {
    seq(|rows|, i requires 0 <= i < |rows| => if Get(rows[i], "Player") == Some(Text(winner)) then Num(1.0) else Num(0.0))
  }

  /** The left join of a season's two tables, flagged with `MVP` for `winner` and stamped with `Season`. */
  function Combined(b: Table, a: Table, winner: string, year: int): (t: Table)
    requires Joinable(b, a)
    ensures |t.rows| >= |b.rows|
    ensures "MVP" in t.columns && "Season" in t.columns
  {
    var merged := LeftJoin(b, a);
    var flagged := WithColumn(merged, "MVP", MvpFlags(merged.rows, winner));
    WithColumn(flagged, "Season", Repeat(|flagged.rows|, Num(year as real)))
  }

  /** The combined table: columns are the per-game ones, then the advanced ones other than `Player`,
      then `MVP`, then `Season` unless already present; every row is a data row, carries
      `Season = year`, and `MVP` is 1 exactly when its `Player` equals the winner and 0 otherwise. */
  lemma CombinedContents(b: Table, a: Table, winner: string, year: int)
    requires Joinable(b, a) && WellFormed(b) && WellFormed(a)
    requires "MVP" !in b.columns && "MVP" !in a.columns && "Season" !in a.columns
    requires forall i :: 0 <= i < |b.rows| ==> IsPlayerRow(b.rows[i])
    ensures var t := Combined(b, a, winner, year);
      && WellFormed(t)
      && t.columns == b.columns + Filter(a.columns, Other("Player")) + ["MVP"] + (if "Season" in b.columns then [] else ["Season"])
      && forall i :: 0 <= i < |t.rows| ==>
           && IsPlayerRow(t.rows[i])
           && Get(t.rows[i], "Season") == Some(Num(year as real))
           && Get(t.rows[i], "MVP") == Some(if Get(t.rows[i], "Player") == Some(Text(winner)) then Num(1.0) else Num(0.0))
  {
    var merged := LeftJoin(b, a);
    assert "Season" !in Filter(a.columns, Other("Player"));
    forall i | 0 <= i < |merged.rows| ensures IsPlayerRow(merged.rows[i]) {
      JoinRowsOrigin(b.rows, a.rows, i);
    }
  }

  /** Row count of the combined table: at least one row per per-game row; with unique advanced
      `Player` cells exactly one, row `i` keeping every cell of per-game row `i` except a `Season`. */
  lemma CombinedRows(b: Table, a: Table, winner: string, year: int)
    requires Joinable(b, a) && WellFormed(b) && "MVP" !in b.columns
    ensures var t := Combined(b, a, winner, year);
      && |t.rows| >= |b.rows|
      && (UniqueKeys(a.rows) ==>
            && |t.rows| == |b.rows|
            && forall i, c :: 0 <= i < |b.rows| && c in b.rows[i] && c != "Season" ==> Get(t.rows[i], c) == Get(b.rows[i], c))
  {
    if UniqueKeys(a.rows) {
      LeftJoinUniqueKeys(b.rows, a.rows);
      var t := Combined(b, a, winner, year);
      forall i, c | 0 <= i < |b.rows| && c in b.rows[i] && c != "Season"
        ensures Get(t.rows[i], c) == Get(b.rows[i], c)
      {
        var row := JoinRows(b.rows, a.rows)[i];
        assert c in row && row[c] == b.rows[i][c] by {
          if exists j :: 0 <= j < |a.rows| && Key(a.rows[j]) == Key(b.rows[i]) {
            var j :| 0 <= j < |a.rows| && Key(a.rows[j]) == Key(b.rows[i]);
            assert row == Merged(b.rows[i], a.rows[j]);
          }
        }
        assert c in b.columns;
      }
    }
  }

  /** `scrape_season(year)` as a function of the site. */
  function ScrapedSeason(site: Site, year: int): (r: Option<Table>)
    ensures r.Some? <==> MvpWinner(site, year).Some? && BasicStats(site, year).Some? && AdvancedStats(site, year).Some?
  {
    match MvpWinner(site, year)
    case None => None
    case Some(w) =>
      match BasicStats(site, year)
      case None => None
      case Some(b) =>
        match AdvancedStats(site, year)
        case None => None
        case Some(a) =>
          StatsJoinable(site, year);
          Some(Combined(b, a, w, year))
  }

  /** The pages `scrape_season(year)` looks up, in order. */
  function SeasonPages(year: int): seq<Request>
  {
    [AwardsPage(year), PerGamePage(year), AdvancedPage(year)]
  }

  /** Whether each of the season's three lookups returns a value, in page order. */
  function SeasonOutcomes(site: Site, year: int): seq<bool>
  {
    [MvpWinner(site, year).Some?, BasicStats(site, year).Some?, AdvancedStats(site, year).Some?]
  }

  /** The pages `scrape_season(year)` fetches: it gives up at the first lookup that fails. */
  function SeasonRequests(site: Site, year: int): seq<Request>
  {
    FetchLog(SeasonPages(year), SeasonOutcomes(site, year))
  }

  /** The fetch log of a three-page season, case by case. */
  lemma SeasonLogCases(pages: seq<Request>, oks: seq<bool>)
    requires |pages| == |oks| == 3
    ensures !oks[0] ==> FetchLog(pages, oks) == pages[..1]
    ensures oks[0] && !oks[1] ==> FetchLog(pages, oks) == pages[..2]
    ensures oks[0] && oks[1] ==> FetchLog(pages, oks) == pages
  {
    if oks[0] {
      assert FetchLog(pages, oks) == [pages[0]] + FetchLog(pages[1..], oks[1..]);
      if oks[1] {
        assert FetchLog(pages[1..], oks[1..]) == [pages[1]] + FetchLog(pages[2..], oks[2..]);
        assert FetchLog(pages[2..], oks[2..]) == [pages[2]] by {
          assert pages[2..][1..] == [];
        }
      }
    }
  }

  /** `scrape_season(year)`: winner, per-game and advanced lookups in that order, each failure
      returning `None` at once; then the merge and the in-place `MVP` and `Season` columns. */
  method ScrapeSeason(site: Site, year: int) returns (result: Option<Table>, requests: seq<Request>)
    ensures result == ScrapedSeason(site, year)
    ensures requests == SeasonRequests(site, year)
  {
    SeasonLogCases(SeasonPages(year), SeasonOutcomes(site, year));
    requests := [AwardsPage(year)];
    var winner := MvpWinner(site, year);
    if winner.None? {
      return None, requests;
    }
    requests := [AwardsPage(year), PerGamePage(year)];
    var basic := GetBasicStats(site, year);
    if basic.None? {
      return None, requests;
    }
    requests := [AwardsPage(year), PerGamePage(year), AdvancedPage(year)];
    var advanced := GetAdvancedStats(site, year);
    if advanced.None? {
      return None, requests;
    }
    StatsJoinable(site, year);
    var merged := LeftJoin(basic.value, advanced.value);
    var frame := new Frame(merged);
    frame.SetColumn("MVP", MvpFlags(merged.rows, winner.value));
    frame.Broadcast("Season", Num(year as real));
    result := Some(frame.ToTable());
    assert result == Some(Combined(basic.value, advanced.value, winner.value, year));
  }

  /** A scraped season: its columns are the per-game columns, then the advanced ones other than
      `Player` (no label is shared), then `MVP`, then `Season` unless the per-game table had it;
      every row is a data row, carries `Season = year`, and `MVP` is 1 exactly when its `Player`
      equals the winner's name and 0 otherwise. */
  lemma SeasonContents(site: Site, year: int)
    requires ScrapedSeason(site, year).Some?
    ensures var t, b, a := ScrapedSeason(site, year).value, BasicStats(site, year).value, AdvancedStats(site, year).value;
      && WellFormed(t)
      && t.columns == b.columns + Filter(a.columns, Other("Player")) + ["MVP"] + (if "Season" in b.columns then [] else ["Season"])
      && "Season" in t.columns && "MVP" in t.columns
      && forall i :: 0 <= i < |t.rows| ==>
           && IsPlayerRow(t.rows[i])
           && Get(t.rows[i], "Season") == Some(Num(year as real))
           && Get(t.rows[i], "MVP") == Some(if Get(t.rows[i], "Player") == Some(Text(MvpWinner(site, year).value)) then Num(1.0) else Num(0.0))
  {
    var b, a, w := BasicStats(site, year).value, AdvancedStats(site, year).value, MvpWinner(site, year).value;
    StatsJoinable(site, year);
    assert ScrapedSeason(site, year) == Some(Combined(b, a, w, year));
    CombinedContents(b, a, w, year);
  }

  /** Row count of a season: at least one row per per-game data row, and exactly one per per-game
      data row, carrying that row's cells in order, when the advanced data rows' players are unique. */
  lemma SeasonRowCount(site: Site, year: int)
    requires ScrapedSeason(site, year).Some?
    ensures var t, b := ScrapedSeason(site, year).value, BasicStats(site, year).value;
      && |b.rows| == |Filter(site.perGame[year].rows, IsPlayerRow)|
      && |t.rows| >= |b.rows|
      && (UniqueKeys(Filter(site.advanced[year].rows, IsPlayerRow)) ==>
            && |t.rows| == |b.rows|
            && forall i, c :: 0 <= i < |b.rows| && c in b.rows[i] && c != "Season" ==> Get(t.rows[i], c) == Get(b.rows[i], c))
  {
    var b, a := BasicStats(site, year).value, AdvancedStats(site, year).value;
    BasicStatsShape(site, year);
    AdvancedStatsShape(site, year);
    StatsJoinable(site, year);
    var raw := Filter(site.advanced[year].rows, IsPlayerRow);
    if UniqueKeys(raw) {
      forall j, j' | 0 <= j < j' < |a.rows| ensures Key(a.rows[j]) != Key(a.rows[j']) {
        assert Key(a.rows[j]) == Key(raw[j]) && Key(a.rows[j']) == Key(raw[j']);
      }
    }
    CombinedRows(b, a, MvpWinner(site, year).value, year);
  }

  // ----- scrape_all_seasons -----

  /** `scrape_season` for every year, as one value. */
  function SeasonsOf(site: Site): int -> Option<Table>
  {
    year => ScrapedSeason(site, year)
  }

  /** The successful seasons among `lo .. hi - 1`, in ascending order. */
  function Successes(seasons: int -> Option<Table>, lo: int, hi: int): (ts: seq<Table>)
    ensures |ts| <= if hi <= lo then 0 else hi - lo
    decreases hi - lo
  {
    if hi <= lo then []
    else Successes(seasons, lo, hi - 1) + (if seasons(hi - 1).Some? then [seasons(hi - 1).value] else [])
  }

  /** The pages fetched for the seasons `lo .. hi - 1`, season after season. */
  function RangeRequests(site: Site, lo: int, hi: int): seq<Request>
    decreases hi - lo
  {
    if hi <= lo then [] else RangeRequests(site, lo, hi - 1) + SeasonRequests(site, hi - 1)
  }

  /** The seasons `lo .. hi - 1` that succeeded, concatenated, filled with 0 and coerced; `None`
      when none succeeded. */
  function Aggregate(seasons: int -> Option<Table>, lo: int, hi: int, parse: string -> Option<real>): (r: Option<Table>)
    ensures r.Some? ==> |r.value.rows| == |Rows(Successes(seasons, lo, hi))|
  {
    var ts := Successes(seasons, lo, hi);
    if ts == [] then None else Some(Coerce(FillMissing(Concat(ts)), NumericColumns, parse))
  }

  /** `scrape_all_seasons(start_year, end_year)` as a function of the site. */
  function AllSeasons(site: Site, startYear: int, endYear: int, parse: string -> Option<real>): (r: Option<Table>)
    ensures r.None? <==> forall y :: startYear <= y <= endYear ==> ScrapedSeason(site, y).None?
  {
    AggregateNone(SeasonsOf(site), startYear, endYear + 1, parse);
    assert forall y :: SeasonsOf(site)(y) == ScrapedSeason(site, y);
    Aggregate(SeasonsOf(site), startYear, endYear + 1, parse)
  }

  /** `scrape_all_seasons`: the seasons `start_year .. end_year` in ascending order, successful ones
      appended to a list; `None` when the list stays empty; otherwise concatenated, filled with 0,
      and the numeric columns coerced in place. */
  method ScrapeAllSeasons(site: Site, startYear: int, endYear: int, parse: string -> Option<real>)
    returns (result: Option<Table>, requests: seq<Request>)
    ensures result == AllSeasons(site, startYear, endYear, parse)
    ensures requests == RangeRequests(site, startYear, endYear + 1)
  {
    var allData: seq<Table> := [];
    requests := [];
    var year := startYear;
    while year <= endYear
      invariant startYear <= year && (year <= endYear + 1 || year == startYear)
      invariant allData == Successes(SeasonsOf(site), startYear, year)
      invariant requests == RangeRequests(site, startYear, year)
      decreases endYear - year
    {
      var season, seasonRequests := ScrapeSeason(site, year);
      RangeStep(site, startYear, year);
      if season.Some? {
        allData := allData + [season.value];
      }
      requests := requests + seasonRequests;
      year := year + 1;
    }
    RangeEnd(site, startYear, endYear, year);
    if allData == [] {
      return None, requests;
    }
    var frame := new Frame(FillMissing(Concat(allData)));
    CoerceNumeric(frame, NumericColumns, parse);
    result := Some(frame.ToTable());
  }

  /** One more season of the loop: its table, when there is one, is appended to the collected list,
      and its pages to the fetched ones. */
  lemma RangeStep(site: Site, lo: int, year: int)
    requires lo <= year
    ensures Successes(SeasonsOf(site), lo, year + 1) ==
              Successes(SeasonsOf(site), lo, year) + (if ScrapedSeason(site, year).Some? then [ScrapedSeason(site, year).value] else [])
    ensures RangeRequests(site, lo, year + 1) == RangeRequests(site, lo, year) + SeasonRequests(site, year)
  {
    assert SeasonsOf(site)(year) == ScrapedSeason(site, year);
  }

  /** When the loop stops, the collected list and the fetched pages are those of the whole range,
      an empty one included. */
  lemma RangeEnd(site: Site, startYear: int, endYear: int, year: int)
    requires startYear <= year && (year <= endYear + 1 || year == startYear) && year > endYear
    ensures Successes(SeasonsOf(site), startYear, year) == Successes(SeasonsOf(site), startYear, endYear + 1)
    ensures RangeRequests(site, startYear, year) == RangeRequests(site, startYear, endYear + 1)
  {
  }

  /** No season is collected exactly when every season of the range fails. */
  lemma {:induction false} SuccessesEmpty(seasons: int -> Option<Table>, lo: int, hi: int)
    ensures Successes(seasons, lo, hi) == [] <==> forall y :: lo <= y < hi ==> seasons(y).None?
    decreases hi - lo
  {
    if hi > lo {
      SuccessesEmpty(seasons, lo, hi - 1);
    }
  }

  /** Every row of a season's table carries that season's year and a 0/1 `MVP` flag. */
  predicate Stamped(t: Table, year: int)
  {
    forall i :: 0 <= i < |t.rows| ==>
      && Get(t.rows[i], "Season") == Some(Num(year as real))
      && (Get(t.rows[i], "MVP") == Some(Num(0.0)) || Get(t.rows[i], "MVP") == Some(Num(1.0)))
  }

  /** A table that has both labels the season scraper adds. */
  predicate Labelled(t: Table)
  {
    "Season" in t.columns && "MVP" in t.columns
  }

  /** Every scraped season is stamped with its own year and has the `Season` and `MVP` columns. */
  lemma ScrapedSeasonsStamped(site: Site)
    ensures forall y :: SeasonsOf(site)(y).Some? ==> Stamped(SeasonsOf(site)(y).value, y) && Labelled(SeasonsOf(site)(y).value)
  {
    forall y | SeasonsOf(site)(y).Some? ensures Stamped(SeasonsOf(site)(y).value, y) && Labelled(SeasonsOf(site)(y).value) {
      SeasonStamped(site, y);
    }
  }

  /** A scraped season is stamped with its own year and has the `Season` and `MVP` columns. */
  lemma SeasonStamped(site: Site, year: int)
    requires ScrapedSeason(site, year).Some?
    ensures Stamped(ScrapedSeason(site, year).value, year) && Labelled(ScrapedSeason(site, year).value)
  {
    StatsJoinable(site, year);
    CombinedStamped(BasicStats(site, year).value, AdvancedStats(site, year).value, MvpWinner(site, year).value, year);
  }

  /** The combined table is stamped with the year and has the `Season` and `MVP` columns. */
  lemma CombinedStamped(b: Table, a: Table, winner: string, year: int)
    requires Joinable(b, a) && WellFormed(b) && WellFormed(a)
    requires "MVP" !in b.columns && "MVP" !in a.columns && "Season" !in a.columns
    requires forall i :: 0 <= i < |b.rows| ==> IsPlayerRow(b.rows[i])
    ensures Stamped(Combined(b, a, winner, year), year) && Labelled(Combined(b, a, winner, year))
  {
    CombinedContents(b, a, winner, year);
  }

  /** The `Season` cell of a row as a number (0 when it is not one). */
  function SeasonYear(r: Row): real
  {
    if "Season" in r && r["Season"].Num? then r["Season"].x else 0.0
  }

  /** The rows collected up to `hi` are those collected up to `hi - 1`, then the rows of season
      `hi - 1` when it succeeded. */
  lemma SuccessRowsStep(seasons: int -> Option<Table>, lo: int, hi: int)
    requires hi > lo
    ensures Rows(Successes(seasons, lo, hi)) ==
              Rows(Successes(seasons, lo, hi - 1)) + (if seasons(hi - 1).Some? then seasons(hi - 1).value.rows else [])
  {
    var init := Successes(seasons, lo, hi - 1);
    if seasons(hi - 1).Some? {
      var ts := init + [seasons(hi - 1).value];
      assert ts[..|ts| - 1] == init;
    } else {
      assert Successes(seasons, lo, hi) == init + [] == init;
    }
  }

  /** The season that collected row `i` comes from. */
  lemma {:induction false} RowSeason(seasons: int -> Option<Table>, lo: int, hi: int, i: int) returns (w: int)
    requires forall y :: seasons(y).Some? ==> Stamped(seasons(y).value, y)
    requires 0 <= i < |Rows(Successes(seasons, lo, hi))|
    ensures lo <= w < hi && seasons(w).Some? && Get(Rows(Successes(seasons, lo, hi))[i], "Season") == Some(Num(w as real))
    decreases hi - lo
  {
    assert hi > lo;
    var last := hi - 1;
    SuccessRowsStep(seasons, lo, hi);
    var init := Rows(Successes(seasons, lo, last));
    if i < |init| {
      w := RowSeason(seasons, lo, last, i);
    } else {
      w := last;
    }
  }

  /** Each collected row carries the year of a season of the range that succeeded: a failed season
      contributes no row. */
  lemma SuccessRowsInRange(seasons: int -> Option<Table>, lo: int, hi: int)
    requires forall y :: seasons(y).Some? ==> Stamped(seasons(y).value, y)
    ensures forall i :: 0 <= i < |Rows(Successes(seasons, lo, hi))| ==>
              && lo as real <= SeasonYear(Rows(Successes(seasons, lo, hi))[i]) < hi as real
              && exists y :: lo <= y < hi && seasons(y).Some? && Get(Rows(Successes(seasons, lo, hi))[i], "Season") == Some(Num(y as real))
  {
    var rs := Rows(Successes(seasons, lo, hi));
    forall i | 0 <= i < |rs|
      ensures lo as real <= SeasonYear(rs[i]) < hi as real
      ensures exists y :: lo <= y < hi && seasons(y).Some? && Get(rs[i], "Season") == Some(Num(y as real))
    {
      var w := RowSeason(seasons, lo, hi, i);
      assert SeasonYear(rs[i]) == w as real;
    }
  }

  /** Every collected row has an `MVP` flag of 0 or 1. */
  lemma {:induction false} SuccessRowsFlagged(seasons: int -> Option<Table>, lo: int, hi: int)
    requires forall y :: seasons(y).Some? ==> Stamped(seasons(y).value, y)
    ensures forall i :: 0 <= i < |Rows(Successes(seasons, lo, hi))| ==>
              Get(Rows(Successes(seasons, lo, hi))[i], "MVP") in {Some(Num(0.0)), Some(Num(1.0))}
    decreases hi - lo
  {
    if hi > lo {
      var last := hi - 1;
      SuccessRowsFlagged(seasons, lo, last);
      SuccessRowsStep(seasons, lo, hi);
      var init, rs := Rows(Successes(seasons, lo, last)), Rows(Successes(seasons, lo, hi));
      forall i | 0 <= i < |rs| ensures Get(rs[i], "MVP") in {Some(Num(0.0)), Some(Num(1.0))} {
        if i < |init| {
          assert rs[i] == init[i];
        } else {
          assert rs[i] == seasons(last).value.rows[i - |init|];
        }
      }
    }
  }

  /** The years never decrease along the collected rows: seasons are appended in ascending order. */
  lemma {:induction false} SuccessRowsAscending(seasons: int -> Option<Table>, lo: int, hi: int)
    requires forall y :: seasons(y).Some? ==> Stamped(seasons(y).value, y)
    ensures forall i, j :: 0 <= i < j < |Rows(Successes(seasons, lo, hi))| ==>
              SeasonYear(Rows(Successes(seasons, lo, hi))[i]) <= SeasonYear(Rows(Successes(seasons, lo, hi))[j])
    decreases hi - lo
  {
    if hi > lo {
      var last := hi - 1;
      SuccessRowsAscending(seasons, lo, last);
      LastSeasonRows(seasons, lo, hi);
      var init, rs := Rows(Successes(seasons, lo, last)), Rows(Successes(seasons, lo, hi));
      forall i, j | 0 <= i < j < |rs| ensures SeasonYear(rs[i]) <= SeasonYear(rs[j]) {
        if j < |init| {
          assert rs[i] == init[i] && rs[j] == init[j];
        }
      }
    }
  }

  /** Rows collected up to `hi` carry a year of at most `hi - 1`, and those appended by season
      `hi - 1` carry exactly that year. */
  lemma LastSeasonRows(seasons: int -> Option<Table>, lo: int, hi: int)
    requires forall y :: seasons(y).Some? ==> Stamped(seasons(y).value, y)
    requires hi > lo
    ensures var init, rs := Rows(Successes(seasons, lo, hi - 1)), Rows(Successes(seasons, lo, hi));
      && |init| <= |rs|
      && (forall i :: 0 <= i < |init| ==> rs[i] == init[i])
      && forall i :: 0 <= i < |rs| ==> SeasonYear(rs[i]) <= (hi - 1) as real && (i >= |init| ==> SeasonYear(rs[i]) == (hi - 1) as real)
  {
    var last := hi - 1;
    SuccessRowsStep(seasons, lo, hi);
    var init, rs := Rows(Successes(seasons, lo, last)), Rows(Successes(seasons, lo, hi));
    forall i | 0 <= i < |rs| ensures SeasonYear(rs[i]) <= last as real && (i >= |init| ==> SeasonYear(rs[i]) == last as real) {
      if i < |init| {
        var w := RowSeason(seasons, lo, last, i);
        assert rs[i] == init[i];
      } else {
        assert rs[i] == seasons(last).value.rows[i - |init|];
      }
    }
  }

  /** Concatenating, filling with 0 and coercing the numeric columns keeps the rows one for one:
      the columns are every label of some table, outside the numeric columns each row keeps its
      cells, and there no cell is missing. */
  lemma AggregateKeepsRows(ts: seq<Table>, parse: string -> Option<real>)
    ensures var t, rs := Coerce(FillMissing(Concat(ts)), NumericColumns, parse), Rows(ts);
      && (forall c :: c in t.columns <==> exists k :: 0 <= k < |ts| && c in ts[k].columns)
      && |t.rows| == |rs|
      && (forall i, c :: 0 <= i < |rs| && c in rs[i] && c !in NumericColumns ==> Get(t.rows[i], c) == Get(rs[i], c))
      && (forall i, c :: 0 <= i < |t.rows| && c in t.columns && c !in NumericColumns ==> c in t.rows[i])
  {
    var filled := FillMissing(Concat(ts));
    var t := Coerce(filled, NumericColumns, parse);
    forall i, c | 0 <= i < |t.rows| && c in t.columns && c !in NumericColumns ensures c in t.rows[i] {
      assert Get(t.rows[i], c) == Get(filled.rows[i], c);
    }
  }

  /** Every collected season has the `Season` and `MVP` columns when every season does. */
  lemma {:induction false} SuccessesLabelled(seasons: int -> Option<Table>, lo: int, hi: int)
    requires forall y :: seasons(y).Some? ==> Labelled(seasons(y).value)
    ensures forall k :: 0 <= k < |Successes(seasons, lo, hi)| ==> Labelled(Successes(seasons, lo, hi)[k])
    decreases hi - lo
  {
    if hi > lo {
      SuccessesLabelled(seasons, lo, hi - 1);
    }
  }

  /** The aggregate is `None` exactly when every season of the range fails. */
  lemma AggregateNone(seasons: int -> Option<Table>, lo: int, hi: int, parse: string -> Option<real>)
    ensures Aggregate(seasons, lo, hi, parse).None? <==> forall y :: lo <= y < hi ==> seasons(y).None?
  {
    SuccessesEmpty(seasons, lo, hi);
  }

  /** A cell outside the numeric columns that a collected row has is the aggregate's cell. */
  lemma AggregateCell(ts: seq<Table>, parse: string -> Option<real>, i: int, c: string)
    requires 0 <= i < |Rows(ts)| && c in Rows(ts)[i] && c !in NumericColumns
    ensures var t := Coerce(FillMissing(Concat(ts)), NumericColumns, parse);
      i < |t.rows| && Get(t.rows[i], c) == Get(Rows(ts)[i], c)
  {
    AggregateKeepsRows(ts, parse);
  }

  /** The aggregate of labelled seasons has the `Season` and `MVP` columns. */
  lemma AggregateLabelled(seasons: int -> Option<Table>, lo: int, hi: int, parse: string -> Option<real>)
    requires forall y :: seasons(y).Some? ==> Labelled(seasons(y).value)
    requires Aggregate(seasons, lo, hi, parse).Some?
    ensures Labelled(Aggregate(seasons, lo, hi, parse).value)
  {
    var ts := Successes(seasons, lo, hi);
    SuccessesLabelled(seasons, lo, hi);
    assert Labelled(ts[0]);
    assert "Season" in Concat(ts).columns && "MVP" in Concat(ts).columns;
  }

  /** The aggregate of stamped seasons has a row per collected row, with years ascending, and every
      `MVP` flag is 0 or 1. */
  lemma AggregateSeasons(seasons: int -> Option<Table>, lo: int, hi: int, parse: string -> Option<real>)
    requires forall y :: seasons(y).Some? ==> Stamped(seasons(y).value, y)
    requires Aggregate(seasons, lo, hi, parse).Some?
    ensures var t := Aggregate(seasons, lo, hi, parse).value;
      && |t.rows| == |Rows(Successes(seasons, lo, hi))|
      && (forall i :: 0 <= i < |t.rows| ==> Get(t.rows[i], "MVP") in {Some(Num(0.0)), Some(Num(1.0))})
      && (forall i, j :: 0 <= i < j < |t.rows| ==> SeasonYear(t.rows[i]) <= SeasonYear(t.rows[j]))
  {
    var ts := Successes(seasons, lo, hi);
    var t, rs := Aggregate(seasons, lo, hi, parse).value, Rows(ts);
    SuccessRowsFlagged(seasons, lo, hi);
    SuccessRowsAscending(seasons, lo, hi);
    AddedLabelsAreFresh();
    forall i | 0 <= i < |t.rows|
      ensures Get(t.rows[i], "MVP") == Get(rs[i], "MVP")
      ensures SeasonYear(t.rows[i]) == SeasonYear(rs[i])
    {
      var w := RowSeason(seasons, lo, hi, i);
      AggregateCell(ts, parse, i, "Season");
      AggregateCell(ts, parse, i, "MVP");
    }
  }

  /** Every row of the aggregate of stamped seasons carries the `Season` of a year of the range that
      succeeded. */
  lemma AggregateFromSeasons(seasons: int -> Option<Table>, lo: int, hi: int, parse: string -> Option<real>)
    requires forall y :: seasons(y).Some? ==> Stamped(seasons(y).value, y)
    requires Aggregate(seasons, lo, hi, parse).Some?
    ensures var t := Aggregate(seasons, lo, hi, parse).value;
      forall i :: 0 <= i < |t.rows| ==>
        && Get(t.rows[i], "Season").Some?
        && exists y :: lo <= y < hi && seasons(y).Some? && Get(t.rows[i], "Season") == Some(Num(y as real))
  {
    var t := Aggregate(seasons, lo, hi, parse).value;
    forall i | 0 <= i < |t.rows|
      ensures && Get(t.rows[i], "Season").Some?
              && exists y :: lo <= y < hi && seasons(y).Some? && Get(t.rows[i], "Season") == Some(Num(y as real))
    {
      var w := AggregateRowSeason(seasons, lo, hi, parse, i);
      assert lo <= w < hi && seasons(w).Some? && Get(t.rows[i], "Season") == Some(Num(w as real));
    }
  }

  /** The successful season a row of the aggregate of stamped seasons comes from. */
  lemma AggregateRowSeason(seasons: int -> Option<Table>, lo: int, hi: int, parse: string -> Option<real>, i: int) returns (w: int)
    requires forall y :: seasons(y).Some? ==> Stamped(seasons(y).value, y)
    requires Aggregate(seasons, lo, hi, parse).Some?
    requires 0 <= i < |Aggregate(seasons, lo, hi, parse).value.rows|
    ensures lo <= w < hi && seasons(w).Some? && Get(Aggregate(seasons, lo, hi, parse).value.rows[i], "Season") == Some(Num(w as real))
  {
    var ts := Successes(seasons, lo, hi);
    w := RowSeason(seasons, lo, hi, i);
    AddedLabelsAreFresh();
    AggregateCell(ts, parse, i, "Season");
  }

  // ----- main -----

  /** The seasons `main` scrapes. */
  const FirstSeason := 1981
  const LastSeason := 2024

  /** `main`: scrape 1981 to 2024; when there is data, move `Season` to the first column and return
      the table that is written to `nba_mvp_data.csv`, together with the pages fetched. */
  method Run(site: Site, parse: string -> Option<real>) returns (written: Option<Table>, requests: seq<Request>)
    ensures requests == RangeRequests(site, FirstSeason, LastSeason + 1)
    ensures written.None? <==> AllSeasons(site, FirstSeason, LastSeason, parse).None?
    ensures written.Some? ==>
              var t := AllSeasons(site, FirstSeason, LastSeason, parse).value;
              && written.value.rows == t.rows
              && written.value.columns == ["Season"] + Filter(t.columns, Other("Season"))
              && multiset(written.value.columns) == multiset(t.columns)
  {
    var all;
    all, requests := ScrapeAllSeasons(site, FirstSeason, LastSeason, parse);
    if all.None? {
      return None, requests;
    }
    var t := all.value;
    ScrapedSeasonsStamped(site);
    AggregateLabelled(SeasonsOf(site), FirstSeason, LastSeason + 1, parse);
    written := Some(Table(MoveToFront(t.columns, "Season"), t.rows));
  }
}
