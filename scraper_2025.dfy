/** `nba_2025_scraper.py`: one season only. The per-game and the advanced tables are looked up in
    that order, left-joined on `Player` and stamped with `Season` (there is no award lookup and no
    `MVP` column); `main` then moves `Season` to the front, fills missing cells with 0 and coerces
    the numeric columns, in that order. */
module Scraper2025 {
  import opened Wrappers
  import opened Seqs
  import opened Tables
  import opened Frames
  import opened Normalize
  import opened Merge
  import opened Pages

  // ----- scrape_season -----

  /** The left join of a season's two tables, stamped with `Season`. */
  function Combined(b: Table, a: Table, year: int): (t: Table)
    requires Joinable(b, a)
    ensures |t.rows| >= |b.rows| && "Season" in t.columns
  {
    var merged := LeftJoin(b, a);
    WithColumn(merged, "Season", Repeat(|merged.rows|, Num(year as real)))
  }

  /** The combined table: columns are the per-game ones, then the advanced ones other than `Player`,
      then `Season` unless the per-game table had it; every row is a data row and carries
      `Season = year`. */
  lemma CombinedContents(b: Table, a: Table, year: int)
    requires Joinable(b, a) && WellFormed(b) && WellFormed(a) && "Season" !in a.columns
    requires forall i :: 0 <= i < |b.rows| ==> IsPlayerRow(b.rows[i])
    ensures var t := Combined(b, a, year);
      && WellFormed(t)
      && t.columns == b.columns + Filter(a.columns, Other("Player")) + (if "Season" in b.columns then [] else ["Season"])
      && forall i :: 0 <= i < |t.rows| ==> IsPlayerRow(t.rows[i]) && Get(t.rows[i], "Season") == Some(Num(year as real))
  {
    var merged := LeftJoin(b, a);
    assert "Season" !in Filter(a.columns, Other("Player"));
    forall i | 0 <= i < |merged.rows| ensures IsPlayerRow(merged.rows[i]) {
      JoinRowsOrigin(b.rows, a.rows, i);
    }
  }

  /** Row count of the combined table: at least one row per per-game row; with unique advanced
      `Player` cells exactly one, row `i` keeping every cell of per-game row `i` except a `Season`. */
  lemma CombinedRows(b: Table, a: Table, year: int)
    requires Joinable(b, a) && WellFormed(b)
    ensures var t := Combined(b, a, year);
      && |t.rows| >= |b.rows|
      && (UniqueKeys(a.rows) ==>
            && |t.rows| == |b.rows|
            && forall i, c :: 0 <= i < |b.rows| && c in b.rows[i] && c != "Season" ==> Get(t.rows[i], c) == Get(b.rows[i], c))
  {
    if UniqueKeys(a.rows) {
      LeftJoinUniqueKeys(b.rows, a.rows);
      var t := Combined(b, a, year);
      forall i, c | 0 <= i < |b.rows| && c in b.rows[i] && c != "Season"
        ensures Get(t.rows[i], c) == Get(b.rows[i], c)
      {
        var row := JoinRows(b.rows, a.rows)[i];
        assert c in row && row[c] == b.rows[i][c] by {
          if exists j :: 0 <= j < |a.rows| && Key(a.rows[j]) == Key(b.rows[i]) {
            var j :| 0 <= j < |a.rows| && Key(a.rows[j]) == Key(b.rows[i]);
            assert row == Merged(b.rows[i], a.rows[j]);
          }
        }
      }
    }
  }

  /** `scrape_season(year)` as a function of the site. */
  function ScrapedSeason(site: Site, year: int): (r: Option<Table>)
    ensures r.Some? <==> BasicStats(site, year).Some? && AdvancedStats(site, year).Some?
  {
    match BasicStats(site, year)
    case None => None
    case Some(b) =>
      match AdvancedStats(site, year)
      case None => None
      case Some(a) =>
        StatsJoinable(site, year);
        Some(Combined(b, a, year))
  }

  /** The pages `scrape_season(year)` looks up, in order. */
  function SeasonPages(year: int): seq<Request>
  {
    [PerGamePage(year), AdvancedPage(year)]
  }

  /** Whether each of the season's two lookups returns a value, in page order. */
  function SeasonOutcomes(site: Site, year: int): seq<bool>
  {
    [BasicStats(site, year).Some?, AdvancedStats(site, year).Some?]
  }

  /** The pages `scrape_season(year)` fetches: up to and including the first lookup that fails. */
  function SeasonRequests(site: Site, year: int): seq<Request>
  {
    FetchLog(SeasonPages(year), SeasonOutcomes(site, year))
  }

  /** The fetch log of two lookups, by case. */
  lemma SeasonLogCases(pages: seq<Request>, oks: seq<bool>)
    requires |pages| == 2 && |oks| == 2
    ensures FetchLog(pages, oks) == if !oks[0] then pages[..1] else pages
  {
    if oks[0] {
      assert FetchLog(pages, oks) == [pages[0]] + FetchLog(pages[1..], oks[1..]);
      assert FetchLog(pages[1..], oks[1..]) == [pages[1]] by {
        assert pages[1..][1..] == [];
      }
    }
  }

  /** `scrape_season(year)`: per-game then advanced lookup, each failure returning `None` at once;
      then the merge and the in-place `Season` column. */
  method ScrapeSeason(site: Site, year: int) returns (result: Option<Table>, requests: seq<Request>)
    ensures result == ScrapedSeason(site, year)
    ensures requests == SeasonRequests(site, year)
  {
    SeasonLogCases(SeasonPages(year), SeasonOutcomes(site, year));
    requests := [PerGamePage(year)];
    var basic := GetBasicStats(site, year);
    if basic.None? {
      return None, requests;
    }
    requests := [PerGamePage(year), AdvancedPage(year)];
    var advanced := GetAdvancedStats(site, year);
    if advanced.None? {
      return None, requests;
    }
    StatsJoinable(site, year);
    var merged := LeftJoin(basic.value, advanced.value);
    var frame := new Frame(merged);
    frame.Broadcast("Season", Num(year as real));
    result := Some(frame.ToTable());
    assert result == Some(Combined(basic.value, advanced.value, year));
  }

  /** A scraped season exists exactly when both lookups succeed; its columns are the per-game ones,
      the advanced ones other than `Player`, then `Season` unless the per-game table had it; every row
      is a data row carrying `Season = year`. */
  lemma SeasonContents(site: Site, year: int)
    ensures ScrapedSeason(site, year).Some? ==>
      var t, b, a := ScrapedSeason(site, year).value, BasicStats(site, year).value, AdvancedStats(site, year).value;
      && WellFormed(t)
      && t.columns == b.columns + Filter(a.columns, Other("Player")) + (if "Season" in b.columns then [] else ["Season"])
      && "Season" in t.columns
      && forall i :: 0 <= i < |t.rows| ==> IsPlayerRow(t.rows[i]) && Get(t.rows[i], "Season") == Some(Num(year as real))
  {
    if ScrapedSeason(site, year).Some? {
      StatsJoinable(site, year);
      CombinedContents(BasicStats(site, year).value, AdvancedStats(site, year).value, year);
    }
  }

  /** Row count of a season: at least one row per per-game data row, and exactly one per per-game
      data row, carrying that row's cells in order, when the advanced data rows' players are unique. */
  lemma SeasonRowCount(site: Site, year: int)
    requires ScrapedSeason(site, year).Some?
    ensures var t, b := ScrapedSeason(site, year).value, BasicStats(site, year).value;
      && |b.rows| == |Filter(site.perGame[year].rows, IsPlayerRow)|
      && |t.rows| >= |b.rows|
      && (UniqueKeys(Filter(site.advanced[year].rows, IsPlayerRow)) ==>
            && |t.rows| == |b.rows|
            && forall i, c :: 0 <= i < |b.rows| && c in b.rows[i] && c != "Season" ==> Get(t.rows[i], c) == Get(b.rows[i], c))
  {
    var b, a := BasicStats(site, year).value, AdvancedStats(site, year).value;
    StatsJoinable(site, year);
    BasicStatsShape(site, year);
    AdvancedStatsShape(site, year);
    var adv := Filter(site.advanced[year].rows, IsPlayerRow);
    if UniqueKeys(adv) {
      assert UniqueKeys(a.rows) by {
        forall j, j' | 0 <= j < j' < |a.rows| ensures Key(a.rows[j]) != Key(a.rows[j']) {
          assert Key(a.rows[j]) == Key(adv[j]) && Key(a.rows[j']) == Key(adv[j']);
        }
      }
    }
    CombinedRows(b, a, year);
  }

  // ----- main -----

  /** The only season this script scrapes. */
  const Year := 2025

  /** What `main` writes for a scraped table: `Season` moved to the front, then missing cells filled
      with 0, then the numeric columns coerced. */
  function Written(t: Table, parse: string -> Option<real>): (w: Table)
    requires "Season" in t.columns
    ensures |w.columns| == |t.columns| && w.columns[0] == "Season"
    ensures multiset(w.columns) == multiset(t.columns)
    ensures |w.rows| == |t.rows|
  {
    Coerce(FillMissing(Table(MoveToFront(t.columns, "Season"), t.rows)), NumericColumns, parse)
  }

  /** `main`: scrape 2025; when there is data, reorder, fill and coerce, and return the table that is
      written to `nba_2025_season.csv`, together with the pages fetched. */
  method Run(site: Site, parse: string -> Option<real>) returns (written: Option<Table>, requests: seq<Request>)
    ensures requests == SeasonRequests(site, Year)
    ensures written.None? <==> ScrapedSeason(site, Year).None?
    ensures written.Some? ==>
              "Season" in ScrapedSeason(site, Year).value.columns
              && written.value == Written(ScrapedSeason(site, Year).value, parse)
  {
    var season;
    season, requests := ScrapeSeason(site, Year);
    if season.None? {
      return None, requests;
    }
    var t := season.value;
    SeasonContents(site, Year);
    var reordered := Table(MoveToFront(t.columns, "Season"), t.rows);
    var frame := new Frame(FillMissing(reordered));
    CoerceNumeric(frame, NumericColumns, parse);
    written := Some(frame.ToTable());
  }

  /** The shape of the written table of a scraped season (`SeasonContents` gives what this needs):
      `Season` first and the other columns in their order (a permutation of the scraped columns), one
      row per scraped row, every `Season` cell the year and every `Player` cell that of the scraped
      row, so every row is still a data row. */
  lemma WrittenShape(t: Table, year: int, parse: string -> Option<real>)
    requires WellFormed(t) && "Season" in t.columns
    requires forall i :: 0 <= i < |t.rows| ==> IsPlayerRow(t.rows[i]) && Get(t.rows[i], "Season") == Some(Num(year as real))
    ensures var w := Written(t, parse);
      && w.columns == ["Season"] + Filter(t.columns, Other("Season"))
      && multiset(w.columns) == multiset(t.columns)
      && |w.rows| == |t.rows|
      && (forall i :: 0 <= i < |w.rows| ==> Get(w.rows[i], "Season") == Some(Num(year as real)))
      && (forall i :: 0 <= i < |w.rows| ==> IsPlayerRow(w.rows[i]) && Get(w.rows[i], "Player") == Get(t.rows[i], "Player"))
  {
    AddedLabelsAreFresh();
  }

  /** The cells of the written table: outside the numeric columns no cell is missing and the scraped
      cells are kept; in a numeric column every cell is the conversion of the scraped cell, or of 0
      when it was missing. */
  lemma WrittenCells(t: Table, parse: string -> Option<real>)
    requires "Season" in t.columns
    ensures var w := Written(t, parse);
      && |w.rows| == |t.rows|
      && (forall i, c :: 0 <= i < |w.rows| && c in w.columns && c !in NumericColumns ==> c in w.rows[i])
      && (forall i, c :: 0 <= i < |w.rows| && c in t.rows[i] && c !in NumericColumns ==> c in w.rows[i] && w.rows[i][c] == t.rows[i][c])
      && (forall i, c :: 0 <= i < |w.rows| && c in w.columns && c in NumericColumns ==>
            Get(w.rows[i], c) == ToNumeric(parse, if c in t.rows[i] then t.rows[i][c] else Num(0.0)))
  {
    var filled := FillMissing(Table(MoveToFront(t.columns, "Season"), t.rows));
    var w := Written(t, parse);
    forall i, c | 0 <= i < |w.rows| && c in w.columns && c !in NumericColumns ensures c in w.rows[i] {
      assert Get(w.rows[i], c) == Get(filled.rows[i], c);
    }
  }
}
