/** The three per-season lookups shared by both scrapers (`get_mvp_winner`, `get_basic_stats`,
    `get_advanced_stats`), with the network and the HTML parser replaced by the tables they yield. */
module Pages {
  import opened Wrappers
  import opened Seqs
  import opened Text
  import opened Tables
  import opened Normalize
  import opened Merge

  /** A page the scraper fetches for a season. */
  datatype Request = AwardsPage(year: int) | PerGamePage(year: int) | AdvancedPage(year: int)

  /** What the site yields, by season. A season absent from a map stands for a failed fetch or a page
      without the expected table. `awards` gives, for each body row of the `mvp` table, the text of
      its player cell, or `None` when the row has no such cell. `perGame` and `advanced` give the
      `per_game_stats` table and the first `stats_table` table as read by `pd.read_html`. */
  datatype Site = Site(awards: map<int, seq<Option<string>>>, perGame: map<int, Table>, advanced: map<int, Table>)

  /** `get_mvp_winner`: the stripped player cell of the first body row of the award table; `None`
      when the page or table is missing, the body has no row, or the row has no player cell. */
  function MvpWinner(site: Site, year: int): (w: Option<string>)
    ensures w.Some? <==> year in site.awards && |site.awards[year]| > 0 && site.awards[year][0].Some?
    ensures w.Some? ==> w.value == [] || (!IsSpace(w.value[0]) && !IsSpace(w.value[|w.value| - 1]))
  {
    if year in site.awards && |site.awards[year]| > 0 && site.awards[year][0].Some? then
      Some(Strip(site.awards[year][0].value))
    else None
  }

  /** `get_basic_stats` as a function of the site. */
  function BasicStats(site: Site, year: int): Option<Table>
  {
    if year in site.perGame then Normalized(site.perGame[year], BasicMapping, BasicColumns) else None
  }

  /** `get_advanced_stats` as a function of the site. */
  function AdvancedStats(site: Site, year: int): Option<Table>
  {
    if year in site.advanced then Normalized(site.advanced[year], AdvancedMapping, AdvancedColumns) else None
  }

  /** `get_basic_stats`: locate the table, then clean, rename and select. */
  method GetBasicStats(site: Site, year: int) returns (r: Option<Table>)
    ensures r == BasicStats(site, year)
  {
    if year !in site.perGame {
      return None;
    }
    r := NormalizeTable(site.perGame[year], BasicMapping, BasicColumns);
  }

  /** `get_advanced_stats`: locate the table, then clean, rename and select. */
  method GetAdvancedStats(site: Site, year: int) returns (r: Option<Table>)
    ensures r == AdvancedStats(site, year)
  {
    if year !in site.advanced {
      return None;
    }
    r := NormalizeTable(site.advanced[year], AdvancedMapping, AdvancedColumns);
  }

  /** The winner's name is the first body row's player cell with only whitespace removed, and only
      from its two ends. */
  lemma MvpWinnerIsTrimmedFirstRow(site: Site, year: int)
    requires MvpWinner(site, year).Some?
    ensures var w, cell := MvpWinner(site, year).value, site.awards[year][0].value;
      exists i, j :: 0 <= i <= j <= |cell| && w == cell[i..j]
                     && (forall m :: 0 <= m < i ==> IsSpace(cell[m]))
                     && (forall m :: j <= m < |cell| ==> IsSpace(cell[m]))
  {
  }

  /** The pages fetched when `pages` are looked up in order, `oks[k]` telling whether the lookup of
      `pages[k]` succeeds, and the scraper gives up at the first lookup that fails (the lookup returns
      `None` and its caller returns at once). */
  function FetchLog(pages: seq<Request>, oks: seq<bool>): (log: seq<Request>)
    requires |oks| == |pages|
    ensures |log| <= |pages|
  {
    if pages == [] then []
    else if oks[0] then [pages[0]] + FetchLog(pages[1..], oks[1..])
    else [pages[0]]
  }

  /** The log is a prefix of the pages, non-empty when there are pages; every page in it but the last
      succeeded; the last one failed unless every page was fetched; and every page was fetched with
      the last one succeeding exactly when all lookups succeed. */
  lemma {:induction false} FetchLogStopsAtFailure(pages: seq<Request>, oks: seq<bool>)
    requires |oks| == |pages|
    ensures FetchLog(pages, oks) == pages[..|FetchLog(pages, oks)|]
    ensures pages != [] ==> |FetchLog(pages, oks)| >= 1
    ensures forall k :: 0 <= k < |FetchLog(pages, oks)| - 1 ==> oks[k]
    ensures |FetchLog(pages, oks)| < |pages| ==> !oks[|FetchLog(pages, oks)| - 1]
    ensures (forall k :: 0 <= k < |oks| ==> oks[k]) <==>
              |FetchLog(pages, oks)| == |pages| && (pages == [] || oks[|oks| - 1])
  {
    if pages != [] {
      var rest := FetchLog(pages[1..], oks[1..]);
      FetchLogStopsAtFailure(pages[1..], oks[1..]);
      if oks[0] {
        assert FetchLog(pages, oks) == [pages[0]] + rest;
        forall k | 1 <= k < |pages| ensures pages[k] == pages[1..][k - 1] && oks[k] == oks[1..][k - 1] { }
        if pages[1..] != [] {
          assert oks[|oks| - 1] == oks[1..][|oks[1..]| - 1];
        }
      }
    }
  }

  /** A normalised per-game table: well formed, `Player` present, only desired columns, and its
      rows are the per-game table's data rows in source order. */
  lemma BasicStatsShape(site: Site, year: int)
    ensures BasicStats(site, year).None? <==> year !in site.perGame || Clean(site.perGame[year]).None?
    ensures BasicStats(site, year).Some? ==>
              var u := BasicStats(site, year).value;
              && WellFormed(u) && "Player" in u.columns
              && (forall c :: c in u.columns ==> c in BasicColumns)
              && |u.rows| == |Filter(site.perGame[year].rows, IsPlayerRow)|
              && forall i :: 0 <= i < |u.rows| ==>
                   (IsPlayerRow(u.rows[i]) && Get(u.rows[i], "Player") == Get(Filter(site.perGame[year].rows, IsPlayerRow)[i], "Player"))
  {
    ConstantsWellChosen();
    if year in site.perGame {
      NormalizedShape(site.perGame[year], BasicMapping, BasicColumns);
    }
  }

  /** The same for the advanced table, with its own map and desired list. */
  lemma AdvancedStatsShape(site: Site, year: int)
    ensures AdvancedStats(site, year).None? <==> year !in site.advanced || Clean(site.advanced[year]).None?
    ensures AdvancedStats(site, year).Some? ==>
              var u := AdvancedStats(site, year).value;
              && WellFormed(u) && "Player" in u.columns
              && (forall c :: c in u.columns ==> c in AdvancedColumns)
              && |u.rows| == |Filter(site.advanced[year].rows, IsPlayerRow)|
              && forall i :: 0 <= i < |u.rows| ==>
                   (IsPlayerRow(u.rows[i]) && Get(u.rows[i], "Player") == Get(Filter(site.advanced[year].rows, IsPlayerRow)[i], "Player"))
  {
    ConstantsWellChosen();
    if year in site.advanced {
      NormalizedShape(site.advanced[year], AdvancedMapping, AdvancedColumns);
    }
  }

  /** The two normalised tables of a season can be left-joined, are well formed, hold only data rows,
      and lack the `MVP` label; only the per-game one may have `Season`. */
  lemma StatsJoinable(site: Site, year: int)
    requires BasicStats(site, year).Some? && AdvancedStats(site, year).Some?
    ensures var b, a := BasicStats(site, year).value, AdvancedStats(site, year).value;
      && Joinable(b, a) && WellFormed(b) && WellFormed(a)
      && "MVP" !in b.columns && "MVP" !in a.columns && "Season" !in a.columns
      && (forall i :: 0 <= i < |b.rows| ==> IsPlayerRow(b.rows[i]))
      && (forall j :: 0 <= j < |a.rows| ==> IsPlayerRow(a.rows[j]))
  {
    BasicStatsShape(site, year);
    AdvancedStatsShape(site, year);
    DesiredListsShareOnlyPlayer();
    AddedLabelsAreFresh();
  }
}
