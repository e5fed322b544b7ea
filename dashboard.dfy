/** The dashboard (`Dashboard`): the per-category totals read with
    `SELECT kategori, COUNT(*) FROM surat GROUP BY kategori`, the three
    summary cards and the chart area, which holds a pie chart of the totals
    or a "no data" label. */
module DashboardScreen {
  import opened Store
  import opened Sequences

  /** One result tuple `(kategori, COUNT(*))` of the grouped query. */
  datatype GroupCount = GroupCount(kategori: string, count: int)

  /** The keys of the statistics dictionary. */
  const StatKeys: set<string> := {Masuk, Keluar, Dokumen}

  /** `{'masuk': 0, 'keluar': 0, 'dokumen': 0}`. */
  function ZeroStats(): (m: map<string, int>)
    ensures m.Keys == StatKeys
    ensures forall k :: k in m ==> m[k] == 0
  {
    map[Masuk := 0, Keluar := 0, Dokumen := 0]
  }

  /** The dictionary after the loop over `results`: a pair with a known
      category sets that key, any other pair is skipped. */
  function StatsOf(results: seq<GroupCount>): (m: map<string, int>)
    ensures m.Keys == StatKeys
  {
    if results == [] then ZeroStats()
    else
      var m := StatsOf(results[..|results| - 1]);
      var g := results[|results| - 1];
      if g.kategori in m then m[g.kategori := g.count] else m
  }

  /** The pairs whose category is one of the three keys. */
  function Known(results: seq<GroupCount>): (r: seq<GroupCount>)
    ensures forall g :: g in r <==> g in results && g.kategori in StatKeys
  {
    if results == [] then []
    else
      var front := results[..|results| - 1];
      var g := results[|results| - 1];
      assert results == front + [g];
      Known(front) + (if g.kategori in StatKeys then [g] else [])
  }

  /** The known pairs keep the order of the query's result. */
  lemma {:induction false} KnownInOrder(results: seq<GroupCount>)
    ensures IsSubsequence(Known(results), results)
  {
    if results != [] {
      var front := results[..|results| - 1];
      var g := results[|results| - 1];
      KnownInOrder(front);
      SubsequenceSnoc(Known(front), front, g);
      assert front + [g] == results;
      if g.kategori !in StatKeys {
        assert Known(results) == Known(front) + [];
        assert Known(front) + [] == Known(front);
      }
    }
  }

  /** Pairs of an unknown category have no effect on the statistics. */
  lemma {:induction false} UnknownIgnored(results: seq<GroupCount>)
    ensures StatsOf(results) == StatsOf(Known(results))
  {
    if results != [] {
      var front := results[..|results| - 1];
      var g := results[|results| - 1];
      UnknownIgnored(front);
      if g.kategori in StatKeys {
        var k := Known(front) + [g];
        assert Known(results) == k;
        assert k[..|k| - 1] == Known(front) && k[|k| - 1] == g;
      } else {
        assert Known(results) == Known(front) + [];
        assert Known(front) + [] == Known(front);
      }
    }
  }

  /** A key that no pair names keeps its 0. */
  lemma {:induction false} AbsentIsZero(results: seq<GroupCount>, k: string)
    requires k in StatKeys
    requires forall i :: 0 <= i < |results| ==> results[i].kategori != k
    ensures StatsOf(results)[k] == 0
  {
    if results != [] {
      AbsentIsZero(results[..|results| - 1], k);
    }
  }

  /** A key named by a pair that no later pair names holds that pair's count. */
  lemma {:induction false} LastPairWins(results: seq<GroupCount>, i: int)
    requires 0 <= i < |results| && results[i].kategori in StatKeys
    requires forall j :: i < j < |results| ==> results[j].kategori != results[i].kategori
    ensures StatsOf(results)[results[i].kategori] == results[i].count
  {
    if i < |results| - 1 {
      var front := results[..|results| - 1];
      assert front[i] == results[i];
      LastPairWins(front, i);
    }
  }

  /** `results` is what the grouped query returns for table `t`: one pair
      per category present, with that category's row count, which is
      positive. */
  ghost predicate IsGroupedCount(results: seq<GroupCount>, t: Table)
  {
    && (forall i :: 0 <= i < |results| ==>
          results[i].count == CountCategory(t, results[i].kategori) && results[i].count > 0)
    && (forall i, j :: 0 <= i < j < |results| ==> results[i].kategori != results[j].kategori)
    && (forall k :: CountCategory(t, k) > 0 ==>
          exists i :: 0 <= i < |results| && results[i].kategori == k)
  }

  /** Read from the grouped query, each statistic is the number of rows of
      its category, and a category without rows stays 0. */
  lemma StatsMatchTable(results: seq<GroupCount>, t: Table)
    requires IsGroupedCount(results, t)
    ensures forall k :: k in StatKeys ==> StatsOf(results)[k] == CountCategory(t, k)
  {
    forall k | k in StatKeys
      ensures StatsOf(results)[k] == CountCategory(t, k)
    {
      if CountCategory(t, k) > 0 {
        var i :| 0 <= i < |results| && results[i].kategori == k;
        LastPairWins(results, i);
      } else {
        AbsentIsZero(results, k);
      }
    }
  }

  /** One summary card: its title and the number it shows. */
  datatype Card = Card(title: string, value: int)

  /** The cards `load_cards` builds from the statistics, in order. */
  function CardsFor(stats: map<string, int>): (r: seq<Card>)
    requires StatKeys <= stats.Keys
    ensures |r| == 3
    ensures r[0] == Card("Surat Masuk", stats[Masuk])
    ensures r[1] == Card("Surat Keluar", stats[Keluar])
    ensures r[2] == Card("Dokumen Umum", stats[Dokumen])
  {
    [Card("Surat Masuk", stats[Masuk]), Card("Surat Keluar", stats[Keluar]),
     Card("Dokumen Umum", stats[Dokumen])]
  }

  /** Read from the grouped query, the cards show the row counts of the
      three categories, in the order Masuk, Keluar, Dokumen. */
  lemma CardsShowCounts(results: seq<GroupCount>, t: Table)
    requires IsGroupedCount(results, t)
    ensures CardsFor(StatsOf(results))
         == [Card("Surat Masuk", CountCategory(t, Masuk)),
             Card("Surat Keluar", CountCategory(t, Keluar)),
             Card("Dokumen Umum", CountCategory(t, Dokumen))]
  {
    StatsMatchTable(results, t);
  }

  /** The pie labels, in the order of the sizes. */
  const ChartLabels: seq<string> := ["Surat Masuk", "Surat Keluar", "Dokumen"]

  /** What the chart area holds: the "no data" label or a pie chart. */
  datatype ChartItem = NoDataLabel | PieChart(labels: seq<string>, sizes: seq<int>)

  /** `sizes`: the three statistics, masuk, keluar, dokumen. */
  function Sizes(stats: map<string, int>): (r: seq<int>)
    requires StatKeys <= stats.Keys
    ensures |r| == 3 && r[0] == stats[Masuk] && r[1] == stats[Keluar] && r[2] == stats[Dokumen]
  {
    [stats[Masuk], stats[Keluar], stats[Dokumen]]
  }

  /** The chart widget for the statistics: the label exactly when the sizes
      add up to 0. */
  function ChartFor(stats: map<string, int>): (c: ChartItem)
    requires StatKeys <= stats.Keys
    ensures c.NoDataLabel? <==> stats[Masuk] + stats[Keluar] + stats[Dokumen] == 0
    ensures c.PieChart? ==> c.labels == ChartLabels && c.sizes == Sizes(stats)
  {
    var sizes := Sizes(stats);
    if sizes[0] + sizes[1] + sizes[2] == 0 then NoDataLabel else PieChart(ChartLabels, sizes)
  }

  /** A category counts 0 exactly when no row has it. */
  lemma ZeroCountIff(t: Table, k: string)
    ensures CountCategory(t, k) == 0 <==> forall id :: id in t.rows ==> t.rows[id].kategori != k
  {
    if exists id :: id in t.rows && t.rows[id].kategori == k {
      var id :| id in t.rows && t.rows[id].kategori == k;
      assert id in CategoryIds(t, k);
    } else {
      assert CategoryIds(t, k) == {};
    }
  }

  /** Read from the grouped query, the chart shows the "no data" label
      exactly when the table has no row of the three categories. */
  lemma NoDataIffNoRows(results: seq<GroupCount>, t: Table)
    requires IsGroupedCount(results, t)
    ensures ChartFor(StatsOf(results)).NoDataLabel?
        <==> forall id :: id in t.rows ==> t.rows[id].kategori !in StatKeys
  {
    StatsMatchTable(results, t);
    ZeroCountIff(t, Masuk);
    ZeroCountIff(t, Keluar);
    ZeroCountIff(t, Dokumen);
  }

  class Dashboard {
    var cards: seq<Card>
    var chart: seq<ChartItem>

    /** Builds the dashboard: the cards, then the chart, each from its own
      connection to a table whose grouped query returns `results`. */
    constructor(cardConn: bool, chartConn: bool, results: seq<GroupCount>)
      ensures cards == CardsFor(if cardConn then StatsOf(results) else ZeroStats())
      ensures chart == [ChartFor(if chartConn then StatsOf(results) else ZeroStats())]
    {
      cards := [];
      chart := [];
      new;
      LoadCards(cardConn, results);
      UpdateChart(chartConn, results);
    }

    /** `get_stats`: all three keys, zero without a connection, otherwise
      the fold of the query's pairs. */
    method GetStats(conn: bool, results: seq<GroupCount>) returns (stats: map<string, int>)
      ensures stats.Keys == StatKeys
      ensures !conn ==> stats == ZeroStats()
      ensures conn ==> stats == StatsOf(results)
    {
      stats := ZeroStats();
      if !conn {
        return;
      }
      var i := 0;
      while i < |results|
        invariant 0 <= i <= |results|
        invariant stats == StatsOf(results[..i])
      {
        var g := results[i];
        assert results[..i + 1][..i] == results[..i];
        if g.kategori in stats {
          stats := stats[g.kategori := g.count];
        }
        i := i + 1;
      }
      assert results[..|results|] == results;
    }

    /** `load_cards`: the old cards are removed and exactly three new ones,
      Masuk, Keluar and Dokumen, show the statistics. */
    method LoadCards(conn: bool, results: seq<GroupCount>)
      modifies this
      ensures cards == CardsFor(if conn then StatsOf(results) else ZeroStats())
      ensures chart == old(chart)
    {
      cards := [];
      var data := GetStats(conn, results);
      var configs := CardsFor(data);
      var i := 0;
      while i < |configs|
        invariant 0 <= i <= |configs|
        invariant cards == configs[..i]
        invariant chart == old(chart)
      {
        cards := cards + [configs[i]];
        i := i + 1;
      }
    }

    /** `update_chart`: the chart area is emptied, then holds exactly one
      widget, the label or the pie chart. */
    method UpdateChart(conn: bool, results: seq<GroupCount>)
      modifies this
      ensures chart == [ChartFor(if conn then StatsOf(results) else ZeroStats())]
      ensures cards == old(cards)
    {
      while |chart| > 0
        invariant cards == old(cards)
        decreases |chart|
      {
        chart := chart[1..];
      }
      var data := GetStats(conn, results);
      var sizes := [data[Masuk], data[Keluar], data[Dokumen]];
      if sizes[0] + sizes[1] + sizes[2] == 0 {
        chart := chart + [NoDataLabel];
        return;
      }
      chart := chart + [PieChart(ChartLabels, sizes)];
    }
  }
}
