/**
  Lab-5: per-country totals rolled up from daily COVID-19 records, and the five
  countries with the most (or fewest) confirmed cases.
 */
module CovidStats {
  import opened Common
  import Ranking

  /** One JSON record: the country and the `total` of each of its three counters. */
  datatype Entry = Entry(country: string, confirmed: int, deaths: int, recovered: int)

  /** The four running totals kept per country. */
  datatype Stats = Stats(totalConfirmed: int, totalDeaths: int, totalRecovered: int, totalActive: int)

  const Zero := Stats(0, 0, 0, 0)

  /** Cases neither fatal nor recovered. */
  predicate Balanced(s: Stats) {
    s.totalActive == s.totalConfirmed - s.totalDeaths - s.totalRecovered
  }

  /** The four `+=` of the loop body for one record. */
  function AddEntry(s: Stats, e: Entry): Stats {
    Stats(s.totalConfirmed + e.confirmed, s.totalDeaths + e.deaths, s.totalRecovered + e.recovered,
          s.totalActive + (e.confirmed - e.deaths - e.recovered))
  }

  function Plus(a: Stats, b: Stats): Stats {
    Stats(a.totalConfirmed + b.totalConfirmed, a.totalDeaths + b.totalDeaths,
          a.totalRecovered + b.totalRecovered, a.totalActive + b.totalActive)
  }

  function CountriesOf(es: seq<Entry>): (cs: seq<string>)
    ensures |cs| == |es|
  {
    if es == [] then [] else CountriesOf(es[..|es| - 1]) + [es[|es| - 1].country]
  }

  /**
    The totals of country `c` over the records `es`: every counter summed over
    that country's records, the active count included.
   */
  function Totals(es: seq<Entry>, c: string): (s: Stats)
    ensures c !in CountriesOf(es) ==> s == Zero
  {
    if es == [] then Zero
    else
      var e := es[|es| - 1];
      var s := Totals(es[..|es| - 1], c);
      assert CountriesOf(es) == CountriesOf(es[..|es| - 1]) + [e.country];
      if e.country == c then AddEntry(s, e) else s
  }

  /** Active cases always equal confirmed cases minus deaths minus recoveries. */
  lemma {:induction false} TotalsBalanced(es: seq<Entry>, c: string)
    ensures Balanced(Totals(es, c))
  {
    if es != [] {
      TotalsBalanced(es[..|es| - 1], c);
    }
  }

  lemma SplitLast(es: seq<Entry>, more: seq<Entry>)
    requires more != []
    ensures more == more[..|more| - 1] + [more[|more| - 1]]
    ensures es + more == (es + more[..|more| - 1]) + [more[|more| - 1]]
  {
    assert more == more[..|more| - 1] + [more[|more| - 1]];
  }

  /** Later records add to a country's totals instead of replacing them. */
  lemma {:induction false} TotalsAppend(es: seq<Entry>, more: seq<Entry>, c: string)
    ensures Totals(es + more, c) == Plus(Totals(es, c), Totals(more, c))
  {
    if more == [] {
      assert es + more == es;
    } else {
      var init, last := more[..|more| - 1], more[|more| - 1];
      SplitLast(es, more);
      EntrySnoc(es + init, last);
      EntrySnoc(init, last);
      TotalsAppend(es, init, c);
      var front, back := Totals(es + init, c), Totals(init, c);
      if last.country == c {
        calc {
          Totals(es + more, c);
          AddEntry(front, last);
          AddEntry(Plus(Totals(es, c), back), last);
          Plus(Totals(es, c), AddEntry(back, last));
          Plus(Totals(es, c), Totals(more, c));
        }
      } else {
        calc {
          Totals(es + more, c);
          front;
          Plus(Totals(es, c), back);
          Plus(Totals(es, c), Totals(more, c));
        }
      }
    }
  }

  /** `summary` and its key order hold, for each country seen in `es`, its totals. */
  ghost predicate SummaryAs(es: seq<Entry>, countries: seq<string>, summary: map<string, Stats>) {
    && countries == Dedup(CountriesOf(es))
    && (forall c :: c in summary <==> c in countries)
    && (forall c :: c in summary ==> summary[c] == Totals(es, c))
  }

  lemma EntrySnoc(es: seq<Entry>, e: Entry)
    ensures CountriesOf(es + [e]) == CountriesOf(es) + [e.country]
    ensures forall c :: Totals(es + [e], c) == if e.country == c then AddEntry(Totals(es, c), e) else Totals(es, c)
  {
    assert (es + [e])[..|es|] == es;
  }

  /** A country seen for the first time starts from zero totals, then gets the record added. */
  lemma SummaryStep(es: seq<Entry>, countries: seq<string>, summary: map<string, Stats>, e: Entry,
                    countries': seq<string>, summary': map<string, Stats>)
    requires SummaryAs(es, countries, summary)
    requires countries' == if e.country in summary then countries else countries + [e.country]
    requires summary' == summary[e.country := AddEntry(if e.country in summary then summary[e.country] else Zero, e)]
    ensures SummaryAs(es + [e], countries', summary')
  {
    var c := e.country;
    EntrySnoc(es, e);
    DedupSnoc(CountriesOf(es), c);
    if c !in summary {
      DedupHas(CountriesOf(es), c);
    }
    forall x | x in summary'
      ensures summary'[x] == Totals(es + [e], x)
    {
      if x != c {
        assert summary'[x] == summary[x];
      }
    }
  }

  /**
    `calculate_statistics`: one entry per country, in order of first
    appearance, holding that country's totals over all records.
   */
  method CalculateStatistics(es: seq<Entry>) returns (countries: seq<string>, summary: map<string, Stats>)
    ensures countries == Dedup(CountriesOf(es))
    ensures forall c :: c in summary <==> c in countries
    ensures forall c :: c in summary ==> summary[c] == Totals(es, c)
    ensures summary == Summary(es)
  {
    countries, summary := [], map[];
    for i := 0 to |es|
      invariant SummaryAs(es[..i], countries, summary)
    {
      var e := es[i];
      assert es[..i + 1] == es[..i] + [e];
      ghost var before, countriesBefore := summary, countries;
      var confirmed, deaths, recovered := e.confirmed, e.deaths, e.recovered;
      var activeCases := confirmed - deaths - recovered;
      if e.country !in summary {
        countries := countries + [e.country];
        summary := summary[e.country := Zero];
      }
      var s := summary[e.country];
      assert s == if e.country in before then before[e.country] else Zero;
      summary := summary[e.country := Stats(
        s.totalConfirmed + confirmed, s.totalDeaths + deaths, s.totalRecovered + recovered, s.totalActive + activeCases)];
      assert summary == before[e.country := AddEntry(s, e)];
      SummaryStep(es[..i], countriesBefore, before, e, countries, summary);
    }
    assert es[..|es|] == es;
  }

  /** The summary `CalculateStatistics` produces for `es`. */
  ghost function Summary(es: seq<Entry>): map<string, Stats> {
    map c | c in Dedup(CountriesOf(es)) :: Totals(es, c)
  }

  /** The summary's `(country, stats)` items, in key order. */
  function Items(countries: seq<string>, summary: map<string, Stats>): (items: seq<(string, Stats)>)
    requires forall i :: 0 <= i < |countries| ==> countries[i] in summary
    ensures |items| == |countries|
    ensures forall i :: 0 <= i < |items| ==> items[i] == (countries[i], summary[countries[i]])
  {
    seq(|countries|, i requires 0 <= i < |countries| => (countries[i], summary[countries[i]]))
  }

  function ConfirmedKey(item: (string, Stats)): real {
    item.1.totalConfirmed as real
  }

  const TopCount: nat := 5

  /**
    `get_top_5_countries`: the first five items sorted by total confirmed
    cases, most first unless `lowest`; ties keep their order in the summary,
    and no item left out ranks ahead of one kept.
   */
  function TopFive(items: seq<(string, Stats)>, lowest: bool): (top: seq<(string, Stats)>)
    ensures |top| == Ranking.Min(TopCount, |items|)
    ensures forall i, j :: 0 <= i < j < |top| ==>
      if lowest then top[i].1.totalConfirmed <= top[j].1.totalConfirmed
      else top[i].1.totalConfirmed >= top[j].1.totalConfirmed
    ensures multiset(top) <= multiset(items)
    ensures forall k :: Ranking.WithKey(ConfirmedKey, k, top) <= Ranking.WithKey(ConfirmedKey, k, items)
    ensures forall i, e :: 0 <= i < |top| && e in multiset(items) - multiset(top) ==>
      if lowest then top[i].1.totalConfirmed <= e.1.totalConfirmed
      else top[i].1.totalConfirmed >= e.1.totalConfirmed
  {
    var top := Ranking.TopN(ConfirmedKey, !lowest, items, TopCount);
    assert forall i, j :: 0 <= i < j < |top| ==> Ranking.InOrder(ConfirmedKey, !lowest, top[i], top[j]);
    top
  }

  /**
    The countries `main` reports, from `summary.items()`: five of them when
    there are that many, each a country of the records with its own totals.
   */
  lemma TopFiveOfSummary(es: seq<Entry>, lowest: bool)
    ensures var countries := Dedup(CountriesOf(es));
      var top := TopFive(Items(countries, Summary(es)), lowest);
      && |top| == Ranking.Min(TopCount, |countries|)
      && forall i :: 0 <= i < |top| ==> top[i].0 in CountriesOf(es) && top[i].1 == Totals(es, top[i].0)
  {
    var countries := Dedup(CountriesOf(es));
    var items := Items(countries, Summary(es));
    forall i | 0 <= i < |items|
      ensures items[i].0 in CountriesOf(es) && items[i].1 == Totals(es, items[i].0)
    {
      DedupHas(CountriesOf(es), countries[i]);
    }
    DrawnTotals(TopFive(items, lowest), items, es);
  }

  /** Items drawn from country totals of `es` are such totals too. */
  lemma DrawnTotals(top: seq<(string, Stats)>, items: seq<(string, Stats)>, es: seq<Entry>)
    requires multiset(top) <= multiset(items)
    requires forall j :: 0 <= j < |items| ==> items[j].0 in CountriesOf(es) && items[j].1 == Totals(es, items[j].0)
    ensures forall i :: 0 <= i < |top| ==> top[i].0 in CountriesOf(es) && top[i].1 == Totals(es, top[i].0)
  {
    forall i | 0 <= i < |top|
      ensures top[i].0 in CountriesOf(es) && top[i].1 == Totals(es, top[i].0)
    {
      assert top[i] in multiset(items);
      var j :| 0 <= j < |items| && items[j] == top[i];
    }
  }
}
