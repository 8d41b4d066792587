/** The in-memory metrics table of app/routers/metrics.py: the
    module-global `metrics` list and `metric_id_counter`, as a class whose
    methods are the routes, and the guard checks of the portfolio summary.
    `value` is stored and handed on, never computed with here. */
module MetricTable {
  import opened Wrappers
  import opened Tables
  import opened ResponseHelpers
  import Timestamps

  /** A calendar date as the request carries it. */
  datatype Date = Date(year: int, month: int, day: int)

  datatype MetricCreate = MetricCreate(portfolioId: int, date: Date, value: real, metricType: string)

  datatype Metric = Metric(id: int, portfolioId: int, date: Date, value: real, metricType: string,
                           createdAt: Timestamps.DateTime)

  function MetricId(m: Metric): int
  {
    m.id
  }

  const NotFound := HttpException(HTTP_404_NOT_FOUND, "Metric not found")
  const NoMetrics := HttpException(HTTP_404_NOT_FOUND, "No metrics found for this portfolio")
  const TooFewPoints := HttpException(HTTP_400_BAD_REQUEST, "Need at least 2 data points for calculations")

  /** `[m for m in metrics if m["portfolio_id"] == portfolio_id]`. */
  function ForPortfolio(metrics: seq<Metric>, portfolioId: int): (r: seq<Metric>)
    ensures |r| <= |metrics|
    ensures forall m :: m in r <==> m in metrics && m.portfolioId == portfolioId
  {
    if metrics == [] then []
    else
      (if metrics[0].portfolioId == portfolioId then [metrics[0]] else [])
      + ForPortfolio(metrics[1..], portfolioId)
  }

  /** The filter keeps order: filtering a concatenation concatenates the
      filtered parts. */
  lemma {:induction false} ForPortfolioAppend(a: seq<Metric>, b: seq<Metric>, portfolioId: int)
    ensures ForPortfolio(a + b, portfolioId) == ForPortfolio(a, portfolioId) + ForPortfolio(b, portfolioId)
  {
    if a == [] {
      assert a + b == b;
    } else {
      assert (a + b)[1..] == a[1..] + b;
      ForPortfolioAppend(a[1..], b, portfolioId);
    }
  }

  lemma {:induction false} NoneSelected(metrics: seq<Metric>, portfolioId: int)
    requires forall j :: 0 <= j < |metrics| ==> metrics[j].portfolioId != portfolioId
    ensures ForPortfolio(metrics, portfolioId) == []
  {
    if metrics != [] {
      NoneSelected(metrics[1..], portfolioId);
    }
  }

  /** A single metric of the portfolio is all the filter keeps. */
  lemma {:induction false} OnlyOneSelected(metrics: seq<Metric>, portfolioId: int, k: nat)
    requires k < |metrics| && metrics[k].portfolioId == portfolioId
    requires forall j :: 0 <= j < |metrics| && j != k ==> metrics[j].portfolioId != portfolioId
    ensures ForPortfolio(metrics, portfolioId) == [metrics[k]]
  {
    var before, from := metrics[..k], metrics[k..];
    forall j | 0 <= j < |before| ensures before[j].portfolioId != portfolioId {
      assert before[j] == metrics[j];
    }
    NoneSelected(before, portfolioId);
    forall j | 1 <= j < |from| ensures from[j].portfolioId != portfolioId {
      assert from[j] == metrics[k + j];
    }
    LeadingOnly(from, portfolioId);
    assert metrics == before + from;
    ForPortfolioAppend(before, from, portfolioId);
  }

  lemma {:induction false} LeadingOnly(metrics: seq<Metric>, portfolioId: int)
    requires metrics != [] && metrics[0].portfolioId == portfolioId
    requires forall j :: 1 <= j < |metrics| ==> metrics[j].portfolioId != portfolioId
    ensures ForPortfolio(metrics, portfolioId) == [metrics[0]]
  {
    var rest := metrics[1..];
    forall j | 0 <= j < |rest| ensures rest[j].portfolioId != portfolioId {
      assert rest[j] == metrics[j + 1];
    }
    NoneSelected(rest, portfolioId);
  }

  /** When the filter keeps one metric, a metric of the portfolio at one
      index rules out one at any other index. */
  lemma {:induction false} NoOtherSelected(metrics: seq<Metric>, portfolioId: int, a: nat, b: nat)
    requires a < |metrics| && b < |metrics| && a != b
    requires metrics[b].portfolioId == portfolioId
    requires |ForPortfolio(metrics, portfolioId)| == 1
    ensures metrics[a].portfolioId != portfolioId
  {
    var cut := if a < b then b else a;
    var front, back := metrics[..cut], metrics[cut..];
    assert metrics == front + back;
    ForPortfolioAppend(front, back, portfolioId);
    if a < b {
      assert metrics[b] == back[0];
      assert metrics[b] in ForPortfolio(back, portfolioId);
      assert metrics[a] == front[a];
      assert metrics[a] !in ForPortfolio(front, portfolioId);
    } else {
      assert metrics[b] == front[b];
      assert metrics[b] in ForPortfolio(front, portfolioId);
      assert metrics[a] == back[0];
      assert metrics[a] !in ForPortfolio(back, portfolioId);
    }
  }

  /** The filter holds one metric exactly when one metric of the list has
      the portfolio id. */
  lemma {:induction false} ForPortfolioSingle(metrics: seq<Metric>, portfolioId: int)
    ensures |ForPortfolio(metrics, portfolioId)| == 1 <==>
              exists k :: && 0 <= k < |metrics| && metrics[k].portfolioId == portfolioId
                          && forall j :: 0 <= j < |metrics| && j != k ==> metrics[j].portfolioId != portfolioId
  {
    var selected := ForPortfolio(metrics, portfolioId);
    if |selected| == 1 {
      assert selected[0] in metrics;
      var k :| 0 <= k < |metrics| && metrics[k] == selected[0];
      forall j | 0 <= j < |metrics| && j != k
        ensures metrics[j].portfolioId != portfolioId
      {
        NoOtherSelected(metrics, portfolioId, j, k);
      }
    }
    forall k | && 0 <= k < |metrics| && metrics[k].portfolioId == portfolioId
               && forall j :: 0 <= j < |metrics| && j != k ==> metrics[j].portfolioId != portfolioId
      ensures |selected| == 1
    {
      OnlyOneSelected(metrics, portfolioId, k);
    }
  }

  /** get_metrics: for a truthy portfolio id (neither None nor 0) the
      metrics of that portfolio in order, otherwise all of them. */
  function SelectMetrics(metrics: seq<Metric>, portfolioId: Option<int>): (r: seq<Metric>)
    ensures portfolioId.None? || portfolioId.value == 0 ==> r == metrics
    ensures portfolioId.Some? && portfolioId.value != 0 ==>
              forall m :: m in r <==> m in metrics && m.portfolioId == portfolioId.value
  {
    if portfolioId.Some? && portfolioId.value != 0 then ForPortfolio(metrics, portfolioId.value)
    else metrics
  }

  /** get_metric on a given list: the first metric with the id, or 404. */
  function Lookup(metrics: seq<Metric>, id: int): (r: Result<Metric, HttpException>)
    ensures r.Ok? ==> r.value in metrics && r.value.id == id
    ensures r.Err? <==> forall k :: 0 <= k < |metrics| ==> metrics[k].id != id
    ensures r.Err? ==> r.error == NotFound
  {
    match FirstIndex(metrics, MetricId, id)
    case None => Err(NotFound)
    case Some(k) => Ok(metrics[k])
  }

  function Values(metrics: seq<Metric>): (r: seq<real>)
    ensures |r| == |metrics| && forall k :: 0 <= k < |r| ==> r[k] == metrics[k].value
  {
    seq(|metrics|, k requires 0 <= k < |metrics| => metrics[k].value)
  }

  /** The checks get_portfolio_summary makes before any arithmetic: 404 for
      a portfolio without metrics, 400 for one with a single metric, and
      otherwise the values the statistics are computed from. The filter here
      compares ids without the truthiness test of get_metrics. */
  function SummaryGuard(metrics: seq<Metric>, portfolioId: int): (r: Result<seq<real>, HttpException>)
    ensures r == Err(NoMetrics) <==> forall k :: 0 <= k < |metrics| ==> metrics[k].portfolioId != portfolioId
    ensures r == Err(TooFewPoints) <==> |ForPortfolio(metrics, portfolioId)| == 1
    ensures r.Ok? ==> r.value == Values(ForPortfolio(metrics, portfolioId)) && |r.value| >= 2
  {
    var selected := ForPortfolio(metrics, portfolioId);
    if selected == [] then
      assert forall k :: 0 <= k < |metrics| ==> metrics[k] !in selected;
      Err(NoMetrics)
    else
      assert selected[0] in metrics;
      assert exists k :: 0 <= k < |metrics| && metrics[k] == selected[0];
      if |selected| < 2 then Err(TooFewPoints) else Ok(Values(selected))
  }

  /** The 400 answer is given exactly when one metric of the list belongs to
      the portfolio. */
  lemma {:induction false} TooFewMeansOne(metrics: seq<Metric>, portfolioId: int)
    ensures SummaryGuard(metrics, portfolioId) == Err(TooFewPoints) <==>
              exists k :: && 0 <= k < |metrics| && metrics[k].portfolioId == portfolioId
                          && forall j :: 0 <= j < |metrics| && j != k ==> metrics[j].portfolioId != portfolioId
  {
    ForPortfolioSingle(metrics, portfolioId);
  }

  class MetricStore {
    var metrics: seq<Metric>
    var idCounter: int
    /** Every id the table has ever handed out. */
    ghost var issued: set<int>

    ghost predicate Valid()
      reads this
    {
      && Increasing(metrics, MetricId)
      && (forall k :: 0 <= k < |metrics| ==> metrics[k].id in issued)
      && (forall n :: n in issued ==> n < idCounter)
    }

    constructor()
      ensures Valid() && metrics == [] && idCounter == 1 && issued == {}
    {
      metrics := [];
      idCounter := 1;
      issued := {};
    }

    /** get_metrics. */
    method GetMetrics(portfolioId: Option<int>) returns (r: seq<Metric>)
      ensures r == SelectMetrics(metrics, portfolioId)
    {
      if portfolioId.Some? && portfolioId.value != 0 {
        return ForPortfolio(metrics, portfolioId.value);
      }
      return metrics;
    }

    /** get_metric: the first metric with the id, or 404. */
    method GetMetric(id: int) returns (r: Result<Metric, HttpException>)
      ensures r == Lookup(metrics, id)
    {
      var k := Scan(metrics, MetricId, id);
      if k.None? {
        return Err(NotFound);
      }
      r := Ok(metrics[k.value]);
    }

    /** create_metric: the counter is the new id, the metric goes at the end
        and the counter moves on by one. */
    method CreateMetric(input: MetricCreate, createdAt: Timestamps.DateTime) returns (r: Metric)
      requires Valid()
      modifies this
      ensures Valid()
      ensures r == Metric(old(idCounter), input.portfolioId, input.date, input.value, input.metricType, createdAt)
      ensures metrics == old(metrics) + [r]
      ensures idCounter == old(idCounter) + 1
      ensures r.id !in old(issued) && issued == old(issued) + {r.id}
      ensures Lookup(metrics, r.id) == Ok(r)
    {
      r := Metric(idCounter, input.portfolioId, input.date, input.value, input.metricType, createdAt);
      Append(metrics, MetricId, r);
      metrics := metrics + [r];
      issued := issued + {idCounter};
      idCounter := idCounter + 1;
    }

    /** get_portfolio_summary, up to its arithmetic. */
    method PortfolioSummaryGuard(portfolioId: int) returns (r: Result<seq<real>, HttpException>)
      ensures r == SummaryGuard(metrics, portfolioId)
    {
      var selected := ForPortfolio(metrics, portfolioId);
      if selected == [] {
        return Err(NoMetrics);
      }
      var values := Values(selected);
      if |values| < 2 {
        return Err(TooFewPoints);
      }
      r := Ok(values);
    }

    /** delete_metric: 404 and no change when the id is absent; otherwise
        exactly the first matching metric is popped and the rest keep their
        order. */
    method DeleteMetric(id: int) returns (r: Result<(), HttpException>)
      requires Valid()
      modifies this
      ensures Valid()
      ensures idCounter == old(idCounter) && issued == old(issued)
      ensures r.Err? <==> old(Lookup(metrics, id)).Err?
      ensures r.Err? ==> r.error == NotFound && metrics == old(metrics)
      ensures r.Ok? ==> metrics == RemoveAt(old(metrics), FirstIndex(old(metrics), MetricId, id).value)
      ensures Lookup(metrics, id) == Err(NotFound)
    {
      var k := Scan(metrics, MetricId, id);
      if k.None? {
        return Err(NotFound);
      }
      RemoveIncreasing(metrics, MetricId, k.value);
      RemoveNotFound(metrics, MetricId, k.value);
      metrics := RemoveAt(metrics, k.value);
      r := Ok(());
    }
  }
}
