/** Everything the page derives from the fetched records before rendering:
    the body of `Home` with the fetched list passed in as a parameter. */
module Home {
  import opened Rows
  import opened Ratios
  import opened Grouping
  import opened Summaries
  import opened Selection

  /** The derived state of the page. */
  datatype View = View(
    grouped: map<string, seq<Row>>,
    terms: seq<string>,
    summaryByTerm: map<string, Summary>,
    bins: seq<int>,
    ranksToShow: seq<int>,
    aggrToShow: seq<int>)

  /** `summaryByTerm`: the summary of every listed period that has one. */
  function SummaryByTerm(g: map<string, seq<Row>>, terms: seq<string>): (m: map<string, Summary>)
    ensures forall t :: t in m ==> t in terms && t in g && m[t].issued != 0 && m[t].major != 0
    ensures forall t :: t in m ==> m[t].fixedPpm + m[t].floatPpm == Million
    ensures forall t :: t in terms && t in g && Counts(g[t]).Some? ==> t in m
    ensures forall t :: t in m ==> Counts(g[t]) == Some((m[t].issued, m[t].major))
    ensures forall t :: t in m ==> m[t] == Summarize(m[t].issued, m[t].major)
  {
    map t | t in terms && t in g && SummaryOf(g[t]).Some? :: SummaryOf(g[t]).value
  }

  /** The page's derivation from the fetched rows. */
  method Build(rows: seq<Row>) returns (v: View)
    ensures v.grouped.Keys == TermsOf(rows)
    ensures forall t :: t in v.grouped ==> v.grouped[t] == Filter(rows, t)
    ensures StrictlySorted(v.terms) && forall t :: t in v.terms <==> t in TermsOf(rows)
    ensures forall t :: t in v.summaryByTerm <==> t in v.terms && SummaryOf(v.grouped[t]).Some?
    ensures forall t :: t in v.summaryByTerm ==> Some(v.summaryByTerm[t]) == SummaryOf(v.grouped[t])
    ensures |v.bins| == BinCount && forall i :: 0 <= i < BinCount ==> v.bins[i] == (i + 1) * Step
    ensures forall i :: i in v.ranksToShow <==> FirstRank <= i <= LastRank && Shown(v.grouped, v.terms, i)
    ensures forall i :: i in v.aggrToShow <==> FirstAggregate <= i <= LastAggregate && Shown(v.grouped, v.terms, i)
    ensures forall j, k :: 0 <= j < k < |v.ranksToShow| ==> v.ranksToShow[j] < v.ranksToShow[k]
    ensures forall j, k :: 0 <= j < k < |v.aggrToShow| ==> v.aggrToShow[j] < v.aggrToShow[k]
    ensures UniqueKeys(rows) ==> forall i ::
              i in v.ranksToShow <==> FirstRank <= i <= LastRank && exists r :: r in rows && r.dataId == i && Named(r)
    ensures UniqueKeys(rows) ==> forall i ::
              i in v.aggrToShow <==> FirstAggregate <= i <= LastAggregate && exists r :: r in rows && r.dataId == i && Named(r)
  {
    var grouped := Group(rows);
    var terms := Terms(rows);
    var summaries := SummaryByTerm(grouped, terms);
    var bins := BuildBins();
    var ranks := RanksToShow(grouped, terms);
    var aggregates := AggregatesToShow(grouped, terms);
    v := View(grouped, terms, summaries, bins, ranks, aggregates);
    if UniqueKeys(rows) {
      ShownOfAllCodes(rows, grouped, terms);
    }
  }
}
