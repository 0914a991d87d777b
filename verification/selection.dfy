/** Which rank rows (codes 1..35) and aggregate rows (codes 50..61) the
    shareholder table shows, and what each of its cells holds. */
module Selection {
  import opened Rows
  import opened Grouping

  const FirstRank: int := 1
  const LastRank: int := 35
  const FirstAggregate: int := 50
  const LastAggregate: int := 61

  /** The entry a period's group contributes to the row of code `id`: the
      group's first row with that code, kept only when it has a name. */
  function NamedEntry(group: seq<Row>, id: int): (c: Option<Row>)
    ensures c.Some? <==> exists k :: IsFirst(group, id, k) && Named(group[k])
    ensures c.Some? ==> exists k :: IsFirst(group, id, k) && group[k] == c.value
    ensures c.Some? ==> c.value.dataId == id && Named(c.value) && c.value in group
  {
    match Find(group, id)
    case Some(r) => if Named(r) then Some(r) else None
    case None => None
  }

  /** The cell of period `term` in the row of code `id`
      (`rankData[id][term]`, `aggrData[id][term]`), reading the group through
      `grouped[term]?.`; `None` renders as "-". */
  function Cell(g: map<string, seq<Row>>, term: string, id: int): (c: Option<Row>)
    ensures c.Some? <==> term in g && exists k :: IsFirst(g[term], id, k) && Named(g[term][k])
    ensures c.Some? ==> c.value in g[term] && c.value.dataId == id && Named(c.value)
    ensures c.Some? ==> exists k :: IsFirst(g[term], id, k) && g[term][k] == c.value
  {
    if term in g then NamedEntry(g[term], id) else None
  }

  /** `rankData[id]` / `aggrData[id]`: the non-empty cells of the row of
      code `id`, keyed by period. */
  function CodeData(g: map<string, seq<Row>>, terms: seq<string>, id: int): (m: map<string, Row>)
    ensures forall t :: t in m <==> t in terms && Cell(g, t, id).Some?
    ensures forall t :: t in m ==> t in g && m[t] in g[t] && m[t].dataId == id && Named(m[t])
    ensures forall t :: t in m ==> exists k :: IsFirst(g[t], id, k) && g[t][k] == m[t]
    ensures |m| > 0 <==> exists t :: t in terms && Cell(g, t, id).Some?
  {
    map t | t in terms && Cell(g, t, id).Some? :: Cell(g, t, id).value
  }

  /** The filter of `ranksToShow` / `aggrToShow`: the row of code `id` has at
      least one non-empty cell. */
  predicate Shown(g: map<string, seq<Row>>, terms: seq<string>, id: int): (b: bool)
    ensures b <==> exists t, k :: t in terms && t in g && IsFirst(g[t], id, k) && Named(g[t][k])
  {
    |CodeData(g, terms, id)| > 0
  }

  /** The codes `lo..hi` that pass `keep`, in ascending order: the
      `Object.entries(...).filter(...).map(...)` over integer keys, which
      JavaScript enumerates in ascending numeric order. */
  method SelectCodes(lo: int, hi: int, keep: int -> bool) returns (codes: seq<int>)
    ensures forall i :: i in codes <==> lo <= i <= hi && keep(i)
    ensures forall j, k :: 0 <= j < k < |codes| ==> codes[j] < codes[k]
  {
    codes := [];
    var i := lo;
    while i <= hi
      invariant lo <= i <= if lo <= hi then hi + 1 else lo
      invariant forall c :: c in codes <==> lo <= c < i && keep(c)
      invariant forall j :: 0 <= j < |codes| ==> codes[j] < i
      invariant forall j, k :: 0 <= j < k < |codes| ==> codes[j] < codes[k]
      decreases hi - i
    {
      if keep(i) {
        codes := codes + [i];
      }
      i := i + 1;
    }
  }

  /** The codes `lo..hi` whose row is shown, in ascending order. */
  method CodesToShow(g: map<string, seq<Row>>, terms: seq<string>, lo: int, hi: int)
    returns (codes: seq<int>)
    ensures forall i :: i in codes <==> lo <= i <= hi && Shown(g, terms, i)
    ensures forall j, k :: 0 <= j < k < |codes| ==> codes[j] < codes[k]
  {
    codes := SelectCodes(lo, hi, i => Shown(g, terms, i));
  }

  /** `ranksToShow`: the ranks 1..35 with a named row in some period. */
  method RanksToShow(g: map<string, seq<Row>>, terms: seq<string>) returns (ranks: seq<int>)
    ensures forall i :: i in ranks <==> FirstRank <= i <= LastRank && Shown(g, terms, i)
    ensures forall j, k :: 0 <= j < k < |ranks| ==> ranks[j] < ranks[k]
  {
    ranks := CodesToShow(g, terms, FirstRank, LastRank);
  }

  /** `aggrToShow`: the aggregate codes 50..61 with a named row in some period. */
  method AggregatesToShow(g: map<string, seq<Row>>, terms: seq<string>) returns (codes: seq<int>)
    ensures forall i :: i in codes <==> FirstAggregate <= i <= LastAggregate && Shown(g, terms, i)
    ensures forall j, k :: 0 <= j < k < |codes| ==> codes[j] < codes[k]
  {
    codes := CodesToShow(g, terms, FirstAggregate, LastAggregate);
  }

  /** On the input rows: the entry of period `t` in the row of code `id`
      is `r` exactly when `r` is the input row with that period and code and
      is named; a period without such a row shows "-". */
  lemma CellOfRows(rows: seq<Row>, t: string, id: int, r: Row)
    requires UniqueKeys(rows)
    ensures NamedEntry(Filter(rows, t), id) == Some(r) <==>
              r in rows && r.term == t && r.dataId == id && Named(r)
  {
    FindInGroup(rows, t, id);
    var e := NamedEntry(Filter(rows, t), id);
    if e.Some? {
      assert multiset(Filter(rows, t))[e.value] > 0;
    }
  }

  /** On the input rows: some period has a non-empty cell in the row of
      code `id` exactly when some input row has that code and a name. */
  lemma ShownOfRows(rows: seq<Row>, g: map<string, seq<Row>>, terms: seq<string>, id: int)
    requires UniqueKeys(rows)
    requires g.Keys == TermsOf(rows) && forall t :: t in g ==> g[t] == Filter(rows, t)
    requires forall t :: t in terms <==> t in TermsOf(rows)
    ensures (exists t :: t in terms && Cell(g, t, id).Some?) <==>
              exists r :: r in rows && r.dataId == id && Named(r)
  {
    if t :| t in terms && Cell(g, t, id).Some? {
      CellOfRows(rows, t, id, Cell(g, t, id).value);
    }
    if r :| r in rows && r.dataId == id && Named(r) {
      CellOfRows(rows, r.term, id, r);
      assert r.term in TermsOf(rows);
      assert Cell(g, r.term, id).Some?;
    }
  }

  /** `ShownOfRows` for every code at once, on the grouping and the period
      list the page builds. */
  lemma ShownOfAllCodes(rows: seq<Row>, g: map<string, seq<Row>>, terms: seq<string>)
    requires UniqueKeys(rows)
    requires g.Keys == TermsOf(rows) && forall t :: t in g ==> g[t] == Filter(rows, t)
    requires forall t :: t in terms <==> t in TermsOf(rows)
    ensures forall i :: Shown(g, terms, i) <==> exists r :: r in rows && r.dataId == i && Named(r)
  {
    forall i
      ensures Shown(g, terms, i) <==> exists r :: r in rows && r.dataId == i && Named(r)
    {
      ShownOfRows(rows, g, terms, i);
    }
  }
}
