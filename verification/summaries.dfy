/** The per-period summary (`summaryByTerm`) and the free-float
    classification bins (`bins`) with the marking of a period in a bin. */
module Summaries {
  import opened Rows
  import opened Ratios
  import opened Grouping

  /** Number of free-float classification bins. */
  const BinCount: int := 20

  /** One period's summary: fixed-share ratio, floating-share ratio before
      rounding up, free-float weight (all in ppm), and the two share counts
      they were computed from. */
  datatype Summary = Summary(fixedPpm: int, floatPpm: int, ffwPpm: int,
                             issued: int, major: int)

  /** The ratios of a period whose issued and major share counts are known. */
  function Summarize(issued: int, major: int): (s: Summary)
    requires issued != 0
    ensures s.issued == issued && s.major == major
    ensures issued > 0 ==> RoundsTo(major * Million, issued, s.fixedPpm)
    ensures issued < 0 ==> RoundsTo(-major * Million, -issued, s.fixedPpm)
    ensures s.fixedPpm + s.floatPpm == Million
    ensures s.floatPpm <= s.ffwPpm < s.floatPpm + Step && s.ffwPpm % Step == 0
  {
    var fixed := FixedPpm(major, issued);
    var float := FloatPpm(fixed);
    Summary(fixed, float, FfwPpm(float), issued, major)
  }

  /** The gate of one period's group: the share counts of its first code-52
      row (issued) and first code-54 row (major), present only when both are
      truthy. */
  function Counts(group: seq<Row>): (c: Option<(int, int)>)
    ensures c.Some? ==> c.value.0 != 0 && c.value.1 != 0
    ensures c.Some? <==>
              exists i, j :: IsFirst(group, IssuedId, i) && IsFirst(group, MajorId, j) &&
                Truthy(group[i].shares) && Truthy(group[j].shares)
    ensures forall i, j :: c.Some? && IsFirst(group, IssuedId, i) && IsFirst(group, MajorId, j) ==>
              Some(c.value.0) == group[i].shares && Some(c.value.1) == group[j].shares
  {
    var issued := SharesOf(group, IssuedId);
    var major := SharesOf(group, MajorId);
    if Truthy(issued) && Truthy(major) then Some((issued.value, major.value)) else None
  }

  /** The summary of one period's group, computed only past the gate, so a
      zero issued count never reaches the division. */
  function SummaryOf(group: seq<Row>): (s: Option<Summary>)
    ensures s.Some? <==> Counts(group).Some?
    ensures s.Some? ==> s.value.issued == Counts(group).value.0 && s.value.major == Counts(group).value.1
    ensures s.Some? ==> s.value.fixedPpm + s.value.floatPpm == Million
    ensures s.Some? ==> s.value.issued != 0 && s.value == Summarize(s.value.issued, s.value.major)
  {
    match Counts(group)
    case Some((issued, major)) => Some(Summarize(issued, major))
    case None => None
  }

  /** The summary gate stated on the input rows: a period passes the gate
      exactly when it has a code-52 row and a code-54 row, both with a
      non-null non-zero share count. */
  lemma SummaryGate(rows: seq<Row>, t: string)
    requires UniqueKeys(rows)
    ensures Counts(Filter(rows, t)).Some? <==>
              exists a, b :: a in rows && b in rows && a.term == t && b.term == t &&
                a.dataId == IssuedId && b.dataId == MajorId &&
                Truthy(a.shares) && Truthy(b.shares)
  {
    var g := Filter(rows, t);
    FindInGroup(rows, t, IssuedId);
    FindInGroup(rows, t, MajorId);
    if Counts(g).Some? {
      var a := Find(g, IssuedId).value;
      var b := Find(g, MajorId).value;
      assert multiset(g)[a] > 0 && multiset(g)[b] > 0;
      assert a in rows && b in rows;
    }
  }

  /** Past the gate, the counts used are those of the period's code-52 and
      code-54 rows. */
  lemma SummaryCounts(rows: seq<Row>, t: string, a: Row, b: Row)
    requires UniqueKeys(rows)
    requires a in rows && a.term == t && a.dataId == IssuedId && Truthy(a.shares)
    requires b in rows && b.term == t && b.dataId == MajorId && Truthy(b.shares)
    ensures Counts(Filter(rows, t)) == Some((a.shares.value, b.shares.value))
  {
    FindInGroup(rows, t, IssuedId);
    FindInGroup(rows, t, MajorId);
  }

  /** With positive counts and no more major than issued shares, every ratio
      lies in [0, 1] and the weight is one of 0, 0.05, ..., 1.00; with more
      major than issued shares the floating ratio and the weight are not
      positive. */
  lemma SummaryRange(issued: int, major: int)
    requires 0 < issued && 0 < major
    ensures major <= issued ==> 0 <= Summarize(issued, major).fixedPpm <= Million
    ensures major <= issued ==> 0 <= Summarize(issued, major).ffwPpm <= BinCount * Step
    ensures major > issued ==> Summarize(issued, major).floatPpm <= 0
    ensures major > issued ==> Summarize(issued, major).ffwPpm <= 0
  {
    var s := Summarize(issued, major);
    var r := s.fixedPpm;
    if r < 0 {
      MulLeft(issued, 2 * r + 1, -1);
    }
    if major <= issued {
      MulLeft(Million, major, issued);
      if r > Million {
        MulLeft(issued, 2 * Million + 1, 2 * r - 1);
      }
    } else {
      MulLeft(Million, issued + 1, major);
      if r < Million {
        MulLeft(issued, 2 * r + 1, 2 * Million - 1);
      }
    }
  }

  /** Worked examples of the summary arithmetic. */
  lemma SummaryExamples()
    ensures Summarize(1000000, 600000) == Summary(600000, 400000, 400000, 1000000, 600000)
    ensures Summarize(1000000, 551000) == Summary(551000, 449000, 450000, 1000000, 551000)
    ensures Round6(1, 3) == 333333
  {
  }

  /** The bin list `[0.05, 0.10, ..., 1.00]` in ppm, built the way the page
      builds it: start at 0.05 and add 0.05 while not above 1.00. */
  method BuildBins() returns (bins: seq<int>)
    ensures |bins| == BinCount
    ensures forall i :: 0 <= i < |bins| ==> bins[i] == (i + 1) * Step
  {
    bins := [];
    var f := Step;
    while f <= Million
      invariant f == (|bins| + 1) * Step
      invariant |bins| <= BinCount
      invariant forall i :: 0 <= i < |bins| ==> bins[i] == (i + 1) * Step
      decreases Million - f
    {
      bins := bins + [f];
      f := f + Step;
    }
  }

  /** The bin test `ffw === bin`: a period's cell in the row of `bin` is
      marked when the period has a summary whose free-float weight equals
      the bin. */
  predicate Marks(s: Option<Summary>, bin: int) {
    s.Some? && s.value.ffwPpm == bin
  }

  /** A period marks bin `i + 1` (the bin `(i + 1) * 0.05`) exactly when
      its free-float weight is that many 0.05 steps. */
  lemma MarksBin(issued: int, major: int, i: int)
    requires issued != 0 && 0 <= i < BinCount
    ensures Marks(Some(Summarize(issued, major)), (i + 1) * Step) <==>
              FfwSteps(Summarize(issued, major).floatPpm) == i + 1
  {
  }

  /** A summarised period marks some bin exactly when its weight is between
      0.05 and 1.00, and then it marks only that one; a weight of 0 (major
      equal to issued) or below marks none. */
  lemma MarksOneBin(s: Summary, bins: seq<int>)
    requires |bins| == BinCount
    requires forall i :: 0 <= i < |bins| ==> bins[i] == (i + 1) * Step
    requires s.ffwPpm % Step == 0
    ensures (exists i :: 0 <= i < |bins| && Marks(Some(s), bins[i])) <==> 0 < s.ffwPpm <= Million
    ensures forall i, j ::
              0 <= i < |bins| && 0 <= j < |bins| &&
              Marks(Some(s), bins[i]) && Marks(Some(s), bins[j])
              ==> i == j
  {
    if 0 < s.ffwPpm <= Million {
      var i := s.ffwPpm / Step - 1;
      assert Marks(Some(s), bins[i]);
    }
  }
}
