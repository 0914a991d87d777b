/** Grouping of the records by reporting period (`grouped`) and the sorted
    list of distinct periods (`terms`). */
module Grouping {
  import opened Rows

  /** The periods that occur in `rows`. */
  function TermsOf(rows: seq<Row>): set<string> {
    set r | r in rows :: r.term
  }

  /** The rows of period `t`, in input order: the reference definition of
      one group. Every copy of a row of period `t` is kept, every row of
      another period is dropped. */
  function Filter(rows: seq<Row>, t: string): (g: seq<Row>)
    ensures forall x {:trigger multiset(g)[x]} ::
              multiset(g)[x] == if x.term == t then multiset(rows)[x] else 0
  {
    if |rows| == 0 then []
    else
      assert rows == [rows[0]] + rows[1..];
      (if rows[0].term == t then [rows[0]] else []) + Filter(rows[1..], t)
  }

  lemma {:induction false} FilterAppend(a: seq<Row>, b: seq<Row>, t: string)
    ensures Filter(a + b, t) == Filter(a, t) + Filter(b, t)
  {
    if |a| > 0 {
      assert (a + b)[1..] == a[1..] + b;
      FilterAppend(a[1..], b, t);
    } else {
      assert a + b == b;
    }
  }

  lemma {:induction false} FilterAbsent(rows: seq<Row>, t: string)
    requires t !in TermsOf(rows)
    ensures Filter(rows, t) == []
  {
    if |rows| > 0 {
      assert rows[0] in rows;
      assert TermsOf(rows[1..]) <= TermsOf(rows) by {
        forall u | u in TermsOf(rows[1..]) ensures u in TermsOf(rows) {
          var r :| r in rows[1..] && r.term == u;
          assert r in rows;
        }
      }
      FilterAbsent(rows[1..], t);
    }
  }

  /** Pushing one more row onto its period's list keeps every list equal
      to the filter of the longer input. */
  lemma PushRow(front: seq<Row>, r: Row, g: map<string, seq<Row>>)
    requires g.Keys == TermsOf(front)
    requires forall t :: t in g ==> g[t] == Filter(front, t)
    ensures var g' := g[r.term := (if r.term in g then g[r.term] else []) + [r]];
            && g'.Keys == TermsOf(front + [r])
            && forall t :: t in g' ==> g'[t] == Filter(front + [r], t)
  {
    var g' := g[r.term := (if r.term in g then g[r.term] else []) + [r]];
    assert TermsOf(front + [r]) == TermsOf(front) + {r.term} by {
      assert forall x :: x in front + [r] <==> x in front || x == r;
    }
    forall t | t in g'
      ensures g'[t] == Filter(front + [r], t)
    {
      FilterAppend(front, [r], t);
      assert Filter([r], t) == if r.term == t then [r] else [];
      if t !in g {
        FilterAbsent(front, t);
      }
    }
  }

  /** `grouped`: each row is pushed, in input order, onto the list of its
      own period, which is created on first sight. */
  function Group(rows: seq<Row>): (g: map<string, seq<Row>>)
    ensures g.Keys == TermsOf(rows)
    ensures forall t :: t in g ==> g[t] == Filter(rows, t)
  {
    if |rows| == 0 then map[]
    else
      var front := rows[..|rows| - 1];
      var r := rows[|rows| - 1];
      assert rows == front + [r];
      var g := Group(front);
      PushRow(front, r, g);
      g[r.term := (if r.term in g then g[r.term] else []) + [r]]
  }

  /** Grouping is a partition: every row sits, with all its copies, in the
      group of its own period, and a group holds only rows of its period. */
  lemma GroupPartition(rows: seq<Row>)
    ensures forall i :: 0 <= i < |rows| ==>
              && rows[i].term in Group(rows)
              && multiset(Group(rows)[rows[i].term])[rows[i]] == multiset(rows)[rows[i]]
    ensures forall t, x :: t in Group(rows) && x in Group(rows)[t] ==> x.term == t
  {
    var g := Group(rows);
    forall t: string, x: Row | t in g && x in g[t]
      ensures x.term == t
    {
      assert multiset(Filter(rows, t))[x] > 0;
    }
  }

  /** Lexicographic order on strings by character code, a proper prefix
      coming first: the order of JavaScript's default `Array.prototype.sort`. */
  predicate Less(a: string, b: string)
    decreases |a|
  {
    if |a| == 0 then |b| > 0
    else if |b| == 0 then false
    else if a[0] != b[0] then a[0] < b[0]
    else Less(a[1..], b[1..])
  }

  lemma {:induction false} LessIrreflexive(a: string)
    ensures !Less(a, a)
    decreases |a|
  {
    if |a| > 0 {
      LessIrreflexive(a[1..]);
    }
  }

  lemma {:induction false} LessTransitive(a: string, b: string, c: string)
    requires Less(a, b) && Less(b, c)
    ensures Less(a, c)
    decreases |a|
  {
    if |a| > 0 && a[0] == b[0] && b[0] == c[0] {
      LessTransitive(a[1..], b[1..], c[1..]);
    }
  }

  lemma {:induction false} LessTotal(a: string, b: string)
    ensures a == b || Less(a, b) || Less(b, a)
    decreases |a|
  {
    if |a| > 0 && |b| > 0 && a[0] == b[0] {
      LessTotal(a[1..], b[1..]);
      if a[1..] == b[1..] {
        assert a == [a[0]] + a[1..] && b == [b[0]] + b[1..];
      }
    }
  }

  /** The textbook definition of the same order: after a common prefix of
      length `k`, either `a` ends while `b` goes on, or `a`'s next character
      is the smaller one. */
  ghost predicate LexBefore(a: string, b: string) {
    exists k :: 0 <= k <= |a| && k <= |b| && a[..k] == b[..k] &&
      ((k == |a| && k < |b|) || (k < |a| && k < |b| && a[k] < b[k]))
  }

  /** Two strings with a non-empty common prefix start alike. */
  lemma CommonPrefixHead(a: string, b: string, k: int)
    requires 0 <= k <= |a| && k <= |b| && a[..k] == b[..k]
    ensures k == 0 || a[0] == b[0]
  {
    if k > 0 {
      assert a[..k][0] == b[..k][0];
    }
  }

  /** `Less` is exactly the lexicographic order. */
  lemma {:induction false} LessIsLexicographic(a: string, b: string)
    ensures Less(a, b) <==> LexBefore(a, b)
    decreases |a|
  {
    if |a| == 0 {
      if |b| > 0 {
        assert a[..0] == b[..0];
      }
    } else if |b| == 0 {
    } else if a[0] != b[0] {
      if a[0] < b[0] {
        assert a[..0] == b[..0];
      }
      if LexBefore(a, b) {
        var k :| 0 <= k <= |a| && k <= |b| && a[..k] == b[..k] &&
          ((k == |a| && k < |b|) || (k < |a| && k < |b| && a[k] < b[k]));
        CommonPrefixHead(a, b, k);
      }
    } else {
      LessIsLexicographic(a[1..], b[1..]);
      if LexBefore(a[1..], b[1..]) {
        var k :| 0 <= k <= |a[1..]| && k <= |b[1..]| && a[1..][..k] == b[1..][..k] &&
          ((k == |a[1..]| && k < |b[1..]|) || (k < |a[1..]| && k < |b[1..]| && a[1..][k] < b[1..][k]));
        assert a[..k + 1] == [a[0]] + a[1..][..k];
        assert b[..k + 1] == [b[0]] + b[1..][..k];
      }
      if LexBefore(a, b) {
        var k :| 0 <= k <= |a| && k <= |b| && a[..k] == b[..k] &&
          ((k == |a| && k < |b|) || (k < |a| && k < |b| && a[k] < b[k]));
        assert k > 0;
        assert a[1..][..k - 1] == a[..k][1..];
        assert b[1..][..k - 1] == b[..k][1..];
        assert a[1..][..k - 1] == b[1..][..k - 1];
      }
    }
  }

  /** Strictly increasing, hence free of duplicates. */
  ghost predicate StrictlySorted(s: seq<string>) {
    forall i, j :: 0 <= i < j < |s| ==> Less(s[i], s[j])
  }

  /** Adds `t` to a sorted, duplicate-free list at its place. */
  function Insert(s: seq<string>, t: string): (r: seq<string>)
    requires StrictlySorted(s)
    ensures StrictlySorted(r)
    ensures forall u :: u in r <==> u in s || u == t
  {
    if |s| == 0 then [t]
    else if t == s[0] then s
    else if Less(t, s[0]) then
      assert StrictlySorted([t] + s) by {
        forall j | 0 < j < |s| {
          LessTransitive(t, s[0], s[j]);
        }
      }
      [t] + s
    else
      LessTotal(t, s[0]);
      var rest := Insert(s[1..], t);
      assert StrictlySorted([s[0]] + rest) by {
        forall j | 0 <= j < |rest|
          ensures Less(s[0], rest[j])
        {
          if rest[j] != t {
            assert rest[j] in s[1..];
            var k :| 0 <= k < |s[1..]| && s[1..][k] == rest[j];
            assert s[k + 1] == rest[j];
          }
        }
      }
      [s[0]] + rest
  }

  /** `Object.keys(grouped).sort()`: the distinct periods, ascending. */
  function Terms(rows: seq<Row>): (ts: seq<string>)
    ensures StrictlySorted(ts)
    ensures forall t :: t in ts <==> t in TermsOf(rows)
  {
    if |rows| == 0 then []
    else
      var front := rows[..|rows| - 1];
      assert rows == front + [rows[|rows| - 1]];
      Insert(Terms(front), rows[|rows| - 1].term)
  }

  /** A sorted duplicate-free list is determined by its elements, so `terms`
      is the one ascending arrangement of the periods. */
  lemma {:induction false} SortedUnique(s: seq<string>, s': seq<string>)
    requires StrictlySorted(s) && StrictlySorted(s')
    requires forall u :: u in s <==> u in s'
    ensures s == s'
    decreases |s|
  {
    if |s| > 0 {
      assert s[0] in s';
    }
    if |s'| > 0 {
      assert s'[0] in s;
    }
    if |s| > 0 && |s'| > 0 {
      assert s == [s[0]] + s[1..] && s' == [s'[0]] + s'[1..];
      if s[0] != s'[0] {
        assert s[0] in s' && s'[0] in s;
        var i :| 0 <= i < |s'| && s'[i] == s[0];
        var j :| 0 <= j < |s| && s[j] == s'[0];
        assert Less(s'[0], s[0]);
        assert Less(s[0], s'[0]);
        LessTransitive(s[0], s'[0], s[0]);
        LessIrreflexive(s[0]);
      }
      forall u
        ensures u in s[1..] <==> u in s'[1..]
      {
        if u in s[1..] {
          var k :| 0 <= k < |s[1..]| && s[1..][k] == u;
          assert Less(s[0], s[k + 1]);
          LessIrreflexive(u);
          assert u in s' && u != s'[0];
        }
        if u in s'[1..] {
          var k :| 0 <= k < |s'[1..]| && s'[1..][k] == u;
          assert Less(s'[0], s'[k + 1]);
          LessIrreflexive(u);
          assert u in s && u != s[0];
        }
      }
      SortedUnique(s[1..], s'[1..]);
    }
  }

  /** The periods of `terms` are exactly the keys of `grouped`. */
  lemma TermsAreGroupKeys(rows: seq<Row>)
    ensures forall t :: t in Terms(rows) <==> t in Group(rows)
    ensures |Terms(rows)| == |Group(rows)|
  {
    var ts := Terms(rows);
    var ks := Group(rows).Keys;
    assert forall t :: t in ts <==> t in ks;
    DistinctCard(ts);
    assert (set t | t in ts) == ks;
  }

  lemma {:induction false} DistinctCard(s: seq<string>)
    requires StrictlySorted(s)
    ensures |set t | t in s| == |s|
  {
    if |s| > 0 {
      var rest := s[1..];
      DistinctCard(rest);
      assert (set t | t in s) == (set t | t in rest) + {s[0]};
      assert s[0] !in rest by {
        if s[0] in rest {
          var k :| 0 <= k < |rest| && rest[k] == s[0];
          assert Less(s[0], s[k + 1]);
          LessIrreflexive(s[0]);
        }
      }
    }
  }

  /** The table's key: within one period each category code occurs once. */
  ghost predicate UniqueKeys(rows: seq<Row>) {
    forall i, j ::
      0 <= i < |rows| && 0 <= j < |rows| &&
      rows[i].term == rows[j].term && rows[i].dataId == rows[j].dataId
      ==> i == j
  }

  /** Looking a code up in a period's group finds the one row of the input
      with that period and code, and finds nothing exactly when there is
      none: the group-then-search of the page behaves like a direct lookup
      by (period, code). */
  lemma FindInGroup(rows: seq<Row>, t: string, id: int)
    requires UniqueKeys(rows)
    ensures forall r :: r in rows && r.term == t && r.dataId == id ==> Find(Filter(rows, t), id) == Some(r)
    ensures Find(Filter(rows, t), id).None? <==>
              forall r :: r in rows && r.term == t ==> r.dataId != id
  {
    var g := Filter(rows, t);
    var found := Find(g, id);
    forall r | r in rows && r.term == t && r.dataId == id
      ensures found == Some(r)
    {
      assert multiset(g)[r] > 0;
      assert r in g;
      var k :| IsFirst(g, id, k) && g[k] == found.value;
      assert multiset(g)[found.value] > 0;
      assert found.value in rows;
      var i :| 0 <= i < |rows| && rows[i] == r;
      var j :| 0 <= j < |rows| && rows[j] == found.value;
    }
    if found.Some? {
      assert multiset(g)[found.value] > 0;
      assert found.value in rows;
    } else {
      forall r | r in rows && r.term == t
        ensures r.dataId != id
      {
        assert multiset(g)[r] > 0;
        assert r in g;
      }
    }
  }
}
