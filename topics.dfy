/**
 The per-topic averages of the results page: the answered questions are
 grouped by their "thema" cell (rows without a topic belong to no group),
 each group's mean answer is taken, and the groups are listed from the
 highest mean to the lowest. A mean is kept exactly, as a sum and a count.
 */
module Topics {
  import opened Wrappers
  import opened QuestionStore
  import opened Axes

  /** A topic with the sum and the number of its answers; its mean is `sum / count`. */
  datatype TopicMean = TopicMean(topic: string, sum: int, count: nat)

  // ---- Reference definitions, row by row ----

  /** The sum of the answers on rows whose topic is `t`. */
  function TopicSum(rs: seq<Answered>, t: string): int {
    if rs == [] then 0
    else TopicSum(rs[..|rs| - 1], t) + (if rs[|rs| - 1].row.topic == Some(t) then rs[|rs| - 1].answer else 0)
  }

  /** The number of rows whose topic is `t`. */
  function TopicCount(rs: seq<Answered>, t: string): nat {
    if rs == [] then 0
    else TopicCount(rs[..|rs| - 1], t) + (if rs[|rs| - 1].row.topic == Some(t) then 1 else 0)
  }

  /** A topic has rows exactly when some row carries it. */
  lemma {:induction false} TopicCountPositive(rs: seq<Answered>, t: string)
    ensures TopicCount(rs, t) > 0 <==> exists i :: 0 <= i < |rs| && rs[i].row.topic == Some(t)
  {
    if rs != [] {
      var p := rs[..|rs| - 1];
      TopicCountPositive(p, t);
      if exists i :: 0 <= i < |p| && p[i].row.topic == Some(t) {
        var i :| 0 <= i < |p| && p[i].row.topic == Some(t);
        assert rs[i] == p[i];
      }
      if exists i :: 0 <= i < |rs| && rs[i].row.topic == Some(t) {
        var i :| 0 <= i < |rs| && rs[i].row.topic == Some(t);
        if i < |p| {
          assert p[i] == rs[i];
        }
      }
    }
  }

  /** A topic without rows has nothing to sum. */
  lemma {:induction false} TopicSumOfAbsent(rs: seq<Answered>, t: string)
    requires TopicCount(rs, t) == 0
    ensures TopicSum(rs, t) == 0
  {
    if rs != [] {
      TopicSumOfAbsent(rs[..|rs| - 1], t);
    }
  }

  /** With answers in 1..5, a topic's sum lies between its count and five times it. */
  lemma {:induction false} TopicSumBounds(rs: seq<Answered>, t: string)
    requires ValidAnswers(rs)
    ensures TopicCount(rs, t) <= TopicSum(rs, t) <= 5 * TopicCount(rs, t)
  {
    if rs != [] {
      var p := rs[..|rs| - 1];
      assert ValidAnswers(p) by {
        forall i | 0 <= i < |p| ensures 1 <= p[i].answer <= 5 {
          assert p[i] == rs[i];
        }
      }
      TopicSumBounds(p, t);
    }
  }

  // ---- Grouping ----

  /** The entry for topic `t`: the first one in `gs` that carries it. */
  function Find(gs: seq<TopicMean>, t: string): (o: Option<TopicMean>)
    ensures o.Some? ==> o.value in gs && o.value.topic == t
    ensures o.None? <==> forall i :: 0 <= i < |gs| ==> gs[i].topic != t
  {
    if gs == [] then None
    else if gs[0].topic == t then Some(gs[0])
    else
      var o := Find(gs[1..], t);
      assert forall i :: 1 <= i < |gs| ==> gs[i] == gs[1..][i - 1];
      o
  }

  /** No topic is listed twice. */
  predicate DistinctTopics(gs: seq<TopicMean>) {
    forall i, j :: 0 <= i < j < |gs| ==> gs[i].topic != gs[j].topic
  }

  /** A list headed by `h` has no repeated topic exactly when its tail has none and lacks `h`'s topic. */
  lemma DistinctCons(h: TopicMean, tail: seq<TopicMean>)
    ensures DistinctTopics([h] + tail) <==>
      DistinctTopics(tail) && forall i :: 0 <= i < |tail| ==> tail[i].topic != h.topic
  {
    var l := [h] + tail;
    assert forall i :: 0 <= i < |tail| ==> l[i + 1] == tail[i];
    if DistinctTopics(tail) && forall i :: 0 <= i < |tail| ==> tail[i].topic != h.topic {
      forall i, j | 0 <= i < j < |l| ensures l[i].topic != l[j].topic {
        assert l[j] == tail[j - 1];
        if i > 0 {
          assert l[i] == tail[i - 1];
        }
      }
    }
    if DistinctTopics(l) {
      forall i, j | 0 <= i < j < |tail| ensures tail[i].topic != tail[j].topic {
        assert l[i + 1].topic != l[j + 1].topic;
      }
      forall i | 0 <= i < |tail| ensures tail[i].topic != h.topic {
        assert l[0].topic != l[i + 1].topic;
      }
    }
  }

  /** In a list without repeated topics, every entry is the one found for its topic. */
  lemma {:induction false} FindMember(gs: seq<TopicMean>, k: nat)
    requires DistinctTopics(gs) && k < |gs|
    ensures Find(gs, gs[k].topic) == Some(gs[k])
  {
    if k > 0 {
      assert gs == [gs[0]] + gs[1..];
      DistinctCons(gs[0], gs[1..]);
      assert gs[1..][k - 1] == gs[k];
      FindMember(gs[1..], k - 1);
    }
  }

  /**
   `gs` groups the rows `rs` by topic: one entry per topic that occurs in
   `rs` and none for any other, each with that topic's sum and count.
   */
  predicate Agrees(o: Option<TopicMean>, rs: seq<Answered>, t: string) {
    match o
    case None => TopicCount(rs, t) == 0
    case Some(g) => g.count == TopicCount(rs, t) && g.count > 0 && g.sum == TopicSum(rs, t)
  }

  ghost predicate GroupsOf(gs: seq<TopicMean>, rs: seq<Answered>) {
    && DistinctTopics(gs)
    && forall t :: Agrees(Find(gs, t), rs, t)
  }

  /** One more answer `a` for topic `t`: its entry is updated in place, or a new entry is appended. */
  function AddTo(gs: seq<TopicMean>, t: string, a: int): seq<TopicMean> {
    if gs == [] then [TopicMean(t, a, 1)]
    else if gs[0].topic == t then [gs[0].(sum := gs[0].sum + a, count := gs[0].count + 1)] + gs[1..]
    else [gs[0]] + AddTo(gs[1..], t, a)
  }

  /** The entry for `t` after one more answer `a`, given the entry before (if any). */
  function Added(o: Option<TopicMean>, t: string, a: int): TopicMean {
    match o
    case None => TopicMean(t, a, 1)
    case Some(g) => g.(sum := g.sum + a, count := g.count + 1)
  }

  /** What `AddTo` does to the entry of each topic: only the entry of `t` changes. */
  lemma {:induction false} AddToFind(gs: seq<TopicMean>, t: string, a: int, u: string)
    ensures Find(AddTo(gs, t, a), u) == if u == t then Some(Added(Find(gs, t), t, a)) else Find(gs, u)
  {
    if gs != [] {
      var r := AddTo(gs, t, a);
      if gs[0].topic != t {
        AddToFind(gs[1..], t, a, u);
        assert r[0] == gs[0] && r[1..] == AddTo(gs[1..], t, a);
      } else {
        assert r[1..] == gs[1..];
      }
    }
  }

  /** `AddTo` lists the same topics as before plus `t`, each once. */
  lemma {:induction false} AddToDistinct(gs: seq<TopicMean>, t: string, a: int)
    requires DistinctTopics(gs)
    ensures forall i :: 0 <= i < |AddTo(gs, t, a)| ==>
      AddTo(gs, t, a)[i].topic == t || exists j :: 0 <= j < |gs| && gs[j].topic == AddTo(gs, t, a)[i].topic
    ensures DistinctTopics(AddTo(gs, t, a))
  {
    var r := AddTo(gs, t, a);
    if gs != [] {
      var tail := gs[1..];
      assert gs == [gs[0]] + tail;
      DistinctCons(gs[0], tail);
      if gs[0].topic == t {
        assert r == [r[0]] + tail && r[0].topic == gs[0].topic;
        DistinctCons(r[0], tail);
        assert forall i :: 1 <= i < |r| ==> r[i] == gs[i];
      } else {
        AddToDistinct(tail, t, a);
        var rt := AddTo(tail, t, a);
        assert r == [gs[0]] + rt;
        forall i | 0 <= i < |rt|
          ensures rt[i].topic != gs[0].topic
          ensures rt[i].topic == t || exists j :: 0 <= j < |gs| && gs[j].topic == rt[i].topic
        {
          if rt[i].topic != t {
            var j :| 0 <= j < |tail| && tail[j].topic == rt[i].topic;
            assert gs[j + 1] == tail[j];
          }
        }
        DistinctCons(gs[0], rt);
        assert forall i :: 1 <= i < |r| ==> r[i] == rt[i - 1];
      }
    }
  }

  /** `pandas.groupby("thema")`: the groups in order of first appearance of their topic. */
  function Group(rs: seq<Answered>): seq<TopicMean> {
    if rs == [] then []
    else
      var gs := Group(rs[..|rs| - 1]);
      var last := rs[|rs| - 1];
      match last.row.topic
      case None => gs
      case Some(t) => AddTo(gs, t, last.answer)
  }

  /** `Group` is correct: it groups exactly the topics that occur, with their sums and counts. */
  lemma {:induction false} GroupCorrect(rs: seq<Answered>)
    ensures GroupsOf(Group(rs), rs)
  {
    if rs != [] {
      var p := rs[..|rs| - 1];
      var last := rs[|rs| - 1];
      GroupCorrect(p);
      var gs := Group(p);
      match last.row.topic
      case None =>
        forall u ensures Agrees(Find(Group(rs), u), rs, u) {
          assert Agrees(Find(gs, u), p, u);
        }
      case Some(t) =>
        AddToDistinct(gs, t, last.answer);
        forall u ensures Agrees(Find(Group(rs), u), rs, u) {
          assert Agrees(Find(gs, u), p, u);
          AddToFind(gs, t, last.answer, u);
          assert TopicSum(rs, u) == TopicSum(p, u) + if u == t then last.answer else 0;
          assert TopicCount(rs, u) == TopicCount(p, u) + if u == t then 1 else 0;
          if Find(gs, u).None? {
            TopicSumOfAbsent(p, u);
          }
        }
    }
  }

  // ---- Sorting by mean, highest first ----

  /** The mean of `a` is at least that of `b`, compared without division. */
  predicate AtLeast(a: TopicMean, b: TopicMean) {
    a.sum * b.count >= b.sum * a.count
  }

  /** The exact mean of a topic's answers. */
  function Mean(g: TopicMean): real
    requires g.count > 0
  {
    g.sum as real / g.count as real
  }

  /** Cross-multiplication compares the means. */
  lemma AtLeastIsMeanOrder(a: TopicMean, b: TopicMean)
    requires a.count > 0 && b.count > 0
    ensures AtLeast(a, b) <==> Mean(a) >= Mean(b)
  {
    var ca, cb := a.count as real, b.count as real;
    var ma, mb := Mean(a), Mean(b);
    assert a.sum as real == ma * ca;
    assert b.sum as real == mb * cb;
    assert (a.sum * b.count) as real == a.sum as real * cb;
    assert (b.sum * a.count) as real == b.sum as real * ca;
    assert a.sum as real * cb - b.sum as real * ca == (ma - mb) * (ca * cb);
    assert ca * cb > 0.0;
  }

  /** Every neighbour pair is in order. */
  predicate Descending(gs: seq<TopicMean>) {
    forall i :: 0 <= i < |gs| - 1 ==> AtLeast(gs[i], gs[i + 1])
  }

  /**
   Puts `x` before the first entry whose mean is not above its own, so an
   entry that came first stays first among equal means.
   */
  function Insert(x: TopicMean, ys: seq<TopicMean>): (r: seq<TopicMean>)
    ensures |r| == |ys| + 1
    ensures r[0] == x || (ys != [] && r[0] == ys[0])
    ensures multiset(r) == multiset(ys) + multiset{x}
    ensures Descending(ys) ==> Descending(r)
  {
    if ys == [] then [x]
    else if AtLeast(x, ys[0]) then [x] + ys
    else
      var rest := Insert(x, ys[1..]);
      assert ys == [ys[0]] + ys[1..];
      assert Descending(ys) ==> Descending(ys[1..]) by {
        if Descending(ys) {
          forall i | 0 <= i < |ys[1..]| - 1 ensures AtLeast(ys[1..][i], ys[1..][i + 1]) {
            assert ys[1..][i] == ys[i + 1] && ys[1..][i + 1] == ys[i + 2];
          }
        }
      }
      [ys[0]] + rest
  }

  /** `sort_values(ascending=False)` on the means. */
  function SortDescending(gs: seq<TopicMean>): (r: seq<TopicMean>)
    ensures multiset(r) == multiset(gs)
    ensures Descending(r)
  {
    if gs == [] then []
    else
      assert gs == [gs[0]] + gs[1..];
      Insert(gs[0], SortDescending(gs[1..]))
  }

  /** Inserting an entry with a new topic into a list without repeats keeps it without repeats. */
  lemma {:induction false} InsertDistinct(x: TopicMean, ys: seq<TopicMean>)
    requires DistinctTopics(ys)
    requires forall i :: 0 <= i < |ys| ==> ys[i].topic != x.topic
    ensures DistinctTopics(Insert(x, ys))
  {
    if ys == [] || AtLeast(x, ys[0]) {
      DistinctCons(x, ys);
    } else {
      var tail := ys[1..];
      assert ys == [ys[0]] + tail;
      DistinctCons(ys[0], tail);
      InsertDistinct(x, tail);
      var rt := Insert(x, tail);
      forall i | 0 <= i < |rt| ensures rt[i].topic != ys[0].topic {
        assert rt[i] in multiset(tail) + multiset{x};
        if rt[i] != x {
          var k :| 0 <= k < |tail| && tail[k] == rt[i];
        }
      }
      DistinctCons(ys[0], rt);
    }
  }

  /** Sorting a list without repeated topics leaves it without repeats. */
  lemma {:induction false} SortDistinct(gs: seq<TopicMean>)
    requires DistinctTopics(gs)
    ensures DistinctTopics(SortDescending(gs))
  {
    if gs != [] {
      var tail := gs[1..];
      assert gs == [gs[0]] + tail;
      DistinctCons(gs[0], tail);
      SortDistinct(tail);
      var st := SortDescending(tail);
      forall i | 0 <= i < |st| ensures st[i].topic != gs[0].topic {
        assert st[i] in multiset(tail);
        var k :| 0 <= k < |tail| && tail[k] == st[i];
      }
      InsertDistinct(gs[0], st);
    }
  }

  /** A permutation without repeated topics finds the same entry for every topic. */
  lemma PermutationFind(gs: seq<TopicMean>, hs: seq<TopicMean>, t: string)
    requires multiset(gs) == multiset(hs)
    requires DistinctTopics(gs) && DistinctTopics(hs)
    ensures Find(gs, t) == Find(hs, t)
  {
    var a, b := Find(gs, t), Find(hs, t);
    if a.Some? {
      assert a.value in multiset(hs);
      var k :| 0 <= k < |hs| && hs[k] == a.value;
      FindMember(hs, k);
    }
    if b.Some? {
      assert b.value in multiset(gs);
      var k :| 0 <= k < |gs| && gs[k] == b.value;
      FindMember(gs, k);
    }
  }

  /** Neighbour order of the means extends to every pair. */
  lemma {:induction false} DescendingMeans(gs: seq<TopicMean>)
    requires forall i :: 0 <= i < |gs| ==> gs[i].count > 0
    requires Descending(gs)
    ensures forall i, j :: 0 <= i < j < |gs| ==> Mean(gs[i]) >= Mean(gs[j])
  {
    if |gs| > 1 {
      var tail := gs[1..];
      assert Descending(tail) by {
        forall i | 0 <= i < |tail| - 1 ensures AtLeast(tail[i], tail[i + 1]) {
          assert tail[i] == gs[i + 1] && tail[i + 1] == gs[i + 2];
        }
      }
      DescendingMeans(tail);
      AtLeastIsMeanOrder(gs[0], gs[1]);
      forall i, j | 0 <= i < j < |gs| ensures Mean(gs[i]) >= Mean(gs[j]) {
        if i > 0 {
          assert gs[i] == tail[i - 1] && gs[j] == tail[j - 1];
        } else if j > 1 {
          assert gs[1] == tail[0] && gs[j] == tail[j - 1];
        }
      }
    }
  }

  /** Scaling by a positive factor keeps the order of reals, in both directions. */
  lemma RealScale(x: real, y: real, c: real)
    requires c > 0.0
    ensures x * c >= y * c <==> x >= y
  {
    assert x * c - y * c == (x - y) * c;
  }

  /** A mean of answers in 1..5 lies in 1..5. */
  lemma MeanBounds(g: TopicMean)
    requires g.count > 0
    requires g.count <= g.sum <= 5 * g.count
    ensures 1.0 <= Mean(g) <= 5.0
  {
    var c := g.count as real;
    assert g.sum as real == Mean(g) * c;
    RealScale(Mean(g), 1.0, c);
    RealScale(5.0, Mean(g), c);
  }

  /** The topic list of the results page. */
  function TopicAverages(rs: seq<Answered>): seq<TopicMean> {
    SortDescending(Group(rs))
  }

  /**
   `ts` is a correct topic list for the answered rows `rs`: one entry per
   topic that occurs and none for any other, each with that topic's sum
   and count, listed by non-increasing mean, and with answers in 1..5
   every mean in 1..5.
   */
  ghost predicate TopicReport(ts: seq<TopicMean>, rs: seq<Answered>) {
    && DistinctTopics(ts)
    && (forall t :: Agrees(Find(ts, t), rs, t))
    && (forall i :: 0 <= i < |ts| ==>
          ts[i].count == TopicCount(rs, ts[i].topic) > 0 && ts[i].sum == TopicSum(rs, ts[i].topic))
    && (forall i, j :: 0 <= i < j < |ts| ==> Mean(ts[i]) >= Mean(ts[j]))
    && (ValidAnswers(rs) ==> forall i :: 0 <= i < |ts| ==> 1.0 <= Mean(ts[i]) <= 5.0)
  }

  /** The topic list of the results page is correct for its rows. */
  lemma TopicAveragesCorrect(rs: seq<Answered>)
    ensures TopicReport(TopicAverages(rs), rs)
  {
    var gs := Group(rs);
    var r := TopicAverages(rs);
    GroupCorrect(rs);
    SortDistinct(gs);
    forall t ensures Agrees(Find(r, t), rs, t) {
      PermutationFind(gs, r, t);
    }
    forall i | 0 <= i < |r|
      ensures r[i].count == TopicCount(rs, r[i].topic) > 0 && r[i].sum == TopicSum(rs, r[i].topic)
    {
      FindMember(r, i);
      assert Agrees(Find(r, r[i].topic), rs, r[i].topic);
    }
    DescendingMeans(r);
    if ValidAnswers(rs) {
      forall i | 0 <= i < |r| ensures 1.0 <= Mean(r[i]) <= 5.0 {
        TopicSumBounds(rs, r[i].topic);
        MeanBounds(r[i]);
      }
    }
  }

  /**
   The mean as displayed, `round(mean, 1)`, in tenths: the nearest number
   of tenths to the exact mean, a tie going to the even one.
   */
  function DisplayTenths(g: TopicMean): (r: int)
    requires g.count > 0
    ensures NearestEven(10 * g.sum, g.count, r)
  {
    RoundHalfEven(10 * g.sum, g.count)
  }

  /** A mean in 1..5 is displayed as 1.0 up to 5.0. */
  lemma DisplayTenthsBounds(g: TopicMean)
    requires g.count > 0
    requires g.count <= g.sum <= 5 * g.count
    ensures 10 <= DisplayTenths(g) <= 50
  {
    var r, d := DisplayTenths(g), g.count;
    assert -d <= 2 * (10 * g.sum - r * d) <= d;
    if r > 50 {
      MulMonotone(51, r, d);
    }
    if r < 10 {
      MulMonotone(r, 9, d);
    }
  }
}
