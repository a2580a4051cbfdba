/** The sort, unique, erase, sort pipeline of `getSystemMsgs`,
    `src/controllers/system_controller.cpp`. Of `std::sort` only its promise is used: a
    permutation in which no later element compares before an earlier one. Neither comparator is
    a strict order, so there are lists on which nothing can keep that promise; on those the
    sort, and with it the handler, promises nothing. */
module SystemMessages {
  datatype Msg = Msg(id: nat, activityId: nat, kind: string, content: string)

  type Comparator = (Msg, Msg) -> bool

  /** First comparator: by activity, then falling id. */
  predicate First(a: Msg, b: Msg) {
    if a.activityId != b.activityId then a.activityId < b.activityId else a.id >= b.id
  }

  /** Second comparator: by id. */
  predicate Second(a: Msg, b: Msg) {
    a.id <= b.id
  }

  predicate Permutes(s: seq<Msg>, t: seq<Msg>) {
    multiset(s) == multiset(t)
  }

  /** The promise of `std::sort`: no later element compares before an earlier one. */
  predicate SortedBy(s: seq<Msg>, comp: Comparator) {
    forall i, j :: 0 <= i < j < |s| ==> !comp(s[j], s[i])
  }

  /** The promise can be kept: some permutation of the list is sorted. */
  ghost predicate Sortable(s: seq<Msg>, comp: Comparator) {
    exists r :: Permutes(r, s) && SortedBy(r, comp)
  }

  // ---------------------------------------------------------------- lists without repetition

  /** No two positions are alike. */
  predicate Apart(s: seq<Msg>, same: Comparator) {
    forall i, j :: 0 <= i < j < |s| ==> !same(s[i], s[j])
  }

  predicate SameId(a: Msg, b: Msg) { a.id == b.id }
  predicate SameActivity(a: Msg, b: Msg) { a.activityId == b.activityId }
  predicate Tie(a: Msg, b: Msg) { a.activityId == b.activityId && a.id == b.id }

  predicate DistinctIds(s: seq<Msg>) { Apart(s, SameId) }
  predicate DistinctActivities(s: seq<Msg>) { Apart(s, SameActivity) }

  /** No two positions hold the same activity and id. */
  predicate Tieless(s: seq<Msg>) { Apart(s, Tie) }

  ghost predicate Likeness(same: Comparator) {
    && (forall a :: same(a, a))
    && (forall a, b :: same(a, b) ==> same(b, a))
  }

  lemma {:induction false} OnceWhenApart(s: seq<Msg>, same: Comparator, m: Msg)
    requires Apart(s, same) && Likeness(same)
    ensures multiset(s)[m] <= 1
  {
    if s != [] {
      var n := |s| - 1;
      assert s == s[..n] + [s[n]];
      OnceWhenApart(s[..n], same, m);
      forall i | 0 <= i < n ensures s[i] != s[n] {
        assert !same(s[i], s[n]);
      }
    }
  }

  lemma TwiceInSeq(s: seq<Msg>, i: nat, j: nat)
    requires i < j < |s| && s[i] == s[j]
    ensures multiset(s)[s[i]] >= 2
  {
    assert s == s[..j] + [s[j]] + s[j + 1..];
    assert s[i] in s[..j];
  }

  lemma SameElements(s: seq<Msg>, t: seq<Msg>)
    requires Permutes(s, t)
    ensures forall m :: m in s <==> m in t
    ensures Activities(s) == Activities(t)
  {
    forall m ensures m in s <==> m in t {
      assert m in multiset(s) <==> m in multiset(t);
    }
  }

  lemma PermutationKeepsApart(s: seq<Msg>, t: seq<Msg>, same: Comparator)
    requires Apart(s, same) && Likeness(same) && Permutes(s, t)
    ensures Apart(t, same)
  {
    SameElements(s, t);
    forall i, j | 0 <= i < j < |t| ensures !same(t[i], t[j]) {
      if t[i] == t[j] {
        OnceWhenApart(s, same, t[i]);
        TwiceInSeq(t, i, j);
      } else {
        assert t[i] in s && t[j] in s;
        var p, q :| 0 <= p < |s| && 0 <= q < |s| && s[p] == t[i] && s[q] == t[j];
        assert p < q || q < p;
      }
    }
  }

  // ---------------------------------------------------------------- the comparators

  predicate OrderedBy(s: seq<Msg>, comp: Comparator) {
    forall i, j :: 0 <= i < j < |s| ==> comp(s[i], s[j])
  }

  /** A total order with its ties: what the comparators are, where `std::sort` asks for a
      strict order. */
  ghost predicate TotalOrder(comp: Comparator, tie: Comparator) {
    && (forall a, b :: comp(a, b) || comp(b, a))
    && (forall a, b, c :: comp(a, b) && comp(b, c) ==> comp(a, c))
    && (forall a, b :: tie(a, b) <==> comp(a, b) && comp(b, a))
  }

  lemma ComparatorsAre()
    ensures TotalOrder(First, Tie) && TotalOrder(Second, SameId)
    ensures Likeness(Tie) && Likeness(SameId) && Likeness(SameActivity)
  {}

  lemma SortedMeansOrdered(s: seq<Msg>, comp: Comparator, tie: Comparator)
    requires TotalOrder(comp, tie)
    ensures SortedBy(s, comp) <==> OrderedBy(s, comp) && Apart(s, tie)
  {
    if SortedBy(s, comp) {
      forall i, j | 0 <= i < j < |s| ensures comp(s[i], s[j]) && !tie(s[i], s[j]) {
        assert !comp(s[j], s[i]);
      }
    }
    if OrderedBy(s, comp) && Apart(s, tie) {
      forall i, j | 0 <= i < j < |s| ensures !comp(s[j], s[i]) {
        assert comp(s[i], s[j]) && !tie(s[i], s[j]);
      }
    }
  }

  // ---------------------------------------------------------------- sorting

  function Insert(s: seq<Msg>, m: Msg, comp: Comparator): seq<Msg> {
    if s == [] then [m]
    else if comp(s[|s| - 1], m) then s + [m]
    else Insert(s[..|s| - 1], m, comp) + [s[|s| - 1]]
  }

  function SortBy(s: seq<Msg>, comp: Comparator): seq<Msg> {
    if s == [] then [] else Insert(SortBy(s[..|s| - 1], comp), s[|s| - 1], comp)
  }

  lemma {:induction false} InsertPermutes(s: seq<Msg>, m: Msg, comp: Comparator)
    ensures multiset(Insert(s, m, comp)) == multiset(s) + multiset{m}
    ensures forall x :: x in Insert(s, m, comp) ==> x == m || x in s
  {
    if s != [] {
      InsertPermutes(s[..|s| - 1], m, comp);
      assert s == s[..|s| - 1] + [s[|s| - 1]];
    }
  }

  lemma {:induction false} InsertOrdered(s: seq<Msg>, m: Msg, comp: Comparator, tie: Comparator)
    requires OrderedBy(s, comp) && TotalOrder(comp, tie)
    ensures OrderedBy(Insert(s, m, comp), comp)
  {
    if s != [] {
      var n := |s| - 1;
      var init, last := s[..n], s[n];
      assert forall i :: 0 <= i < n ==> init[i] == s[i] && comp(init[i], last);
      if !comp(last, m) {
        InsertOrdered(init, m, comp, tie);
        InsertPermutes(init, m, comp);
        var r := Insert(init, m, comp);
        forall i | 0 <= i < |r| ensures comp(r[i], last) {
          assert r[i] == m || r[i] in init;
        }
      }
    }
  }

  lemma {:induction false} SortByOrdered(s: seq<Msg>, comp: Comparator, tie: Comparator)
    requires TotalOrder(comp, tie)
    ensures OrderedBy(SortBy(s, comp), comp) && Permutes(SortBy(s, comp), s)
  {
    if s != [] {
      var n := |s| - 1;
      SortByOrdered(s[..n], comp, tie);
      InsertPermutes(SortBy(s[..n], comp), s[n], comp);
      InsertOrdered(SortBy(s[..n], comp), s[n], comp, tie);
      assert s == s[..n] + [s[n]];
    }
  }

  lemma SortableWhenApart(s: seq<Msg>, comp: Comparator, tie: Comparator)
    requires TotalOrder(comp, tie) && Likeness(tie)
    ensures Sortable(s, comp) <==> Apart(s, tie)
    ensures Sortable(s, comp) ==> Permutes(SortBy(s, comp), s) && SortedBy(SortBy(s, comp), comp)
  {
    if Apart(s, tie) {
      var r := SortBy(s, comp);
      SortByOrdered(s, comp, tie);
      PermutationKeepsApart(s, r, tie);
      SortedMeansOrdered(r, comp, tie);
    }
    if r :| Permutes(r, s) && SortedBy(r, comp) {
      SortedMeansOrdered(r, comp, tie);
      PermutationKeepsApart(r, s, tie);
    }
  }

  /** Some permutation keeps the promise of a sort by the first comparator if and only if no
      two messages share activity and id; by the second, if and only if ids are distinct. */
  lemma SortableExactly(s: seq<Msg>)
    ensures Sortable(s, First) <==> Tieless(s)
    ensures Sortable(s, Second) <==> DistinctIds(s)
  {
    ComparatorsAre();
    SortableWhenApart(s, First, Tie);
    SortableWhenApart(s, Second, SameId);
  }

  /** `std::sort`: the promise where it can be kept, and nothing elsewhere. */
  method StdSort(s: seq<Msg>, comp: Comparator, ghost tie: Comparator) returns (r: seq<Msg>)
    requires TotalOrder(comp, tie) && Likeness(tie)
    ensures Sortable(s, comp) ==> Permutes(r, s) && SortedBy(r, comp)
  {
    r := SortBy(s, comp);
    SortableWhenApart(s, comp, tie);
  }

  // ---------------------------------------------------------------- unique

  /** `std::unique` by activity: drops what repeats the last kept activity. */
  function Unique(s: seq<Msg>): seq<Msg> {
    if s == [] then []
    else
      var init, last := Unique(s[..|s| - 1]), s[|s| - 1];
      if init != [] && init[|init| - 1].activityId == last.activityId then init else init + [last]
  }

  function Activities(s: seq<Msg>): set<nat> {
    set m | m in s :: m.activityId
  }

  /** A message of `s` that no message of its activity exceeds. */
  predicate Best(u: Msg, s: seq<Msg>) {
    u in s && forall m :: m in s && m.activityId == u.activityId ==> m.id <= u.id
  }

  /** `kept` holds, of every activity of `s`, one message of greatest id. */
  predicate BestOfEach(kept: seq<Msg>, s: seq<Msg>) {
    && DistinctActivities(kept)
    && (forall u :: u in kept ==> Best(u, s))
    && Activities(kept) == Activities(s)
  }

  lemma {:induction false} UniqueRising(s: seq<Msg>)
    requires OrderedBy(s, First)
    ensures var u := Unique(s);
            && (s != [] ==> u != [] && u[|u| - 1].activityId == s[|s| - 1].activityId)
            && (forall i, j :: 0 <= i < j < |u| ==> u[i].activityId < u[j].activityId)
            && (forall m :: m in u ==> m in s)
  {
    if s != [] {
      var n := |s| - 1;
      UniqueRising(s[..n]);
      if n > 0 {
        assert First(s[n - 1], s[n]);
        assert s[..n][n - 1] == s[n - 1];
      }
    }
  }

  lemma ActivitiesSnoc(s: seq<Msg>, m: Msg)
    ensures Activities(s + [m]) == Activities(s) + {m.activityId}
  {
  }

  lemma {:induction false} UniqueActivities(s: seq<Msg>)
    ensures Activities(Unique(s)) == Activities(s)
  {
    if s != [] {
      var n := |s| - 1;
      var init := Unique(s[..n]);
      UniqueActivities(s[..n]);
      assert s == s[..n] + [s[n]];
      ActivitiesSnoc(s[..n], s[n]);
      ActivitiesSnoc(init, s[n]);
      if Unique(s) == init {
        assert init[|init| - 1] in init;
      }
    }
  }

  lemma PrefixFirst(p: seq<Msg>, last: Msg, m: Msg)
    requires OrderedBy(p + [last], First) && m in p
    ensures First(m, last)
  {
    var i :| 0 <= i < |p| && p[i] == m;
    assert (p + [last])[i] == m && (p + [last])[|p|] == last;
  }

  /** Under the first order a later message never beats an earlier one of its activity. */
  lemma StaysBest(p: seq<Msg>, last: Msg, u: Msg)
    requires OrderedBy(p + [last], First) && Best(u, p)
    ensures Best(u, p + [last])
  {
    PrefixFirst(p, last, u);
  }

  /** The first message of an activity is its best. */
  lemma NewIsBest(p: seq<Msg>, last: Msg)
    requires OrderedBy(p, First) && OrderedBy(p + [last], First)
    requires p != [] ==> p[|p| - 1].activityId != last.activityId
    ensures Best(last, p + [last])
  {
    forall m | m in p ensures m.activityId != last.activityId {
      var n := |p| - 1;
      PrefixFirst(p, last, p[n]);
      var i :| 0 <= i < |p| && p[i] == m;
      assert i < n ==> First(p[i], p[n]);
    }
  }

  lemma OrderedPrefix(p: seq<Msg>, last: Msg, comp: Comparator)
    requires OrderedBy(p + [last], comp)
    ensures OrderedBy(p, comp)
  {
    assert forall i :: 0 <= i < |p| ==> (p + [last])[i] == p[i];
  }

  lemma UniqueSnoc(p: seq<Msg>, last: Msg)
    ensures var kept := Unique(p);
            Unique(p + [last]) ==
            if kept != [] && kept[|kept| - 1].activityId == last.activityId then kept else kept + [last]
  {
    assert (p + [last])[..|p|] == p;
  }

  lemma {:induction false} UniqueIsBest(s: seq<Msg>, i: nat)
    requires OrderedBy(s, First) && i < |Unique(s)|
    ensures Best(Unique(s)[i], s)
  {
    var p, last := s[..|s| - 1], s[|s| - 1];
    assert s == p + [last];
    UniqueSnoc(p, last);
    OrderedPrefix(p, last, First);
    if i < |Unique(p)| {
      UniqueIsBest(p, i);
      StaysBest(p, last, Unique(p)[i]);
    } else {
      LastIsNew(p, last);
      NewIsBest(p, last);
    }
  }

  lemma LastIsNew(p: seq<Msg>, last: Msg)
    requires OrderedBy(p, First) && Unique(p + [last]) != Unique(p)
    ensures p != [] ==> p[|p| - 1].activityId != last.activityId
  {
    UniqueSnoc(p, last);
    UniqueRising(p);
  }

  lemma UniqueStep(s: seq<Msg>, k: nat)
    requires k < |s|
    ensures var kept := Unique(s[..k]);
            Unique(s[..k + 1]) ==
            if kept != [] && kept[|kept| - 1].activityId == s[k].activityId then kept else kept + [s[k]]
  {
    assert s[..k + 1][..k] == s[..k];
  }

  lemma CopyDown(s: seq<Msg>, n: nat, k: nat)
    requires n <= k < |s|
    ensures var t := s[n := s[k]]; t[..n + 1] == s[..n] + [s[k]] && t[k + 1..] == s[k + 1..]
  {}

  /** `std::unique` then `erase`: the kept messages move to the front of the array. */
  method UniqueInPlace(a: array<Msg>) returns (n: nat)
    modifies a
    ensures n <= a.Length && a[..n] == Unique(old(a[..]))
  {
    n := 0;
    ghost var was := a[..];
    for k := 0 to a.Length
      invariant n <= k && a[..n] == Unique(was[..k]) && a[k..] == was[k..]
    {
      UniqueStep(was, k);
      ghost var before, kept := a[..], a[..n];
      assert a[k] == a[k..][0] == was[k];
      assert n > 0 ==> a[n - 1] == kept[|kept| - 1];
      if n == 0 || a[n - 1].activityId != a[k].activityId {
        a[n] := a[k];
        assert a[..] == before[n := before[k]];
        CopyDown(before, n, k);
        assert a[..n + 1] == a[..][..n + 1] && a[k + 1..] == a[..][k + 1..];
        n := n + 1;
      } else {
        assert a[k + 1..] == a[k..][1..] == was[k + 1..];
      }
    }
    assert was[..a.Length] == was;
  }

  // ---------------------------------------------------------------- the pipeline

  /** One way the pipeline can go when both sorts keep their promise. */
  predicate Outcome(msgs: seq<Msg>, sorted: seq<Msg>, r: seq<Msg>) {
    && Permutes(sorted, msgs) && SortedBy(sorted, First)
    && Permutes(r, Unique(sorted)) && SortedBy(r, Second)
  }

  predicate Rising(s: seq<Msg>) {
    forall i, j :: 0 <= i < j < |s| ==> s[i].id < s[j].id
  }

  /** Whatever permutations the two sorts choose: one message per activity, the one with the
      greatest id, in strictly rising id order. */
  lemma PipelineExact(msgs: seq<Msg>, sorted: seq<Msg>, r: seq<Msg>)
    requires Outcome(msgs, sorted, r)
    ensures BestOfEach(r, msgs) && Rising(r)
  {
    ComparatorsAre();
    SortedMeansOrdered(sorted, First, Tie);
    KeptAreBest(msgs, sorted);
    SameElements(r, Unique(sorted));
    PermutationKeepsApart(Unique(sorted), r, SameActivity);
    forall i, j | 0 <= i < j < |r| ensures r[i].id < r[j].id {
      assert !Second(r[j], r[i]);
    }
  }

  lemma KeptAreBest(msgs: seq<Msg>, sorted: seq<Msg>)
    requires Permutes(sorted, msgs) && OrderedBy(sorted, First)
    ensures BestOfEach(Unique(sorted), msgs)
  {
    UniqueRising(sorted);
    UniqueActivities(sorted);
    SameElements(sorted, msgs);
    forall i | 0 <= i < |Unique(sorted)| ensures Best(Unique(sorted)[i], msgs) {
      UniqueIsBest(sorted, i);
    }
  }

  // ---------------------------------------------------------------- when it is defined

  /** The messages to be kept have distinct ids. */
  predicate BestsApart(msgs: seq<Msg>) {
    forall i, j :: 0 <= i < j < |msgs| && Best(msgs[i], msgs) && Best(msgs[j], msgs) ==> msgs[i].id != msgs[j].id
  }

  /** No two messages share activity and id, and no two activities their greatest id. */
  predicate WellDefined(msgs: seq<Msg>) {
    Tieless(msgs) && BestsApart(msgs)
  }

  lemma TielessOccursOnce(msgs: seq<Msg>, a: Msg, b: Msg)
    requires Tieless(msgs) && a in msgs && b in msgs && Tie(a, b)
    ensures a == b
  {
    var i, j :| 0 <= i < |msgs| && 0 <= j < |msgs| && msgs[i] == a && msgs[j] == b;
    assert i == j;
  }

  /** On a list without ties, distinct ids among the kept are distinct ids among the best. */
  lemma KeptApart(msgs: seq<Msg>, kept: seq<Msg>)
    requires Tieless(msgs) && BestOfEach(kept, msgs)
    ensures DistinctIds(kept) <==> BestsApart(msgs)
  {
    if BestsApart(msgs) {
      forall i, j | 0 <= i < j < |kept| ensures !SameId(kept[i], kept[j]) {
        assert Best(kept[i], msgs) && Best(kept[j], msgs) && !SameActivity(kept[i], kept[j]);
        var p, q :| 0 <= p < |msgs| && 0 <= q < |msgs| && msgs[p] == kept[i] && msgs[q] == kept[j];
        assert p < q || q < p;
      }
    }
    if DistinctIds(kept) {
      forall i, j | 0 <= i < j < |msgs| && Best(msgs[i], msgs) && Best(msgs[j], msgs)
        ensures msgs[i].id != msgs[j].id
      {
        BestIsKept(msgs, kept, msgs[i]);
        BestIsKept(msgs, kept, msgs[j]);
        assert !Tie(msgs[i], msgs[j]);
        var p, q :| 0 <= p < |kept| && 0 <= q < |kept| && kept[p] == msgs[i] && kept[q] == msgs[j];
        assert p < q ==> !SameId(kept[p], kept[q]);
        assert q < p ==> !SameId(kept[q], kept[p]);
      }
    }
  }

  lemma BestIsKept(msgs: seq<Msg>, kept: seq<Msg>, m: Msg)
    requires Tieless(msgs) && BestOfEach(kept, msgs) && Best(m, msgs)
    ensures m in kept
  {
    assert m.activityId in Activities(msgs);
    var u :| u in kept && u.activityId == m.activityId;
    assert Best(u, msgs);
    TielessOccursOnce(msgs, m, u);
  }

  /** Both sorts can keep their promise if and only if the list has no ties and the kept
      messages have distinct ids. */
  lemma DefinedExactly(msgs: seq<Msg>)
    ensures (exists sorted, r :: Outcome(msgs, sorted, r)) <==> WellDefined(msgs)
  {
    ComparatorsAre();
    if sorted, r :| Outcome(msgs, sorted, r) {
      SortedMeansOrdered(sorted, First, Tie);
      PermutationKeepsApart(sorted, msgs, Tie);
      KeptAreBest(msgs, sorted);
      SortedMeansOrdered(r, Second, SameId);
      PermutationKeepsApart(r, Unique(sorted), SameId);
      KeptApart(msgs, Unique(sorted));
    }
    if WellDefined(msgs) {
      SortableExactly(msgs);
      var sorted :| Permutes(sorted, msgs) && SortedBy(sorted, First);
      SecondSortable(msgs, sorted);
      var r :| Permutes(r, Unique(sorted)) && SortedBy(r, Second);
      assert Outcome(msgs, sorted, r);
    }
  }

  lemma SecondSortable(msgs: seq<Msg>, sorted: seq<Msg>)
    requires Permutes(sorted, msgs) && SortedBy(sorted, First) && WellDefined(msgs)
    ensures Sortable(Unique(sorted), Second)
  {
    ComparatorsAre();
    SortedMeansOrdered(sorted, First, Tie);
    KeptAreBest(msgs, sorted);
    KeptApart(msgs, Unique(sorted));
    SortableExactly(Unique(sorted));
  }

  /** Distinct ids are enough. */
  lemma DistinctIdsDefined(msgs: seq<Msg>)
    requires DistinctIds(msgs)
    ensures WellDefined(msgs)
  {
    forall i, j | 0 <= i < j < |msgs| ensures !Tie(msgs[i], msgs[j]) && msgs[i].id != msgs[j].id {
      assert !SameId(msgs[i], msgs[j]);
    }
  }

  /** A message stored both for the user and for everybody leaves the first sort without a
      permutation that keeps its promise. */
  lemma SharedMessageUndefined(own: seq<Msg>, all: seq<Msg>, m: Msg)
    requires m in own && m in all
    ensures !Sortable(own + all, First) && !WellDefined(own + all)
  {
    var i :| 0 <= i < |own| && own[i] == m;
    var j :| 0 <= j < |all| && all[j] == m;
    var msgs := own + all;
    assert msgs[i] == m && msgs[|own| + j] == m && Tie(m, m);
    SortableExactly(msgs);
  }

  lemma UniqueOfTwo(a: Msg, b: Msg)
    requires a.activityId != b.activityId
    ensures Unique([a, b]) == [a, b]
  {
    assert [] + [a] == [a] && [a] + [b] == [a, b];
    UniqueSnoc([], a);
    UniqueSnoc([a], b);
  }

  /** Two activities with one greatest id pass the first sort and leave the second without. */
  lemma SharedIdUndefined(a: Msg, b: Msg)
    requires a.id == b.id && a.activityId < b.activityId
    ensures Sortable([a, b], First) && !WellDefined([a, b])
    ensures Unique([a, b]) == [a, b] && !Sortable([a, b], Second)
  {
    var msgs := [a, b];
    SortableExactly(msgs);
    UniqueOfTwo(a, b);
    assert Tieless(msgs) && SameId(msgs[0], msgs[1]);
    assert !BestsApart(msgs) by {
      assert Best(msgs[0], msgs) && Best(msgs[1], msgs);
    }
  }

  // ---------------------------------------------------------------- the answer

  lemma {:induction false} RisingDetermined(r: seq<Msg>, q: seq<Msg>)
    requires Rising(r) && Rising(q) && forall m :: m in r <==> m in q
    ensures r == q
  {
    if q != [] {
      assert q[0] in r;
    }
    if r != [] {
      assert r[0] in q;
      var n, k := |r| - 1, |q| - 1;
      assert r[n] in q && q[k] in r;
      assert r[n] == q[k];
      forall m ensures m in r[..n] <==> m in q[..k] {
        assert m in r[..n] <==> m in r && m != r[n];
        assert m in q[..k] <==> m in q && m != q[k];
      }
      RisingDetermined(r[..n], q[..k]);
      assert r == r[..n] + [r[n]] && q == q[..k] + [q[k]];
    }
  }

  /** Where the pipeline is defined the answer is one and the same, whatever the sorts do. */
  lemma AnswerUnique(msgs: seq<Msg>, r: seq<Msg>, q: seq<Msg>)
    requires Tieless(msgs) && BestOfEach(r, msgs) && BestOfEach(q, msgs) && Rising(r) && Rising(q)
    ensures r == q
  {
    forall m ensures m in r <==> m in q {
      if m in r {
        assert Best(m, msgs);
        BestIsKept(msgs, q, m);
      }
      if m in q {
        assert Best(m, msgs);
        BestIsKept(msgs, r, m);
      }
    }
    RisingDetermined(r, q);
  }

  /** The handler's pipeline. Outside `WellDefined` the source promises nothing, and neither
      does this. */
  method GetSystemMsgs(msgs: seq<Msg>) returns (r: seq<Msg>)
    ensures WellDefined(msgs) ==> BestOfEach(r, msgs) && Rising(r)
  {
    ComparatorsAre();
    var sorted := StdSort(msgs, First, Tie);
    var toSendMsgs := new Msg[|sorted|](i requires 0 <= i < |sorted| => sorted[i]);
    assert toSendMsgs[..] == sorted;
    var n := UniqueInPlace(toSendMsgs);
    r := StdSort(toSendMsgs[..n], Second, SameId);
    if WellDefined(msgs) {
      SortableExactly(msgs);
      SecondSortable(msgs, sorted);
      PipelineExact(msgs, sorted, r);
    }
  }
}
