/** The in-process request counters: what they count, and what the key cap bounds. */
module RequestMetrics {
  import opened Sequences

  const MAX_METRIC_KEYS: nat := 10_000

  /* ----- keys ----- */

  function DurationKey(httpMethod: string, path: string): string { httpMethod + "|" + path }

  function CountKey(durationKey: string, status: int): string { durationKey + "|" + IntText(status) }

  /** `k` is the count key of the duration key `d` under some status. */
  ghost predicate KeyOf(k: string, d: string) { exists status: int :: k == CountKey(d, status) }

  lemma IntTextHasNoBar(i: int)
    ensures '|' !in IntText(i)
  {
  }

  /** A count key belongs to one duration key and one status, whatever bars the path contains. */
  lemma CountKeyInjective(d1: string, s1: int, d2: string, s2: int)
    requires CountKey(d1, s1) == CountKey(d2, s2)
    ensures d1 == d2 && s1 == s2
  {
    var k, t1, t2 := CountKey(d1, s1), IntText(s1), IntText(s2);
    IntTextHasNoBar(s1);
    IntTextHasNoBar(s2);
    assert k[|d1|] == '|' && k[|d2|] == '|';
    assert forall i | |d1| < i < |k| :: k[i] == t1[i - |d1| - 1];
    assert forall i | |d2| < i < |k| :: k[i] == t2[i - |d2| - 1];
    assert |d1| == |d2|;
    assert k[..|d1|] == d1 && k[..|d2|] == d2;
    assert k[|d1| + 1..] == t1 && k[|d2| + 1..] == t2;
    IntTextInjective(s1, s2);
  }

  /** Methods without a bar, as HTTP has them, are told apart, and so are their paths. */
  lemma DurationKeyInjective(m1: string, p1: string, m2: string, p2: string)
    requires '|' !in m1 && '|' !in m2 && DurationKey(m1, p1) == DurationKey(m2, p2)
    ensures m1 == m2 && p1 == p2
  {
    var k := DurationKey(m1, p1);
    assert k[|m1|] == '|' && k[|m2|] == '|';
    assert forall i | 0 <= i < |m1| :: k[i] == m1[i] && k[i] in m1;
    assert forall i | 0 <= i < |m2| :: k[i] == m2[i] && k[i] in m2;
    assert |m1| == |m2|;
    assert k[..|m1|] == m1 && k[..|m2|] == m2;
    assert k[|m1| + 1..] == p1 && k[|m2| + 1..] == p2;
  }

  /* ----- sums over a dictionary ----- */

  ghost function SumWhere(counts: map<string, nat>, keys: set<string>, d: string): nat
    requires keys <= counts.Keys
  {
    if keys == {} then 0 else
      var k :| k in keys;
      (if KeyOf(k, d) then counts[k] else 0) + SumWhere(counts, keys - {k}, d)
  }

  /** The requests counted under one method and path, over all statuses. */
  ghost function SumByStatus(counts: map<string, nat>, d: string): nat { SumWhere(counts, counts.Keys, d) }

  lemma {:induction false} SumPull(counts: map<string, nat>, keys: set<string>, d: string, k: string)
    requires keys <= counts.Keys && k in keys
    ensures SumWhere(counts, keys, d) == (if KeyOf(k, d) then counts[k] else 0) + SumWhere(counts, keys - {k}, d)
    decreases |keys|
  {
    var p :| p in keys && SumWhere(counts, keys, d) ==
                          (if KeyOf(p, d) then counts[p] else 0) + SumWhere(counts, keys - {p}, d);
    if p != k {
      SumPull(counts, keys - {p}, d, k);
      SumPull(counts, keys - {k}, d, p);
      assert keys - {p} - {k} == keys - {k} - {p};
    }
  }

  lemma {:induction false} SumAgrees(a: map<string, nat>, b: map<string, nat>, keys: set<string>, d: string)
    requires keys <= a.Keys && keys <= b.Keys && forall k | k in keys :: a[k] == b[k]
    ensures SumWhere(a, keys, d) == SumWhere(b, keys, d)
    decreases |keys|
  {
    if keys != {} {
      var k :| k in keys;
      SumPull(a, keys, d, k);
      SumPull(b, keys, d, k);
      SumAgrees(a, b, keys - {k}, d);
    }
  }

  function Get(counts: map<string, nat>, k: string): nat { if k in counts then counts[k] else 0 }

  function Bump(counts: map<string, nat>, k: string): map<string, nat> { counts[k := Get(counts, k) + 1] }

  lemma SumAfterBump(counts: map<string, nat>, k: string, d: string)
    ensures SumByStatus(Bump(counts, k), d) == SumByStatus(counts, d) + if KeyOf(k, d) then 1 else 0
  {
    var after := Bump(counts, k);
    SumPull(after, after.Keys, d, k);
    if k in counts { SumPull(counts, counts.Keys, d, k); }
    assert after.Keys - {k} == counts.Keys - {k};
    SumAgrees(after, counts, counts.Keys - {k}, d);
    if k !in counts { assert counts.Keys - {k} == counts.Keys; }
  }

  /* ----- the counters ----- */

  datatype Request = Request(durationKey: string, status: int, seconds: real)

  datatype Counters = Counters(requestCounts: map<string, nat>, durationSum: map<string, real>,
                               durationCount: map<string, nat>)

  function Seconds(sums: map<string, real>, d: string): real { if d in sums then sums[d] else 0.0 }

  /** Whether a request is counted at all: a known method and path, or room below the cap. */
  predicate Admitted(c: Counters, r: Request) {
    || CountKey(r.durationKey, r.status) in c.requestCounts
    || r.durationKey in c.durationSum
    || |c.requestCounts| < MAX_METRIC_KEYS
  }

  function Record(c: Counters, r: Request): Counters {
    if Admitted(c, r) then
      Counters(Bump(c.requestCounts, CountKey(r.durationKey, r.status)),
               c.durationSum[r.durationKey := Seconds(c.durationSum, r.durationKey) + r.seconds],
               Bump(c.durationCount, r.durationKey))
    else c
  }

  /** Per method and path, the duration count is the sum of the counts over statuses; the two duration
      dictionaries have one key set, which holds every counted method and path and stays within the cap. */
  ghost predicate Consistent(c: Counters) {
    && c.durationSum.Keys == c.durationCount.Keys
    && (forall d :: Get(c.durationCount, d) == SumByStatus(c.requestCounts, d))
    && (forall d, status: int | CountKey(d, status) in c.requestCounts :: d in c.durationCount)
    && |c.durationCount| <= |c.requestCounts|
    && |c.durationCount| <= MAX_METRIC_KEYS
  }

  lemma RecordKeepsConsistent(c: Counters, r: Request)
    requires Consistent(c)
    ensures Consistent(Record(c, r))
  {
    if Admitted(c, r) {
      var k, c' := CountKey(r.durationKey, r.status), Record(c, r);
      forall d ensures Get(c'.durationCount, d) == SumByStatus(c'.requestCounts, d) {
        SumAfterBump(c.requestCounts, k, d);
        if KeyOf(k, d) {
          var status: int :| k == CountKey(d, status);
          CountKeyInjective(d, status, r.durationKey, r.status);
        }
        assert d == r.durationKey ==> KeyOf(k, d);
      }
      forall d, status: int | CountKey(d, status) in c'.requestCounts ensures d in c'.durationCount {
        if CountKey(d, status) !in c.requestCounts { CountKeyInjective(d, status, r.durationKey, r.status); }
      }
    }
  }

  lemma AdmittedIsNoticed(c: Counters, r: Request)
    ensures Record(c, r) == c <==> !Admitted(c, r)
  {
    if Admitted(c, r) {
      assert Get(Record(c, r).durationCount, r.durationKey) == Get(c.durationCount, r.durationKey) + 1;
    }
  }

  /** Only a request under an unknown method and path can be dropped, and exactly at the cap. */
  lemma DroppedIffUnknownAtCap(c: Counters, r: Request)
    requires Consistent(c)
    ensures Record(c, r) == c <==> r.durationKey !in c.durationCount && |c.requestCounts| >= MAX_METRIC_KEYS
  {
    AdmittedIsNoticed(c, r);
  }

  /* ----- whole runs ----- */

  const NOTHING: Counters := Counters(map[], map[], map[])

  function Run(rs: seq<Request>): Counters {
    if rs == [] then NOTHING else Record(Run(rs[..|rs| - 1]), rs[|rs| - 1])
  }

  /** The requests of a run that were counted, in order. */
  function Counted(rs: seq<Request>): seq<Request> {
    if rs == [] then [] else
      var front, last := rs[..|rs| - 1], rs[|rs| - 1];
      if Admitted(Run(front), last) then Counted(front) + [last] else Counted(front)
  }

  function Tally(rs: seq<Request>, k: string): nat {
    if rs == [] then 0 else
      var last := rs[|rs| - 1];
      Tally(rs[..|rs| - 1], k) + if CountKey(last.durationKey, last.status) == k then 1 else 0
  }

  function DurationTally(rs: seq<Request>, d: string): (nat, real) {
    if rs == [] then (0, 0.0) else
      var (n, total) := DurationTally(rs[..|rs| - 1], d);
      if rs[|rs| - 1].durationKey == d then (n + 1, total + rs[|rs| - 1].seconds) else (n, total)
  }

  lemma {:induction false} RunConsistent(rs: seq<Request>)
    ensures Consistent(Run(rs))
  {
    if rs == [] {
      assert forall d :: SumByStatus(NOTHING.requestCounts, d) == 0;
    } else {
      RunConsistent(rs[..|rs| - 1]);
      RecordKeepsConsistent(Run(rs[..|rs| - 1]), rs[|rs| - 1]);
    }
  }

  /** All three dictionaries tell of exactly the requests in `log`. */
  ghost predicate Tells(c: Counters, log: seq<Request>) {
    && (forall k :: Get(c.requestCounts, k) == Tally(log, k))
    && (forall d :: Get(c.durationCount, d) == DurationTally(log, d).0)
    && (forall d :: Seconds(c.durationSum, d) == DurationTally(log, d).1)
  }

  lemma TellsOneMore(c: Counters, log: seq<Request>, r: Request)
    requires Tells(c, log) && Admitted(c, r)
    ensures Tells(Record(c, r), log + [r])
  {
    assert (log + [r])[..|log|] == log;
  }

  /** After any run a request is counted in all three dictionaries or in none. */
  lemma {:induction false} RunTells(rs: seq<Request>)
    ensures Tells(Run(rs), Counted(rs))
  {
    if rs != [] {
      var front, last := rs[..|rs| - 1], rs[|rs| - 1];
      RunTells(front);
      if Admitted(Run(front), last) {
        TellsOneMore(Run(front), Counted(front), last);
      } else {
        assert Run(rs) == Run(front) && Counted(rs) == Counted(front);
      }
    }
  }

  lemma RunStep(rs: seq<Request>, r: Request)
    ensures Run(rs + [r]) == Record(Run(rs), r)
  {
    assert (rs + [r])[..|rs|] == rs;
  }

  /* ----- what the cap bounds ----- */

  /** Every count key under a duration key in `ds` and a status in `statuses`. */
  ghost function KeysOver(ds: set<string>, statuses: seq<int>): set<string> {
    if statuses == [] then {} else
      KeysOver(ds, statuses[..|statuses| - 1]) + KeysUnder(ds, statuses[|statuses| - 1])
  }

  ghost function KeysUnder(ds: set<string>, status: int): set<string> { set d | d in ds :: CountKey(d, status) }

  lemma {:induction false} KeysUnderBound(ds: set<string>, status: int)
    ensures |KeysUnder(ds, status)| <= |ds|
  {
    if ds != {} {
      var d :| d in ds;
      KeysUnderBound(ds - {d}, status);
      assert KeysUnder(ds, status) == KeysUnder(ds - {d}, status) + {CountKey(d, status)};
    }
  }

  lemma OneMoreTimes(a: nat, n: nat)
    ensures a * (n + 1) == a * n + a
  {
  }

  lemma {:induction false} KeysOverBound(ds: set<string>, statuses: seq<int>, cap: nat)
    requires |ds| <= cap
    ensures |KeysOver(ds, statuses)| <= cap * |statuses|
  {
    if statuses != [] {
      var n: nat := |statuses| - 1;
      var before, last := KeysOver(ds, statuses[..n]), KeysUnder(ds, statuses[n]);
      KeysOverBound(ds, statuses[..n], cap);
      KeysUnderBound(ds, statuses[n]);
      OneMoreTimes(cap, n);
      UnionSize(before, last);
    }
  }

  lemma UnionSize<T>(a: set<T>, b: set<T>)
    ensures |a + b| <= |a| + |b|
  {
  }

  lemma {:induction false} KeysOverHolds(ds: set<string>, statuses: seq<int>, d: string, i: nat)
    requires d in ds && i < |statuses|
    ensures CountKey(d, statuses[i]) in KeysOver(ds, statuses)
  {
    if i < |statuses| - 1 { KeysOverHolds(ds, statuses[..|statuses| - 1], d, i); }
  }

  /** Every count key comes from a request whose duration key is known. */
  lemma {:induction false} KeyOrigin(rs: seq<Request>, k: string) returns (i: nat)
    requires k in Run(rs).requestCounts
    ensures i < |rs| && k == CountKey(rs[i].durationKey, rs[i].status) && rs[i].durationKey in Run(rs).durationCount
  {
    var n := |rs| - 1;
    if k in Run(rs[..n]).requestCounts {
      i := KeyOrigin(rs[..n], k);
    } else {
      i := n;
    }
  }

  lemma {:induction false} SubsetSize<T>(a: set<T>, b: set<T>)
    requires a <= b
    ensures |a| <= |b|
  {
    assert b == a + (b - a);
  }

  /** The cap bounds methods and paths only: with `statuses` the statuses that occur, the request
      dictionary holds at most the cap times their number. */
  lemma RequestKeysBound(rs: seq<Request>, statuses: seq<int>)
    requires forall r | r in rs :: r.status in statuses
    ensures |Run(rs).requestCounts| <= MAX_METRIC_KEYS * |statuses|
  {
    var c := Run(rs);
    var ds := c.durationCount.Keys;
    RunConsistent(rs);
    forall k | k in c.requestCounts ensures k in KeysOver(ds, statuses) {
      var i := KeyOrigin(rs, k);
      var j :| 0 <= j < |statuses| && statuses[j] == rs[i].status;
      KeysOverHolds(ds, statuses, rs[i].durationKey, j);
    }
    SubsetSize(c.requestCounts.Keys, KeysOver(ds, statuses));
    KeysOverBound(ds, statuses, MAX_METRIC_KEYS);
  }

  /* ----- when the cap holds ----- */

  /** Request `i` finds the dictionary full, its method and path known and its count key new. */
  ghost predicate PassesCap(rs: seq<Request>, i: nat)
    requires i < |rs|
  {
    var c, r := Run(rs[..i]), rs[i];
    && |c.requestCounts| >= MAX_METRIC_KEYS
    && r.durationKey in c.durationCount && CountKey(r.durationKey, r.status) !in c.requestCounts
  }

  /** At the cap a call adds a key exactly when its method and path are known and its count key is new;
      it is dropped exactly when they are unknown. */
  lemma AtTheCap(c: Counters, r: Request)
    requires Consistent(c) && |c.requestCounts| >= MAX_METRIC_KEYS
    ensures |c.requestCounts| <= |Record(c, r).requestCounts|
    ensures |Record(c, r).requestCounts| == |c.requestCounts| <==>
            !(r.durationKey in c.durationCount && CountKey(r.durationKey, r.status) !in c.requestCounts)
  {
    DroppedIffUnknownAtCap(c, r);
    if CountKey(r.durationKey, r.status) in c.requestCounts {
      assert Record(c, r).requestCounts.Keys == c.requestCounts.Keys;
    }
  }

  lemma OneCall(rs: seq<Request>, n: nat)
    requires n < |rs|
    ensures |Run(rs[..n + 1]).requestCounts| <= MAX_METRIC_KEYS <==>
            |Run(rs[..n]).requestCounts| <= MAX_METRIC_KEYS && !PassesCap(rs, n)
  {
    RunConsistent(rs[..n]);
    RunStep(rs[..n], rs[n]);
    assert rs[..n + 1] == rs[..n] + [rs[n]];
    if |Run(rs[..n]).requestCounts| >= MAX_METRIC_KEYS { AtTheCap(Run(rs[..n]), rs[n]); }
  }

  /** A size that leaves the cap exactly at the marked steps, and never comes back, is within the cap
      exactly as long as no step is marked. */
  lemma {:induction false} WithinUntilMarked(sizes: seq<nat>, marked: seq<bool>, n: nat)
    requires n <= |marked| < |sizes| && sizes[0] <= MAX_METRIC_KEYS
    requires forall i | 0 <= i < |marked| ::
               sizes[i + 1] <= MAX_METRIC_KEYS <==> sizes[i] <= MAX_METRIC_KEYS && !marked[i]
    ensures sizes[n] <= MAX_METRIC_KEYS <==> forall i | 0 <= i < n :: !marked[i]
  {
    if n > 0 {
      WithinUntilMarked(sizes, marked, n - 1);
      assert marked[n - 1] || !marked[n - 1];
    }
  }

  /** The request dictionary stays within the cap exactly as long as no request finds it full, its
      method and path known and its status new to them. */
  lemma CapHeldIff(rs: seq<Request>)
    ensures |Run(rs).requestCounts| <= MAX_METRIC_KEYS <==> forall i: nat | i < |rs| :: !PassesCap(rs, i)
  {
    var sizes := seq(|rs| + 1, i requires 0 <= i <= |rs| => |Run(rs[..i]).requestCounts|);
    var marked := seq(|rs|, i requires 0 <= i < |rs| => PassesCap(rs, i));
    forall i | 0 <= i < |rs|
      ensures sizes[i + 1] <= MAX_METRIC_KEYS <==> sizes[i] <= MAX_METRIC_KEYS && !marked[i]
    {
      OneCall(rs, i);
    }
    WithinUntilMarked(sizes, marked, |rs|);
    assert rs[..|rs|] == rs;
    assert forall i: nat | i < |rs| :: marked[i] == PassesCap(rs, i);
  }

  /* ----- how far it can be passed ----- */

  ghost predicate SeenBefore(rs: seq<Request>, j: nat)
    requires j < |rs|
  {
    exists i: nat :: i < j && rs[i].durationKey == rs[j].durationKey
  }

  ghost predicate SameKeys(a: Request, b: Request) { a.durationKey == b.durationKey && a.status == b.status }

  /** No two requests share a count key, and from the cap on, no new method and path comes up. */
  ghost predicate AllNew(rs: seq<Request>) {
    && (forall i, j | 0 <= i < j < |rs| :: !SameKeys(rs[i], rs[j]))
    && (forall j: nat | j < |rs| :: j < MAX_METRIC_KEYS || SeenBefore(rs, j))
  }

  lemma AllNewFront(rs: seq<Request>)
    requires AllNew(rs) && rs != []
    ensures AllNew(rs[..|rs| - 1])
  {
    var front := rs[..|rs| - 1];
    forall j: nat | j < |front| && j >= MAX_METRIC_KEYS ensures SeenBefore(front, j) {
      assert SeenBefore(rs, j);
      var i: nat :| i < j && rs[i].durationKey == rs[j].durationKey;
      assert front[i].durationKey == front[j].durationKey;
    }
  }

  lemma LastKeyIsNew(front: seq<Request>, last: Request)
    requires AllNew(front + [last])
    ensures CountKey(last.durationKey, last.status) !in Run(front).requestCounts
  {
    var rs := front + [last];
    if CountKey(last.durationKey, last.status) in Run(front).requestCounts {
      var i := KeyOrigin(front, CountKey(last.durationKey, last.status));
      CountKeyInjective(front[i].durationKey, front[i].status, last.durationKey, last.status);
      assert SameKeys(rs[i], rs[|front|]);
    }
  }

  lemma LastIsAdmitted(front: seq<Request>, last: Request)
    requires AllNew(front + [last])
    ensures |front| < MAX_METRIC_KEYS || exists r :: r in front && r.durationKey == last.durationKey
  {
    var rs := front + [last];
    if |front| >= MAX_METRIC_KEYS {
      assert SeenBefore(rs, |front|);
      var i: nat :| i < |front| && rs[i].durationKey == rs[|front|].durationKey;
      assert front[i] in front;
    }
  }

  lemma {:induction false} AllNewAreCounted(rs: seq<Request>)
    requires AllNew(rs)
    ensures |Run(rs).requestCounts| == |rs|
    ensures forall r | r in rs :: r.durationKey in Run(rs).durationSum
  {
    if rs != [] {
      var front, last := rs[..|rs| - 1], rs[|rs| - 1];
      assert rs == front + [last];
      AllNewFront(rs);
      AllNewAreCounted(front);
      LastKeyIsNew(front, last);
      LastIsAdmitted(front, last);
    }
  }

  function Row(paths: seq<string>, status: int): seq<Request> {
    seq(|paths|, i requires 0 <= i < |paths| => Request(paths[i], status, 0.0))
  }

  /** All of `paths` under the first status, then all of them under the next, and so on. */
  function Grid(paths: seq<string>, statuses: seq<int>): seq<Request> {
    if statuses == [] then [] else
      Grid(paths, statuses[..|statuses| - 1]) + Row(paths, statuses[|statuses| - 1])
  }

  lemma {:induction false} GridSize(paths: seq<string>, statuses: seq<int>)
    ensures |Grid(paths, statuses)| == |paths| * |statuses|
  {
    if statuses != [] {
      var n: nat := |statuses| - 1;
      GridSize(paths, statuses[..n]);
      OneMoreTimes(|paths|, n);
    }
  }

  lemma {:induction false} GridStatuses(paths: seq<string>, statuses: seq<int>)
    ensures forall r | r in Grid(paths, statuses) :: r.status in statuses
  {
    if statuses != [] {
      var n := |statuses| - 1;
      GridStatuses(paths, statuses[..n]);
      assert forall r | r in Row(paths, statuses[n]) :: r.status == statuses[n];
    }
  }

  lemma {:induction false} GridIsNew(paths: seq<string>, statuses: seq<int>)
    requires NoDuplicates(paths) && NoDuplicates(statuses) && |paths| <= MAX_METRIC_KEYS
    ensures AllNew(Grid(paths, statuses))
  {
    if statuses != [] {
      var n := |statuses| - 1;
      var before, row := Grid(paths, statuses[..n]), Row(paths, statuses[n]);
      GridIsNew(paths, statuses[..n]);
      GridStatuses(paths, statuses[..n]);
      RowIsNew(before, row, paths, statuses[..n], statuses[n]);
    }
  }

  /** The last requests are one row of `paths`. */
  ghost predicate EndsWith(rs: seq<Request>, paths: seq<string>)
    requires |rs| >= |paths|
  {
    forall j: nat | j < |paths| :: rs[|rs| - |paths| + j].durationKey == paths[j]
  }

  /** One more row under a new status repeats no count key, and adds no path but in the first row. */
  lemma RowIsNew(before: seq<Request>, row: seq<Request>, paths: seq<string>, done: seq<int>, status: int)
    requires AllNew(before) && row == Row(paths, status) && NoDuplicates(paths)
    requires status !in done && |paths| <= MAX_METRIC_KEYS && forall r | r in before :: r.status in done
    requires before == [] || (|before| >= |paths| && EndsWith(before, paths))
    ensures AllNew(before + row)
  {
    var all := before + row;
    forall i, j | 0 <= i < j < |all| ensures !SameKeys(all[i], all[j]) {
      if i < |before| { assert before[i] in before; }
    }
    forall j: nat | j < |all| && j >= MAX_METRIC_KEYS ensures SeenBefore(all, j) {
      if j < |before| {
        assert SeenBefore(before, j);
        var i: nat :| i < j && before[i].durationKey == before[j].durationKey;
        assert all[i].durationKey == all[j].durationKey;
      } else {
        assert all[|before| - |paths| + (j - |before|)].durationKey == all[j].durationKey;
      }
    }
  }

  /** The bound is reached: as many methods and paths as the cap, each under the first status and then
      under every other one, leave a count for each pair. Two statuses already pass the cap. */
  lemma RequestKeysBoundReached(paths: seq<string>, statuses: seq<int>)
    requires NoDuplicates(paths) && NoDuplicates(statuses) && |paths| == MAX_METRIC_KEYS
    ensures var rs := Grid(paths, statuses);
            && (forall r | r in rs :: r.status in statuses)
            && |Run(rs).requestCounts| == MAX_METRIC_KEYS * |statuses|
  {
    GridSize(paths, statuses);
    GridStatuses(paths, statuses);
    GridIsNew(paths, statuses);
    AllNewAreCounted(Grid(paths, statuses));
  }

  /** Numbered duration keys that start alike. */
  function ManyPaths(start: string, n: nat): seq<string> { seq(n, i requires 0 <= i < n => start + Decimal(i)) }

  lemma ManyPathsDiffer(start: string, n: nat)
    ensures NoDuplicates(ManyPaths(start, n))
  {
    forall i, j | 0 <= i < j < n ensures ManyPaths(start, n)[i] != ManyPaths(start, n)[j] {
      if start + Decimal(i) == start + Decimal(j) {
        assert (start + Decimal(i))[|start|..] == Decimal(i) && (start + Decimal(j))[|start|..] == Decimal(j);
        DecimalInjective(i, j);
      }
    }
  }

  /** Found and not found are statuses enough for twice the cap. */
  lemma TwoStatusesPassTheCap() returns (rs: seq<Request>)
    ensures forall r | r in rs :: r.status == 200 || r.status == 404
    ensures |Run(rs).requestCounts| == 20_000
  {
    var start := DurationKey("GET", "/p");
    ManyPathsDiffer(start, MAX_METRIC_KEYS);
    RequestKeysBoundReached(ManyPaths(start, MAX_METRIC_KEYS), [200, 404]);
    rs := Grid(ManyPaths(start, MAX_METRIC_KEYS), [200, 404]);
  }

  /* ----- paths ----- */

  /** The characters that `str.isdigit` takes for digits, of whatever script: an opening brace is none. */
  type DigitTest = digit: char -> bool | !digit('{') witness c => '0' <= c <= '9'

  predicate IsHex(c: char) { '0' <= c <= '9' || 'a' <= c <= 'f' || 'A' <= c <= 'F' }

  /** Groups of 8, 4, 4, 4 and 12 hexadecimal digits; the expression's `$` lets a line feed follow. */
  predicate IsUuid(part: string) {
    && (|part| == 36 || (|part| == 37 && part[36] == '\n'))
    && forall i | 0 <= i < 36 ::
      if i == 8 || i == 13 || i == 18 || i == 23 then part[i] == '-' else IsHex(part[i])
  }

  predicate IsDigits(digit: DigitTest, part: string) { part != "" && forall c | c in part :: digit(c) }

  predicate IsId(digit: DigitTest, part: string) { IsUuid(part) || IsDigits(digit, part) }

  function Segment(digit: DigitTest, part: string): string { if IsId(digit, part) then "{id}" else part }

  function StripSlashes(path: string): (r: string)
    ensures r != "" ==> r[0] != '/' && r[|r| - 1] != '/'
    decreases |path|
  {
    if path != "" && path[0] == '/' then StripSlashes(path[1..])
    else if path != "" && path[|path| - 1] == '/' then StripSlashes(path[..|path| - 1])
    else path
  }

  function Segments(digit: DigitTest, parts: seq<string>): seq<string> {
    seq(|parts|, i requires 0 <= i < |parts| => Segment(digit, parts[i]))
  }

  function NormalizePath(digit: DigitTest, path: string): string {
    "/" + Join(Segments(digit, Split(StripSlashes(path), '/')), "/")
  }

  lemma {:induction false} SplitEnds(text: string, sep: char)
    requires text != "" && text[|text| - 1] != sep
    ensures var parts := Split(text, sep); parts[|parts| - 1] != "" && (text[0] != sep ==> parts[0] != "")
  {
    var rest := Split(text[1..], sep);
    if |text| == 1 {
      assert rest == [""];
    } else {
      SplitEnds(text[1..], sep);
      assert rest[|rest| - 1] != "";
    }
  }

  lemma {:induction false} JoinLast(parts: seq<string>, sep: string)
    requires parts != [] && parts[|parts| - 1] != ""
    ensures Join(parts, sep) != ""
    ensures Join(parts, sep)[|Join(parts, sep)| - 1] == parts[|parts| - 1][|parts[|parts| - 1]| - 1]
  {
    if |parts| > 1 {
      JoinLast(parts[1..], sep);
      assert Join(parts, sep) == parts[0] + sep + Join(parts[1..], sep);
    }
  }

  lemma SegmentFacts(digit: DigitTest, part: string)
    requires '/' !in part
    ensures '/' !in Segment(digit, part) && (Segment(digit, part) == "" <==> part == "")
    ensures !IsId(digit, Segment(digit, part)) && Segment(digit, Segment(digit, part)) == Segment(digit, part)
  {
    assert "{id}"[0] in "{id}" && '/' !in "{id}";
  }

  /** No id and no slash in any segment. */
  predicate CleanSegments(digit: DigitTest, parts: seq<string>) {
    forall i | 0 <= i < |parts| ::
      '/' !in parts[i] && Segment(digit, parts[i]) == parts[i] && !IsId(digit, parts[i])
  }

  lemma SegmentsAreClean(digit: DigitTest, raw: seq<string>)
    requires forall p | p in raw :: '/' !in p
    ensures CleanSegments(digit, Segments(digit, raw))
    ensures forall i | 0 <= i < |raw| :: Segments(digit, raw)[i] == "" <==> raw[i] == ""
  {
    forall i | 0 <= i < |raw|
      ensures CleanSegments(digit, [Segments(digit, raw)[i]]) && (Segments(digit, raw)[i] == "" <==> raw[i] == "")
    {
      assert raw[i] in raw;
      SegmentFacts(digit, raw[i]);
    }
    forall i | 0 <= i < |raw| ensures CleanSegments(digit, [Segments(digit, raw)[i]]) {}
    assert forall i | 0 <= i < |raw| :: Segments(digit, raw)[i] == [Segments(digit, raw)[i]][0];
  }

  lemma LeadingSlashStrips(parts: seq<string>)
    requires parts != [] && forall i | 0 <= i < |parts| :: '/' !in parts[i]
    requires parts == [""] || (parts[0] != "" && parts[|parts| - 1] != "")
    ensures StripSlashes("/" + Join(parts, "/")) == Join(parts, "/")
  {
    var text := Join(parts, "/");
    assert ("/" + text)[1..] == text;
    if parts != [""] {
      var first, last := parts[0], parts[|parts| - 1];
      JoinLast(parts, "/");
      assert first[0] in first && last[|last| - 1] in last;
      assert text[0] == first[0];
    }
  }

  /** The segments of a normalised path are those of the path, ids replaced: the text splits back. */
  lemma NormalizedSplitsBack(digit: DigitTest, path: string)
    ensures var parts := Segments(digit, Split(StripSlashes(path), '/'));
            && CleanSegments(digit, parts)
            && Split(StripSlashes(NormalizePath(digit, path)), '/') == parts
  {
    var stripped := StripSlashes(path);
    var raw := Split(stripped, '/');
    var parts := Segments(digit, raw);
    SplitPiecesLackSeparator(stripped, '/');
    SegmentsAreClean(digit, raw);
    if stripped != "" { SplitEnds(stripped, '/'); }
    LeadingSlashStrips(parts);
    forall p | p in parts ensures '/' !in p {
      var i :| 0 <= i < |parts| && parts[i] == p;
    }
    SplitOfJoin(parts, '/');
  }

  /** Normalising again changes nothing, and no segment of a normalised path is an id. */
  lemma NormalizeTwice(digit: DigitTest, path: string)
    ensures NormalizePath(digit, NormalizePath(digit, path)) == NormalizePath(digit, path)
  {
    NormalizedSplitsBack(digit, path);
    var parts := Segments(digit, Split(StripSlashes(path), '/'));
    assert Segments(digit, parts) == parts;
  }

  /** A path without ids and without stray slashes stays as it is. */
  lemma PlainPathsStay(digit: DigitTest, path: string)
    requires StripSlashes("/" + path) == path
    requires forall p | p in Split(path, '/') :: !IsId(digit, p)
    ensures NormalizePath(digit, "/" + path) == "/" + path
  {
    var parts := Split(path, '/');
    forall i | 0 <= i < |parts| ensures Segment(digit, parts[i]) == parts[i] { assert parts[i] in parts; }
    assert Segments(digit, parts) == parts;
    JoinOfSplit(path, '/');
  }

  /* ----- the same, said of the characters of the path ----- */

  predicate HexText(s: string, n: nat) { |s| == n && forall c | c in s :: IsHex(c) }

  /** Hexadecimal groups of 8, 4, 4, 4 and 12 characters joined by hyphens; a line feed may follow. */
  ghost predicate UuidText(part: string) {
    exists a, b, c, d, e ::
      && HexText(a, 8) && HexText(b, 4) && HexText(c, 4) && HexText(d, 4) && HexText(e, 12)
      && (part == UuidOf(a, b, c, d, e) || part == UuidOf(a, b, c, d, e) + "\n")
  }

  ghost function UuidOf(a: string, b: string, c: string, d: string, e: string): string {
    a + "-" + b + "-" + c + "-" + d + "-" + e
  }

  ghost predicate HexRange(part: string, from: nat, to: nat)
    requires from <= to <= |part|
  {
    forall i | from <= i < to :: IsHex(part[i])
  }

  lemma HexSlice(part: string, from: nat, to: nat)
    requires from <= to <= |part| && HexRange(part, from, to)
    ensures HexText(part[from..to], to - from)
  {
  }

  lemma UuidIsText(part: string)
    requires IsUuid(part)
    ensures UuidText(part)
  {
    HexSlice(part, 0, 8);
    HexSlice(part, 9, 13);
    HexSlice(part, 14, 18);
    HexSlice(part, 19, 23);
    HexSlice(part, 24, 36);
    var text := UuidOf(part[0..8], part[9..13], part[14..18], part[19..23], part[24..36]);
    assert text == part[..36];
    assert part == text || part == text + "\n";
  }

  lemma TextIsUuid(a: string, b: string, c: string, d: string, e: string)
    requires HexText(a, 8) && HexText(b, 4) && HexText(c, 4) && HexText(d, 4) && HexText(e, 12)
    ensures IsUuid(UuidOf(a, b, c, d, e)) && IsUuid(UuidOf(a, b, c, d, e) + "\n")
  {
    var text := UuidOf(a, b, c, d, e);
    assert |text| == 36 && text[8] == '-' && text[13] == '-' && text[18] == '-' && text[23] == '-';
    assert forall i | 0 <= i < 8 :: text[i] == a[i] && a[i] in a;
    assert forall i | 9 <= i < 13 :: text[i] == b[i - 9] && b[i - 9] in b;
    assert forall i | 14 <= i < 18 :: text[i] == c[i - 14] && c[i - 14] in c;
    assert forall i | 19 <= i < 23 :: text[i] == d[i - 19] && d[i - 19] in d;
    assert forall i | 24 <= i < 36 :: text[i] == e[i - 24] && e[i - 24] in e;
    assert forall i | 0 <= i < 36 :: (text + "\n")[i] == text[i];
  }

  /** A path segment is an id exactly when it is written as a UUID or in digits alone. */
  lemma IdMeaning(digit: DigitTest, part: string)
    ensures IsId(digit, part) <==> UuidText(part) || (part != "" && forall c | c in part :: digit(c))
  {
    if IsUuid(part) { UuidIsText(part); }
    if UuidText(part) {
      var a, b, c, d, e :|
        && HexText(a, 8) && HexText(b, 4) && HexText(c, 4) && HexText(d, 4) && HexText(e, 12)
        && (part == UuidOf(a, b, c, d, e) || part == UuidOf(a, b, c, d, e) + "\n");
      TextIsUuid(a, b, c, d, e);
    }
  }

  predicate AllSlashes(s: string) { forall c | c in s :: c == '/' }

  lemma {:induction false} StripSlashesAround(before: string, core: string, after: string)
    requires AllSlashes(before) && AllSlashes(after)
    requires core != "" ==> core[0] != '/' && core[|core| - 1] != '/'
    requires core == "" ==> after == ""
    ensures StripSlashes(before + core + after) == core
    decreases |before| + |after|
  {
    var path := before + core + after;
    if before != "" {
      assert before[0] in before && path[1..] == before[1..] + core + after;
      assert forall c | c in before[1..] :: c in before;
      StripSlashesAround(before[1..], core, after);
    } else if after != "" {
      var front := after[..|after| - 1];
      assert after[|after| - 1] in after && path[..|path| - 1] == before + core + front;
      assert forall c | c in front :: c in after;
      StripSlashesAround(before, core, front);
      assert path[0] == core[0];
    } else {
      assert path == core;
    }
  }

  /** Segment `i` of a path and of its normal form: an id becomes a placeholder, anything else stays. */
  ghost predicate SegmentNormalized(digit: DigitTest, raw: string, shown: string) {
    if UuidText(raw) || (raw != "" && forall c | c in raw :: digit(c)) then shown == "{id}" else shown == raw
  }

  /** A path whose slash-free segments stand between any number of slashes at either end is normalised
      segment by segment, with one slash before each. */
  lemma NormalizeMeaning(digit: DigitTest, before: string, raw: seq<string>, after: string) returns (shown: seq<string>)
    requires AllSlashes(before) && AllSlashes(after)
    requires raw != [] && raw[0] != "" && raw[|raw| - 1] != "" && forall p | p in raw :: '/' !in p
    ensures |shown| == |raw| && forall i | 0 <= i < |raw| :: SegmentNormalized(digit, raw[i], shown[i])
    ensures NormalizePath(digit, before + Join(raw, "/") + after) == "/" + Join(shown, "/")
  {
    var core := Join(raw, "/");
    shown := Segments(digit, raw);
    JoinLast(raw, "/");
    assert raw[0][0] in raw[0] && raw[|raw| - 1][|raw[|raw| - 1]| - 1] in raw[|raw| - 1];
    assert raw[0] in raw && raw[|raw| - 1] in raw;
    assert core[0] == raw[0][0];
    StripSlashesAround(before, core, after);
    SplitOfJoin(raw, '/');
    forall i | 0 <= i < |raw| ensures SegmentNormalized(digit, raw[i], shown[i]) { IdMeaning(digit, raw[i]); }
  }

  /** A path of slashes alone, and the empty path, becomes a single slash. */
  lemma RootNormalized(digit: DigitTest, path: string)
    requires AllSlashes(path)
    ensures NormalizePath(digit, path) == "/"
  {
    StripSlashesAround(path, "", "");
    assert path + "" + "" == path;
    assert Split("", '/') == [""] && Segments(digit, [""]) == [""];
  }

  method NormalizePathByLoop(digit: DigitTest, path: string) returns (r: string)
    ensures r == NormalizePath(digit, path)
  {
    var parts := Split(StripSlashes(path), '/');
    var normalized := [];
    for i := 0 to |parts|
      invariant normalized == Segments(digit, parts[..i])
    {
      normalized := normalized + [if IsId(digit, parts[i]) then "{id}" else parts[i]];
    }
    assert parts[..|parts|] == parts;
    return "/" + Join(normalized, "/");
  }

  /* ----- the module's state ----- */

  class Metrics {
    var requestCounts: map<string, nat>
    var durationSum: map<string, real>
    var durationCount: map<string, nat>
    var cardinalityWarned: bool
    const digit: DigitTest
    ghost var recorded: seq<Request>

    ghost function View(): Counters reads this { Counters(requestCounts, durationSum, durationCount) }

    ghost predicate Valid() reads this { View() == Run(recorded) }

    constructor (digit: DigitTest)
      ensures Valid() && recorded == [] && !cardinalityWarned && this.digit == digit
    {
      this.digit := digit;
      requestCounts, durationSum, durationCount, cardinalityWarned, recorded := map[], map[], map[], false, [];
    }

    /** `record_request` */
    method RecordRequest(httpMethod: string, path: string, status: int, seconds: real)
      requires Valid()
      modifies this
      ensures Valid()
      ensures recorded == old(recorded) +
                          [Request(DurationKey(httpMethod, NormalizePath(digit, path)), status, seconds)]
      ensures cardinalityWarned == (old(cardinalityWarned) || !Admitted(old(View()), recorded[|old(recorded)|]))
    {
      var normalized := NormalizePathByLoop(digit, path);
      Count(DurationKey(httpMethod, normalized), status, seconds);
    }

    /** The part of `record_request` after the path is normalised. */
    method Count(durKey: string, status: int, seconds: real)
      requires Valid()
      modifies this
      ensures Valid() && recorded == old(recorded) + [Request(durKey, status, seconds)]
      ensures cardinalityWarned == (old(cardinalityWarned) || !Admitted(old(View()), Request(durKey, status, seconds)))
    {
      var key := CountKey(durKey, status);
      if key !in requestCounts && durKey !in durationSum && |requestCounts| >= MAX_METRIC_KEYS {
        cardinalityWarned := true;
      } else {
        requestCounts := Bump(requestCounts, key);
        durationSum := durationSum[durKey := Seconds(durationSum, durKey) + seconds];
        durationCount := Bump(durationCount, durKey);
      }
      assert View() == Record(old(View()), Request(durKey, status, seconds));
      RunStep(recorded, Request(durKey, status, seconds));
      recorded := recorded + [Request(durKey, status, seconds)];
    }
  }
}
