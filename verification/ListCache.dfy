/** Product listing through the shared cache, as a state machine over interleaved requests.
    A miss runs two statements (count, then rows) and stores the page; a mutation commits
    and then clears the cache. Any steps of different requests may interleave. */
module ListCache {
  import opened Sequences
  import opened TtlCache

  datatype Item = Item(id: nat, name: string, description: Option<string>, scheduleType: Option<string>,
                       team: Option<string>)

  /** The committed products as the unfiltered query sees them, ordered by name. */
  type Db = seq<Item>

  datatype PageKey = PageKey(skip: nat, limit: nat)

  datatype Page = Page(items: seq<Item>, total: nat)

  function Clip(i: nat, n: nat): nat { if i <= n then i else n }

  function Rows(db: Db, key: PageKey): seq<Item> {
    var from := Clip(key.skip, |db|);
    db[from..Clip(from + key.limit, |db|)]
  }

  /** A page is the products from position `skip` on, at most `limit` of them, and fewer only at the end. */
  lemma RowsMeaning(db: Db, key: PageKey)
    ensures var rows := Rows(db, key);
            && |rows| <= key.limit
            && (forall i | 0 <= i < |rows| :: key.skip + i < |db| && rows[i] == db[key.skip + i])
            && (|rows| < key.limit ==> key.skip + |rows| >= |db|)
  {
  }

  function Total(db: Db): nat { |db| }

  /** The page an uncached query would return now. */
  function FreshPage(db: Db, key: PageKey): Page { Page(Rows(db, key), Total(db)) }

  function CacheKey(key: PageKey): string { "all:" + Decimal(key.skip) + ":" + Decimal(key.limit) }

  lemma CacheKeyParts(key: PageKey)
    ensures Split(CacheKey(key), ':') == ["all", Decimal(key.skip), Decimal(key.limit)]
  {
    var skip, limit := Decimal(key.skip), Decimal(key.limit);
    SplitHead(limit, "", ':');
    SplitHead(skip, limit, ':');
    SplitHead("all", skip + [':'] + limit, ':');
    assert CacheKey(key) == "all" + [':'] + (skip + [':'] + limit);
  }

  lemma CacheKeyInjective(a: PageKey, b: PageKey)
    requires CacheKey(a) == CacheKey(b)
    ensures a == b
  {
    CacheKeyParts(a);
    CacheKeyParts(b);
    var parts := Split(CacheKey(a), ':');
    assert parts[1] == Decimal(a.skip) == Decimal(b.skip) && parts[2] == Decimal(a.limit) == Decimal(b.limit);
    DecimalInjective(a.skip, b.skip);
    DecimalInjective(a.limit, b.limit);
  }

  /* ----- the state machine ----- */

  datatype Query = Missed(key: PageKey) | Counted(key: PageKey, total: nat)
                 | Loaded(key: PageKey, total: nat, rows: seq<Item>)

  /** `uncleared` counts mutations that have committed but not yet cleared the cache. */
  datatype State = State(now: real, db: Db, cache: Store<Page>, queries: map<nat, Query>, uncleared: nat)

  datatype Step =
    | Tick(later: real)
    | Hit(key: PageKey, page: Page)
    | Miss(q: nat, key: PageKey)
    | CountRows(q: nat)
    | LoadRows(q: nat)
    | StorePage(q: nat)
    | Abandon(q: nat)
    | Commit(db: Db)
    | ClearCache

  ghost predicate Next(ttl: real, s: State, step: Step, s': State) {
    match step
    case Tick(later) => s.now <= later && s' == s.(now := later)
    case Hit(key, page) => Find(s.cache, ttl, CacheKey(key), s.now) == Some(page) && s' == s
    case Miss(q, key) =>
      Find(s.cache, ttl, CacheKey(key), s.now) == None && q !in s.queries
      && s' == s.(queries := s.queries[q := Missed(key)])
    case CountRows(q) =>
      && q in s.queries && s.queries[q].Missed?
      && s' == s.(queries := s.queries[q := Counted(s.queries[q].key, Total(s.db))])
    case LoadRows(q) =>
      && q in s.queries && s.queries[q].Counted?
      && s' == s.(queries := s.queries[q := Loaded(s.queries[q].key, s.queries[q].total,
                                                   Rows(s.db, s.queries[q].key))])
    case StorePage(q) =>
      && q in s.queries && s.queries[q].Loaded?
      && s' == s.(queries := s.queries - {q},
                  cache := Put(s.cache, ttl, CacheKey(s.queries[q].key),
                               Page(s.queries[q].rows, s.queries[q].total), s.now))
    case Abandon(q) => s' == s.(queries := s.queries - {q})
    case Commit(db) => s' == s.(db := db, uncleared := s.uncleared + 1)
    case ClearCache => s.uncleared > 0 && s' == s.(cache := map[], uncleared := s.uncleared - 1)
  }

  ghost predicate Initial(s: State) { s.cache == map[] && s.queries == map[] && s.uncleared == 0 }

  ghost predicate StepTaken(ttl: real, states: seq<State>, steps: seq<Step>, i: nat)
    requires i < |steps| < |states|
  {
    Next(ttl, states[i], steps[i], states[i + 1])
  }

  ghost predicate Run(ttl: real, states: seq<State>, steps: seq<Step>) {
    && |states| == |steps| + 1
    && Initial(states[0])
    && forall i: nat | i < |steps| :: StepTaken(ttl, states, steps, i)
  }

  /* ----- staleness ----- */

  /** The step belongs to query `q`. */
  ghost predicate Touches(step: Step, q: nat) {
    match step
    case Miss(p, _) => p == q
    case CountRows(p) => p == q
    case LoadRows(p) => p == q
    case StorePage(p) => p == q
    case Abandon(p) => p == q
    case _ => false
  }

  /** Query `q` counted at step `c` and loaded at step `r`, and no other step before `n` is its own:
      both reads belong to the query that still has that id in state `n`. */
  ghost predicate ReadAt(steps: seq<Step>, q: nat, c: nat, r: nat, n: nat) {
    && c < r < n <= |steps|
    && steps[c] == CountRows(q) && steps[r] == LoadRows(q)
    && forall k | c < k < n && k != r :: !Touches(steps[k], q)
  }

  lemma {:induction false} CountWitness(ttl: real, states: seq<State>, steps: seq<Step>, n: nat, q: nat)
    returns (c: nat)
    requires Run(ttl, states, steps) && n < |states|
    requires q in states[n].queries && states[n].queries[q].Counted?
    ensures c < n && steps[c] == CountRows(q) && states[n].queries[q].total == Total(states[c].db)
    ensures forall k | c < k < n :: !Touches(steps[k], q)
  {
    assert StepTaken(ttl, states, steps, n - 1);
    if steps[n - 1] == CountRows(q) {
      c := n - 1;
    } else {
      c := CountWitness(ttl, states, steps, n - 1, q);
    }
  }

  lemma {:induction false} LoadWitness(ttl: real, states: seq<State>, steps: seq<Step>, n: nat, q: nat)
    returns (c: nat, r: nat)
    requires Run(ttl, states, steps) && n < |states|
    requires q in states[n].queries && states[n].queries[q].Loaded?
    ensures ReadAt(steps, q, c, r, n)
    ensures states[n].queries[q].total == Total(states[c].db)
    ensures states[n].queries[q].rows == Rows(states[r].db, states[n].queries[q].key)
  {
    assert StepTaken(ttl, states, steps, n - 1);
    if steps[n - 1] == LoadRows(q) {
      c := CountWitness(ttl, states, steps, n - 1, q);
      r := n - 1;
    } else {
      c, r := LoadWitness(ttl, states, steps, n - 1, q);
    }
  }

  /** An entry is either what the step just stored, or was there before a step that is no clear. */
  lemma EntryOrigin(ttl: real, states: seq<State>, steps: seq<Step>, i: nat, key: PageKey)
    requires Run(ttl, states, steps) && i < |steps| && CacheKey(key) in states[i + 1].cache
    ensures !steps[i].ClearCache? && (steps[i].StorePage? ==> steps[i].q in states[i].queries)
    ensures steps[i].StorePage? ==> states[i].queries[steps[i].q].Loaded?
    ensures var k, s, step, s' := CacheKey(key), states[i], steps[i], states[i + 1];
            if step.StorePage? && s.queries[step.q].key == key
            then s'.cache[k] == Entry(s.now, Page(s.queries[step.q].rows, s.queries[step.q].total))
            else k in s.cache && s.cache[k] == s'.cache[k]
  {
    assert StepTaken(ttl, states, steps, i);
    var s, step := states[i], steps[i];
    if step.StorePage? && CacheKey(s.queries[step.q].key) == CacheKey(key) {
      CacheKeyInjective(s.queries[step.q].key, key);
    }
  }

  /** Query `q` counted, loaded and stored at steps `c`, `r` and `w`, with no clear from then up to `n`. */
  ghost predicate StoredAt(steps: seq<Step>, q: nat, c: nat, r: nat, w: nat, n: nat) {
    && ReadAt(steps, q, c, r, w) && w < n <= |steps| && steps[w] == StorePage(q)
    && forall k | w <= k < n :: !steps[k].ClearCache?
  }

  lemma StillStored(steps: seq<Step>, q: nat, c: nat, r: nat, w: nat, n: nat)
    requires StoredAt(steps, q, c, r, w, n) && n < |steps| && !steps[n].ClearCache?
    ensures StoredAt(steps, q, c, r, w, n + 1)
  {
  }

  lemma JustStored(steps: seq<Step>, q: nat, c: nat, r: nat, w: nat)
    requires ReadAt(steps, q, c, r, w) && w < |steps| && steps[w] == StorePage(q)
    ensures StoredAt(steps, q, c, r, w, w + 1)
  {
  }

  lemma StoreWitness(ttl: real, states: seq<State>, steps: seq<Step>, w: nat) returns (c: nat, r: nat)
    requires Run(ttl, states, steps) && w < |steps| && steps[w].StorePage?
    ensures steps[w].q in states[w].queries && states[w].queries[steps[w].q].Loaded?
    ensures StoredAt(steps, steps[w].q, c, r, w, w + 1)
    ensures states[w].queries[steps[w].q].total == Total(states[c].db)
    ensures states[w].queries[steps[w].q].rows == Rows(states[r].db, states[w].queries[steps[w].q].key)
  {
    assert StepTaken(ttl, states, steps, w);
    c, r := LoadWitness(ttl, states, steps, w, steps[w].q);
    JustStored(steps, steps[w].q, c, r, w);
  }

  /** Every cache entry was put there by some query's store step, from what that query read. */
  lemma {:induction false} EntryWitness(ttl: real, states: seq<State>, steps: seq<Step>, n: nat, key: PageKey)
    returns (q: nat, c: nat, r: nat, w: nat)
    requires Run(ttl, states, steps) && n < |states| && CacheKey(key) in states[n].cache
    ensures StoredAt(steps, q, c, r, w, n)
    ensures states[n].cache[CacheKey(key)] ==
            Entry(states[w].now, Page(Rows(states[r].db, key), Total(states[c].db)))
  {
    var before, step := states[n - 1], steps[n - 1];
    EntryOrigin(ttl, states, steps, n - 1, key);
    if step.StorePage? && before.queries[step.q].key == key {
      q, w := step.q, n - 1;
      c, r := StoreWitness(ttl, states, steps, w);
    } else {
      q, c, r, w := EntryWitness(ttl, states, steps, n - 1, key);
      StillStored(steps, q, c, r, w, n - 1);
    }
  }

  lemma {:induction false} ClockAdvances(ttl: real, states: seq<State>, steps: seq<Step>, i: nat, j: nat)
    requires Run(ttl, states, steps) && i <= j < |states|
    ensures states[i].now <= states[j].now
    decreases j
  {
    if i < j {
      assert StepTaken(ttl, states, steps, j - 1);
      ClockAdvances(ttl, states, steps, i, j - 1);
    }
  }

  /** A cached answer in any interleaving: its rows are the fresh rows, and its total the fresh total,
      at two instants of one earlier query; the rows' instant is no older than the TTL plus the time
      that query took from loading to storing. */
  lemma CachedPageAge(ttl: real, states: seq<State>, steps: seq<Step>, n: nat)
    returns (q: nat, c: nat, r: nat, w: nat)
    requires Run(ttl, states, steps) && n < |steps| && steps[n].Hit?
    ensures StoredAt(steps, q, c, r, w, n)
    ensures steps[n].page == Page(Rows(states[r].db, steps[n].key), Total(states[c].db))
    ensures states[n].now - states[w].now <= ttl
    ensures states[n].now - states[r].now <= ttl + (states[w].now - states[r].now)
    ensures states[n].now - states[c].now <= ttl + (states[w].now - states[c].now)
    ensures states[c].now <= states[r].now <= states[w].now <= states[n].now
  {
    assert StepTaken(ttl, states, steps, n);
    q, c, r, w := EntryWitness(ttl, states, steps, n, steps[n].key);
    ClockAdvances(ttl, states, steps, c, r);
    ClockAdvances(ttl, states, steps, r, w);
    ClockAdvances(ttl, states, steps, w, n);
  }

  lemma {:induction false} DbStays(ttl: real, states: seq<State>, steps: seq<Step>, i: nat, j: nat)
    requires Run(ttl, states, steps) && i <= j < |states|
    requires forall k | i <= k < j :: !steps[k].Commit?
    ensures states[i].db == states[j].db
    decreases j
  {
    if i < j {
      assert StepTaken(ttl, states, steps, j - 1);
      DbStays(ttl, states, steps, i, j - 1);
    }
  }

  /** A cached page whose count and rows no commit separated was fresh as a whole when its rows were
      loaded, and stays the fresh page until the next commit. */
  lemma CachedPageAtOneInstant(ttl: real, states: seq<State>, steps: seq<Step>, n: nat)
    returns (q: nat, c: nat, r: nat, w: nat)
    requires Run(ttl, states, steps) && n < |steps| && steps[n].Hit?
    ensures StoredAt(steps, q, c, r, w, n)
    ensures (forall k | c <= k < r :: !steps[k].Commit?) ==>
              forall m | r <= m <= n && (forall k | r <= k < m :: !steps[k].Commit?) ::
                steps[n].page == FreshPage(states[m].db, steps[n].key)
  {
    q, c, r, w := CachedPageAge(ttl, states, steps, n);
    if forall k | c <= k < r :: !steps[k].Commit? {
      DbStays(ttl, states, steps, c, r);
      forall m | r <= m <= n && (forall k | r <= k < m :: !steps[k].Commit?)
        ensures steps[n].page == FreshPage(states[m].db, steps[n].key)
      {
        DbStays(ttl, states, steps, r, m);
      }
    }
  }

  ghost predicate OnlyCommit(steps: seq<Step>, c: nat, k: nat, r: nat) {
    c <= k < r <= |steps| && steps[k].Commit? && forall i | c <= i < r && i != k :: !steps[i].Commit?
  }

  /** `page` was the fresh page at some instant from state `c` to state `r`. */
  ghost predicate FreshBetween(states: seq<State>, c: nat, r: nat, key: PageKey, page: Page)
    requires c <= r < |states|
  {
    exists m: nat :: c <= m <= r && page == FreshPage(states[m].db, key)
  }

  /** In any run, a cached page with one commit between its count and its load was the fresh page at
      some instant from the one to the other exactly when that commit left alone the rows of this page
      or the number of products. */
  lemma CachedPageTornIff(ttl: real, states: seq<State>, steps: seq<Step>, n: nat)
    returns (q: nat, c: nat, r: nat, w: nat)
    requires Run(ttl, states, steps) && n < |steps| && steps[n].Hit?
    ensures StoredAt(steps, q, c, r, w, n)
    ensures forall k: nat | OnlyCommit(steps, c, k, r) ::
              FreshBetween(states, c, r, steps[n].key, steps[n].page) <==>
              || Rows(states[k].db, steps[n].key) == Rows(states[k + 1].db, steps[n].key)
              || Total(states[k].db) == Total(states[k + 1].db)
  {
    q, c, r, w := CachedPageAge(ttl, states, steps, n);
    forall k: nat | OnlyCommit(steps, c, k, r)
      ensures FreshBetween(states, c, r, steps[n].key, steps[n].page) <==>
              || Rows(states[k].db, steps[n].key) == Rows(states[k + 1].db, steps[n].key)
              || Total(states[k].db) == Total(states[k + 1].db)
    {
      DbStays(ttl, states, steps, c, k);
      DbStays(ttl, states, steps, k + 1, r);
      forall m: nat | c <= m <= r ensures states[m].db == if m <= k then states[k].db else states[k + 1].db {
        if m <= k { DbStays(ttl, states, steps, m, k); } else { DbStays(ttl, states, steps, k + 1, m); }
      }
      var before := steps[n].page == FreshPage(states[k].db, steps[n].key);
      var after := steps[n].page == FreshPage(states[k + 1].db, steps[n].key);
      assert FreshBetween(states, c, r, steps[n].key, steps[n].page) <==> before || after;
    }
  }

  /* ----- when a cached page is fresh ----- */

  /** Without a clear, mutations waiting to clear only grow in number, one with each commit. */
  lemma {:induction false} UnclearedGrows(ttl: real, states: seq<State>, steps: seq<Step>, i: nat, j: nat)
    requires Run(ttl, states, steps) && i <= j < |states|
    requires forall k | i <= k < j :: !steps[k].ClearCache?
    ensures states[i].uncleared <= states[j].uncleared
    ensures states[i].uncleared == states[j].uncleared ==> forall k | i <= k < j :: !steps[k].Commit?
    decreases j
  {
    if i < j {
      assert StepTaken(ttl, states, steps, j - 1);
      UnclearedGrows(ttl, states, steps, i, j - 1);
    }
  }

  /** In any run, a cached answer given while no mutation is between its commit and its clear is the
      fresh answer exactly when its own query read what was still so when it stored: no other query,
      and no commit outside that query's window, matters. */
  lemma CachedPageFresh(ttl: real, states: seq<State>, steps: seq<Step>, n: nat)
    returns (q: nat, c: nat, r: nat, w: nat)
    requires Run(ttl, states, steps) && n < |steps| && steps[n].Hit? && states[n].uncleared == 0
    ensures StoredAt(steps, q, c, r, w, n) && forall k | w <= k < n :: !steps[k].Commit?
    ensures states[w].uncleared == 0 && states[w].db == states[n].db
    ensures steps[n].page == FreshPage(states[n].db, steps[n].key) <==>
            && Rows(states[r].db, steps[n].key) == Rows(states[w].db, steps[n].key)
            && Total(states[c].db) == Total(states[w].db)
    ensures (forall k | c <= k < w :: !steps[k].Commit?) ==>
            steps[n].page == FreshPage(states[n].db, steps[n].key)
  {
    q, c, r, w := CachedPageAge(ttl, states, steps, n);
    UnclearedGrows(ttl, states, steps, w, n);
    DbStays(ttl, states, steps, w, n);
    if forall k | c <= k < w :: !steps[k].Commit? {
      DbStays(ttl, states, steps, c, w);
      DbStays(ttl, states, steps, r, w);
    }
  }

  /* ----- what interleaving can do ----- */

  /** A commit between a query's load and its store outlives its own clear: with nothing in flight,
      nothing left to clear and no time gone by, the next listing gets the page from before the commit. */
  lemma LateStoreServesOldPage(before: Db, after: Db, key: PageKey, ttl: real)
    returns (states: seq<State>, steps: seq<Step>, n: nat)
    requires ttl >= 0.0
    ensures Run(ttl, states, steps) && n < |steps| && steps[n] == Hit(key, FreshPage(before, key))
    ensures states[n].queries == map[] && states[n].uncleared == 0 && states[n].db == after
  {
    var total, rows := Total(before), Rows(before, key);
    var s0 := State(0.0, before, map[], map[], 0);
    var s1 := s0.(queries := map[0 := Missed(key)]);
    var s2 := s0.(queries := map[0 := Counted(key, total)]);
    var s3 := s0.(queries := map[0 := Loaded(key, total, rows)]);
    var s4 := s3.(db := after, uncleared := 1);
    var s5 := s4.(uncleared := 0);
    var s6 := s5.(queries := map[], cache := map[CacheKey(key) := Entry(0.0, Page(rows, total))]);
    states := [s0, s1, s2, s3, s4, s5, s6, s6];
    steps := [Miss(0, key), CountRows(0), LoadRows(0), Commit(after), ClearCache, StorePage(0),
              Hit(key, Page(rows, total))];
    n := 6;
    assert Next(ttl, s5, StorePage(0), s6) by { assert s5.queries - {0} == map[]; }
    forall i: nat | i < |steps| ensures StepTaken(ttl, states, steps, i) {
      assert i == 0 || i == 1 || i == 2 || i == 3 || i == 4 || i == 5 || i == 6;
    }
  }

  /** A run with a commit between the two statements of the query that fills the cache. */
  lemma StraddledRun(before: Db, after: Db, key: PageKey, ttl: real) returns (states: seq<State>, steps: seq<Step>)
    requires ttl >= 0.0
    ensures Run(ttl, states, steps) && |steps| == 6
    ensures steps[5] == Hit(key, Page(Rows(after, key), Total(before))) && OnlyCommit(steps, 1, 2, 3)
    ensures states[0].db == before && states[5].db == after
    ensures forall i | 0 <= i < |states| :: states[i].db == before || states[i].db == after
  {
    var total, rows := Total(before), Rows(after, key);
    var s0 := State(0.0, before, map[], map[], 0);
    var s1 := s0.(queries := map[0 := Missed(key)]);
    var s2 := s0.(queries := map[0 := Counted(key, total)]);
    var s3 := s2.(db := after, uncleared := 1);
    var s4 := s3.(queries := map[0 := Loaded(key, total, rows)]);
    var s5 := s4.(queries := map[], cache := map[CacheKey(key) := Entry(0.0, Page(rows, total))]);
    states := [s0, s1, s2, s3, s4, s5, s5];
    steps := [Miss(0, key), CountRows(0), Commit(after), LoadRows(0), StorePage(0), Hit(key, Page(rows, total))];
    assert Next(ttl, s4, StorePage(0), s5) by { assert s4.queries - {0} == map[]; }
    forall i: nat | i < |steps| ensures StepTaken(ttl, states, steps, i) {
      assert i == 0 || i == 1 || i == 2 || i == 3 || i == 4 || i == 5;
    }
  }

  /** Tearing happens, with any two databases: the page served is then the fresh one at no instant of the
      run, unless the commit left alone the number of products or the rows of this page. */
  lemma StraddledCommitTearsPage(before: Db, after: Db, key: PageKey, ttl: real)
    returns (states: seq<State>, steps: seq<Step>, n: nat)
    requires ttl >= 0.0
    ensures Run(ttl, states, steps) && n < |steps| && steps[n] == Hit(key, Page(Rows(after, key), Total(before)))
    ensures (exists i :: 0 <= i < |states| && steps[n].page == FreshPage(states[i].db, key)) <==>
            Total(before) == Total(after) || Rows(before, key) == Rows(after, key)
  {
    states, steps := StraddledRun(before, after, key, ttl);
    n := 5;
    assert states[0].db == before && states[5].db == after;
  }
}
