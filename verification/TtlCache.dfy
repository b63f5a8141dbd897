/** The in-memory TTL cache: a dict with lazy bulk eviction, proved observably equal to an
    unbounded record of everything put since the last clear. */
module TtlCache {
  import opened Sequences

  const MAX_ENTRIES: nat := 5000

  datatype Entry<T> = Entry(at: real, value: T)

  type Store<T> = map<string, Entry<T>>

  predicate Fresh<T>(e: Entry<T>, ttl: real, now: real) { now - e.at <= ttl }

  function Unexpired<T>(store: Store<T>, ttl: real, now: real): Store<T> {
    map k | k in store && Fresh(store[k], ttl, now) :: store[k]
  }

  /** The dict after `set`: above the size mark, expired entries go first. */
  function Put<T>(store: Store<T>, ttl: real, key: string, value: T, now: real): Store<T> {
    (if |store| >= MAX_ENTRIES then Unexpired(store, ttl, now) else store)[key := Entry(now, value)]
  }

  function Find<T>(store: Store<T>, ttl: real, key: string, now: real): Option<T> {
    if key in store && Fresh(store[key], ttl, now) then Some(store[key].value) else None
  }

  /* ----- the unbounded reference ----- */

  datatype Event<T> = Set(key: string, at: real, value: T) | Clear

  /** The latest set of `key` that no clear has followed. */
  function Latest<T>(history: seq<Event<T>>, key: string): Option<Entry<T>> {
    if history == [] then None else
      match history[|history| - 1]
      case Clear => None
      case Set(k, at, value) => if k == key then Some(Entry(at, value)) else Latest(history[..|history| - 1], key)
  }

  /** Position `i` of the history sets `key`, and after it nothing sets that key or clears. */
  ghost predicate LastSetAt<T(!new)>(history: seq<Event<T>>, key: string, i: nat) {
    && i < |history| && history[i].Set? && history[i].key == key
    && forall k | i < k < |history| :: history[k].Set? && history[k].key != key
  }

  lemma {:induction false} LatestMeaning<T(!new)>(history: seq<Event<T>>, key: string) returns (i: nat)
    ensures match Latest(history, key)
            case None => forall k: nat :: !LastSetAt(history, key, k)
            case Some(e) => LastSetAt(history, key, i) && e == Entry(history[i].at, history[i].value)
  {
    i := 0;
    if history != [] {
      var n := |history| - 1;
      if history[n].Set? && history[n].key == key {
        i := n;
      } else if history[n].Set? {
        i := LatestMeaning(history[..n], key);
        forall k: nat | LastSetAt(history, key, k) ensures LastSetAt(history[..n], key, k) {}
      }
    }
  }

  lemma OneLastSet<T(!new)>(history: seq<Event<T>>, key: string, i: nat)
    requires LastSetAt(history, key, i)
    ensures forall j: nat | LastSetAt(history, key, j) :: j == i
  {
  }

  /** What an unbounded cache would answer: the latest set, if it is at most `ttl` old. */
  function Answer<T>(history: seq<Event<T>>, ttl: real, key: string, now: real): Option<T> {
    match Latest(history, key)
    case None => None
    case Some(e) => if Fresh(e, ttl, now) then Some(e.value) else None
  }

  /** An answer is the value of the key's last set since any clear, given exactly while that set is at most
      `ttl` old. */
  lemma AnswerMeaning<T(!new)>(history: seq<Event<T>>, ttl: real, key: string, now: real)
    ensures Answer(history, ttl, key, now).Some? <==>
            exists i: nat :: LastSetAt(history, key, i) && now <= history[i].at + ttl
    ensures forall i: nat | LastSetAt(history, key, i) && now <= history[i].at + ttl ::
              Answer(history, ttl, key, now) == Some(history[i].value)
  {
    var j := LatestMeaning(history, key);
    forall i: nat | LastSetAt(history, key, i) ensures LastSetAt(history, key, j) && i == j {
      OneLastSet(history, key, i);
    }
  }

  /** The dict holds latest sets only, and what it lacks had expired by the last `set` at `clock`. */
  ghost predicate Agrees<T>(store: Store<T>, history: seq<Event<T>>, ttl: real, clock: real) {
    forall k ::
      if k in store then Latest(history, k) == Some(store[k])
      else Latest(history, k).Some? ==> !Fresh(Latest(history, k).value, ttl, clock)
  }

  lemma AgreementAnswers<T>(store: Store<T>, history: seq<Event<T>>, ttl: real, clock: real, key: string, now: real)
    requires Agrees(store, history, ttl, clock) && clock <= now
    ensures Find(store, ttl, key, now) == Answer(history, ttl, key, now)
  {
    assert key in store ==> Latest(history, key) == Some(store[key]);
  }

  /** Bulk eviction never shows: agreement survives every `set` on a clock that does not go back. */
  lemma PutKeepsAgreement<T>(store: Store<T>, history: seq<Event<T>>, ttl: real, clock: real,
                             key: string, value: T, now: real)
    requires Agrees(store, history, ttl, clock) && clock <= now
    ensures Agrees(Put(store, ttl, key, value, now), history + [Set(key, now, value)], ttl, now)
  {
    var after, grown := Put(store, ttl, key, value, now), history + [Set(key, now, value)];
    assert grown[..|history|] == history;
    forall k
      ensures if k in after then Latest(grown, k) == Some(after[k])
              else Latest(grown, k).Some? ==> !Fresh(Latest(grown, k).value, ttl, now)
    {
      assert k != key ==> Latest(grown, k) == Latest(history, k);
      assert k in store ==> Latest(history, k) == Some(store[k]);
    }
  }

  class Cache<T> {
    const ttl: real
    var store: Store<T>
    ghost var history: seq<Event<T>>
    ghost var clock: real

    ghost predicate Valid() reads this { Agrees(store, history, ttl, clock) }

    constructor (ttl: real, ghost now: real)
      ensures Valid() && this.ttl == ttl && history == [] && clock == now
    {
      this.ttl, store, history, clock := ttl, map[], [], now;
    }

    /** Answers exactly as the unbounded reference does. */
    method Get(key: string, now: real) returns (r: Option<T>)
      requires Valid() && clock <= now
      ensures r == Answer(history, ttl, key, now)
    {
      AgreementAnswers(store, history, ttl, clock, key, now);
      if key !in store { return None; }
      var entry := store[key];
      if now - entry.at > ttl { return None; }
      return Some(entry.value);
    }

    /** After a `set` the dict is within its size mark or holds nothing that has expired. */
    method SetValue(key: string, value: T, now: real)
      requires Valid() && clock <= now
      modifies this
      ensures Valid() && history == old(history) + [Set(key, now, value)] && clock == now
      ensures store == Put(old(store), ttl, key, value, now)
      ensures |old(store)| < 5000 ==> store == old(store)[key := Entry(now, value)]
      ensures key in store && store[key] == Entry(now, value)
      ensures |store| <= 5000 || forall k | k in store :: ttl >= 0.0 ==> Fresh(store[k], ttl, now)
    {
      PutKeepsAgreement(store, history, ttl, clock, key, value, now);
      if |store| >= MAX_ENTRIES {
        store := Unexpired(store, ttl, now);
      }
      store := store[key := Entry(now, value)];
      history, clock := history + [Set(key, now, value)], now;
    }

    method Clear()
      requires Valid()
      modifies this
      ensures Valid() && history == old(history) + [Event.Clear] && clock == old(clock) && store == map[]
    {
      store := map[];
      history := history + [Event.Clear];
    }
  }

  /* ----- whole runs ----- */

  datatype Call<T> = GetCall(key: string) | SetCall(key: string, value: T) | ClearCall

  /** The events of the first calls of a run. */
  function Events<T>(calls: seq<(real, Call<T>)>): seq<Event<T>> {
    if calls == [] then [] else
      var (at, call) := calls[|calls| - 1];
      Events(calls[..|calls| - 1]) +
      match call
      case GetCall(_) => []
      case SetCall(k, v) => [Set(k, at, v)]
      case ClearCall => [Event.Clear]
  }

  /** If call `i` is a `get`, `answer` is what the latest set before it says. */
  ghost predicate AnswersRight<T>(ttl: real, calls: seq<(real, Call<T>)>, i: nat, answer: Option<T>)
    requires i < |calls|
  {
    calls[i].1.GetCall? ==> answer == Answer(Events(calls[..i]), ttl, calls[i].1.key, calls[i].0)
  }

  /** Every `get` of a run, whatever its sets, clears and evictions, answers by the latest set alone. */
  method Replay<T>(ttl: real, calls: seq<(real, Call<T>)>) returns (answers: seq<Option<T>>)
    requires forall i, j | 0 <= i < j < |calls| :: calls[i].0 <= calls[j].0
    ensures |answers| == |calls|
    ensures forall i | 0 <= i < |calls| :: AnswersRight(ttl, calls, i, answers[i])
  {
    answers := [];
    var cache := new Cache<T>(ttl, if calls == [] then 0.0 else calls[0].0);
    for i := 0 to |calls|
      invariant |answers| == i && cache.Valid() && fresh(cache) && cache.ttl == ttl
      invariant i < |calls| ==> cache.clock <= calls[i].0
      invariant cache.history == Events(calls[..i])
      invariant forall j | 0 <= j < i :: AnswersRight(ttl, calls, j, answers[j])
    {
      assert calls[..i + 1][..i] == calls[..i];
      var (now, call) := calls[i];
      var answer := None;
      match call {
        case GetCall(key) => answer := cache.Get(key, now);
        case SetCall(key, value) => cache.SetValue(key, value, now);
        case ClearCall => cache.Clear();
      }
      answers := answers + [answer];
    }
  }
}
