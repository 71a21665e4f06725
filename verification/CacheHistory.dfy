/**
 Theorems over whole histories of the job cache: when a clean-up can be seen, when an entry
 leaves, and that every interleaving of goroutines is such a history.
 */
module CacheHistory {
  import opened Wrappers
  import opened GoStrings
  import opened Strconv
  import opened Reflect
  import opened JobTypes
  import opened Jobs
  import opened Cache

  type History = seq<Timed>

  predicate AllReadable(h: History) {
    forall i :: 0 <= i < |h| ==> NoPanic(h[i].action)
  }

  /** The cache after a history of actions, each with the clock reading it took. */
  function Run(timeout: int, m: CacheMap, h: History): CacheMap
    requires AllReadable(h)
  {
    if h == [] then m else Apply(timeout, Run(timeout, m, h[..|h| - 1]), h[|h| - 1])
  }

  lemma {:induction false} RunAppend(timeout: int, m: CacheMap, a: History, b: History)
    requires AllReadable(a) && AllReadable(b)
    ensures Run(timeout, m, a + b) == Run(timeout, Run(timeout, m, a), b)
  {
    hide Apply;
    if b == [] {
      assert a + b == a;
    } else {
      assert (a + b)[..|a + b| - 1] == a + b[..|b| - 1];
      RunAppend(timeout, m, a, b[..|b| - 1]);
    }
  }

  lemma RunCons(timeout: int, m: CacheMap, t: Timed, h: History)
    requires NoPanic(t.action) && AllReadable(h)
    ensures Run(timeout, m, [t] + h) == Run(timeout, Apply(timeout, m, t), h)
  {
    hide Apply;
    RunAppend(timeout, m, [t], h);
    assert [t][..0] == [];
  }

  // ---- clean-up is invisible to histories with non-decreasing readings ----

  /** What a caller learns from an action. */
  datatype Observation = Found(job: Option<Job>) | IsUp(running: bool) | Listed(jobs: map<string, Job>) | Nothing

  function Observe(m: CacheMap, t: Timed): Observation {
    match t.action
    case Get(id) => Found(Lookup(m, id, t.now))
    case IsRunning(id) => IsUp(Running(m, id))
    case List => Listed(Active(m, t.now))
    case _ => Nothing
  }

  /** The observations of a history's actions, clean-ups left out. */
  function Observations(timeout: int, m: CacheMap, h: History): seq<Observation>
    requires AllReadable(h)
    decreases |h|
  {
    if h == [] then []
    else
      (if h[0].action.Cleanup? then [] else [Observe(m, h[0])])
      + Observations(timeout, Apply(timeout, m, h[0]), h[1..])
  }

  function WithoutCleanups(h: History): (r: History)
    ensures AllReadable(h) ==> AllReadable(r)
    ensures forall t :: t in r ==> t in h
  {
    if h == [] then []
    else if h[0].action.Cleanup? then WithoutCleanups(h[1..])
    else [h[0]] + WithoutCleanups(h[1..])
  }

  predicate ReadingsFrom(h: History, t: int) {
    h == [] || (t <= h[0].now && ReadingsFrom(h[1..], h[0].now))
  }

  /** `small` lacks only entries of `big` that are stale at time `t`; elsewhere they agree. */
  ghost predicate Behind(t: int, small: CacheMap, big: CacheMap) {
    && (forall id :: id in small ==> id in big && small[id] == big[id])
    && (forall id :: id in big && id !in small ==> Stale(big[id], t))
  }

  /** Related caches look the same to every action, and stay related under every action. */
  lemma Bisimulation(timeout: int, t: int, small: CacheMap, big: CacheMap, step: Timed)
    requires Behind(t, small, big) && t <= step.now && NoPanic(step.action)
    ensures Observe(small, step) == Observe(big, step)
    ensures Behind(step.now, Apply(timeout, small, step), Apply(timeout, big, step))
  {
    SameObservation(t, small, big, step);
    hide Accepted, Expiration, Observe;
    match step.action {
      case Cleanup =>
      case Delete(id) => BehindDelete(timeout, t, small, big, step.now, id);
      case _ =>
    }
  }

  lemma SameObservation(t: int, small: CacheMap, big: CacheMap, step: Timed)
    requires Behind(t, small, big) && t <= step.now
    ensures Observe(small, step) == Observe(big, step)
  {
    if step.action.List? {
      assert Active(small, step.now) == Active(big, step.now);
    }
  }

  lemma BehindDelete(timeout: int, t: int, small: CacheMap, big: CacheMap, now: int, id: string)
    requires Behind(t, small, big) && t <= now
    ensures var step := Timed(now, Action.Delete(id));
            Behind(now, Apply(timeout, small, step), Apply(timeout, big, step))
  {
    hide Accepted, Expiration, Cleaned;
  }

  /** A clean-up on one side only keeps the caches related. */
  lemma CleanupStays(timeout: int, t: int, small: CacheMap, big: CacheMap, now: int)
    requires Behind(t, small, big) && t <= now
    ensures Behind(now, Cleaned(small, now), big)
  {
  }

  lemma {:induction false} CleanupsUnseen(timeout: int, t: int, small: CacheMap, big: CacheMap, h: History)
    requires AllReadable(h) && ReadingsFrom(h, t) && Behind(t, small, big)
    ensures Observations(timeout, small, h) == Observations(timeout, big, WithoutCleanups(h))
    decreases |h|
  {
    hide Behind, Observe, NoPanic, Cleaned;
    if h == [] {
    } else {
      var step := h[0];
      if step.action.Cleanup? {
        CleanupStays(timeout, t, small, big, step.now);
        CleanupsUnseen(timeout, step.now, Cleaned(small, step.now), big, h[1..]);
      } else {
        Bisimulation(timeout, t, small, big, step);
        hide Apply;
        CleanupsUnseen(timeout, step.now, Apply(timeout, small, step), Apply(timeout, big, step), h[1..]);
        var rest := WithoutCleanups(h[1..]);
        assert WithoutCleanups(h) == [step] + rest && ([step] + rest)[1..] == rest;
      }
    }
  }

  /**
   Inserting or removing clean-ups anywhere changes no result: two histories that differ only
   in clean-ups, each with non-decreasing clock readings, show their callers the same.
   */
  lemma CleanupInvisible(timeout: int, m: CacheMap, h1: History, h2: History, t: int)
    requires AllReadable(h1) && AllReadable(h2) && ReadingsFrom(h1, t) && ReadingsFrom(h2, t)
    requires WithoutCleanups(h1) == WithoutCleanups(h2)
    ensures Observations(timeout, m, h1) == Observations(timeout, m, h2)
  {
    CleanupsUnseen(timeout, t, m, m, h1);
    CleanupsUnseen(timeout, t, m, m, h2);
  }

  lemma {:induction false} ObserveLast(timeout: int, m: CacheMap, h: History, t: Timed)
    requires AllReadable(h) && NoPanic(t.action) && !t.action.Cleanup?
    ensures AllReadable(h + [t])
    ensures Observations(timeout, m, h + [t]) == Observations(timeout, m, h) + [Observe(Run(timeout, m, h), t)]
    decreases |h|
  {
    hide Apply, Observe, Run;
    if h == [] {
      assert h + [t] == [t] && [t][1..] == [];
      RunNothing(timeout, m);
    } else {
      assert (h + [t])[1..] == h[1..] + [t] && [h[0]] + h[1..] == h;
      ObserveLast(timeout, Apply(timeout, m, h[0]), h[1..], t);
      RunCons(timeout, m, h[0], h[1..]);
    }
  }

  lemma RunNothing(timeout: int, m: CacheMap)
    ensures Run(timeout, m, []) == m
  {
  }

  lemma {:induction false} ReadingsSnoc(h: History, t: int, last: Timed)
    requires ReadingsFrom(h, t) && t <= last.now && ReadAtMost(h, last.now)
    ensures ReadingsFrom(h + [last], t)
  {
    if h == [] {
      assert h + [last] == [last] && [last][1..] == [];
    } else {
      assert (h + [last])[1..] == h[1..] + [last];
      ReadingsSnoc(h[1..], h[0].now, last);
    }
  }

  lemma {:induction false} WithoutSnoc(h: History, t: Timed)
    requires !t.action.Cleanup?
    ensures WithoutCleanups(h + [t]) == WithoutCleanups(h) + [t]
  {
    if h == [] {
      assert h + [t] == [t] && [t][1..] == [];
    } else {
      assert (h + [t])[1..] == h[1..] + [t];
      WithoutSnoc(h[1..], t);
    }
  }

  lemma SameAnswer(timeout: int, m: CacheMap, h1: History, h2: History, t: int, last: Timed)
    requires AllReadable(h1) && AllReadable(h2) && ReadingsFrom(h1, t) && ReadingsFrom(h2, t)
    requires WithoutCleanups(h1) == WithoutCleanups(h2) && NoPanic(last.action) && !last.action.Cleanup?
    requires t <= last.now && ReadAtMost(h1, last.now) && ReadAtMost(h2, last.now)
    ensures Observe(Run(timeout, m, h1), last) == Observe(Run(timeout, m, h2), last)
  {
    hide Observe, Observations, Run, ReadingsFrom, NoPanic, ReadAtMost;
    ObserveLast(timeout, m, h1, last);
    ObserveLast(timeout, m, h2, last);
    ReadingsSnoc(h1, t, last);
    ReadingsSnoc(h2, t, last);
    WithoutSnoc(h1, last);
    WithoutSnoc(h2, last);
    CleanupInvisible(timeout, m, h1 + [last], h2 + [last], t);
    SameEnd(Observations(timeout, m, h1), Observe(Run(timeout, m, h1), last),
            Observations(timeout, m, h2), Observe(Run(timeout, m, h2), last));
  }

  lemma SameEnd<T>(a: seq<T>, x: T, b: seq<T>, y: T)
    requires a + [x] == b + [y]
    ensures x == y
  {
    assert (a + [x])[|a + [x]| - 1] == x && (b + [y])[|b + [y]| - 1] == y;
  }

  /**
   So after two such histories, at a reading no earlier than theirs, `Get` finds the same job, the
   same jobs run, and `List` gives the same.
   */
  lemma SameAnswers(timeout: int, m: CacheMap, h1: History, h2: History, t: int, id: string, now: int)
    requires AllReadable(h1) && AllReadable(h2) && ReadingsFrom(h1, t) && ReadingsFrom(h2, t)
    requires WithoutCleanups(h1) == WithoutCleanups(h2)
    requires t <= now && ReadAtMost(h1, now) && ReadAtMost(h2, now)
    ensures Lookup(Run(timeout, m, h1), id, now) == Lookup(Run(timeout, m, h2), id, now)
    ensures Running(Run(timeout, m, h1), id) == Running(Run(timeout, m, h2), id)
    ensures Active(Run(timeout, m, h1), now) == Active(Run(timeout, m, h2), now)
  {
    hide Run, ReadingsFrom, ReadAtMost, Lookup, Running, Active, WithoutCleanups, AllReadable;
    SameAnswer(timeout, m, h1, h2, t, Timed(now, Get(id)));
    SameAnswer(timeout, m, h1, h2, t, Timed(now, IsRunning(id)));
    SameAnswer(timeout, m, h1, h2, t, Timed(now, List));
  }

  // ---- exactly when a clean-up shows ----

  /** A step after which an ended entry of `id` with this expiration is gone or replaced. */
  predicate Settles(timeout: int, t: Timed, id: string, expiration: int)
    requires NoPanic(t.action)
  {
    || (Accepted(timeout, t) && t.action.id == id)
    || ((t.action == Cleanup || t.action == Action.Delete(id)) && t.now > expiration)
  }

  predicate AnySettles(timeout: int, h: History, id: string, expiration: int)
    requires AllReadable(h)
  {
    exists i :: 0 <= i < |h| && Settles(timeout, h[i], id, expiration)
  }

  /** The caches say the same of `id`. */
  ghost predicate SameAt(m: CacheMap, n: CacheMap, id: string) {
    (id in m <==> id in n) && (id in m && id in n ==> m[id] == n[id])
  }

  lemma SameAtStep(timeout: int, m: CacheMap, n: CacheMap, id: string, t: Timed)
    requires NoPanic(t.action) && SameAt(m, n, id)
    ensures SameAt(Apply(timeout, m, t), Apply(timeout, n, t), id)
  {
    hide Expiration;
  }

  /** A step settles a missing ended entry, or leaves it missing on one side and as it was on the other. */
  lemma SettlingStep(timeout: int, small: CacheMap, big: CacheMap, id: string, t: Timed)
    requires NoPanic(t.action) && id !in small && id in big && !big[id].isRunning
    ensures var s, b := Apply(timeout, small, t), Apply(timeout, big, t);
            if Settles(timeout, t, id, big[id].expiration) then SameAt(s, b, id)
            else id !in s && id in b && b[id] == big[id]
  {
    hide Expiration;
  }

  /** What a clean-up before a history changes of `id` after it. */
  lemma {:induction false} CleanedThen(timeout: int, m: CacheMap, u: int, h: History, id: string)
    requires AllReadable(h)
    ensures var small, big := Run(timeout, Cleaned(m, u), h), Run(timeout, m, h);
            if id in m && Stale(m[id], u) && !AnySettles(timeout, h, id, m[id].expiration)
            then id !in small && id in big && big[id] == m[id]
            else SameAt(small, big, id)
    decreases |h|
  {
    hide Accepted, Expiration, Apply, Settles;
    if h == [] {
    } else {
      var init, t := h[..|h| - 1], h[|h| - 1];
      CleanedThen(timeout, m, u, init, id);
      var small, big := Run(timeout, Cleaned(m, u), init), Run(timeout, m, init);
      if id in m && Stale(m[id], u) {
        AnySettlesMore(timeout, h, id, m[id].expiration);
        if !AnySettles(timeout, init, id, m[id].expiration) {
          SettlingStep(timeout, small, big, id, t);
        } else {
          SameAtStep(timeout, small, big, id, t);
        }
      } else {
        SameAtStep(timeout, small, big, id, t);
      }
    }
  }

  lemma AnySettlesMore(timeout: int, h: History, id: string, expiration: int)
    requires h != [] && AllReadable(h)
    ensures AnySettles(timeout, h, id, expiration)
       <==> AnySettles(timeout, h[..|h| - 1], id, expiration) || Settles(timeout, h[|h| - 1], id, expiration)
  {
    hide Settles;
    var init := h[..|h| - 1];
    assert forall i :: 0 <= i < |init| ==> init[i] == h[i];
    if i :| 0 <= i < |h| && Settles(timeout, h[i], id, expiration) {
      assert i == |h| - 1 || init[i] == h[i];
    }
  }

  /**
   A clean-up at reading `u`, before a history and a `Get` at reading `now`, takes away what
   the `Get` would have found: an ended entry that had expired at `u` but not at `now`, and
   that no step in between replaced or removed.
   */
  predicate Missed(timeout: int, m: CacheMap, u: int, h: History, id: string, now: int)
    requires AllReadable(h)
  {
    id in m && Stale(m[id], u) && now <= m[id].expiration && !AnySettles(timeout, h, id, m[id].expiration)
  }

  /**
   For every cache and any readings, a `Get` finds the same with the clean-up as without, exactly
   unless it misses.
   */
  lemma GetExactly(timeout: int, m: CacheMap, u: int, h: History, id: string, now: int)
    requires AllReadable(h)
    ensures var with, without := Lookup(Run(timeout, Cleaned(m, u), h), id, now), Lookup(Run(timeout, m, h), id, now);
            if Missed(timeout, m, u, h, id, now) then with == None && without == Some(m[id].job) else with == without
  {
    hide Run, Cleaned, AnySettles;
    CleanedThen(timeout, m, u, h, id);
  }

  /**
   So a clean-up at `u` is invisible to a `Get` at `now`, whatever the cache, exactly when
   `now` is no earlier than `u`, or a step in between sets the id, or deletes it or cleans up
   at a reading no earlier than `u`.
   */
  lemma GetNeverMisses(timeout: int, u: int, h: History, id: string, now: int)
    requires AllReadable(h)
    ensures (forall m: CacheMap ::
               Lookup(Run(timeout, Cleaned(m, u), h), id, now) == Lookup(Run(timeout, m, h), id, now))
       <==> now >= u || AnySettles(timeout, h, id, u - 1)
  {
    hide Run, Cleaned, Settles, Lookup;
    if now >= u || AnySettles(timeout, h, id, u - 1) {
      forall m: CacheMap
        ensures Lookup(Run(timeout, Cleaned(m, u), h), id, now) == Lookup(Run(timeout, m, h), id, now)
      {
        GetExactly(timeout, m, u, h, id, now);
        if Missed(timeout, m, u, h, id, now) {
          SettlesEarlier(timeout, h, id, u - 1, m[id].expiration);
        }
      }
    } else {
      var m := map[id := Entry(u - 1, false, Zero(JOB))];
      GetExactly(timeout, m, u, h, id, now);
      assert Missed(timeout, m, u, h, id, now);
    }
  }

  lemma SettlesEarlier(timeout: int, h: History, id: string, expiration: int, earlier: int)
    requires AllReadable(h) && earlier <= expiration && AnySettles(timeout, h, id, expiration)
    ensures AnySettles(timeout, h, id, earlier)
  {
    var i :| 0 <= i < |h| && Settles(timeout, h[i], id, expiration);
    assert Settles(timeout, h[i], id, earlier);
  }

  /** A `List` shows the clean-up exactly when a `Get` of some id would. */
  lemma ListExactly(timeout: int, m: CacheMap, u: int, h: History, now: int)
    requires AllReadable(h)
    ensures Active(Run(timeout, Cleaned(m, u), h), now) == Active(Run(timeout, m, h), now)
       <==> forall id :: !Missed(timeout, m, u, h, id, now)
  {
    hide Run, Cleaned, AnySettles, Missed;
    var with, without := Run(timeout, Cleaned(m, u), h), Run(timeout, m, h);
    forall id
      ensures Lookup(with, id, now) == Lookup(without, id, now) <==> !Missed(timeout, m, u, h, id, now)
    {
      GetExactly(timeout, m, u, h, id, now);
    }
    LookupsDecide(with, without, now);
  }

  lemma LookupsDecide(m: CacheMap, n: CacheMap, now: int)
    ensures Active(m, now) == Active(n, now) <==> forall id :: Lookup(m, id, now) == Lookup(n, id, now)
  {
    if Active(m, now) == Active(n, now) {
      forall id ensures Lookup(m, id, now) == Lookup(n, id, now) {
        assert id in Active(m, now) <==> id in Active(n, now);
      }
    }
    if forall id :: Lookup(m, id, now) == Lookup(n, id, now) {
      forall id ensures id in Active(m, now) <==> id in Active(n, now) {
        assert Lookup(m, id, now) == Lookup(n, id, now);
      }
      forall id | id in Active(m, now) ensures Active(m, now)[id] == Active(n, now)[id] {
        assert Lookup(m, id, now) == Lookup(n, id, now);
      }
    }
  }

  /** `IsRunning` never shows a clean-up, whatever the readings. */
  lemma IsRunningNeverShows(timeout: int, m: CacheMap, u: int, h: History, id: string)
    requires AllReadable(h)
    ensures Running(Run(timeout, Cleaned(m, u), h), id) == Running(Run(timeout, m, h), id)
  {
    hide Run, Cleaned, AnySettles;
    CleanedThen(timeout, m, u, h, id);
  }

  /**
   It happens: a job set and deleted at reading 0 is still found at 60, but not by a `Get` that
   read the clock at 60 and acts after a clean-up that read it at 61.
   */
  lemma CleanupShowsWhenStale()
    ensures var job := NamedJob("1");
            var before, get := StaleBefore(job), Timed(60, Get("1"));
            && JobId(job) == "1" && AllReadable(before + [get]) && AllReadable(before + [Timed(61, Cleanup), get])
            && Observations(60, map[], before + [get]) == [Nothing, Nothing, Found(Some(job))]
            && Observations(60, map[], before + [Timed(61, Cleanup), get]) == [Nothing, Nothing, Found(None)]
  {
    NamedJobIs("1", 60);
    SplitNoSep("1", '.');
    hide Expiration, HasReadableWalltime, NamedJob, Hashname, Split;
    var job := NamedJob("1");
    StaleGet(job);
  }

  function StaleBefore(job: Job): History {
    [Timed(0, Action.Set("1", Some(job))), Timed(0, Action.Delete("1"))]
  }

  lemma StaleGet(job: Job)
    requires HasReadableWalltime(job) && Expiration(job, 60) == 60
    ensures var before, get := StaleBefore(job), Timed(60, Get("1"));
            && AllReadable(before + [get]) && AllReadable(before + [Timed(61, Cleanup), get])
            && Observations(60, map[], before + [get]) == [Nothing, Nothing, Found(Some(job))]
            && Observations(60, map[], before + [Timed(61, Cleanup), get]) == [Nothing, Nothing, Found(None)]
  {
    hide Expiration, HasReadableWalltime;
    var set0, delete0, cleanup, get :=
      Timed(0, Action.Set("1", Some(job))), Timed(0, Action.Delete("1")), Timed(61, Cleanup), Timed(60, Get("1"));
    var m := map["1" := Entry(60, false, job)];
    assert Apply(60, map[], set0) == map["1" := Entry(60, true, job)];
    assert Apply(60, Apply(60, map[], set0), delete0) == m;
    assert Cleaned(m, 61) == map[];
    ObserveTwo(60, set0, delete0, [get]);
    ObserveTwo(60, set0, delete0, [cleanup, get]);
    assert [get][1..] == [] && [cleanup, get][1..] == [get];
    assert Observations(60, m, [get]) == [Found(Some(job))] + Observations(60, m, []);
    assert Observations(60, m, [cleanup, get]) == Observations(60, map[], [get]);
    assert Observations(60, map[], [get]) == [Found(None)] + Observations(60, map[], []);
  }

  lemma ObserveTwo(timeout: int, a: Timed, b: Timed, h: History)
    requires AllReadable([a, b] + h) && AllReadable(h) && NoPanic(a.action) && NoPanic(b.action)
    requires !a.action.Cleanup? && !b.action.Cleanup?
    ensures var m := Apply(timeout, map[], a);
            Observations(timeout, map[], [a, b] + h)
            == [Observe(map[], a), Observe(m, b)] + Observations(timeout, Apply(timeout, m, b), h)
  {
    hide Apply, Observe;
    assert ([a, b] + h)[1..] == [b] + h && ([b] + h)[1..] == h;
  }

  // ---- when an entry is there, and when it leaves, whatever the readings ----

  predicate SetsAt(timeout: int, h: History, id: string, k: int)
    requires AllReadable(h)
  {
    0 <= k < |h| && Accepted(timeout, h[k]) && h[k].action.id == id
  }

  predicate DeletesAt(h: History, id: string, k: int) {
    0 <= k < |h| && h[k].action == Action.Delete(id)
  }

  /** `s` is the last accepted `Set` of `id` before `n`. */
  ghost predicate LastSet(timeout: int, h: History, id: string, s: int, n: int)
    requires AllReadable(h)
  {
    s < n && SetsAt(timeout, h, id, s) && forall k :: s < k < n ==> !SetsAt(timeout, h, id, k)
  }

  /** `d` is the first `Delete` of `id` after `s`. */
  ghost predicate FirstDelete(h: History, id: string, s: int, d: int, n: int) {
    s < d < n && DeletesAt(h, id, d) && forall k :: s < k < d ==> !DeletesAt(h, id, k)
  }

  ghost predicate NeverDeleted(h: History, id: string, s: int, n: int) {
    forall k :: s < k < n ==> !DeletesAt(h, id, k)
  }

  /** The entry that a `Set` at `s` and then `Delete`s leave behind. */
  ghost predicate Explained(timeout: int, h: History, id: string, s: int, n: int, e: Entry)
    requires AllReadable(h)
  {
    && LastSet(timeout, h, id, s, n)
    && e.job == h[s].action.job.value
    && (if e.isRunning then NeverDeleted(h, id, s, n) && e.expiration == Expiration(e.job, timeout)
        else exists d :: FirstDelete(h, id, s, d, n) && e.expiration == Wrap64(h[d].now + timeout))
  }

  ghost predicate IsExplained(timeout: int, h: History, id: string, n: int, e: Entry)
    requires AllReadable(h)
  {
    exists s :: Explained(timeout, h, id, s, n, e)
  }

  lemma ReadablePrefix(h: History, n: nat)
    requires AllReadable(h) && n <= |h|
    ensures AllReadable(h[..n])
  {
  }

  /** The cache after the first `n` actions of a history that began empty. */
  function After(timeout: int, h: History, n: nat): CacheMap
    requires AllReadable(h) && n <= |h|
  {
    ReadablePrefix(h, n);
    Run(timeout, map[], h[..n])
  }

  lemma AfterStep(timeout: int, h: History, n: nat)
    requires AllReadable(h) && n < |h|
    ensures After(timeout, h, n + 1) == Apply(timeout, After(timeout, h, n), h[n])
  {
    hide Apply;
    assert h[..n + 1][..n] == h[..n] && h[..n + 1][n] == h[n];
  }

  /**
   Every entry present comes from the last accepted `Set` of its id.  While no `Delete`
   followed it runs, with the expiration of its job; from the first `Delete` on it has that
   reading plus the timeout, and later `Delete`s never extend it.
   */
  lemma {:induction false} EntriesExplained(timeout: int, h: History, id: string, n: nat)
    requires AllReadable(h) && n <= |h| && id in After(timeout, h, n)
    ensures IsExplained(timeout, h, id, n, After(timeout, h, n)[id])
    decreases n
  {
    if n > 0 {
      AfterStep(timeout, h, n - 1);
      var before, after := After(timeout, h, n - 1), After(timeout, h, n);
      hide After, Expiration, Explained;
      if SetsAt(timeout, h, id, n - 1) {
        SetExplains(timeout, h, id, n, after[id]);
      } else {
        assert id in before;
        EntriesExplained(timeout, h, id, n - 1);
        var s :| Explained(timeout, h, id, s, n - 1, before[id]);
        StepExplains(timeout, h, id, s, n - 1, before, after);
      }
    }
  }

  lemma SetExplains(timeout: int, h: History, id: string, n: nat, e: Entry)
    requires AllReadable(h) && 0 < n <= |h| && SetsAt(timeout, h, id, n - 1)
    requires e == Entry(Expiration(h[n - 1].action.job.value, timeout), true, h[n - 1].action.job.value)
    ensures IsExplained(timeout, h, id, n, e)
  {
    hide Expiration;
    assert Explained(timeout, h, id, n - 1, n, e);
  }

  lemma StepExplains(timeout: int, h: History, id: string, s: int, n: nat, before: CacheMap, after: CacheMap)
    requires AllReadable(h) && n < |h| && id in before && id in after
    requires Explained(timeout, h, id, s, n, before[id]) && !SetsAt(timeout, h, id, n)
    requires after == Apply(timeout, before, h[n])
    ensures IsExplained(timeout, h, id, n + 1, after[id])
  {
    hide Expiration;
    var e := before[id];
    if e.isRunning {
      if DeletesAt(h, id, n) {
        assert FirstDelete(h, id, s, n, n + 1);
      }
    } else {
      var d :| FirstDelete(h, id, s, d, n) && e.expiration == Wrap64(h[d].now + timeout);
      assert FirstDelete(h, id, s, d, n + 1);
    }
    assert Explained(timeout, h, id, s, n + 1, after[id]);
  }

  /**
   The step at `n` removes `id` after its grace period: its reading exceeds that of a `Delete` at
   `d` plus the timeout, a sum in 64-bit arithmetic.
   */
  ghost predicate RemovedAfterGrace(timeout: int, h: History, id: string, s: int, d: int, n: nat)
    requires AllReadable(h) && n < |h|
  {
    && (h[n].action == Cleanup || h[n].action == Action.Delete(id))
    && LastSet(timeout, h, id, s, n)
    && FirstDelete(h, id, s, d, n)
    && h[n].now > Wrap64(h[d].now + timeout)
  }

  /** An entry leaves the cache only after a `Delete` and its grace period, however stale the readings. */
  lemma LeavesOnlyAfterGrace(timeout: int, h: History, id: string, n: nat)
    requires AllReadable(h) && n < |h|
    requires id in After(timeout, h, n) && id !in After(timeout, h, n + 1)
    ensures exists s, d :: RemovedAfterGrace(timeout, h, id, s, d, n)
  {
    AfterStep(timeout, h, n);
    EntriesExplained(timeout, h, id, n);
    var e := After(timeout, h, n)[id];
    hide After, Expiration;
    assert Stale(e, h[n].now);
    var s :| Explained(timeout, h, id, s, n, e);
    var d :| FirstDelete(h, id, s, d, n) && e.expiration == Wrap64(h[d].now + timeout);
    assert RemovedAfterGrace(timeout, h, id, s, d, n);
  }

  /** A running entry survives every action but a `Delete` or a new `Set` of its id. */
  lemma RunningNeverRemoved(timeout: int, h: History, id: string, n: nat)
    requires AllReadable(h) && n < |h|
    requires Running(After(timeout, h, n), id)
    ensures id in After(timeout, h, n + 1)
    ensures h[n].action != Action.Delete(id) && !SetsAt(timeout, h, id, n) ==>
              After(timeout, h, n + 1)[id] == After(timeout, h, n)[id]
  {
    AfterStep(timeout, h, n);
    hide After, Expiration;
  }

  // ---- how long one job is served ----

  predicate Touches(t: Timed, id: string) {
    (t.action.Set? || t.action.Delete?) && t.action.id == id
  }

  /** No step of the history sets or deletes `id`. */
  predicate LeavesAlone(h: History, id: string) {
    forall i :: 0 <= i < |h| ==> !Touches(h[i], id)
  }

  predicate ReadAtMost(h: History, now: int) {
    forall i :: 0 <= i < |h| ==> h[i].now <= now
  }

  /** A running entry stays as it is through any steps that do not touch its id. */
  lemma {:induction false} RunningStays(timeout: int, m: CacheMap, h: History, id: string)
    requires AllReadable(h) && id in m && m[id].isRunning
    requires LeavesAlone(h, id)
    ensures id in Run(timeout, m, h) && Run(timeout, m, h)[id] == m[id]
    decreases |h|
  {
    hide Accepted, Expiration;
    if h == [] {
    } else {
      RunningStays(timeout, m, h[..|h| - 1], id);
      assert !Touches(h[|h| - 1], id);
    }
  }

  /** An entry in its grace period stays until a step's reading exceeds its expiration. */
  lemma {:induction false} GraceStays(timeout: int, m: CacheMap, h: History, id: string, now: int)
    requires AllReadable(h) && id in m && !m[id].isRunning
    requires LeavesAlone(h, id) && ReadAtMost(h, now)
    ensures id in Run(timeout, m, h) ==> Run(timeout, m, h)[id] == m[id]
    ensures id !in Run(timeout, m, h) ==> m[id].expiration < now
    decreases |h|
  {
    hide Accepted, Expiration;
    if h == [] {
    } else {
      GraceStays(timeout, m, h[..|h| - 1], id, now);
      assert !Touches(h[|h| - 1], id);
    }
  }

  /** After an accepted `Set`, `Get` returns the job exactly until its expiration, while its id is left alone. */
  lemma ServedWhileRunning(timeout: int, m: CacheMap, setting: Timed, between: History, now: int)
    requires NoPanic(setting.action) && Accepted(timeout, setting)
    requires AllReadable(between) && LeavesAlone(between, setting.action.id)
    ensures Lookup(Run(timeout, m, [setting] + between), setting.action.id, now)
         == if now <= Expiration(setting.action.job.value, timeout) then setting.action.job else None
  {
    RunCons(timeout, m, setting, between);
    var m1 := Apply(timeout, m, setting);
    hide Run, Accepted, Expiration, LeavesAlone, AllReadable;
    RunningStays(timeout, m1, between, setting.action.id);
  }

  /** After a `Delete` that follows, it returns the job exactly during the grace period. */
  lemma ServedInGrace(
    timeout: int, m: CacheMap, setting: Timed, between: History, deleted: int, later: History, now: int)
    requires NoPanic(setting.action) && Accepted(timeout, setting)
    requires AllReadable(between) && LeavesAlone(between, setting.action.id)
    requires AllReadable(later) && LeavesAlone(later, setting.action.id) && ReadAtMost(later, now)
    ensures var deletion := Timed(deleted, Action.Delete(setting.action.id));
            Lookup(Run(timeout, m, ([setting] + between) + ([deletion] + later)), setting.action.id, now)
            == if now <= Wrap64(deleted + timeout) then setting.action.job else None
  {
    var deletion := Timed(deleted, Action.Delete(setting.action.id));
    RunAppend(timeout, m, [setting] + between, [deletion] + later);
    RunCons(timeout, m, setting, between);
    var m1 := Apply(timeout, m, setting);
    var m2 := Run(timeout, m1, between);
    RunCons(timeout, m2, deletion, later);
    hide Run, Accepted, Expiration, LeavesAlone, AllReadable, ReadAtMost;
    RunningStays(timeout, m1, between, setting.action.id);
    GraceStays(timeout, Apply(timeout, m2, deletion), later, setting.action.id, now);
  }

  // ---- goroutines: reading the clock and acting are two steps ----

  datatype Machine = Machine(clock: int, cache: CacheMap, waiting: map<nat, Timed>, done: History)

  datatype Move =
    | Tick(clock: int)
    | ReadClock(thread: nat, action: Action)
    | Act(thread: nat)

  predicate Enabled(m: Machine, move: Move) {
    match move
    case Tick(t) => t >= m.clock
    case ReadClock(thread, action) => thread !in m.waiting && NoPanic(action)
    case Act(thread) => thread in m.waiting
  }

  /** The machine's own bookkeeping: readings lie in the past, and the cache is what the finished actions made it. */
  ghost predicate Sound(timeout: int, m: Machine) {
    && AllReadable(m.done) && m.cache == Run(timeout, map[], m.done)
    && (forall thread :: thread in m.waiting ==>
          NoPanic(m.waiting[thread].action) && m.waiting[thread].now <= m.clock)
    && (forall i :: 0 <= i < |m.done| ==> m.done[i].now <= m.clock)
  }

  function Moved(timeout: int, m: Machine, move: Move): Machine
    requires Enabled(m, move) && forall thread :: thread in m.waiting ==> NoPanic(m.waiting[thread].action)
  {
    match move
    case Tick(t) => m.(clock := t)
    case ReadClock(thread, action) => m.(waiting := m.waiting[thread := Timed(m.clock, action)])
    case Act(thread) =>
      Machine(m.clock, Apply(timeout, m.cache, m.waiting[thread]), m.waiting - {thread}, m.done + [m.waiting[thread]])
  }

  lemma MovedSound(timeout: int, m: Machine, move: Move)
    requires Sound(timeout, m) && Enabled(m, move)
    ensures Sound(timeout, Moved(timeout, m, move))
  {
    hide Apply;
    if move.Act? {
      var t := m.waiting[move.thread];
      assert (m.done + [t])[..|m.done|] == m.done;
    }
  }

  /**
   Under every interleaving, the move that removes an entry is a clean-up or `Delete` past the
   entry's grace period.
   */
  lemma RemovedOnlyAfterGrace(timeout: int, m: Machine, move: Move, id: string)
    requires Sound(timeout, m) && Enabled(m, move)
    requires id in m.cache && id !in Moved(timeout, m, move).cache
    ensures move.Act? && AllReadable(Moved(timeout, m, move).done)
    ensures exists s, d :: RemovedAfterGrace(timeout, Moved(timeout, m, move).done, id, s, d, |m.done|)
  {
    MovedSound(timeout, m, move);
    var done := Moved(timeout, m, move).done;
    hide Apply, RemovedAfterGrace;
    assert done[..|m.done|] == m.done && done[..|m.done| + 1] == done;
    LeavesOnlyAfterGrace(timeout, done, id, |m.done|);
  }

  /** All moves can be made one after the other. */
  ghost predicate Possible(timeout: int, m: Machine, moves: seq<Move>)
    requires Sound(timeout, m)
    decreases |moves|
  {
    moves == [] ||
    (Enabled(m, moves[0])
     && (MovedSound(timeout, m, moves[0]); Possible(timeout, Moved(timeout, m, moves[0]), moves[1..])))
  }

  ghost function AfterMoves(timeout: int, m: Machine, moves: seq<Move>): (r: Machine)
    requires Sound(timeout, m) && Possible(timeout, m, moves)
    ensures Sound(timeout, r)
    decreases |moves|
  {
    if moves == [] then m
    else
      MovedSound(timeout, m, moves[0]);
      AfterMoves(timeout, Moved(timeout, m, moves[0]), moves[1..])
  }

  lemma MoveFirst(timeout: int, m: Machine, move: Move, rest: seq<Move>)
    requires Sound(timeout, m) && Enabled(m, move)
    ensures Sound(timeout, Moved(timeout, m, move))
    ensures Possible(timeout, Moved(timeout, m, move), rest) ==>
              && Possible(timeout, m, [move] + rest)
              && AfterMoves(timeout, m, [move] + rest) == AfterMoves(timeout, Moved(timeout, m, move), rest)
  {
    MovedSound(timeout, m, move);
    hide Apply, Sound, Moved, Enabled;
    assert ([move] + rest)[1..] == rest;
  }

  /** The machine after an action whose thread reads the clock and acts at once. */
  function Acted(timeout: int, m: Machine, action: Action): Machine
    requires NoPanic(action)
  {
    var t := Timed(m.clock, action);
    Machine(m.clock, Apply(timeout, m.cache, t), m.waiting, m.done + [t])
  }

  lemma AtOnce(timeout: int, m: Machine, thread: nat, action: Action, rest: seq<Move>)
    requires Sound(timeout, m) && thread !in m.waiting && NoPanic(action)
    ensures Sound(timeout, Acted(timeout, m, action))
    ensures Possible(timeout, Acted(timeout, m, action), rest) ==>
              && Possible(timeout, m, [ReadClock(thread, action), Act(thread)] + rest)
              && AfterMoves(timeout, m, [ReadClock(thread, action), Act(thread)] + rest)
                 == AfterMoves(timeout, Acted(timeout, m, action), rest)
  {
    var read, act := ReadClock(thread, action), Act(thread);
    var reading := Moved(timeout, m, read);
    MovedSound(timeout, m, read);
    assert reading.waiting - {thread} == m.waiting;
    assert Moved(timeout, reading, act) == Acted(timeout, m, action);
    hide Apply, Sound, NoPanic, Possible, AfterMoves;
    MoveFirst(timeout, reading, act, rest);
    MoveFirst(timeout, m, read, [act] + rest);
    assert [read] + ([act] + rest) == [read, act] + rest;
  }

  // ---- a run in which a clean-up shows ----

  const STALE_GET: Timed := Timed(60, Get("1"))

  /** One goroutine sets, deletes and later cleans up; another reads the clock at 60 and acts last. */
  function StaleMoves(job: Job): seq<Move> {
    [ReadClock(0, Action.Set("1", Some(job))), Act(0)]
    + ([ReadClock(0, Action.Delete("1")), Act(0)]
       + ([Tick(60)] + ([ReadClock(1, Get("1"))] + ([Tick(61)] + ([ReadClock(0, Cleanup), Act(0)] + ([Act(1)] + []))))))
  }

  /** The machine can make these moves, and they are the history in which the `Get` misses the job. */
  lemma StaleRun(job: Job)
    requires HasReadableWalltime(job)
    ensures var start := Machine(0, map[], map[], []);
            && Possible(60, start, StaleMoves(job))
            && AfterMoves(60, start, StaleMoves(job)).done == StaleBefore(job) + [Timed(61, Cleanup), STALE_GET]
  {
    hide HasReadableWalltime, Apply, Possible, AfterMoves, Sound;
    var set0, delete0 := Action.Set("1", Some(job)), Action.Delete("1");
    var m0 := Machine(0, map[], map[], []);
    StartSound(0);
    var r6 := [Act(1)] + [];
    var r5 := [ReadClock(0, Cleanup), Act(0)] + r6;
    var r4 := [Tick(61)] + r5;
    var r3 := [ReadClock(1, Get("1"))] + r4;
    var r2 := [Tick(60)] + r3;
    var r1 := [ReadClock(0, delete0), Act(0)] + r2;
    AtOnce(60, m0, 0, set0, r1);
    var m1 := Acted(60, m0, set0);
    AtOnce(60, m1, 0, delete0, r2);
    var m2 := Acted(60, m1, delete0);
    MoveFirst(60, m2, Tick(60), r3);
    var m3 := Moved(60, m2, Tick(60));
    MoveFirst(60, m3, ReadClock(1, Get("1")), r4);
    var m4 := Moved(60, m3, ReadClock(1, Get("1")));
    MoveFirst(60, m4, Tick(61), r5);
    var m5 := Moved(60, m4, Tick(61));
    AtOnce(60, m5, 0, Cleanup, r6);
    var m6 := Acted(60, m5, Cleanup);
    MoveFirst(60, m6, Act(1), []);
    var m7 := Moved(60, m6, Act(1));
    NoMoves(60, m7);
    assert m7.done == [Timed(0, set0), Timed(0, delete0), Timed(61, Cleanup), STALE_GET];
  }

  lemma StartSound(clock: int)
    ensures Sound(60, Machine(clock, map[], map[], []))
  {
  }

  lemma NoMoves(timeout: int, m: Machine)
    requires Sound(timeout, m)
    ensures Possible(timeout, m, []) && AfterMoves(timeout, m, []) == m
  {
  }

  /**
   Whatever the goroutines do, the cache is the one some history of timed actions leaves, so
   every entry in it is explained by its last accepted `Set` and the first `Delete` after it.
   */
  lemma EveryInterleavingExplained(timeout: int, clock: int, moves: seq<Move>, id: string)
    requires Possible(timeout, Machine(clock, map[], map[], []), moves)
    ensures var end := AfterMoves(timeout, Machine(clock, map[], map[], []), moves);
            && AllReadable(end.done)
            && end.cache == Run(timeout, map[], end.done)
            && (id in end.cache ==> IsExplained(timeout, end.done, id, |end.done|, end.cache[id]))
  {
    var end := AfterMoves(timeout, Machine(clock, map[], map[], []), moves);
    assert end.done[..|end.done|] == end.done;
    if id in end.cache {
      EntriesExplained(timeout, end.done, id, |end.done|);
    }
  }
}
