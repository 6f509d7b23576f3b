/** internal/httpapi/ratelimit.go: the login limiter, a fixed-window counter per
    key with lazy garbage collection. Times are integers on one clock. */
module RateLimit {

  datatype Window = Window(count: int, reset: int)

  datatype Config = Config(limit: int, window: int)

  datatype State = State(hits: map<string, Window>, lastGC: int)

  // ----- one step ------------------------------------------------------------

  predicate Expired(w: Window, now: int) { now > w.reset }

  function Collected(c: Config, s: State, now: int): State {
    if now - s.lastGC < c.window then s
    else State(map k | k in s.hits && !Expired(s.hits[k], now) :: s.hits[k], now)
  }

  /** The window a key is in after an attempt. */
  function Bumped(c: Config, hits: map<string, Window>, key: string, now: int): Window {
    if key !in hits || Expired(hits[key], now) then Window(1, now + c.window)
    else hits[key].(count := hits[key].count + 1)
  }

  /** Allowed when the attempt opens a window or is within the limit. */
  predicate Admits(c: Config, hits: map<string, Window>, key: string, now: int) {
    key !in hits || Expired(hits[key], now) || hits[key].count + 1 <= c.limit
  }

  function Wait(c: Config, hits: map<string, Window>, key: string, now: int): int {
    if Admits(c, hits, key, now) then 0 else Bumped(c, hits, key, now).reset - now
  }

  class Limiter {
    const config: Config
    var hits: map<string, Window>
    var lastGC: int

    constructor (limit: int, per: int)
      ensures config == Config(limit, per) && hits == map[] && lastGC == 0
    {
      config := Config(limit, per);
      hits := map[];
      lastGC := 0;
    }

    method Gc(now: int)
      modifies this
      ensures State(hits, lastGC) == Collected(config, old(State(hits, lastGC)), now)
    {
      if now - lastGC < config.window {
        return;
      }
      lastGC := now;
      var keys := hits.Keys;
      while keys != {}
        invariant lastGC == now && keys <= old(hits).Keys
        invariant forall k :: k in hits <==> k in old(hits) && (k in keys || !Expired(old(hits)[k], now))
        invariant forall k :: k in hits ==> hits[k] == old(hits)[k]
        decreases keys
      {
        var k :| k in keys;
        if Expired(hits[k], now) {
          hits := hits - {k};
        }
        keys := keys - {k};
      }
    }

    method Allow(key: string, now: int) returns (ok: bool, wait: int)
      modifies this
      ensures var s := Collected(config, old(State(hits, lastGC)), now);
              && ok == Admits(config, s.hits, key, now)
              && wait == Wait(config, s.hits, key, now)
              && hits == s.hits[key := Bumped(config, s.hits, key, now)]
              && lastGC == s.lastGC
    {
      Gc(now);
      if key !in hits || now > hits[key].reset {
        hits := hits[key := Window(1, now + config.window)];
        return true, 0;
      }
      var w := hits[key].(count := hits[key].count + 1);
      hits := hits[key := w];
      if w.count > config.limit {
        return false, w.reset - now;
      }
      return true, 0;
    }

    method Reset(key: string)
      modifies this`hits
      ensures hits == old(hits) - {key}
    {
      hits := hits - {key};
    }
  }

  // ----- runs ----------------------------------------------------------------

  datatype Event = Attempt(key: string, now: int) | Clear(key: string)

  datatype Outcome = Outcome(key: string, now: int, ok: bool, wait: int)

  /** The limiter's state after one event. */
  function Step(c: Config, s: State, e: Event): State {
    match e
    case Attempt(key, now) =>
      var g := Collected(c, s, now);
      g.(hits := g.hits[key := Bumped(c, g.hits, key, now)])
    case Clear(key) => s.(hits := s.hits - {key})
  }

  function Answer(c: Config, s: State, key: string, now: int): Outcome {
    var g := Collected(c, s, now);
    Outcome(key, now, Admits(c, g.hits, key, now), Wait(c, g.hits, key, now))
  }

  function StateAfter(c: Config, s: State, es: seq<Event>): State
    decreases |es|
  {
    if es == [] then s else StateAfter(c, Step(c, s, es[0]), es[1..])
  }

  /** Every answer the limiter gives over a run. */
  function Answers(c: Config, s: State, es: seq<Event>): seq<Outcome>
    decreases |es|
  {
    if es == [] then []
    else
      (match es[0] case Attempt(k, now) => [Answer(c, s, k, now)] case Clear(_) => [])
      + Answers(c, Step(c, s, es[0]), es[1..])
  }

  /** The same over a map that is never collected. */
  function PlainStep(c: Config, hits: map<string, Window>, e: Event): map<string, Window> {
    match e
    case Attempt(key, now) => hits[key := Bumped(c, hits, key, now)]
    case Clear(key) => hits - {key}
  }

  function PlainAnswers(c: Config, hits: map<string, Window>, es: seq<Event>): seq<Outcome>
    decreases |es|
  {
    if es == [] then []
    else
      (match es[0]
       case Attempt(k, now) => [Outcome(k, now, Admits(c, hits, k, now), Wait(c, hits, k, now))]
       case Clear(_) => [])
      + PlainAnswers(c, PlainStep(c, hits, es[0]), es[1..])
  }

  /** The clock never runs backwards, from time t on. */
  predicate Monotone(es: seq<Event>, t: int) {
    es == [] ||
    match es[0]
    case Attempt(_, now) => t <= now && Monotone(es[1..], now)
    case Clear(_) => Monotone(es[1..], t)
  }

  function LastTime(es: seq<Event>, t: int): int {
    if es == [] then t else LastTime(es[1..], if es[0].Attempt? then es[0].now else t)
  }

  // ----- collection is invisible ---------------------------------------------

  /** A collected map against the full one: entries agree, and what is missing
      has expired. */
  ghost predicate Agrees(g: map<string, Window>, full: map<string, Window>, t: int) {
    && (forall k :: k in g ==> k in full && g[k] == full[k])
    && (forall k :: k in full && k !in g ==> Expired(full[k], t))
  }

  lemma {:induction false} CollectionIsInvisible(c: Config, s: State, full: map<string, Window>, es: seq<Event>, t: int)
    requires Agrees(s.hits, full, t) && Monotone(es, t)
    ensures Answers(c, s, es) == PlainAnswers(c, full, es)
    decreases |es|
  {
    if es == [] {
    } else {
      match es[0]
      case Attempt(key, now) =>
        assert Agrees(Collected(c, s, now).hits, full, now);
        CollectionIsInvisible(c, Step(c, s, es[0]), PlainStep(c, full, es[0]), es[1..], now);
      case Clear(key) =>
        CollectionIsInvisible(c, Step(c, s, es[0]), PlainStep(c, full, es[0]), es[1..], t);
    }
  }

  /** From an empty limiter, collecting never changes an answer. */
  lemma GcIsInvisible(c: Config, es: seq<Event>, t: int)
    requires Monotone(es, t)
    ensures Answers(c, State(map[], 0), es) == PlainAnswers(c, map[], es)
  {
    CollectionIsInvisible(c, State(map[], 0), map[], es, t);
  }

  /** The map that is never collected, after a run. */
  function PlainAfter(c: Config, hits: map<string, Window>, es: seq<Event>): map<string, Window>
    decreases |es|
  {
    if es == [] then hits else PlainAfter(c, PlainStep(c, hits, es[0]), es[1..])
  }

  /** Nothing the limiter holds had expired when it was last collected, which was less
      than a window ago, and nothing it does not hold is still live. */
  ghost predicate Swept(c: Config, s: State, full: map<string, Window>, now: int) {
    && Agrees(s.hits, full, now)
    && (forall k :: k in s.hits ==> s.hits[k].reset >= s.lastGC)
    && s.lastGC <= now
  }

  lemma SweptStep(c: Config, s: State, full: map<string, Window>, e: Event, t: int)
    requires Swept(c, s, full, t) && c.window >= 0 && (e.Attempt? ==> t <= e.now)
    ensures Swept(c, Step(c, s, e), PlainStep(c, full, e), if e.Attempt? then e.now else t)
    ensures e.Attempt? ==> var n := Step(c, s, e); e.now - n.lastGC < c.window || n.lastGC == e.now
  {
    if e.Attempt? {
      assert Agrees(Collected(c, s, e.now).hits, full, e.now);
    }
  }

  lemma {:induction false} SweptAlways(c: Config, s: State, full: map<string, Window>, es: seq<Event>, t: int)
    requires Swept(c, s, full, t) && Monotone(es, t) && c.window >= 0
    ensures Swept(c, StateAfter(c, s, es), PlainAfter(c, full, es), LastTime(es, t))
    decreases |es|
  {
    if es == [] {
    } else {
      SweptStep(c, s, full, es[0], t);
      SweptAlways(c, Step(c, s, es[0]), PlainStep(c, full, es[0]), es[1..], if es[0].Attempt? then es[0].now else t);
    }
  }

  /** Collecting keeps the map small and loses nothing. In every run from an empty
      limiter, after each attempt: a window opened more than two windows' length ago
      is gone; just after a collection nothing expired remains; and every window that
      is still live is there, as a limiter that never collects would have it. */
  lemma CollectionIsExact(c: Config, es: seq<Event>, t: int, key: string, now: int)
    requires 0 <= t && Monotone(es, t) && LastTime(es, t) <= now && c.window >= 0
    ensures var s := Step(c, StateAfter(c, State(map[], 0), es), Attempt(key, now));
            var full := PlainStep(c, PlainAfter(c, map[], es), Attempt(key, now));
            && (forall k :: k in s.hits ==> s.hits[k].reset - c.window >= now - 2 * c.window)
            && (s.lastGC == now ==> forall k :: k in s.hits ==> !Expired(s.hits[k], now))
            && (forall k :: k in full && !Expired(full[k], now) ==> k in s.hits && s.hits[k] == full[k])
  {
    SweptAlways(c, State(map[], 0), map[], es, t);
    SweptStep(c, StateAfter(c, State(map[], 0), es), PlainAfter(c, map[], es), Attempt(key, now), LastTime(es, t));
  }

  // ----- how many attempts get through ---------------------------------------

  predicate Untouched(es: seq<Event>, key: string) {
    forall i :: 0 <= i < |es| ==> !(es[i].Clear? && es[i].key == key)
  }

  /** Allowed attempts for a key in the closed interval [a, b]. */
  function AllowedIn(os: seq<Outcome>, key: string, a: int, b: int): nat {
    if os == [] then 0
    else (if os[0].key == key && os[0].ok && a <= os[0].now <= b then 1 else 0)
         + AllowedIn(os[1..], key, a, b)
  }

  lemma AllowedInCons(o: Outcome, os: seq<Outcome>, key: string, a: int, b: int)
    ensures AllowedIn([o] + os, key, a, b) ==
            (if o.key == key && o.ok && a <= o.now <= b then 1 else 0) + AllowedIn(os, key, a, b)
  {
    assert ([o] + os)[1..] == os;
  }

  /** One event's share of the count. */
  lemma AllowedInStep(c: Config, hits: map<string, Window>, es: seq<Event>, key: string, a: int, b: int)
    requires es != []
    ensures AllowedIn(PlainAnswers(c, hits, es), key, a, b) ==
            (if es[0].Attempt? && es[0].key == key && a <= es[0].now <= b
                && Admits(c, hits, key, es[0].now) then 1 else 0)
            + AllowedIn(PlainAnswers(c, PlainStep(c, hits, es[0]), es[1..]), key, a, b)
  {
    var rest := PlainAnswers(c, PlainStep(c, hits, es[0]), es[1..]);
    match es[0]
    case Attempt(k, now) =>
      AllowedInCons(Outcome(k, now, Admits(c, hits, k, now), Wait(c, hits, k, now)), rest, key, a, b);
    case Clear(_) =>
      assert [] + rest == rest;
  }

  lemma {:induction false} NoneAfter(c: Config, hits: map<string, Window>, es: seq<Event>, key: string,
                                     a: int, b: int, t: int)
    requires Monotone(es, t) && t > b
    ensures AllowedIn(PlainAnswers(c, hits, es), key, a, b) == 0
    decreases |es|
  {
    if es == [] {
    } else {
      AllowedInStep(c, hits, es, key, a, b);
      NoneAfter(c, PlainStep(c, hits, es[0]), es[1..], key, a, b, if es[0].Attempt? then es[0].now else t);
    }
  }

  function Left(c: Config, w: Window): nat {
    if w.count < c.limit then c.limit - w.count else 0
  }

  /** Until its window resets, a key gets no more than what is left of its quota. */
  lemma {:induction false} WithinWindow(c: Config, hits: map<string, Window>, es: seq<Event>, key: string,
                                        a: int, b: int, t: int)
    requires Monotone(es, t) && Untouched(es, key)
    requires key in hits && b <= hits[key].reset
    ensures AllowedIn(PlainAnswers(c, hits, es), key, a, b) <= Left(c, hits[key])
    decreases |es|
  {
    if es == [] {
    } else {
      var next := PlainStep(c, hits, es[0]);
      AllowedInStep(c, hits, es, key, a, b);
      assert es[0] in es;
      if es[0].Attempt? && es[0].now > b {
        NoneAfter(c, next, es[1..], key, a, b, es[0].now);
      } else {
        WithinWindow(c, next, es[1..], key, a, b, if es[0].Attempt? then es[0].now else t);
      }
    }
  }

  /** One reset may fall in an interval that ends within a window of the reset. */
  lemma {:induction false} AcrossReset(c: Config, hits: map<string, Window>, es: seq<Event>, key: string,
                                       a: int, b: int, t: int)
    requires Monotone(es, t) && Untouched(es, key) && c.limit >= 1
    requires key in hits && b <= hits[key].reset + c.window
    ensures AllowedIn(PlainAnswers(c, hits, es), key, a, b) <= Left(c, hits[key]) + c.limit
    decreases |es|
  {
    if es == [] {
    } else {
      var next := PlainStep(c, hits, es[0]);
      AllowedInStep(c, hits, es, key, a, b);
      assert es[0] in es;
      var now := if es[0].Attempt? then es[0].now else t;
      if es[0].Attempt? && es[0].key == key && Expired(hits[key], now) {
        WithinWindow(c, next, es[1..], key, a, b, now);
      } else {
        AcrossReset(c, next, es[1..], key, a, b, now);
      }
    }
  }

  ghost predicate Counted(hits: map<string, Window>) {
    forall k :: k in hits ==> hits[k].count >= 1
  }

  /** No closed interval as long as the window holds 2 * limit allowed attempts. */
  lemma {:induction false} IntervalBound(c: Config, hits: map<string, Window>, es: seq<Event>, key: string,
                                         a: int, t: int)
    requires Monotone(es, t) && Untouched(es, key) && c.limit >= 1 && Counted(hits)
    ensures AllowedIn(PlainAnswers(c, hits, es), key, a, a + c.window) <= 2 * c.limit - 1
    decreases |es|
  {
    if es == [] {
    } else {
      var next := PlainStep(c, hits, es[0]);
      var b := a + c.window;
      AllowedInStep(c, hits, es, key, a, b);
      assert es[0] in es;
      var now := if es[0].Attempt? then es[0].now else t;
      if es[0].Attempt? && es[0].key == key && a <= now {
        if Admits(c, hits, key, now) && (key !in hits || Expired(hits[key], now)) {
          WithinWindow(c, next, es[1..], key, a, b, now);
        } else {
          AcrossReset(c, next, es[1..], key, a, b, now);
        }
      } else {
        IntervalBound(c, next, es[1..], key, a, now);
      }
    }
  }

  /** The limiter as it runs, collection and all: a key that is never reset gets at
      most 2 * limit - 1 attempts through in any closed interval of one window. */
  lemma GuessesPerWindow(c: Config, es: seq<Event>, key: string, a: int, t: int)
    requires Monotone(es, t) && Untouched(es, key) && c.limit >= 1
    ensures AllowedIn(Answers(c, State(map[], 0), es), key, a, a + c.window) <= 2 * c.limit - 1
  {
    GcIsInvisible(c, es, t);
    IntervalBound(c, map[], es, key, a, t);
  }

  /** A window that opens with an attempt lets at most limit attempts through
      before it resets, that one included. */
  lemma GuessesInOneWindow(c: Config, hits: map<string, Window>, es: seq<Event>, key: string, now: int)
    requires c.limit >= 1 && Untouched(es, key) && Monotone(es, now) && c.window >= 0
    requires key !in hits || Expired(hits[key], now)
    ensures AllowedIn(PlainAnswers(c, hits, [Attempt(key, now)] + es), key, now, now + c.window) <= c.limit
  {
    var all := [Attempt(key, now)] + es;
    assert all[1..] == es;
    AllowedInStep(c, hits, all, key, now, now + c.window);
    WithinWindow(c, PlainStep(c, hits, all[0]), es, key, now, now + c.window, now);
  }

  // ----- the bound is reached ------------------------------------------------

  function Burst(key: string, now: int, n: nat): seq<Event> {
    seq(n, _ => Attempt(key, now))
  }

  /** n attempts at one moment in an open window with room for them all get
      through. */
  lemma {:induction false} BurstAllowed(c: Config, hits: map<string, Window>, key: string, now: int, n: nat,
                                        es: seq<Event>, a: int, b: int)
    requires key in hits && now <= hits[key].reset && hits[key].count + n <= c.limit && a <= now <= b
    ensures AllowedIn(PlainAnswers(c, hits, Burst(key, now, n) + es), key, a, b) ==
            n + AllowedIn(PlainAnswers(c, hits[key := hits[key].(count := hits[key].count + n)], es), key, a, b)
    decreases n
  {
    var all := Burst(key, now, n) + es;
    if n == 0 {
      assert all == es;
      assert hits[key := hits[key].(count := hits[key].count + 0)] == hits;
    } else {
      assert all[1..] == Burst(key, now, n - 1) + es;
      var next := PlainStep(c, hits, all[0]);
      AllowedInStep(c, hits, all, key, a, b);
      BurstAllowed(c, next, key, now, n - 1, es, a, b);
      assert next[key := next[key].(count := next[key].count + (n - 1))] ==
             hits[key := hits[key].(count := hits[key].count + n)];
    }
  }

  /** A fresh window takes its whole quota at once. */
  lemma QuotaAtOnce(c: Config, hits: map<string, Window>, key: string, now: int, a: int, b: int)
    requires c.limit >= 1 && c.window >= 0 && a <= now <= b
    requires key !in hits || Expired(hits[key], now)
    ensures AllowedIn(PlainAnswers(c, hits, [Attempt(key, now)] + Burst(key, now, c.limit - 1)), key, a, b) == c.limit
  {
    var burst := Burst(key, now, c.limit - 1);
    var es := [Attempt(key, now)] + burst;
    assert es[1..] == burst == burst + [];
    var next := PlainStep(c, hits, es[0]);
    AllowedInStep(c, hits, es, key, a, b);
    BurstAllowed(c, next, key, now, c.limit - 1, [], a, b);
  }

  /** One attempt, the rest of the quota at the last moment of its window, and a
      whole quota just after. */
  function WorstCase(c: Config, key: string): seq<Event>
    requires c.limit >= 1
  {
    [Attempt(key, 0)]
    + (Burst(key, c.window, c.limit - 1)
       + ([Attempt(key, c.window + 1)] + Burst(key, c.window + 1, c.limit - 1)))
  }

  lemma {:induction false} BurstMonotone(key: string, now: int, n: nat, es: seq<Event>, t: int)
    requires t <= now && Monotone(es, now)
    ensures Monotone(Burst(key, now, n) + es, t)
    decreases n
  {
    var all := Burst(key, now, n) + es;
    if n == 0 {
      assert all == es;
      LaterStart(es, now, t);
    } else {
      assert all[1..] == Burst(key, now, n - 1) + es;
      BurstMonotone(key, now, n - 1, es, now);
    }
  }

  lemma {:induction false} LaterStart(es: seq<Event>, now: int, t: int)
    requires t <= now && Monotone(es, now)
    ensures Monotone(es, t)
  {
    if es == [] {
    } else if es[0].Clear? {
      LaterStart(es[1..], now, t);
    }
  }

  lemma WorstCaseMonotone(c: Config, key: string)
    requires c.limit >= 1 && c.window >= 1
    ensures Monotone(WorstCase(c, key), 0)
  {
    var w := c.window;
    var last := Burst(key, w + 1, c.limit - 1);
    var second := [Attempt(key, w + 1)] + last;
    BurstMonotone(key, w + 1, c.limit - 1, [], w + 1);
    assert last + [] == last && second[1..] == last;
    BurstMonotone(key, w, c.limit - 1, second, 0);
    assert WorstCase(c, key)[1..] == Burst(key, w, c.limit - 1) + second;
  }

  /** Without collection that run gets 2 * limit - 1 attempts through. */
  lemma PlainBoundIsReached(c: Config, key: string)
    requires c.limit >= 1 && c.window >= 1
    ensures AllowedIn(PlainAnswers(c, map[], WorstCase(c, key)), key, 1, 1 + c.window) == 2 * c.limit - 1
  {
    var w, es := c.window, WorstCase(c, key);
    var second := [Attempt(key, w + 1)] + Burst(key, w + 1, c.limit - 1);
    assert es[1..] == Burst(key, w, c.limit - 1) + second;
    var h1 := map[key := Window(1, w)];
    AllowedInStep(c, map[], es, key, 1, 1 + w);
    BurstAllowed(c, h1, key, w, c.limit - 1, second, 1, 1 + w);
    var h2 := h1[key := h1[key].(count := h1[key].count + (c.limit - 1))];
    QuotaAtOnce(c, h2, key, w + 1, 1, 1 + w);
  }

  /** The limiter as it runs gets 2 * limit - 1 attempts through within one window's
      length, so the bound cannot be lowered. */
  lemma BoundIsReached(c: Config, key: string)
    requires c.limit >= 1 && c.window >= 1
    ensures AllowedIn(Answers(c, State(map[], 0), WorstCase(c, key)), key, 1, 1 + c.window) == 2 * c.limit - 1
  {
    WorstCaseMonotone(c, key);
    GcIsInvisible(c, WorstCase(c, key), 0);
    PlainBoundIsReached(c, key);
  }

  // ----- a fixed window, said by counting ---------------------------------------

  /** How often the key was tried. */
  function Tries(es: seq<Event>, key: string): nat {
    if es == [] then 0
    else Tries(es[1..], key) + if es[0].Attempt? && es[0].key == key then 1 else 0
  }

  /** Every try counts, allowed or not, and none moves the end of the window. */
  lemma {:induction false} WindowCounts(c: Config, s: State, es: seq<Event>, key: string, t: int)
    requires key in s.hits && Monotone(es, t) && Untouched(es, key) && LastTime(es, t) <= s.hits[key].reset
    ensures var n := StateAfter(c, s, es);
            key in n.hits && n.hits[key] == Window(s.hits[key].count + Tries(es, key), s.hits[key].reset)
    decreases |es|
  {
    if es == [] {
    } else {
      var now := if es[0].Attempt? then es[0].now else t;
      assert es[0] in es;
      TimesGrow(es[1..], now);
      WindowCounts(c, Step(c, s, es[0]), es[1..], key, now);
    }
  }

  lemma {:induction false} TimesGrow(es: seq<Event>, t: int)
    requires Monotone(es, t)
    ensures t <= LastTime(es, t)
  {
    if es == [] {
    } else {
      TimesGrow(es[1..], if es[0].Attempt? then es[0].now else t);
    }
  }

  /** The limiter by counting alone. A key without a live window is let through at t and
      opens one. Whatever other keys do, and however often this one is tried meanwhile,
      its next attempt is allowed if and only if it comes after t plus the window, or the
      attempts since t, both ends included, are within the limit; a refusal names the
      time left until the window's end. */
  lemma FixedWindow(c: Config, s: State, key: string, t: int, es: seq<Event>, now: int)
    requires (key !in s.hits || s.hits[key].reset < t) && c.window >= 0
    requires Monotone(es, t) && Untouched(es, key) && LastTime(es, t) <= t + c.window && LastTime(es, t) <= now
    ensures Answer(c, s, key, t).ok && Answer(c, s, key, t).wait == 0
    ensures var a := Answer(c, StateAfter(c, Step(c, s, Attempt(key, t)), es), key, now);
            && (a.ok <==> now > t + c.window || 1 + Tries(es, key) + 1 <= c.limit)
            && a.wait == if a.ok then 0 else t + c.window - now
  {
    TimesGrow(es, t);
    WindowCounts(c, Step(c, s, Attempt(key, t)), es, key, t);
  }

  /** After a reset the next attempt opens a window again. */
  lemma ResetForgets(c: Config, s: State, key: string, now: int)
    ensures Answer(c, Step(c, s, Clear(key)), key, now).ok
    ensures forall k :: k != key ==> (k in Step(c, s, Clear(key)).hits <==> k in s.hits)
    ensures forall k :: k in Step(c, s, Clear(key)).hits ==> Step(c, s, Clear(key)).hits[k] == s.hits[k]
  {
  }

  // ----- the wait ------------------------------------------------------------

  predicate Quiet(es: seq<Event>, key: string) {
    forall i :: 0 <= i < |es| ==> es[i].key != key
  }

  /** While a key is quiet its full window stays, unless it is collected after it
      has expired. */
  lemma {:induction false} QuietKey(c: Config, s: State, es: seq<Event>, key: string, w: Window, t: int)
    requires Monotone(es, t) && Quiet(es, key)
    requires if key in s.hits then s.hits[key] == w else Expired(w, t)
    ensures var s' := StateAfter(c, s, es);
            if key in s'.hits then s'.hits[key] == w else Expired(w, LastTime(es, t))
    decreases |es|
  {
    if es == [] {
    } else {
      assert es[0] in es;
      QuietKey(c, Step(c, s, es[0]), es[1..], key, w, if es[0].Attempt? then es[0].now else t);
    }
  }

  /** The wait a refusal returns is exact: if the key then stays quiet, its next
      attempt is allowed if and only if it comes strictly later than the wait. */
  lemma WaitIsExact(c: Config, s: State, key: string, now: int, others: seq<Event>, next: int)
    requires !Answer(c, s, key, now).ok
    requires Monotone(others, now) && Quiet(others, key) && LastTime(others, now) <= next
    ensures var s' := StateAfter(c, Step(c, s, Attempt(key, now)), others);
            Answer(c, s', key, next).ok <==> next > now + Answer(c, s, key, now).wait
  {
    var s1 := Step(c, s, Attempt(key, now));
    QuietKey(c, s1, others, key, s1.hits[key], now);
  }
}
