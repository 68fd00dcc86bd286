/**
 The publish rate limiter: a counter in the store that lives for `interval` seconds from the first
 publish it counts. Publishes are atomic here: the check and the increment are one step.
 */
module RateLimiter {
  import opened Topics
  import opened Containment

  /** A counter key: its value and the second at which the store drops it. */
  datatype Counter = Counter(count: nat, expiry: int)

  /** A key never written is like one that expired before time began. */
  datatype Key = Unset | Set(counter: Counter)

  /** The counter of one limit and the times of the publishes admitted so far, latest first. */
  datatype Limiter = Limiter(counter: Key, admitted: seq<int>)

  /** The store key of a limit: the limited topic or pattern, then the subject. */
  function Path(prefix: string, topic: string, subject: string): (key: string) {
    (if |prefix| > 0 then prefix + ":" + prefix else prefix) + ":rlimit:" + topic + ":" + subject
  }

  function Alive(s: Limiter, now: int): (b: bool) {
    s.counter.Set? && now < s.counter.counter.expiry
  }

  function Attempt(s: Limiter, now: int, max: nat, interval: nat): (r: Limiter) {
    if Alive(s, now) then
      if s.counter.counter.count >= max then s
      else Limiter(Set(s.counter.counter.(count := s.counter.counter.count + 1)), [now] + s.admitted)
    else Limiter(Set(Counter(1, now + interval)), [now] + s.admitted)
  }

  function Live(counters: map<string, Counter>, key: string): (k: Key) {
    if key in counters then Set(counters[key]) else Unset
  }

  function Incremented(live: seq<Counter>, now: int, interval: nat): (c: Counter)
    requires |live| <= 1
  {
    if live != [] then live[0].(count := live[0].count + 1) else Counter(1, now + interval)
  }

  class Store {
    var counters: map<string, Counter>
    const prefix: string

    /** The counter under `key`, unless it has expired. */
    function Get(key: string, now: int): (r: seq<Counter>)
      reads this
      ensures |r| <= 1
    {
      if key in counters && now < counters[key].expiry then [counters[key]] else []
    }

    constructor (prefix: string)
      ensures counters == map[] && this.prefix == prefix
    {
      this.prefix := prefix;
      counters := map[];
    }

    method IsRateLimited(topic: string, subject: string, max: nat, now: int) returns (limited: bool)
      ensures limited <==> max != 0 && Get(Path(prefix, topic, subject), now) != [] &&
                           Get(Path(prefix, topic, subject), now)[0].count >= max
    {
      if max == 0 {
        return false;
      }
      var count := Get(Path(prefix, topic, subject), now);
      if count != [] {
        if count[0].count >= max {
          return true;
        }
      }
      return false;
    }

    method IncrementLimitCount(topic: string, subject: string, interval: nat, now: int)
      modifies this
      ensures interval == 0 ==> counters == old(counters)
      ensures interval > 0 ==>
                var key := Path(prefix, topic, subject);
                counters == old(counters)[key := Incremented(old(Get(key, now)), now, interval)]
    {
      if interval == 0 {
        return;
      }
      var key := Path(prefix, topic, subject);
      var count := Get(key, now);
      if count != [] {
        counters := counters[key := counters[key].(count := counters[key].count + 1)];
      } else {
        counters := counters[key := Counter(1, now + interval)];
      }
    }

    /** A limited publish: refused while the counter is at its maximum, counted otherwise if there is an interval. */
    method TryPublish(topic: string, subject: string, max: nat, interval: nat, now: int) returns (admitted: bool)
      modifies this
      ensures var key := Path(prefix, topic, subject);
              var live := old(Get(key, now));
              && (admitted <==> max == 0 || live == [] || live[0].count < max)
              && counters == if admitted && interval > 0 then old(counters)[key := Incremented(live, now, interval)]
                             else old(counters)
      ensures max > 0 && interval > 0 ==>
              var key := Path(prefix, topic, subject);
              var s := Attempt(Limiter(old(Live(counters, key)), []), now, max, interval);
              && admitted == (s.admitted != [])
              && Live(counters, key) == s.counter
              && counters - {key} == old(counters) - {key}
    {
      var key := Path(prefix, topic, subject);
      var limited := IsRateLimited(topic, subject, max, now);
      if limited {
        return false;
      }
      IncrementLimitCount(topic, subject, interval, now);
      return true;
    }
  }

  // ----- one key over a whole run

  /** Publishes attempted at the given times, first to last. */
  function Run(times: seq<int>, max: nat, interval: nat): (s: Limiter) {
    if times == [] then Limiter(Unset, [])
    else Attempt(Run(times[..|times| - 1], max, interval), times[|times| - 1], max, interval)
  }

  predicate Ordered(times: seq<int>) { forall i, j :: 0 <= i <= j < |times| ==> times[i] <= times[j] }

  /** Admitted publishes with lo <= time < hi. */
  function Within(admitted: seq<int>, lo: int, hi: int): (n: nat) {
    if admitted == [] then 0
    else (if lo <= admitted[0] < hi then 1 else 0) + Within(admitted[1..], lo, hi)
  }

  /** Admitted publishes from `lo` on. */
  function From(admitted: seq<int>, lo: int): (n: nat) {
    if admitted == [] then 0 else (if lo <= admitted[0] then 1 else 0) + From(admitted[1..], lo)
  }

  /**
   What every reachable limiter keeps. `birth` is when the current counter was created: it counts every
   publish since, at most `max`; a window that starts after the birth misses the first of them; and one
   that reaches back less than an interval from the birth misses the first of the counter before it.
   */
  ghost predicate Inv(s: Limiter, max: nat, interval: nat) {
    match s.counter
    case Unset => s.admitted == []
    case Set(Counter(count, expiry)) =>
      var birth := expiry - interval;
      && 1 <= count <= max
      && (forall i :: 0 <= i < |s.admitted| ==> s.admitted[i] < expiry)
      && From(s.admitted, birth) == count
      && (forall lo :: lo > birth ==> From(s.admitted, lo) <= count - 1)
      && (forall lo :: lo > birth - interval ==> From(s.admitted, lo) <= count + max - 1)
      && (forall lo :: lo >= birth - interval ==> From(s.admitted, lo) <= count + max)
  }

  lemma {:induction false} FromNone(admitted: seq<int>, lo: int)
    requires forall i :: 0 <= i < |admitted| ==> admitted[i] < lo
    ensures From(admitted, lo) == 0
  {
    if admitted != [] {
      FromNone(admitted[1..], lo);
    }
  }

  lemma {:induction false} FromMonotone(admitted: seq<int>, lo: int, lo': int)
    requires lo <= lo'
    ensures From(admitted, lo') <= From(admitted, lo)
  {
    if admitted != [] {
      FromMonotone(admitted[1..], lo, lo');
    }
  }

  lemma FromCons(t: int, admitted: seq<int>, lo: int)
    ensures From([t] + admitted, lo) == (if lo <= t then 1 else 0) + From(admitted, lo)
  {
    assert ([t] + admitted)[1..] == admitted;
  }

  lemma FromConsAll(t: int, admitted: seq<int>)
    ensures forall lo :: From([t] + admitted, lo) == (if lo <= t then 1 else 0) + From(admitted, lo)
  {
    forall lo ensures From([t] + admitted, lo) == (if lo <= t then 1 else 0) + From(admitted, lo) {
      FromCons(t, admitted, lo);
    }
  }

  lemma CountedAttempt(s: Limiter, now: int, max: nat, interval: nat)
    requires interval > 0 && Inv(s, max, interval) && Alive(s, now)
    requires s.counter.counter.expiry - interval <= now
    ensures Inv(Attempt(s, now, max, interval), max, interval)
  {
    if s.counter.counter.count < max {
      FromConsAll(now, s.admitted);
    }
  }

  lemma NewbornAttempt(s: Limiter, now: int, max: nat, interval: nat)
    requires max > 0 && interval > 0 && Inv(s, max, interval) && !Alive(s, now)
    ensures Inv(Attempt(s, now, max, interval), max, interval)
  {
    FromConsAll(now, s.admitted);
    forall lo | lo >= now
      ensures From(s.admitted, lo) == 0
    {
      FromNone(s.admitted, lo);
    }
    if s.counter.Set? {
      var birth := s.counter.counter.expiry - interval;
      forall lo | lo >= birth
        ensures From(s.admitted, lo) <= max
      {
        FromMonotone(s.admitted, birth, lo);
      }
    }
  }

  /** Births do not lie in the future. */
  ghost predicate Born(s: Limiter, now: int, interval: nat) {
    s.counter.Set? ==> s.counter.counter.expiry - interval <= now
  }

  lemma {:induction false} RunInv(times: seq<int>, max: nat, interval: nat)
    requires max > 0 && interval > 0 && Ordered(times)
    ensures Inv(Run(times, max, interval), max, interval)
    ensures times != [] ==> Born(Run(times, max, interval), times[|times| - 1], interval)
    ensures times == [] ==> Run(times, max, interval).counter.Unset?
  {
    if times != [] {
      var before, now := times[..|times| - 1], times[|times| - 1];
      RunInv(before, max, interval);
      var s := Run(before, max, interval);
      assert Born(s, now, interval) by {
        if before != [] { assert before[|before| - 1] <= now; }
      }
      if Alive(s, now) {
        CountedAttempt(s, now, max, interval);
      } else {
        NewbornAttempt(s, now, max, interval);
      }
    }
  }

  lemma {:induction false} WithinFrom(admitted: seq<int>, lo: int, hi: int)
    ensures Within(admitted, lo, hi) <= From(admitted, lo)
  {
    if admitted != [] {
      WithinFrom(admitted[1..], lo, hi);
    }
  }

  /** One counter admits at most `max`: the publishes since its birth are those it counts. */
  lemma AtMostMaxPerLifetime(times: seq<int>, max: nat, interval: nat)
    requires max > 0 && interval > 0 && Ordered(times)
    ensures var s := Run(times, max, interval);
            s.counter.Set? ==>
              From(s.admitted, s.counter.counter.expiry - interval) == s.counter.counter.count <= max
  {
    RunInv(times, max, interval);
  }

  /**
   The limit over whole runs: in no span of `interval` seconds, half open, are more than 2 * max - 1
   publishes admitted; with both ends included, no more than 2 * max.
   */
  lemma {:induction false} WindowBound(times: seq<int>, max: nat, interval: nat, lo: int)
    requires max > 0 && interval > 0 && Ordered(times)
    ensures Within(Run(times, max, interval).admitted, lo, lo + interval) <= 2 * max - 1
    ensures Within(Run(times, max, interval).admitted, lo, lo + interval + 1) <= 2 * max
  {
    if times != [] {
      var before, now := times[..|times| - 1], times[|times| - 1];
      var s, t := Run(before, max, interval), Run(times, max, interval);
      WindowBound(before, max, interval, lo);
      RunInv(times, max, interval);
      if t.admitted != s.admitted {
        assert t.admitted[0] == now && t.admitted[1..] == s.admitted;
        WithinFrom(t.admitted, lo, lo + interval);
        WithinFrom(t.admitted, lo, lo + interval + 1);
      }
    }
  }

  // ----- the bounds are attained

  function Repeat(t: int, n: nat): (r: seq<int>)
    ensures |r| == n && forall i :: 0 <= i < n ==> r[i] == t
  {
    if n == 0 then [] else Repeat(t, n - 1) + [t]
  }

  /** `r` is `s` after `n` more publishes at `now`, all of them admitted. */
  predicate Repeated(s: Limiter, now: int, n: nat, r: Limiter)
    requires s.counter.Set?
  {
    && r.counter == Set(s.counter.counter.(count := s.counter.counter.count + n))
    && r.admitted == Repeat(now, n) + s.admitted
  }

  lemma RepeatedNext(s: Limiter, now: int, n: nat, r: Limiter, max: nat, interval: nat)
    requires Alive(s, now) && s.counter.counter.count + n < max && Repeated(s, now, n, r)
    ensures Repeated(s, now, n + 1, Attempt(r, now, max, interval))
  {
    assert [now] + (Repeat(now, n) + s.admitted) == Repeat(now, n + 1) + s.admitted;
  }

  lemma RunNext(times: seq<int>, now: int, max: nat, interval: nat)
    ensures Run(times + [now], max, interval) == Attempt(Run(times, max, interval), now, max, interval)
  {
    assert (times + [now])[..|times|] == times;
  }

  lemma {:induction false} RunRepeat(times: seq<int>, now: int, n: nat, max: nat, interval: nat)
    requires var s := Run(times, max, interval); Alive(s, now) && s.counter.counter.count + n <= max
    ensures Repeated(Run(times, max, interval), now, n, Run(times + Repeat(now, n), max, interval))
  {
    if n == 0 {
      assert times + [] == times;
      assert [] + Run(times, max, interval).admitted == Run(times, max, interval).admitted;
    } else {
      var before := times + Repeat(now, n - 1);
      RunRepeat(times, now, n - 1, max, interval);
      RepeatedNext(Run(times, max, interval), now, n - 1, Run(before, max, interval), max, interval);
      RunNext(before, now, max, interval);
      assert before + [now] == times + Repeat(now, n);
    }
  }

  /** One publish at 0, max - 1 at `t` before its counter expires, max just after. */
  function Burst(max: nat, interval: nat, t: nat): (times: seq<int>)
    requires max > 0
  {
    [0] + Repeat(t, max - 1) + [interval as int] + Repeat(interval, max - 1)
  }

  lemma {:induction false} WithinRepeat(t: int, n: nat, rest: seq<int>, lo: int, hi: int)
    requires lo <= t < hi
    ensures Within(Repeat(t, n) + rest, lo, hi) == n + Within(rest, lo, hi)
  {
    if n == 0 {
      assert Repeat(t, n) + rest == rest;
    } else {
      var all := Repeat(t, n) + rest;
      assert all[0] == t && all[1..] == Repeat(t, n - 1) + rest;
      WithinRepeat(t, n - 1, rest, lo, hi);
    }
  }

  lemma BurstAdmitted(max: nat, interval: nat, t: nat)
    requires max > 0 && t < interval
    ensures Run(Burst(max, interval, t), max, interval).admitted ==
            Repeat(interval, max - 1) + ([interval as int] + (Repeat(t, max - 1) + [0]))
  {
    var t0 := [0];
    RunNext([], 0, max, interval);
    assert [] + t0 == t0;
    RunRepeat(t0, t, max - 1, max, interval);
    var t1 := t0 + Repeat(t, max - 1);
    RunNext(t1, interval, max, interval);
    RunRepeat(t1 + [interval as int], interval, max - 1, max, interval);
  }

  lemma BurstWithin(max: nat, interval: nat, t: nat, lo: int, hi: int)
    requires max > 0 && t < interval && lo <= t && interval < hi
    ensures Within(Run(Burst(max, interval, t), max, interval).admitted, lo, hi) == 2 * max - if lo <= 0 then 0 else 1
  {
    BurstAdmitted(max, interval, t);
    var a := Repeat(t, max - 1) + [0];
    WithinRepeat(interval, max - 1, [interval as int] + a, lo, hi);
    assert ([interval as int] + a)[1..] == a;
    WithinRepeat(t, max - 1, [0], lo, hi);
    assert Within([0], lo, hi) == (if lo <= 0 then 1 else 0) + Within([0][1..], lo, hi);
  }

  /** For every maximum and every interval of at least two seconds, some run reaches the half-open bound. */
  lemma WindowBoundTight(max: nat, interval: nat)
    requires max > 0 && interval >= 2
    ensures var times, lo := Burst(max, interval, interval - 1), interval - 1;
            Ordered(times) && Within(Run(times, max, interval).admitted, lo, lo + interval) == 2 * max - 1
  {
    BurstWithin(max, interval, interval - 1, interval - 1, 2 * interval - 1);
  }

  /** For every maximum and every interval, some run reaches the closed bound. */
  lemma ClosedWindowBoundTight(max: nat, interval: nat)
    requires max > 0 && interval > 0
    ensures var times := Burst(max, interval, 0);
            Ordered(times) && Within(Run(times, max, interval).admitted, 0, interval + 1) == 2 * max
  {
    BurstWithin(max, interval, 0, 0, interval + 1);
  }

  /** With an interval of one second, the half-open span is a second of the clock, and admits at most `max`. */
  lemma {:induction false} OneSecondBound(times: seq<int>, max: nat, lo: int)
    requires max > 0 && Ordered(times)
    ensures Within(Run(times, max, 1).admitted, lo, lo + 1) <= max
  {
    if times != [] {
      var before, now := times[..|times| - 1], times[|times| - 1];
      var s, t := Run(before, max, 1), Run(times, max, 1);
      OneSecondBound(before, max, lo);
      RunInv(times, max, 1);
      if t.admitted != s.admitted {
        assert t.admitted[0] == now && t.admitted[1..] == s.admitted;
        WithinFrom(t.admitted, lo, lo + 1);
      }
    }
  }

  lemma OneSecondBoundTight(max: nat)
    requires max > 0
    ensures var times := [0] + Repeat(0, max - 1);
            Ordered(times) && Within(Run(times, max, 1).admitted, 0, 1) == max
  {
    var t0 := [0];
    RunNext([], 0, max, 1);
    assert [] + t0 == t0 && Run([], max, 1).admitted == [];
    assert Run(t0, max, 1).admitted == t0;
    RunRepeat(t0, 0, max - 1, max, 1);
    WithinRepeat(0, max - 1, t0, 0, 1);
    assert Within(t0, 0, 1) == 1 + Within(t0[1..], 0, 1);
  }

  // ----- keys

  lemma PathParts(prefix: string, topic: string, subject: string, topic': string, subject': string)
    ensures Path(prefix, topic, subject) == Path(prefix, topic', subject') <==>
            topic + ":" + subject == topic' + ":" + subject'
  {
    var head := (if |prefix| > 0 then prefix + ":" + prefix else prefix) + ":rlimit:";
    var a, b := Path(prefix, topic, subject), Path(prefix, topic', subject');
    assert a == head + (topic + ":" + subject) && b == head + (topic' + ":" + subject');
    assert a[|head|..] == topic + ":" + subject && b[|head|..] == topic' + ":" + subject';
  }

  /** The colon matters: a topic that has one shares the counter of every subject with a shorter topic. */
  lemma PathCollides(prefix: string, l: string, r: string, subject: string)
    ensures Path(prefix, l + ":" + r, subject) == Path(prefix, l, r + ":" + subject)
  {
    var head := (if |prefix| > 0 then prefix + ":" + prefix else prefix) + ":rlimit:";
    assert head + (l + ":" + r) + ":" + subject == head + l + ":" + (r + ":" + subject);
  }

  /** The longer topic goes on with a colon, and the subject of the shorter one with what is behind it. */
  predicate Continues(topic: string, subject: string, topic': string, subject': string) {
    topic + ":" <= topic' && subject == topic'[|topic| + 1..] + ":" + subject'
  }

  lemma ContinuesByColon(topic: string, subject: string, topic': string, subject': string)
    ensures Continues(topic, subject, topic', subject') ==> ':' in topic'
  {
    assert topic + ":" <= topic' ==> topic'[|topic|] == (topic + ":")[|topic|];
  }

  lemma CutLonger(l: string, r: string, l': string, r': string)
    requires l + ":" + r == l' + ":" + r' && |l| < |l'|
    ensures Continues(l, r, l', r')
  {
    var s, s' := l + ":" + r, l' + ":" + r';
    assert s[..|l| + 1] == l + ":" && s'[..|l| + 1] == l'[..|l| + 1];
    assert s[|l| + 1..] == r && s'[|l| + 1..] == l'[|l| + 1..] + ":" + r';
  }

  lemma ContinuesShares(prefix: string, topic: string, subject: string, topic': string, subject': string)
    requires Continues(topic, subject, topic', subject')
    ensures Path(prefix, topic, subject) == Path(prefix, topic', subject')
  {
    var r := topic'[|topic| + 1..];
    assert topic' == topic + ":" + r;
    PathCollides(prefix, topic, r, subject');
  }

  /** Exactly when two limits share a counter: they are the same, or the topic of one continues that of the other. */
  lemma SharedExactly(prefix: string, topic: string, subject: string, topic': string, subject': string)
    ensures Path(prefix, topic, subject) == Path(prefix, topic', subject') <==>
            || (topic == topic' && subject == subject')
            || Continues(topic, subject, topic', subject')
            || Continues(topic', subject', topic, subject)
  {
    PathParts(prefix, topic, subject, topic', subject');
    if topic + ":" + subject == topic' + ":" + subject' {
      if |topic| < |topic'| {
        CutLonger(topic, subject, topic', subject');
      } else if |topic'| < |topic| {
        CutLonger(topic', subject', topic, subject);
      } else {
        var s, s' := topic + ":" + subject, topic' + ":" + subject';
        assert s[..|topic|] == topic && s'[..|topic|] == topic';
        assert s[|topic| + 1..] == subject && s'[|topic| + 1..] == subject';
      }
    }
    if Continues(topic, subject, topic', subject') {
      ContinuesShares(prefix, topic, subject, topic', subject');
    }
    if Continues(topic', subject', topic, subject) {
      ContinuesShares(prefix, topic', subject', topic, subject);
    }
  }

  /** So two topics can share a counter, by some subjects, just if one is the other or goes on from it with a colon. */
  lemma PathsMeet(prefix: string, topic: string, topic': string)
    ensures (exists subject, subject' :: Path(prefix, topic, subject) == Path(prefix, topic', subject')) <==>
            topic == topic' || topic + ":" <= topic' || topic' + ":" <= topic
  {
    if subject, subject' :| Path(prefix, topic, subject) == Path(prefix, topic', subject') {
      SharedExactly(prefix, topic, subject, topic', subject');
    }
    if topic + ":" <= topic' {
      ContinuesShares(prefix, topic, topic'[|topic| + 1..] + ":" + "", topic', "");
    } else if topic' + ":" <= topic {
      ContinuesShares(prefix, topic', topic[|topic'| + 1..] + ":" + "", topic, "");
    } else if topic == topic' {
      assert Path(prefix, topic, "") == Path(prefix, topic', "");
    }
  }

  /** In particular, limits with colon-free topics share a counter only if they are the same limit. */
  lemma PathInjective(prefix: string, topic: string, subject: string, topic': string, subject': string)
    requires ':' !in topic && ':' !in topic'
    requires Path(prefix, topic, subject) == Path(prefix, topic', subject')
    ensures topic == topic' && subject == subject'
  {
    SharedExactly(prefix, topic, subject, topic', subject');
    ContinuesByColon(topic, subject, topic', subject');
    ContinuesByColon(topic', subject', topic, subject);
  }

  /**
   Where that can matter: a limit with a colon in it applies to a topic only if a `#` level stands before the
   colon.
   */
  lemma {:induction false} ColonBehindHash(f: Levels, t: Levels, k: nat)
    requires Matches(f, t) && k < |f| && ':' in f[k] && forall i :: 0 <= i < |t| ==> ':' !in t[i]
    ensures "#" in f[..k]
  {
    if f[0] == "#" {
      assert k > 0 && f[..k][0] == "#";
    } else {
      assert k > 0;
      assert f[1..][k - 1] == f[k];
      ColonBehindHash(f[1..], t[1..], k - 1);
      assert f[..k] == [f[0]] + f[1..][..k - 1];
    }
  }

  lemma ColonLimitNeedsHash(pattern: string, topic: string, k: nat)
    requires ValidTopic(topic) && FilterMatches(pattern, topic) && k < |Split(pattern)| && ':' in Split(pattern)[k]
    ensures "#" in Split(pattern)[..k]
  {
    TopicLevels(topic);
    forall i | 0 <= i < |Split(topic)| ensures ':' !in Split(topic)[i] {
      assert PlainLevel(Split(topic)[i]) && !TopicChar(':');
    }
    ColonBehindHash(Split(pattern), Split(topic), k);
  }

  /** Two such limits that both apply to every topic, and share a counter. */
  lemma LimitsCollide(prefix: string, subject: string, topic: string)
    ensures FilterMatches("#/a:b", topic) && FilterMatches("#/a", topic)
    ensures Path(prefix, "#/a:b", subject) == Path(prefix, "#/a", "b:" + subject)
  {
    assert "#/a:b" == "#" + "/" + "a:b" && "#/a" == "#" + "/" + "a";
    SplitAt("#", "a:b");
    SplitAt("#", "a");
    assert "#/a:b" == "#/a" + ":" + "b" && "b" + ":" + subject == "b:" + subject;
    PathCollides(prefix, "#/a", "b", subject);
  }
}
