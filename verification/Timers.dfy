/** The timer queue of a worker's event loop and its cached next fire time. Times are milliseconds. */
module Timers {
  /** A timer; `callback` names the function it calls. */
  datatype Timer = Timer(callback: nat, fireTime: int, repeatDelay: int, repeats: bool)

  /** What happens while a due timer's callback runs: the repeat flag it leaves, and the clock when it returns. */
  datatype Call = Call(repeats: bool, clock: int)

  // ----- the reference: the queue scanned in full

  /** The earliest fire time, zero for an empty queue. */
  function MinFire(q: seq<Timer>): (m: int) {
    if q == [] then 0
    else
      var m, t := MinFire(q[..|q| - 1]), q[|q| - 1].fireTime;
      if |q| == 1 || t < m then t else m
  }

  /** The callbacks of the timers due, in queue order. */
  function Due(q: seq<Timer>, now: int): (r: seq<nat>) {
    if q == [] then []
    else Due(q[..|q| - 1], now) + if q[|q| - 1].fireTime <= now then [q[|q| - 1].callback] else []
  }

  /** What becomes of one timer. */
  function Fired(t: Timer, now: int, c: Call): (r: seq<Timer>) {
    if t.fireTime > now then [t]
    else if c.repeats then [t.(fireTime := c.clock + t.repeatDelay, repeats := true)]
    else []
  }

  /** The queue afterwards: timers not due stay, due ones are rescheduled if they repeat, else dropped. */
  function After(q: seq<Timer>, now: int, calls: seq<Call>): (r: seq<Timer>)
    requires |calls| == |q|
  {
    if q == [] then [] else After(q[..|q| - 1], now, calls[..|q| - 1]) + Fired(q[|q| - 1], now, calls[|q| - 1])
  }

  lemma {:induction false} MinFireIsMin(q: seq<Timer>)
    requires q != []
    ensures forall k :: 0 <= k < |q| ==> MinFire(q) <= q[k].fireTime
    ensures exists k :: 0 <= k < |q| && q[k].fireTime == MinFire(q)
  {
    var p, last := q[..|q| - 1], |q| - 1;
    if p == [] {
      assert q[last].fireTime == MinFire(q);
    } else {
      MinFireIsMin(p);
      if MinFire(q) != q[last].fireTime {
        var k :| 0 <= k < |p| && p[k].fireTime == MinFire(p);
        assert q[k].fireTime == MinFire(q);
      } else {
        assert q[last].fireTime == MinFire(q);
      }
      forall k | 0 <= k < |q| ensures MinFire(q) <= q[k].fireTime {
        if k < |p| { assert q[k] == p[k]; }
      }
    }
  }

  // ----- the reference by position

  predicate Increasing(at: seq<nat>, n: nat) {
    (forall j :: 0 <= j < |at| ==> at[j] < n) && forall i, j :: 0 <= i < j < |at| ==> at[i] < at[j]
  }

  /** The callbacks called are those of the timers at `at`: the ones whose time has come, once each, in order. */
  ghost predicate Called(fired: seq<nat>, at: seq<nat>, q: seq<Timer>, now: int) {
    && |at| == |fired| && Increasing(at, |q|)
    && (forall j :: 0 <= j < |at| ==> fired[j] == q[at[j]].callback)
    && (forall i :: 0 <= i < |q| ==> (i in at <==> q[i].fireTime <= now))
  }

  lemma CalledNext(fired: seq<nat>, at: seq<nat>, q: seq<Timer>, now: int, t: Timer)
    requires Called(fired, at, q, now)
    ensures t.fireTime <= now ==> Called(fired + [t.callback], at + [|q|], q + [t], now)
    ensures t.fireTime > now ==> Called(fired, at, q + [t], now)
  {
    var all := q + [t];
    assert forall i :: 0 <= i < |q| ==> all[i] == q[i];
    assert forall i :: i in at + [|q|] <==> i in at || i == |q|;
  }

  lemma {:induction false} DueByPosition(q: seq<Timer>, now: int) returns (at: seq<nat>)
    ensures Called(Due(q, now), at, q, now)
  {
    at := [];
    if q != [] {
      var p, t := q[..|q| - 1], q[|q| - 1];
      at := DueByPosition(p, now);
      CalledNext(Due(p, now), at, p, now, t);
      assert p + [t] == q && Due(p, now) + [] == Due(p, now);
      if t.fireTime <= now {
        at := at + [|p|];
      }
    }
  }

  /** Timer `r` is what `t` is after the pass: untouched, or put off by its delay from the clock after its callback. */
  predicate Stays(r: Timer, t: Timer, now: int, c: Call) {
    && r.callback == t.callback && r.repeatDelay == t.repeatDelay
    && (t.fireTime > now ==> r.fireTime == t.fireTime && r.repeats == t.repeats)
    && (t.fireTime <= now ==> r.fireTime == c.clock + t.repeatDelay && r.repeats)
  }

  /** The queue holds those at `at`, in order: the ones whose time has not come, and the ones that repeat. */
  ghost predicate LeftOver(r: seq<Timer>, at: seq<nat>, q: seq<Timer>, now: int, calls: seq<Call>)
    requires |calls| == |q|
  {
    && |at| == |r| && Increasing(at, |q|)
    && (forall j :: 0 <= j < |at| ==> Stays(r[j], q[at[j]], now, calls[at[j]]))
    && (forall i :: 0 <= i < |q| ==> (i in at <==> q[i].fireTime > now || calls[i].repeats))
  }

  lemma LeftOverNext(r: seq<Timer>, at: seq<nat>, q: seq<Timer>, now: int, calls: seq<Call>, t: Timer, c: Call)
    requires |calls| == |q| && LeftOver(r, at, q, now, calls)
    ensures var f := Fired(t, now, c);
            if t.fireTime > now || c.repeats then |f| == 1 && LeftOver(r + f, at + [|q|], q + [t], now, calls + [c])
            else f == [] && LeftOver(r, at, q + [t], now, calls + [c])
  {
    var all, cs := q + [t], calls + [c];
    assert forall i :: 0 <= i < |q| ==> all[i] == q[i] && cs[i] == calls[i];
    assert forall i :: i in at + [|q|] <==> i in at || i == |q|;
  }

  lemma {:induction false} AfterByPosition(q: seq<Timer>, now: int, calls: seq<Call>) returns (at: seq<nat>)
    requires |calls| == |q|
    ensures LeftOver(After(q, now, calls), at, q, now, calls)
  {
    at := [];
    if q != [] {
      var n := |q| - 1;
      var p, t, ps, c := q[..n], q[n], calls[..n], calls[n];
      at := AfterByPosition(p, now, ps);
      LeftOverNext(After(p, now, ps), at, p, now, ps, t, c);
      assert p + [t] == q && ps + [c] == calls && After(p, now, ps) + [] == After(p, now, ps);
      if t.fireTime > now || c.repeats {
        at := at + [n];
      }
    }
  }

  // ----- the cached time

  /** What is cached once `t` has been looked at; zero means that nothing is cached. */
  function Lesser(cached: int, t: int): (r: int) { if cached == 0 || cached > t then t else cached }

  /** What is cached once every timer of `q` has been looked at, first to last. */
  function Cache(q: seq<Timer>): (m: int) {
    if q == [] then 0 else Lesser(Cache(q[..|q| - 1]), q[|q| - 1].fireTime)
  }

  lemma {:induction false} CacheNotBelow(q: seq<Timer>)
    ensures Cache(q) == 0 || MinFire(q) <= Cache(q)
  {
    if q != [] {
      CacheNotBelow(q[..|q| - 1]);
    }
  }

  lemma {:induction false} CacheIsMin(q: seq<Timer>)
    requires MinFire(q) != 0
    ensures Cache(q) == MinFire(q)
  {
    var p := q[..|q| - 1];
    CacheNotBelow(p);
    if p != [] && MinFire(p) != 0 {
      CacheIsMin(p);
    }
  }

  /**
   The cache agrees with the full scan, and is zero only for an empty queue, if and only if the earliest
   fire time is not itself zero. The clock counts up from the start of the machine, so it never is.
   */
  lemma CacheExact(q: seq<Timer>)
    ensures Cache(q) == MinFire(q) && (Cache(q) == 0 <==> q == []) <==> q == [] || MinFire(q) != 0
  {
    if MinFire(q) != 0 {
      CacheIsMin(q);
    }
  }

  /** A timer at zero is forgotten for a later one, which then holds it up. */
  lemma ZeroIsForgotten(a: nat, b: nat)
    ensures var q := [Timer(a, 0, 0, false), Timer(b, 100, 0, false)]; Cache(q) == 100 && Due(q, 50) == [a]
  {
    var p := [Timer(a, 0, 0, false)];
    var q := p + [Timer(b, 100, 0, false)];
    assert p[..0] == [] && q[..1] == p;
    assert Cache(p) == 0 && Due(p, 50) == [a];
  }

  /** If no time has come nothing is due, and scanning would change nothing. */
  lemma {:induction false} NothingDue(q: seq<Timer>, now: int)
    requires forall k :: 0 <= k < |q| ==> q[k].fireTime > now
    ensures Due(q, now) == []
  {
    if q != [] {
      NothingDue(q[..|q| - 1], now);
    }
  }

  lemma {:induction false} AllStay(q: seq<Timer>, now: int, calls: seq<Call>)
    requires |calls| == |q| && forall k :: 0 <= k < |q| ==> q[k].fireTime > now
    ensures After(q, now, calls) == q
  {
    if q != [] {
      AllStay(q[..|q| - 1], now, calls[..|q| - 1]);
      assert q == q[..|q| - 1] + [q[|q| - 1]];
    }
  }

  /** With positive delays nothing is left due: a second pass at the same time would fire nothing. */
  lemma {:induction false} NothingLeftDue(q: seq<Timer>, now: int, calls: seq<Call>)
    requires |calls| == |q| && forall k :: 0 <= k < |q| ==> q[k].repeatDelay > 0 && calls[k].clock >= now
    ensures Due(After(q, now, calls), now) == []
  {
    if q != [] {
      var p, t := After(q[..|q| - 1], now, calls[..|q| - 1]), Fired(q[|q| - 1], now, calls[|q| - 1]);
      NothingLeftDue(q[..|q| - 1], now, calls[..|q| - 1]);
      if t == [] {
        assert p + t == p;
      } else {
        assert (p + t)[..|p + t| - 1] == p;
      }
    }
  }

  /** The first `k` timers of `q` have been visited. */
  ghost predicate Visited(q: seq<Timer>, calls: seq<Call>, now: int, k: nat, done: seq<Timer>, fired: seq<nat>) {
    && k <= |q| == |calls|
    && done == After(q[..k], now, calls[..k]) && fired == Due(q[..k], now)
  }

  lemma VisitedNext(q: seq<Timer>, calls: seq<Call>, now: int, k: nat, done: seq<Timer>, fired: seq<nat>)
    requires k < |q| && Visited(q, calls, now, k, done, fired)
    ensures Visited(q, calls, now, k + 1, done + Fired(q[k], now, calls[k]),
                    fired + if q[k].fireTime <= now then [q[k].callback] else [])
  {
    assert q[..k + 1][..k] == q[..k] && calls[..k + 1][..k] == calls[..k];
  }

  lemma SuffixNext<T>(s: seq<T>, i: nat, q: seq<T>, k: nat)
    requires i < |s| && k < |q| && s[i..] == q[k..]
    ensures s[i] == q[k] && s[i + 1..] == q[k + 1..]
  {
    assert s[i] == s[i..][0] && s[i + 1..] == s[i..][1..];
  }

  // ----- the loop

  /** If the cached time is exact and lies ahead, no timer is due. */
  lemma AheadIsNotDue(q: seq<Timer>, now: int, calls: seq<Call>)
    requires |calls| == |q| && (q == [] || (MinFire(q) != 0 && Cache(q) > now))
    ensures Due(q, now) == [] && After(q, now, calls) == q
  {
    if q != [] {
      CacheIsMin(q);
      MinFireIsMin(q);
    }
    NothingDue(q, now);
    AllStay(q, now, calls);
  }

  class EventLoop {
    var queue: seq<Timer>
    var nextFire: int

    ghost predicate Valid()
      reads this
    {
      nextFire == Cache(queue)
    }

    constructor ()
      ensures Valid() && queue == []
    {
      queue, nextFire := [], 0;
    }

    method DecreaseNextFireTimeIfLess(fireTime: int)
      modifies this`nextFire
      ensures nextFire == Lesser(old(nextFire), fireTime)
    {
      if nextFire == 0 || nextFire > fireTime {
        nextFire := fireTime;
      }
    }

    method AddTimer(delay: int, callback: nat, repeats: bool, now: int)
      requires Valid()
      modifies this
      ensures Valid() && queue == old(queue) + [Timer(callback, now + delay, delay, repeats)]
      ensures MinFire(queue) != 0 ==> nextFire == MinFire(queue)
    {
      var t := Timer(callback, now + delay, delay, repeats);
      DecreaseNextFireTimeIfLess(t.fireTime);
      queue := queue + [t];
      CacheExact(queue);
    }

    /** The timer at index `i` is visited: it stays, is rescheduled, or is erased. */
    method Visit(i: nat, now: int, call: Call) returns (next: nat, called: bool)
      requires i < |queue| && nextFire == Cache(queue[..i])
      modifies this
      ensures called == (old(queue)[i].fireTime <= now)
      ensures next <= |queue| && queue[..next] == old(queue)[..i] + Fired(old(queue)[i], now, call)
      ensures queue[next..] == old(queue)[i + 1..]
      ensures nextFire == Cache(queue[..next])
    {
      var t := queue[i];
      ghost var done, rest := queue[..i], queue[i + 1..];
      called := t.fireTime <= now;
      if called && !call.repeats {
        queue := queue[..i] + queue[i + 1..];
        assert queue[..i] == done + [] && queue[i..] == rest;
        return i, called;
      }
      if called {
        t := t.(fireTime := call.clock + t.repeatDelay, repeats := true);
        queue := queue[i := t];
      }
      DecreaseNextFireTimeIfLess(t.fireTime);
      next := i + 1;
      assert queue[..next] == done + [t] && (done + [t])[..i] == done && queue[next..] == rest;
    }

    /**
     One pass. Exactly the timers due at entry fire, once each and in order, whatever the callbacks do to
     the repeat flags; the queue and the cached time end as a full scan has them. With an exact cache the
     early return skips nothing. `calls[k]` is what the callback of the timer at index `k` does, if called.
     */
    method ProcessTimers(now: int, calls: seq<Call>) returns (fired: seq<nat>)
      requires Valid() && |calls| == |queue|
      modifies this
      ensures Valid()
      ensures if old(nextFire) > now then fired == [] && queue == old(queue)
              else fired == Due(old(queue), now) && queue == After(old(queue), now, calls)
      ensures old(queue) == [] || MinFire(old(queue)) != 0 ==>
                fired == Due(old(queue), now) && queue == After(old(queue), now, calls)
      ensures MinFire(queue) != 0 ==> nextFire == MinFire(queue)
    {
      ghost var q := queue;
      CacheExact(queue);
      fired := [];
      if queue == [] || nextFire > now {
        if queue == [] || MinFire(queue) != 0 {
          AheadIsNotDue(queue, now, calls);
        }
        return;
      }
      nextFire := 0;
      var i, k := 0, 0;
      while i < |queue|
        invariant 0 <= k <= |q| && 0 <= i <= |queue| && queue[i..] == q[k..]
        invariant Visited(q, calls, now, k, queue[..i], fired)
        invariant nextFire == Cache(queue[..i])
        decreases |q| - k
      {
        assert |q[k..]| == |queue[i..]| > 0;
        SuffixNext(queue, i, q, k);
        VisitedNext(q, calls, now, k, queue[..i], fired);
        var callback := queue[i].callback;
        var called;
        i, called := Visit(i, now, calls[k]);
        if called {
          fired := fired + [callback];
        }
        k := k + 1;
      }
      assert |queue[i..]| == 0;
      assert q[..k] == q && calls[..k] == calls && queue[..i] == queue;
      CacheExact(queue);
    }
  }
}
