/**
 The event cache in Redis under concurrency: any number of servers caching messages and purging expired
 ones, interleaved command by command. Every Redis command is one atomic step.
 */
module CacheStore {
  /** A cached item of a topic. */
  datatype Key = Key(topic: string, id: string)

  /** A member of a topic's score set: the id and the expiry time it carries. */
  datatype Member = Member(key: Key, expireAt: int)

  /** A run of `cacheMessage` or of the purger, by what it will do next. */
  datatype Proc =
    | SetData(member: Member, payload: string)               // about to `hset` the payload
    | AddScore(member: Member)                               // about to `zadd` the member
    | Scan(now: int, expired: seq<Member>)                   // reading score sets; `now` was read at the start
    | RemoveScore(now: int, expired: seq<Member>)            // about to `zrem` the first of the list
    | RemoveData(now: int, expired: seq<Member>)             // about to `hdel` the first of the list
    | Done

  /**
   `used` are the ids given out so far, `added` the members ever added and `written` the payload each id
   was given: history, which no step looks at but for giving out fresh ids.
   */
  datatype Store = Store(data: map<Key, string>, scores: set<Member>, clock: int, procs: map<nat, Proc>,
                         used: set<Key>, added: set<Member>, written: map<Key, string>)

  datatype Step =
    | Tick(ms: nat)
    | BeginCache(pid: nat, key: Key, ttl: nat, payload: string)  // id taken, expiry time computed
    | BeginPurge(pid: nat)                                       // clock read
    | HSet(pid: nat)
    | ZAdd(pid: nat)
    // one topic's score set is read and its expired members noted
    | ZRange(pid: nat, topic: string, found: seq<Member>)
    | EndScan(pid: nat)
    | ZRem(pid: nat)
    | HDel(pid: nat)

  predicate Has(s: Store, pid: nat) { pid in s.procs }

  /** The topic's members that have expired, in some order. */
  ghost predicate Expired(s: Store, topic: string, now: int, found: seq<Member>) {
    forall m :: m in found <==> m in s.scores && m.key.topic == topic && m.expireAt < now
  }

  ghost predicate Enabled(s: Store, step: Step) {
    match step
    case Tick(_) => true
    case BeginCache(pid, key, _, _) => !Has(s, pid) && key !in s.used
    case BeginPurge(pid) => !Has(s, pid)
    case HSet(pid) => Has(s, pid) && s.procs[pid].SetData?
    case ZAdd(pid) => Has(s, pid) && s.procs[pid].AddScore?
    case ZRange(pid, topic, found) => Has(s, pid) && s.procs[pid].Scan? && Expired(s, topic, s.procs[pid].now, found)
    case EndScan(pid) => Has(s, pid) && s.procs[pid].Scan?
    case ZRem(pid) => Has(s, pid) && s.procs[pid].RemoveScore? && s.procs[pid].expired != []
    case HDel(pid) => Has(s, pid) && s.procs[pid].RemoveData? && s.procs[pid].expired != []
  }

  function NextItem(now: int, expired: seq<Member>): (p: Proc) {
    if expired == [] then Done else RemoveScore(now, expired)
  }

  function Apply(s: Store, step: Step): (r: Store)
    requires Enabled(s, step)
  {
    match step
    case Tick(ms) => s.(clock := s.clock + ms)
    case BeginCache(pid, key, ttl, payload) =>
      s.(procs := s.procs[pid := SetData(Member(key, s.clock + ttl * 1000), payload)], used := s.used + {key})
    case BeginPurge(pid) => s.(procs := s.procs[pid := Scan(s.clock, [])])
    case HSet(pid) =>
      var p := s.procs[pid];
      s.(data := s.data[p.member.key := p.payload], written := s.written[p.member.key := p.payload],
         procs := s.procs[pid := AddScore(p.member)])
    case ZAdd(pid) =>
      var m := s.procs[pid].member;
      s.(scores := s.scores + {m}, added := s.added + {m}, procs := s.procs[pid := Done])
    case ZRange(pid, _, found) =>
      var p := s.procs[pid];
      s.(procs := s.procs[pid := Scan(p.now, p.expired + found)])
    case EndScan(pid) => s.(procs := s.procs[pid := NextItem(s.procs[pid].now, s.procs[pid].expired)])
    case ZRem(pid) =>
      var p := s.procs[pid];
      s.(scores := s.scores - {p.expired[0]}, procs := s.procs[pid := RemoveData(p.now, p.expired)])
    case HDel(pid) =>
      var p := s.procs[pid];
      s.(data := s.data - {p.expired[0].key}, procs := s.procs[pid := NextItem(p.now, p.expired[1..])])
  }

  const EMPTY := Store(map[], {}, 0, map[], {}, {}, map[])

  // ----- what every reachable store keeps

  /** Every member of a score set has its payload, the one it was cached with. */
  ghost predicate HasPayload(s: Store, key: Key) { key in s.data && key in s.written && s.data[key] == s.written[key] }

  ghost predicate ScoresHavePayload(s: Store) { forall m :: m in s.scores ==> HasPayload(s, m.key) }

  /** An id is used once: one member per key is ever added, and score sets hold only added members. */
  ghost predicate AddedOnce(s: Store) {
    && s.scores <= s.added
    && (forall m :: m in s.added ==> m.key in s.used)
    && (forall m, n :: m in s.added && n in s.added && m.key == n.key ==> m == n)
  }

  /** A key that has been given out and is not in any score set yet. */
  ghost predicate Pending(s: Store, key: Key) { key in s.used && forall m :: m in s.added ==> m.key != key }

  /** A purger's list: members that were added and had expired when it started. */
  ghost predicate Listed(s: Store, now: int, expired: seq<Member>) {
    now <= s.clock && forall m :: m in expired ==> m in s.added && m.expireAt < now
  }

  /** What holds of a process at its place. */
  ghost predicate Holds(s: Store, p: Proc) {
    match p
    case SetData(m, _) => Pending(s, m.key)
    case AddScore(m) => Pending(s, m.key) && HasPayload(s, m.key)
    case Scan(now, expired) => Listed(s, now, expired)
    case RemoveScore(now, expired) => Listed(s, now, expired)
    case RemoveData(now, expired) => Listed(s, now, expired) && expired != [] && expired[0] !in s.scores
    case Done => true
  }

  predicate Caching(p: Proc) { p.SetData? || p.AddScore? }

  /** No two processes cache under the same key. */
  ghost predicate Apart(s: Store, i: nat, j: nat)
    requires i in s.procs && j in s.procs
  {
    i != j && Caching(s.procs[i]) && Caching(s.procs[j]) ==> s.procs[i].member.key != s.procs[j].member.key
  }

  ghost predicate Inv(s: Store) {
    && ScoresHavePayload(s)
    && AddedOnce(s)
    && (forall i :: i in s.procs ==> Holds(s, s.procs[i]))
    && (forall i, j :: i in s.procs && j in s.procs ==> Apart(s, i, j))
  }

  lemma BeginInv(s: Store, step: Step)
    requires Inv(s) && Enabled(s, step) && (step.Tick? || step.BeginCache? || step.BeginPurge?)
    ensures Inv(Apply(s, step))
  {
    var r := Apply(s, step);
    forall i | i in r.procs ensures Holds(r, r.procs[i]) {
      if i in s.procs { assert Holds(s, s.procs[i]); }
    }
    forall i, j | i in r.procs && j in r.procs ensures Apart(r, i, j) {
      if i in s.procs { assert Holds(s, s.procs[i]); }
      if j in s.procs { assert Holds(s, s.procs[j]); }
      if i in s.procs && j in s.procs { assert Apart(s, i, j); }
    }
  }

  lemma HSetInv(s: Store, pid: nat)
    requires Inv(s) && Enabled(s, HSet(pid))
    ensures Inv(Apply(s, HSet(pid)))
  {
    var r, m := Apply(s, HSet(pid)), s.procs[pid].member;
    assert Holds(s, s.procs[pid]);
    forall i | i in r.procs ensures Holds(r, r.procs[i]) {
      assert Holds(s, s.procs[i]) && Apart(s, pid, i);
    }
    forall i, j | i in r.procs && j in r.procs ensures Apart(r, i, j) { assert Apart(s, i, j); }
    forall n | n in r.scores ensures HasPayload(r, n.key) { assert HasPayload(s, n.key); }
  }

  lemma ZAddInv(s: Store, pid: nat)
    requires Inv(s) && Enabled(s, ZAdd(pid))
    ensures Inv(Apply(s, ZAdd(pid)))
  {
    var r, m := Apply(s, ZAdd(pid)), s.procs[pid].member;
    assert Holds(s, s.procs[pid]);
    forall i | i in r.procs ensures Holds(r, r.procs[i]) {
      assert Holds(s, s.procs[i]) && Apart(s, pid, i);
    }
    forall i, j | i in r.procs && j in r.procs ensures Apart(r, i, j) { assert Apart(s, i, j); }
    forall n | n in r.scores ensures HasPayload(r, n.key) { assert n == m || HasPayload(s, n.key); }
  }

  lemma ScanInv(s: Store, step: Step)
    requires Inv(s) && Enabled(s, step) && (step.ZRange? || step.EndScan?)
    ensures Inv(Apply(s, step))
  {
    var r := Apply(s, step);
    assert Holds(s, s.procs[step.pid]);
    forall i | i in r.procs ensures Holds(r, r.procs[i]) { assert Holds(s, s.procs[i]); }
    forall i, j | i in r.procs && j in r.procs ensures Apart(r, i, j) { assert Apart(s, i, j); }
    forall n | n in r.scores ensures HasPayload(r, n.key) { assert HasPayload(s, n.key); }
  }

  lemma ZRemInv(s: Store, pid: nat)
    requires Inv(s) && Enabled(s, ZRem(pid))
    ensures Inv(Apply(s, ZRem(pid)))
  {
    var r := Apply(s, ZRem(pid));
    assert Holds(s, s.procs[pid]);
    forall i | i in r.procs ensures Holds(r, r.procs[i]) { assert Holds(s, s.procs[i]); }
    forall i, j | i in r.procs && j in r.procs ensures Apart(r, i, j) { assert Apart(s, i, j); }
    forall n | n in r.scores ensures HasPayload(r, n.key) { assert HasPayload(s, n.key); }
  }

  /** The member has left the score set, its key is never used again, so no other member loses its payload. */
  lemma HDelInv(s: Store, pid: nat)
    requires Inv(s) && Enabled(s, HDel(pid))
    ensures Inv(Apply(s, HDel(pid)))
  {
    var r, p := Apply(s, HDel(pid)), s.procs[pid];
    var m := p.expired[0];
    assert Holds(s, p);
    forall i | i in r.procs ensures Holds(r, r.procs[i]) {
      assert Holds(s, s.procs[i]);
      if i == pid {
        assert forall n :: n in p.expired[1..] ==> n in p.expired;
      }
    }
    forall i, j | i in r.procs && j in r.procs ensures Apart(r, i, j) { assert Apart(s, i, j); }
    forall n | n in r.scores ensures HasPayload(r, n.key) {
      assert HasPayload(s, n.key);
      assert n in s.added && m in s.added && n != m;
    }
  }

  lemma StepInv(s: Store, step: Step)
    requires Inv(s) && Enabled(s, step)
    ensures Inv(Apply(s, step))
  {
    match step
    case HSet(pid) => HSetInv(s, pid);
    case ZAdd(pid) => ZAddInv(s, pid);
    case ZRange(_, _, _) => ScanInv(s, step);
    case EndScan(_) => ScanInv(s, step);
    case ZRem(pid) => ZRemInv(s, pid);
    case HDel(pid) => HDelInv(s, pid);
    case _ => BeginInv(s, step);
  }

  lemma StepRemovesExpired(s: Store, step: Step, m: Member)
    requires Inv(s) && Enabled(s, step) && m in s.added
    requires (m in s.scores && m !in Apply(s, step).scores) || (m.key in s.data && m.key !in Apply(s, step).data)
    ensures m.expireAt < s.clock
  {
    var p := s.procs[step.pid];
    assert Holds(s, p);
    assert p.expired[0] in p.expired;
  }

  // ----- no payload without an owner

  predicate Adding(p: Proc, key: Key) { p.AddScore? && p.member.key == key }

  predicate Removing(p: Proc, key: Key) { p.RemoveData? && p.expired != [] && p.expired[0].key == key }

  /** A payload has a score set member, or a process that is about to add one or to remove the payload. */
  ghost predicate Owned(s: Store, key: Key) {
    || (exists m :: m in s.scores && m.key == key)
    || (exists i :: i in s.procs && (Adding(s.procs[i], key) || Removing(s.procs[i], key)))
  }

  ghost predicate DataOwned(s: Store) { forall key :: key in s.data ==> Owned(s, key) }

  lemma OwnedByProc(s: Store, key: Key, i: nat)
    requires i in s.procs && (Adding(s.procs[i], key) || Removing(s.procs[i], key))
    ensures Owned(s, key)
  {}

  /** A step keeps the owner of a payload, or passes it on. */
  lemma StepOwns(s: Store, step: Step, key: Key)
    requires Inv(s) && Enabled(s, step) && Owned(s, key) && key in Apply(s, step).data
    ensures Owned(Apply(s, step), key)
  {
    var r := Apply(s, step);
    if m :| m in s.scores && m.key == key {
      if m !in r.scores {
        OwnedByProc(r, key, step.pid);
      }
    } else {
      var i :| i in s.procs && (Adding(s.procs[i], key) || Removing(s.procs[i], key));
      if r.procs[i] == s.procs[i] {
        OwnedByProc(r, key, i);
      } else if step.ZAdd? {
        assert s.procs[i].member in r.scores;
      }
    }
  }

  lemma StepDataOwned(s: Store, step: Step)
    requires Inv(s) && DataOwned(s) && Enabled(s, step)
    ensures DataOwned(Apply(s, step))
  {
    var r := Apply(s, step);
    forall key | key in r.data ensures Owned(r, key) {
      if key in s.data {
        StepOwns(s, step, key);
      } else {
        OwnedByProc(r, key, step.pid);
      }
    }
  }

  /** Every payload there is the one its id was given. */
  ghost predicate DataWritten(s: Store) {
    forall key :: key in s.data ==> key in s.written && s.data[key] == s.written[key]
  }

  lemma StepWritten(s: Store, step: Step)
    requires DataWritten(s) && Enabled(s, step)
    ensures DataWritten(Apply(s, step))
  {}

  // ----- no item comes back

  ghost predicate Gone(s: Store, m: Member) { m in s.added && m !in s.scores }

  lemma StepGone(s: Store, step: Step, m: Member)
    requires Inv(s) && Enabled(s, step) && Gone(s, m)
    ensures Gone(Apply(s, step), m)
  {
    if step.ZAdd? {
      assert Holds(s, s.procs[step.pid]);
    }
  }

  // ----- whole runs

  ghost predicate IsRun(s: Store, steps: seq<Step>)
    decreases |steps|
  {
    steps == [] || (Enabled(s, steps[0]) && IsRun(Apply(s, steps[0]), steps[1..]))
  }

  ghost function Final(s: Store, steps: seq<Step>): (r: Store)
    requires IsRun(s, steps)
    decreases |steps|
  {
    if steps == [] then s else Final(Apply(s, steps[0]), steps[1..])
  }

  lemma {:induction false} RunInv(s: Store, steps: seq<Step>)
    requires Inv(s) && DataOwned(s) && IsRun(s, steps)
    ensures Inv(Final(s, steps)) && DataOwned(Final(s, steps))
    decreases |steps|
  {
    if steps != [] {
      StepInv(s, steps[0]);
      StepDataOwned(s, steps[0]);
      RunInv(Apply(s, steps[0]), steps[1..]);
    }
  }

  lemma {:induction false} RunWritten(s: Store, steps: seq<Step>)
    requires DataWritten(s) && IsRun(s, steps)
    ensures DataWritten(Final(s, steps))
    decreases |steps|
  {
    if steps != [] {
      StepWritten(s, steps[0]);
      RunWritten(Apply(s, steps[0]), steps[1..]);
    }
  }

  lemma {:induction false} RunGone(s: Store, steps: seq<Step>, m: Member)
    requires Inv(s) && IsRun(s, steps) && Gone(s, m)
    ensures Gone(Final(s, steps), m) && s.clock <= Final(s, steps).clock
    decreases |steps|
  {
    if steps != [] {
      StepInv(s, steps[0]);
      StepGone(s, steps[0], m);
      RunGone(Apply(s, steps[0]), steps[1..], m);
    }
  }

  /** A step keeps a member that has not expired, and the payload it has. */
  lemma StepKeeps(s: Store, step: Step, m: Member)
    requires Inv(s) && Enabled(s, step) && m in s.scores && s.clock <= m.expireAt
    ensures var r := Apply(s, step);
            m in r.scores && s.clock <= r.clock && m.key in s.data && m.key in r.data && r.data[m.key] == s.data[m.key]
  {
    assert HasPayload(s, m.key);
    if m !in Apply(s, step).scores || m.key !in Apply(s, step).data {
      StepRemovesExpired(s, step, m);
    } else if step.HSet? {
      assert Holds(s, s.procs[step.pid]);
    }
  }

  lemma {:induction false} ClockGrows(s: Store, steps: seq<Step>)
    requires IsRun(s, steps)
    ensures s.clock <= Final(s, steps).clock
    decreases |steps|
  {
    if steps != [] {
      ClockGrows(Apply(s, steps[0]), steps[1..]);
    }
  }

  lemma {:induction false} RunKeeps(s: Store, steps: seq<Step>, m: Member)
    requires Inv(s) && IsRun(s, steps) && m in s.scores && Final(s, steps).clock <= m.expireAt
    ensures var r := Final(s, steps);
            m in r.scores && m.key in s.data && m.key in r.data && r.data[m.key] == s.data[m.key]
    decreases |steps|
  {
    assert HasPayload(s, m.key);
    if steps != [] {
      ClockGrows(s, steps);
      StepKeeps(s, steps[0], m);
      StepInv(s, steps[0]);
      RunKeeps(Apply(s, steps[0]), steps[1..], m);
    }
  }

  /** No interleaving leaves a score set member without its payload. */
  lemma NoMemberWithoutPayload(steps: seq<Step>, m: Member)
    requires IsRun(EMPTY, steps) && m in Final(EMPTY, steps).scores
    ensures m.key in Final(EMPTY, steps).data && m.key in Final(EMPTY, steps).written
    ensures Final(EMPTY, steps).data[m.key] == Final(EMPTY, steps).written[m.key]
  {
    RunInv(EMPTY, steps);
    assert HasPayload(Final(EMPTY, steps), m.key);
  }

  /** No step of any interleaving removes an item before its time: neither its score set member nor its payload. */
  lemma OnlyExpiredRemoved(steps: seq<Step>, step: Step, m: Member)
    requires IsRun(EMPTY, steps) && Enabled(Final(EMPTY, steps), step) && m in Final(EMPTY, steps).added
    requires var s, r := Final(EMPTY, steps), Apply(Final(EMPTY, steps), step);
             (m in s.scores && m !in r.scores) || (m.key in s.data && m.key !in r.data)
    ensures m.expireAt < Final(EMPTY, steps).clock
  {
    RunInv(EMPTY, steps);
    StepRemovesExpired(Final(EMPTY, steps), step, m);
  }

  /** And what has been removed from a score set has expired for good, and never comes back. */
  lemma RemovedForGood(steps: seq<Step>, step: Step, later: seq<Step>, m: Member)
    requires IsRun(EMPTY, steps) && Enabled(Final(EMPTY, steps), step) && IsRun(Apply(Final(EMPTY, steps), step), later)
    requires m in Final(EMPTY, steps).scores && m !in Apply(Final(EMPTY, steps), step).scores
    ensures var end := Final(Apply(Final(EMPTY, steps), step), later);
            m !in end.scores && m.expireAt < end.clock
  {
    var s := Final(EMPTY, steps);
    RunInv(EMPTY, steps);
    OnlyExpiredRemoved(steps, step, m);
    StepInv(s, step);
    RunGone(Apply(s, step), later, m);
  }

  /**
   A query is two commands. A member read from a score set that has not expired when the payloads are read has
   its payload there, whatever was cached and purged in between.
   */
  lemma ReadMemberHasPayload(steps: seq<Step>, between: seq<Step>, m: Member)
    requires IsRun(EMPTY, steps) && IsRun(Final(EMPTY, steps), between) && m in Final(EMPTY, steps).scores
    requires Final(Final(EMPTY, steps), between).clock <= m.expireAt
    ensures var s, r := Final(EMPTY, steps), Final(Final(EMPTY, steps), between);
            && m in r.scores && m.key in s.data && m.key in r.data && r.data[m.key] == s.data[m.key]
            && m.key in r.written && r.data[m.key] == r.written[m.key]
  {
    var s := Final(EMPTY, steps);
    RunInv(EMPTY, steps);
    RunKeeps(s, between, m);
    RunInv(s, between);
    assert HasPayload(Final(s, between), m.key);
  }

  /** A key given out with expiry time `e`: whoever caches under it, or has, does so until then. */
  ghost predicate Until(s: Store, key: Key, e: int) {
    && key in s.used
    && (forall m :: m in s.added && m.key == key ==> m.expireAt == e)
    && (forall i :: i in s.procs && Caching(s.procs[i]) && s.procs[i].member.key == key ==>
          s.procs[i].member.expireAt == e)
  }

  lemma StepUntil(s: Store, step: Step, key: Key, e: int)
    requires Until(s, key, e) && Enabled(s, step)
    ensures Until(Apply(s, step), key, e)
  {}

  lemma {:induction false} RunUntil(s: Store, steps: seq<Step>, key: Key, e: int)
    requires Until(s, key, e) && IsRun(s, steps)
    ensures Until(Final(s, steps), key, e)
    decreases |steps|
  {
    if steps != [] {
      StepUntil(s, steps[0], key, e);
      RunUntil(Apply(s, steps[0]), steps[1..], key, e);
    }
  }

  lemma BeginUntil(s: Store, step: Step)
    requires Inv(s) && Enabled(s, step) && step.BeginCache?
    ensures Until(Apply(s, step), step.key, s.clock + step.ttl * 1000)
  {
    var r := Apply(s, step);
    forall i | i in s.procs && Caching(s.procs[i]) ensures s.procs[i].member.key != step.key {
      assert Holds(s, s.procs[i]);
    }
  }

  /**
   A message cached with a time to live of `ttl` seconds stays that long: no step of any interleaving removes its
   member or its payload until more than `ttl` seconds after it was begun to be cached.
   */
  lemma CachedFor(steps: seq<Step>, begin: Step, between: seq<Step>, step: Step, m: Member)
    requires IsRun(EMPTY, steps) && begin.BeginCache? && Enabled(Final(EMPTY, steps), begin)
    requires IsRun(Apply(Final(EMPTY, steps), begin), between) && m.key == begin.key
    requires var s := Final(Apply(Final(EMPTY, steps), begin), between);
             && m in s.added && Enabled(s, step)
             && ((m in s.scores && m !in Apply(s, step).scores) || (m.key in s.data && m.key !in Apply(s, step).data))
    ensures Final(Apply(Final(EMPTY, steps), begin), between).clock > Final(EMPTY, steps).clock + begin.ttl * 1000
  {
    var s0 := Final(EMPTY, steps);
    var s1 := Apply(s0, begin);
    RunInv(EMPTY, steps);
    StepInv(s0, begin);
    StepDataOwned(s0, begin);
    BeginUntil(s0, begin);
    RunUntil(s1, between, begin.key, s0.clock + begin.ttl * 1000);
    RunInv(s1, between);
    StepRemovesExpired(Final(s1, between), step, m);
  }

  // ----- what is purged

  predicate Purging(p: Proc) { p.Scan? || p.RemoveScore? || p.RemoveData? }

  /** Purger `pid` has `m` on its list still, or has removed it. */
  ghost predicate OnItsWay(s: Store, pid: nat, m: Member) {
    && pid in s.procs && m in s.added
    && ((Purging(s.procs[pid]) && m in s.procs[pid].expired) || (m !in s.scores && m.key !in s.data))
  }

  /** What has gone does not come back: a key that has been added is never written again. */
  lemma StepLeavesGone(s: Store, step: Step, m: Member)
    requires Inv(s) && Enabled(s, step) && m in s.added && m !in s.scores && m.key !in s.data
    ensures m !in Apply(s, step).scores && m.key !in Apply(s, step).data
  {
    if step.HSet? || step.ZAdd? {
      assert Holds(s, s.procs[step.pid]);
    }
  }

  lemma ListedOn(p: Proc, m: Member)
    requires (p.RemoveScore? || p.RemoveData?) && p.expired != [] && m in p.expired
    ensures m == p.expired[0] || m in p.expired[1..]
  {}

  lemma StepOnItsWay(s: Store, step: Step, pid: nat, m: Member)
    requires Inv(s) && Enabled(s, step) && OnItsWay(s, pid, m)
    ensures OnItsWay(Apply(s, step), pid, m)
  {
    var r, p := Apply(s, step), s.procs[pid];
    if m !in s.scores && m.key !in s.data {
      StepLeavesGone(s, step, m);
    } else if step.HDel? && step.pid == pid {
      ListedOn(p, m);
      assert Holds(s, p);
    }
  }

  lemma {:induction false} RunOnItsWay(s: Store, steps: seq<Step>, pid: nat, m: Member)
    requires Inv(s) && IsRun(s, steps) && OnItsWay(s, pid, m)
    ensures OnItsWay(Final(s, steps), pid, m)
    decreases |steps|
  {
    if steps != [] {
      StepInv(s, steps[0]);
      StepOnItsWay(s, steps[0], pid, m);
      RunOnItsWay(Apply(s, steps[0]), steps[1..], pid, m);
    }
  }

  /**
   A purger does its work: whatever had expired when it started and was in a score set when it read that, is gone
   once it is done, member and payload, whatever other servers do meanwhile.
   */
  lemma PurgedWhenDone(steps: seq<Step>, scan: Step, later: seq<Step>, m: Member)
    requires IsRun(EMPTY, steps) && scan.ZRange? && Enabled(Final(EMPTY, steps), scan)
    requires var s := Final(EMPTY, steps);
             && m in s.scores && m.key.topic == scan.topic && m.expireAt < s.procs[scan.pid].now
             && IsRun(Apply(s, scan), later)
    requires var r := Final(Apply(Final(EMPTY, steps), scan), later); scan.pid in r.procs && r.procs[scan.pid].Done?
    ensures var r := Final(Apply(Final(EMPTY, steps), scan), later); m !in r.scores && m.key !in r.data
  {
    var s := Final(EMPTY, steps);
    RunInv(EMPTY, steps);
    StepInv(s, scan);
    assert m in scan.found;
    RunOnItsWay(Apply(s, scan), later, scan.pid, m);
  }

  /** The other way round: every payload has its member, or a process at work on it. */
  lemma NoPayloadWithoutOwner(steps: seq<Step>, key: Key)
    requires IsRun(EMPTY, steps) && key in Final(EMPTY, steps).data
    ensures Owned(Final(EMPTY, steps), key)
  {
    RunInv(EMPTY, steps);
  }

  /** So when all servers have finished what they began, score sets and payloads agree exactly. */
  lemma AgreeWhenQuiet(steps: seq<Step>, key: Key)
    requires IsRun(EMPTY, steps) && forall i :: i in Final(EMPTY, steps).procs ==> Final(EMPTY, steps).procs[i].Done?
    ensures key in Final(EMPTY, steps).data <==> exists m :: m in Final(EMPTY, steps).scores && m.key == key
  {
    RunInv(EMPTY, steps);
    var s := Final(EMPTY, steps);
    if m :| m in s.scores && m.key == key {
      assert HasPayload(s, m.key);
    }
  }
}
