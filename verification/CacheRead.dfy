/**
 A query on the store it runs against. `getCacheSince` is two commands, one for the score set and one for the
 payloads, and other servers cache and purge between them.
 */
module CacheRead {
  import opened CacheText
  import opened CacheQuery
  import opened CacheStore

  /** The score set member of a cached item. */
  function MemberOf(topic: string, c: Cached): (m: Member) { Member(Key(topic, FormatId(c.ts, c.no)), c.expireAt) }

  /** The item given for it: topic, id as timestamp and number, payload, and origin up to its first colon. */
  function Given(topic: string, c: Cached, payload: string): (e: Entry) {
    Entry(topic, DecInt(c.ts) + "-" + Dec(c.no), payload, Field(c.origin, 0))
  }

  /** The payloads of a topic by id, which `hmget` looks up. */
  ghost function Payloads(s: Store, topic: string): (r: map<string, string>) {
    map key | key in s.data && key.topic == topic :: key.id := s.data[key]
  }

  lemma PayloadOf(s: Store, key: Key)
    ensures key.id in Payloads(s, key.topic) <==> key in s.data
    ensures key in s.data ==> Payloads(s, key.topic)[key.id] == s.data[key]
  {
    assert key == Key(key.topic, key.id);
  }

  lemma {:induction false} FoundHas(topic: string, members: seq<Cached>, payload: map<string, string>, now: int, k: nat)
    requires k < |members| && members[k].expireAt >= now && MetaFor(members[k]).id in payload
    ensures EntryFor(topic, members[k], payload[MetaFor(members[k]).id]) in Found(topic, members, payload, now)
  {
    if k < |members| - 1 {
      FoundHas(topic, members[..|members| - 1], payload, now, k);
    }
  }

  lemma {:induction false} FoundOnly(topic: string, members: seq<Cached>, payload: map<string, string>, now: int,
                                     e: Entry)
    returns (k: nat)
    requires e in Found(topic, members, payload, now)
    ensures k < |members| && members[k].expireAt >= now && MetaFor(members[k]).id in payload
    ensures e == EntryFor(topic, members[k], payload[MetaFor(members[k]).id])
  {
    var n := |members| - 1;
    if e in Found(topic, members[..n], payload, now) {
      k := FoundOnly(topic, members[..n], payload, now, e);
    } else {
      k := n;
    }
  }

  /**
   The members were read from the score set of the topic after `steps`, the payloads after those `between` as
   well.
   */
  ghost predicate Reading(topic: string, members: seq<Cached>, steps: seq<Step>, between: seq<Step>) {
    && IsRun(EMPTY, steps) && IsRun(Final(EMPTY, steps), between)
    && forall k :: 0 <= k < |members| ==> MemberOf(topic, members[k]) in Final(EMPTY, steps).scores
  }

  /** The store when the payloads are read. */
  ghost function Then(steps: seq<Step>, between: seq<Step>): (s: Store)
    requires IsRun(EMPTY, steps) && IsRun(Final(EMPTY, steps), between)
  {
    Final(Final(EMPTY, steps), between)
  }

  /**
   Every member read that has not expired when the payloads are read is given, with the payload it was cached
   with, whatever was cached and purged in between.
   */
  lemma UnexpiredGiven(topic: string, members: seq<Cached>, now: int, steps: seq<Step>, between: seq<Step>, k: nat)
    requires Reading(topic, members, steps, between) && k < |members|
    requires now <= Then(steps, between).clock <= members[k].expireAt
    ensures var s, key := Then(steps, between), MemberOf(topic, members[k]).key;
            && key in s.written
            && Given(topic, members[k], s.written[key]) in Found(topic, members, Payloads(s, topic), now)
  {
    var s, m := Then(steps, between), MemberOf(topic, members[k]);
    ReadMemberHasPayload(steps, between, m);
    PayloadOf(s, m.key);
    FoundHas(topic, members, Payloads(s, topic), now, k);
  }

  /** And nothing else is: each item given is a member read, unexpired at `now`, with the payload it was cached with. */
  lemma OnlyCachedGiven(topic: string, members: seq<Cached>, now: int, steps: seq<Step>, between: seq<Step>, e: Entry)
    returns (k: nat)
    requires Reading(topic, members, steps, between)
    requires e in Found(topic, members, Payloads(Then(steps, between), topic), now)
    ensures k < |members| && members[k].expireAt >= now
    ensures var s, key := Then(steps, between), MemberOf(topic, members[k]).key;
            key in s.written && e == Given(topic, members[k], s.written[key])
  {
    var s := Then(steps, between);
    k := FoundOnly(topic, members, Payloads(s, topic), now, e);
    RunWritten(EMPTY, steps);
    RunWritten(Final(EMPTY, steps), between);
    PayloadOf(s, MemberOf(topic, members[k]).key);
  }
}
