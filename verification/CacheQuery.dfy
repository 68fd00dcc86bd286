/** Reading the event cache: what is left of the items for an id, and the items since a timestamp. */
module CacheQuery {
  import opened Wrappers
  import opened CacheText

  // ----- messages after an id

  /** An item of the answer; an empty origin stands for none. */
  datatype Entry = Entry(topic: string, id: string, message: string, origin: string)

  predicate Later(a: (int, int), b: (int, int)) { a.0 > b.0 || (a.0 == b.0 && a.1 > b.1) }

  /** What the erasing loop leaves of `items`; `None` if it gives up. `found` says that the id has been met. */
  function Trim(items: seq<Entry>, since: (int, int), found: bool): (r: Option<seq<Entry>>) {
    if items == [] then if found then Some([]) else None
    else
      var at := SplitIdAndSeq(items[0].id);
      if at.None? || (Later(at.value, since) && !found) then None
      else if at.value.0 == since.0 && at.value.1 <= since.1 then
        Trim(items[1..], since, found || at.value.1 == since.1)
      else
        var rest := Trim(items[1..], since, found);
        if rest.None? then None else Some([items[0]] + rest.value)
  }

  function OrEmpty(r: Option<seq<Entry>>): (items: seq<Entry>) { if r.None? then [] else r.value }

  /** The items to send for an id: the cached items since its timestamp, less those up to it. */
  function SinceId(items: seq<Entry>, sinceId: string): (r: seq<Entry>) {
    var since := SplitIdAndSeq(sinceId);
    if since.None? || since.value.0 == 0 || items == [] then [] else OrEmpty(Trim(items, since.value, false))
  }

  /** `done` has been passed over and kept; what is left to visit is `rest`. */
  ghost predicate Trimming(items: seq<Entry>, since: (int, int), done: seq<Entry>, rest: seq<Entry>, found: bool) {
    var r := Trim(rest, since, found);
    Trim(items, since, false) == if r.None? then None else Some(done + r.value)
  }

  lemma TrimStep(items: seq<Entry>, since: (int, int), done: seq<Entry>, rest: seq<Entry>, found: bool, at: (int, int))
    requires rest != [] && Trimming(items, since, done, rest, found) && SplitIdAndSeq(rest[0].id) == Some(at)
    requires !Later(at, since) || found
    ensures if at.0 == since.0 && at.1 <= since.1 then Trimming(items, since, done, rest[1..], found || at.1 == since.1)
            else Trimming(items, since, done + [rest[0]], rest[1..], found)
  {
    var r := Trim(rest[1..], since, found);
    if r.Some? && !(at.0 == since.0 && at.1 <= since.1) {
      assert done + ([rest[0]] + r.value) == done + [rest[0]] + r.value;
    }
  }

  lemma TrimStops(items: seq<Entry>, since: (int, int), done: seq<Entry>, rest: seq<Entry>, found: bool)
    requires Trimming(items, since, done, rest, found)
    ensures rest == [] ==> Trim(items, since, false) == if found then Some(done) else None
    ensures rest != [] && SplitIdAndSeq(rest[0].id).None? ==> Trim(items, since, false).None?
    ensures rest != [] && SplitIdAndSeq(rest[0].id).Some? && Later(SplitIdAndSeq(rest[0].id).value, since) && !found ==>
              Trim(items, since, false).None?
  {
    assert done + [] == done;
  }

  lemma RemoveAt<T>(s: seq<T>, i: nat)
    requires i < |s|
    ensures (s[..i] + s[i + 1..])[..i] == s[..i] && (s[..i] + s[i + 1..])[i..] == s[i..][1..]
    ensures s[i..][0] == s[i] && s[i + 1..] == s[i..][1..] && s[..i + 1] == s[..i] + [s[i]]
  {}

  /** Erases in place while walking the list. */
  method EraseUpTo(items: seq<Entry>, since: (int, int)) returns (result: seq<Entry>)
    ensures result == OrEmpty(Trim(items, since, false))
  {
    result := items;
    var sinceIdFound := false;
    var it := 0;
    assert result[0..] == items && result[..0] == [];
    assert [] + OrEmpty(Trim(items, since, false)) == OrEmpty(Trim(items, since, false));
    while it < |result|
      invariant 0 <= it <= |result|
      invariant Trimming(items, since, result[..it], result[it..], sinceIdFound)
      decreases |result| - it
    {
      TrimStops(items, since, result[..it], result[it..], sinceIdFound);
      RemoveAt(result, it);
      var elm := SplitIdAndSeq(result[it].id);
      if elm.None? {
        return [];
      }
      if Later(elm.value, since) {
        if !sinceIdFound {
          return [];
        }
      }
      TrimStep(items, since, result[..it], result[it..], sinceIdFound, elm.value);
      if elm.value.0 == since.0 && elm.value.1 <= since.1 {
        if elm.value.1 == since.1 {
          sinceIdFound := true;
        }
        result := result[..it] + result[it + 1..];
      } else {
        it := it + 1;
      }
    }
    TrimStops(items, since, result[..it], result[it..], sinceIdFound);
    assert result[..it] == result;
    if !sinceIdFound {
      return [];
    }
  }

  method GetCacheSinceId(items: seq<Entry>, sinceId: string) returns (result: seq<Entry>)
    ensures result == SinceId(items, sinceId)
  {
    var split := SplitIdAndSeq(sinceId);
    if split.None? || split.value.0 == 0 || items == [] {
      return [];
    }
    result := EraseUpTo(items, split.value);
  }

  // ----- what it means

  function Stamp(e: Entry): (r: (int, int)) {
    var s := SplitIdAndSeq(e.id);
    if s.None? then (0, 0) else s.value
  }

  /** Ids that come apart, strictly increasing by timestamp and sequence number. */
  ghost predicate Sorted(items: seq<Entry>) {
    && (forall k :: 0 <= k < |items| ==> SplitIdAndSeq(items[k].id).Some?)
    && (forall j, k :: 0 <= j < k < |items| ==> Later(Stamp(items[k]), Stamp(items[j])))
  }

  lemma TrimSkips(items: seq<Entry>, since: (int, int))
    requires items != [] && SplitIdAndSeq(items[0].id).Some?
    requires Stamp(items[0]).0 == since.0 && Stamp(items[0]).1 <= since.1
    ensures Trim(items, since, false) == Trim(items[1..], since, Stamp(items[0]) == since)
  {}

  /** The items later than `since`, in the order given. */
  function LaterOnes(items: seq<Entry>, since: (int, int)): (r: seq<Entry>) {
    if items == [] then []
    else (if Later(Stamp(items[0]), since) then [items[0]] else []) + LaterOnes(items[1..], since)
  }

  /** Items with ids that come apart, none of an earlier timestamp than `ts`; in any order. */
  ghost predicate NotBefore(items: seq<Entry>, ts: int) {
    forall j :: 0 <= j < |items| ==> SplitIdAndSeq(items[j].id).Some? && Stamp(items[j]).0 >= ts
  }

  lemma {:induction false} TrimFiltersOnceFound(items: seq<Entry>, since: (int, int))
    requires NotBefore(items, since.0)
    ensures Trim(items, since, true) == Some(LaterOnes(items, since))
  {
    if items != [] {
      assert SplitIdAndSeq(items[0].id).Some?;
      TrimFiltersOnceFound(items[1..], since);
      assert [] + LaterOnes(items[1..], since) == LaterOnes(items[1..], since);
    }
  }

  lemma {:induction false} TrimNeedsTheId(items: seq<Entry>, since: (int, int))
    requires NotBefore(items, since.0) && forall j :: 0 <= j < |items| ==> Stamp(items[j]) != since
    ensures Trim(items, since, false).None?
  {
    if items != [] {
      assert SplitIdAndSeq(items[0].id).Some?;
      TrimNeedsTheId(items[1..], since);
    }
  }

  /** None of the first `k` items is later than `since`. */
  ghost predicate NoneLater(items: seq<Entry>, since: (int, int), k: nat)
    requires k <= |items|
  {
    forall j :: 0 <= j < k ==> !Later(Stamp(items[j]), since)
  }

  lemma NoneLaterNext(items: seq<Entry>, since: (int, int), k: nat)
    requires 0 < k <= |items| && !Later(Stamp(items[0]), since)
    ensures NoneLater(items, since, k) <==> NoneLater(items[1..], since, k - 1)
  {
    var t := items[1..];
    if NoneLater(t, since, k - 1) {
      forall j | 0 <= j < k ensures !Later(Stamp(items[j]), since) {
        if j > 0 { assert items[j] == t[j - 1]; }
      }
    }
    if NoneLater(items, since, k) {
      forall j | 0 <= j < k - 1 ensures !Later(Stamp(t[j]), since) {
        assert t[j] == items[j + 1];
      }
    }
  }

  /**
   Up to the first item with the id, at `k`, a later item makes the loop give up; without one, all later items
   are kept.
   */
  lemma {:induction false} TrimFilters(items: seq<Entry>, since: (int, int), k: nat)
    requires NotBefore(items, since.0) && k < |items| && Stamp(items[k]) == since
    requires forall j :: 0 <= j < k ==> Stamp(items[j]) != since
    ensures Trim(items, since, false) == if NoneLater(items, since, k) then Some(LaterOnes(items, since)) else None
  {
    assert SplitIdAndSeq(items[0].id).Some?;
    assert [] + LaterOnes(items[1..], since) == LaterOnes(items[1..], since);
    if k == 0 {
      TrimSkips(items, since);
      TrimFiltersOnceFound(items[1..], since);
    } else if Later(Stamp(items[0]), since) {
      assert !NoneLater(items, since, k);
    } else {
      var t := items[1..];
      TrimSkips(items, since);
      assert t[k - 1] == items[k];
      TrimFilters(t, since, k - 1);
      NoneLaterNext(items, since, k);
    }
  }

  lemma {:induction false} LaterOnesMember(items: seq<Entry>, since: (int, int), j: nat)
    requires j < |items| && Later(Stamp(items[j]), since)
    ensures LaterOnes(items, since) != []
  {
    if j > 0 {
      assert items[1..][j - 1] == items[j];
      LaterOnesMember(items[1..], since, j - 1);
    }
  }

  /** The id `(ts, no)` is first met at `k`. */
  ghost predicate FirstAt(items: seq<Entry>, since: (int, int), k: nat) {
    k < |items| && Stamp(items[k]) == since && forall j :: 0 <= j < k ==> Stamp(items[j]) != since
  }

  /** The id asked for: a text that comes apart, into numbers of which the timestamp is not zero. */
  predicate IsId(sinceId: string, since: (int, int)) { SplitIdAndSeq(sinceId) == Some(since) && since.0 != 0 }

  /**
   In whatever order the items come: the answer for an id is exactly the later items if and only if none
   of them comes before the id; otherwise it is empty.
   */
  lemma SinceIdExact(items: seq<Entry>, sinceId: string, since: (int, int), k: nat)
    requires IsId(sinceId, since) && NotBefore(items, since.0) && FirstAt(items, since, k)
    ensures SinceId(items, sinceId) == LaterOnes(items, since) <==> NoneLater(items, since, k)
    ensures !NoneLater(items, since, k) ==> SinceId(items, sinceId) == []
  {
    TrimFilters(items, since, k);
    if !NoneLater(items, since, k) {
      var j :| 0 <= j < k && Later(Stamp(items[j]), since);
      LaterOnesMember(items, since, j);
    }
  }

  /** For an id that is not there the answer is empty. */
  lemma SinceIdAbsent(items: seq<Entry>, sinceId: string, since: (int, int))
    requires IsId(sinceId, since) && NotBefore(items, since.0)
    requires forall j :: 0 <= j < |items| ==> Stamp(items[j]) != since
    ensures SinceId(items, sinceId) == []
  {
    TrimNeedsTheId(items, since);
  }

  lemma {:induction false} LaterOnesSorted(items: seq<Entry>, since: (int, int), k: nat)
    requires k <= |items| && forall j :: 0 <= j < |items| ==> (Later(Stamp(items[j]), since) <==> j >= k)
    ensures LaterOnes(items, since) == items[k..]
  {
    if items != [] {
      var t := items[1..];
      assert Later(Stamp(items[0]), since) <==> k == 0;
      LaterOnesSorted(t, since, if k == 0 then 0 else k - 1);
      if k > 0 {
        assert items[k..] == t[k - 1..];
      }
    }
  }

  lemma SortedAround(items: seq<Entry>, k: nat, j: nat)
    requires Sorted(items) && k < |items| && j < |items|
    ensures Later(Stamp(items[j]), Stamp(items[k])) <==> j > k
    ensures Stamp(items[j]) == Stamp(items[k]) <==> j == k
  {
    if j < k {
      assert Later(Stamp(items[k]), Stamp(items[j]));
    } else if j > k {
      assert Later(Stamp(items[j]), Stamp(items[k]));
    }
  }

  /** So for a sorted list the answer is the suffix behind the id. */
  lemma SinceIdIsSuffix(items: seq<Entry>, sinceId: string, since: (int, int), k: nat)
    requires IsId(sinceId, since) && Sorted(items) && NotBefore(items, since.0)
    requires k < |items| && Stamp(items[k]) == since
    ensures SinceId(items, sinceId) == items[k + 1..]
  {
    forall j | 0 <= j < |items|
      ensures Later(Stamp(items[j]), since) <==> j >= k + 1
      ensures j < k ==> Stamp(items[j]) != since
    {
      SortedAround(items, k, j);
    }
    LaterOnesSorted(items, since, k + 1);
    TrimFilters(items, since, k);
  }

  // ----- cached messages since a timestamp

  /** A cached item: the parts of its id, its expiry time and its origin. */
  datatype Cached = Cached(ts: LongLong, no: SeqNo, expireAt: ULong, origin: string)

  function MemberText(c: Cached): (s: string) { ToStr(Meta(FormatId(c.ts, c.no), c.expireAt, c.origin)) }

  function Since(members: seq<Cached>, since: int): (r: seq<Cached>) {
    if members == [] then []
    else
      var c := members[|members| - 1];
      Since(members[..|members| - 1], since) + if c.ts >= since then [c] else []
  }

  /** The newest `limit` of a score set from `since` on; a negative limit means all. */
  function Newest(members: seq<Cached>, since: int, limit: int): (r: seq<Cached>) {
    var all := Since(members, since);
    if limit < 0 || |all| <= limit then all else all[|all| - limit..]
  }

  /** What is returned for a cached item: the origin survives up to its first colon. */
  function EntryFor(topic: string, c: Cached, message: string): (e: Entry) {
    Entry(topic, FormatId(c.ts, c.no), message, Field(c.origin, 0))
  }

  /** The unexpired ones that still have a payload. */
  function Found(topic: string, members: seq<Cached>, payload: map<string, string>, now: int): (r: seq<Entry>) {
    if members == [] then []
    else
      var c := members[|members| - 1];
      var id := FormatId(c.ts, c.no);
      Found(topic, members[..|members| - 1], payload, now) +
      if c.expireAt >= now && id in payload then [EntryFor(topic, c, payload[id])] else []
  }

  /** The members that come apart and have not expired. */
  function Unexpired(texts: seq<string>, now: int): (r: seq<Meta>) {
    if texts == [] then []
    else
      var m := ParseMeta(texts[|texts| - 1]);
      Unexpired(texts[..|texts| - 1], now) + if m.Some? && m.value.expireAt >= now then [m.value] else []
  }

  function Ids(ms: seq<Meta>): (r: seq<string>)
    ensures |r| == |ms|
  {
    seq(|ms|, k requires 0 <= k < |ms| => ms[k].id)
  }

  /** The origin of each id; the last of an id wins. */
  function Origins(ms: seq<Meta>): (r: map<string, string>) {
    if ms == [] then map[] else Origins(ms[..|ms| - 1])[ms[|ms| - 1].id := ms[|ms| - 1].origin]
  }

  lemma OriginsPush(ms: seq<Meta>, m: Meta)
    ensures Origins(ms + [m]) == Origins(ms)[m.id := m.origin]
  {
    assert (ms + [m])[..|ms|] == ms;
  }

  lemma {:induction false} OriginsHave(ms: seq<Meta>, k: nat)
    requires k < |ms|
    ensures ms[k].id in Origins(ms)
    ensures (forall j :: k < j < |ms| ==> ms[j].id != ms[k].id) ==> Origins(ms)[ms[k].id] == ms[k].origin
  {
    if k < |ms| - 1 {
      OriginsHave(ms[..|ms| - 1], k);
    }
  }

  /** HMGET: one value per field asked for, missing or not. */
  function Hmget(payload: map<string, string>, ids: seq<string>): (r: seq<Option<string>>)
    ensures |r| == |ids|
  {
    seq(|ids|, k requires 0 <= k < |ids| => if ids[k] in payload then Some(payload[ids[k]]) else None)
  }

  /** The items of `ids`, those that have a payload. */
  function Lookup(topic: string, ids: seq<string>, origins: map<string, string>, payload: map<string, string>)
    : (r: seq<Entry>)
    requires forall k :: 0 <= k < |ids| ==> ids[k] in origins
  {
    if ids == [] then []
    else
      var id := ids[|ids| - 1];
      Lookup(topic, ids[..|ids| - 1], origins, payload) +
      if id in payload then [Entry(topic, id, payload[id], origins[id])] else []
  }

  lemma UnexpiredNext(texts: seq<string>, i: nat, now: int)
    requires i < |texts|
    ensures var m, ms := ParseMeta(texts[i]), Unexpired(texts[..i], now);
            Unexpired(texts[..i + 1], now) == if m.Some? && m.value.expireAt >= now then ms + [m.value] else ms
  {
    assert texts[..i + 1][..i] == texts[..i];
    assert Unexpired(texts[..i], now) + [] == Unexpired(texts[..i], now);
  }

  /** What the first pass has made of `ms`. */
  ghost predicate Selected(ms: seq<Meta>, cacheKeys: seq<string>, originIdMap: map<string, string>) {
    cacheKeys == Ids(ms) && originIdMap == Origins(ms)
  }

  lemma SelectedPush(ms: seq<Meta>, cacheKeys: seq<string>, originIdMap: map<string, string>, m: Meta)
    requires Selected(ms, cacheKeys, originIdMap)
    ensures Selected(ms + [m], cacheKeys + [m.id], originIdMap[m.id := m.origin])
  {
    OriginsPush(ms, m);
    assert Ids(ms + [m]) == Ids(ms) + [m.id];
  }

  /** The first pass over the members: ids in order, and the origin of each. */
  method Select(texts: seq<string>, now: int) returns (cacheKeys: seq<string>, originIdMap: map<string, string>)
    ensures cacheKeys == Ids(Unexpired(texts, now)) && originIdMap == Origins(Unexpired(texts, now))
  {
    cacheKeys, originIdMap := [], map[];
    ghost var ms: seq<Meta> := [];
    var i := 0;
    while i < |texts|
      invariant 0 <= i <= |texts| && ms == Unexpired(texts[..i], now) && Selected(ms, cacheKeys, originIdMap)
    {
      var p := ExecParseMeta(texts[i]);
      UnexpiredNext(texts, i, now);
      if p.Some? && p.value.expireAt >= now {
        SelectedPush(ms, cacheKeys, originIdMap, p.value);
        ms := ms + [p.value];
        cacheKeys := cacheKeys + [p.value.id];
        originIdMap := originIdMap[p.value.id := p.value.origin];
      }
      i := i + 1;
    }
    assert texts[..i] == texts;
  }

  /** The second pass: the payloads that exist, with topic and origin. */
  method Collect(topic: string, cacheKeys: seq<string>, originIdMap: map<string, string>, payload: map<string, string>,
                 cacheItems: seq<Option<string>>)
    returns (items: seq<Entry>)
    requires cacheItems == Hmget(payload, cacheKeys) && forall k :: 0 <= k < |cacheKeys| ==> cacheKeys[k] in originIdMap
    ensures items == Lookup(topic, cacheKeys, originIdMap, payload)
  {
    items := [];
    var i := 0;
    while i < |cacheItems|
      invariant 0 <= i <= |cacheItems| && items == Lookup(topic, cacheKeys[..i], originIdMap, payload)
    {
      assert cacheKeys[..i + 1][..i] == cacheKeys[..i];
      if cacheItems[i].Some? {
        items := items + [Entry(topic, cacheKeys[i], cacheItems[i].value, originIdMap[cacheKeys[i]])];
      }
      i := i + 1;
    }
    assert cacheKeys[..i] == cacheKeys;
  }

  lemma IdsHaveOrigins(ms: seq<Meta>)
    ensures forall k :: 0 <= k < |ms| ==> Ids(ms)[k] in Origins(ms)
  {
    forall k | 0 <= k < |ms| ensures Ids(ms)[k] in Origins(ms) { OriginsHave(ms, k); }
  }

  /**
   One topic's part of the answer. The deletion of the whole topic, made if the store returns another
   number of values than it was asked for, is never reached.
   */
  method GetCacheSince(topic: string, texts: seq<string>, payload: map<string, string>, now: int)
    returns (items: seq<Entry>, deleted: bool)
    ensures !deleted
    ensures var ms := Unexpired(texts, now);
            && (forall k :: 0 <= k < |ms| ==> Ids(ms)[k] in Origins(ms))
            && items == Lookup(topic, Ids(ms), Origins(ms), payload)
  {
    IdsHaveOrigins(Unexpired(texts, now));
    items, deleted := [], false;
    var cacheKeys, originIdMap := Select(texts, now);
    if cacheKeys == [] {
      return;
    }
    var cacheItems := Hmget(payload, cacheKeys);
    deleted := |cacheItems| != |cacheKeys|;
    if !deleted {
      items := Collect(topic, cacheKeys, originIdMap, payload, cacheItems);
    }
  }

  // ----- on members as they are written

  function MetaFor(c: Cached): (m: Meta) { Meta(FormatId(c.ts, c.no), c.expireAt, Field(c.origin, 0)) }

  lemma IdHasNoColon(ts: int, no: nat)
    ensures ':' !in FormatId(ts, no)
  {
    DigitsHaveNo(Dec(if ts < 0 then -ts else ts), ':');
    DigitsHaveNo(Dec(no), ':');
  }

  lemma MemberComesApart(c: Cached)
    ensures ParseMeta(MemberText(c)) == Some(MetaFor(c))
  {
    IdHasNoColon(c.ts, c.no);
    MetaRoundTrip(Meta(FormatId(c.ts, c.no), c.expireAt, c.origin));
  }

  ghost predicate TextsOf(texts: seq<string>, members: seq<Cached>) {
    |texts| == |members| && forall k :: 0 <= k < |members| ==> texts[k] == MemberText(members[k])
  }

  /** What the members that have not expired come apart into. */
  function MetasOf(members: seq<Cached>, now: int): (r: seq<Meta>) {
    if members == [] then []
    else
      var c := members[|members| - 1];
      MetasOf(members[..|members| - 1], now) + if c.expireAt >= now then [MetaFor(c)] else []
  }

  lemma {:induction false} UnexpiredIs(members: seq<Cached>, texts: seq<string>, now: int)
    requires TextsOf(texts, members)
    ensures Unexpired(texts, now) == MetasOf(members, now)
  {
    if members != [] {
      var n := |members| - 1;
      UnexpiredIs(members[..n], texts[..n], now);
      MemberComesApart(members[n]);
    }
  }

  /** No two have the same id. */
  ghost predicate IdsDiffer(ms: seq<Meta>) { forall j, k :: 0 <= j < k < |ms| ==> ms[j].id != ms[k].id }

  ghost predicate MemberIdsDiffer(members: seq<Cached>) {
    forall j, k :: 0 <= j < k < |members| ==> MetaFor(members[j]).id != MetaFor(members[k]).id
  }

  lemma {:induction false} MetaOfMember(members: seq<Cached>, now: int, j: nat) returns (k: nat)
    requires j < |MetasOf(members, now)|
    ensures k < |members| && MetasOf(members, now)[j] == MetaFor(members[k])
  {
    var n := |members| - 1;
    if j < |MetasOf(members[..n], now)| {
      k := MetaOfMember(members[..n], now, j);
    } else {
      k := n;
    }
  }

  lemma {:induction false} MetaIdsDiffer(members: seq<Cached>, now: int)
    requires MemberIdsDiffer(members)
    ensures IdsDiffer(MetasOf(members, now))
  {
    if members != [] {
      var n := |members| - 1;
      var ms := MetasOf(members[..n], now);
      MetaIdsDiffer(members[..n], now);
      forall j | 0 <= j < |ms| ensures ms[j].id != MetaFor(members[n]).id {
        var k := MetaOfMember(members[..n], now, j);
        assert members[..n][k] == members[k];
      }
    }
  }

  /** The items of the members, each with its own origin. */
  function Items(topic: string, ms: seq<Meta>, payload: map<string, string>): (r: seq<Entry>) {
    if ms == [] then []
    else
      var m := ms[|ms| - 1];
      Items(topic, ms[..|ms| - 1], payload) +
      if m.id in payload then [Entry(topic, m.id, payload[m.id], m.origin)] else []
  }

  ghost predicate OriginsOf(ms: seq<Meta>, origins: map<string, string>) {
    forall k :: 0 <= k < |ms| ==> ms[k].id in origins && origins[ms[k].id] == ms[k].origin
  }

  lemma {:induction false} LookupIsItems(topic: string, ms: seq<Meta>, origins: map<string, string>,
                                         payload: map<string, string>)
    requires OriginsOf(ms, origins)
    ensures Lookup(topic, Ids(ms), origins, payload) == Items(topic, ms, payload)
  {
    if ms != [] {
      var p := ms[..|ms| - 1];
      LookupIsItems(topic, p, origins, payload);
      assert Ids(ms)[..|p|] == Ids(p);
    }
  }

  lemma ItemsPush(topic: string, ms: seq<Meta>, m: Meta, payload: map<string, string>)
    ensures Items(topic, ms + [m], payload) ==
            Items(topic, ms, payload) + if m.id in payload then [Entry(topic, m.id, payload[m.id], m.origin)] else []
  {
    assert (ms + [m])[..|ms|] == ms;
  }

  /** What the last member adds. */
  function Given(topic: string, c: Cached, id: string, payload: map<string, string>, now: int): (r: seq<Entry>) {
    if c.expireAt >= now && id in payload then [EntryFor(topic, c, payload[id])] else []
  }

  lemma FoundPush(topic: string, members: seq<Cached>, c: Cached, payload: map<string, string>, now: int)
    ensures Found(topic, members + [c], payload, now) ==
            Found(topic, members, payload, now) + Given(topic, c, FormatId(c.ts, c.no), payload, now)
  {
    assert (members + [c])[..|members|] == members;
  }

  lemma ItemsGive(topic: string, ms: seq<Meta>, m: Meta, c: Cached, payload: map<string, string>, now: int)
    requires m == MetaFor(c) && c.expireAt >= now
    ensures Items(topic, ms + [m], payload) == Items(topic, ms, payload) + Given(topic, c, m.id, payload, now)
  {
    ItemsPush(topic, ms, m, payload);
  }

  lemma {:induction false} ItemsAreFound(topic: string, members: seq<Cached>, payload: map<string, string>, now: int)
    ensures Items(topic, MetasOf(members, now), payload) == Found(topic, members, payload, now)
  {
    if members != [] {
      var p, c := members[..|members| - 1], members[|members| - 1];
      var ms := MetasOf(p, now);
      ItemsAreFound(topic, p, payload, now);
      FoundPush(topic, p, c, payload, now);
      assert p + [c] == members && ms + [] == ms;
      if c.expireAt >= now {
        ItemsGive(topic, ms, MetaFor(c), c, payload, now);
      } else {
        assert Items(topic, ms, payload) + [] == Items(topic, ms, payload);
      }
    }
  }

  /** On members as `cacheMessage` writes them, with distinct ids and any origins, the answer is `Found`. */
  lemma LookupIsFound(topic: string, members: seq<Cached>, texts: seq<string>, payload: map<string, string>, now: int)
    requires TextsOf(texts, members) && MemberIdsDiffer(members)
    ensures var ms := Unexpired(texts, now);
            && (forall k :: 0 <= k < |ms| ==> Ids(ms)[k] in Origins(ms))
            && Lookup(topic, Ids(ms), Origins(ms), payload) == Found(topic, members, payload, now)
  {
    var ms := Unexpired(texts, now);
    UnexpiredIs(members, texts, now);
    MetaIdsDiffer(members, now);
    forall k | 0 <= k < |ms| ensures ms[k].id in Origins(ms) && Origins(ms)[ms[k].id] == ms[k].origin {
      OriginsHave(ms, k);
    }
    LookupIsItems(topic, ms, Origins(ms), payload);
    ItemsAreFound(topic, members, payload, now);
  }
}
