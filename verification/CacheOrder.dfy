/**
 The order Redis returns cached items in, and exactly when the messages after an id are what is promised: all
 later ones, from oldest to newest.
 */
module CacheOrder {
  import opened Wrappers
  import opened CacheText
  import opened CacheQuery

  // ----- the order Redis returns

  predicate LexLess(s: string, t: string) {
    if t == "" then false else if s == "" then true else if s[0] != t[0] then s[0] < t[0] else LexLess(s[1..], t[1..])
  }

  /** Score sets are ordered by score, the timestamp, and then by the text of the member. */
  predicate RedisLess(a: Cached, b: Cached) { a.ts < b.ts || (a.ts == b.ts && LexLess(MemberText(a), MemberText(b))) }

  lemma {:induction false} LexPrefix(p: string, s: string, t: string)
    ensures LexLess(p + s, p + t) <==> LexLess(s, t)
  {
    if p == "" {
      assert p + s == s && p + t == t;
    } else {
      assert (p + s)[1..] == p[1..] + s && (p + t)[1..] == p[1..] + t;
      LexPrefix(p[1..], s, t);
    }
  }

  function Pow10(n: nat): (p: nat)
    ensures p > 0
  {
    if n == 0 then 1 else 10 * Pow10(n - 1)
  }

  lemma {:induction false} NumBound(d: string)
    requires AllDigits(d)
    ensures Num(d) < Pow10(|d|)
  {
    if d != "" {
      NumBound(d[..|d| - 1]);
    }
  }

  lemma TimesTen(a: nat, w: nat, x: nat, y: nat)
    ensures (a * w + x) * 10 + y == a * (10 * w) + (x * 10 + y)
  {}

  /** The first digit weighs most. */
  lemma {:induction false} NumLeft(d: string)
    requires AllDigits(d) && d != ""
    ensures Num(d) == ValueOf(d[0]) * Pow10(|d| - 1) + Num(d[1..])
  {
    if |d| == 1 {
      assert d[..0] == "" && d[1..] == "";
    } else {
      var p, t := d[..|d| - 1], d[1..];
      NumLeft(p);
      assert p[1..] == t[..|t| - 1] && t[|t| - 1] == d[|d| - 1] && p[0] == d[0];
      TimesTen(ValueOf(d[0]), Pow10(|d| - 2), Num(p[1..]), ValueOf(d[|d| - 1]));
    }
  }

  lemma WeightDecides(a: nat, b: nat, w: nat, x: nat, y: nat)
    requires a < b && x < w
    ensures a * w + x < b * w + y
  {
    assert (a + 1) * w <= b * w;
  }

  /** The first digits decide, if they differ. */
  lemma FirstDigitDecides(d: string, e: string)
    requires AllDigits(d) && AllDigits(e) && |d| == |e| && d != "" && d[0] < e[0]
    ensures Num(d) < Num(e)
  {
    NumLeft(d);
    NumLeft(e);
    NumBound(d[1..]);
    WeightDecides(ValueOf(d[0]), ValueOf(e[0]), Pow10(|d| - 1), Num(d[1..]), Num(e[1..]));
  }

  lemma {:induction false} DigitsLex(d: string, e: string, s: string, t: string)
    requires AllDigits(d) && AllDigits(e) && |d| == |e| && d != e
    requires LexLess(d + s, e + t)
    ensures Num(d) < Num(e)
  {
    assert (d + s)[0] == d[0] && (e + t)[0] == e[0];
    if d[0] == e[0] {
      assert (d + s)[1..] == d[1..] + s && (e + t)[1..] == e[1..] + t;
      assert d == [d[0]] + d[1..] && e == [e[0]] + e[1..];
      DigitsLex(d[1..], e[1..], s, t);
      NumLeft(d);
      NumLeft(e);
    } else {
      FirstDigitDecides(d, e);
    }
  }

  /** What follows the sequence number in a member. */
  function Tail(c: Cached): (s: string) {
    if c.origin == "" then ":" + Dec(c.expireAt) else ":" + Dec(c.expireAt) + ":" + c.origin
  }

  lemma TextParts(ts: string, no: string, e: string, origin: string)
    ensures ts + "-" + no + ":" + e == (ts + "-") + (no + (":" + e))
    ensures ts + "-" + no + ":" + e + ":" + origin == (ts + "-") + (no + (":" + e + ":" + origin))
  {}

  lemma MemberParts(c: Cached)
    ensures MemberText(c) == (DecInt(c.ts) + "-") + (Dec(c.no) + Tail(c))
  {
    TextParts(DecInt(c.ts), Dec(c.no), Dec(c.expireAt), c.origin);
  }

  /** Redis order is the order of ids where sequence numbers of one timestamp have as many digits. */
  lemma RedisOrderIsIdOrder(a: Cached, b: Cached)
    requires RedisLess(a, b) && (a.ts == b.ts ==> a.no != b.no && |Dec(a.no)| == |Dec(b.no)|)
    ensures Later((b.ts, b.no), (a.ts, a.no))
  {
    if a.ts == b.ts {
      MemberParts(a);
      MemberParts(b);
      LexPrefix(DecInt(a.ts) + "-", Dec(a.no) + Tail(a), Dec(b.no) + Tail(b));
      NumDec(a.no);
      NumDec(b.no);
      DigitsLex(Dec(a.no), Dec(b.no), Tail(a), Tail(b));
    }
  }

  lemma {:induction false} LexTotal(s: string, t: string)
    requires s != t
    ensures LexLess(s, t) || LexLess(t, s)
  {
    if s != "" && t != "" && s[0] == t[0] {
      assert s == [s[0]] + s[1..] && t == [t[0]] + t[1..];
      LexTotal(s[1..], t[1..]);
    }
  }

  lemma {:induction false} DecLength(a: nat, b: nat)
    requires a <= b
    ensures |Dec(a)| <= |Dec(b)|
  {
    if a >= 10 {
      DecLength(a / 10, b / 10);
    }
  }

  /** The number made of the first `k` digits of `n`. */
  function Leading(n: nat, k: nat): (r: nat)
    requires k <= |Dec(n)|
  {
    Num(Dec(n)[..k])
  }

  /** A number that goes on comes before one that ends: digits are below the colon. */
  lemma LexBehindDigits(d: string, s: string, more: string, t: string)
    requires s != "" && s[0] == ':' && more != "" && AllDigits(more)
    ensures !LexLess(d + s, d + (more + t))
  {
    LexPrefix(d, s, more + t);
    assert (more + t)[0] == more[0] && IsDigit(more[0]);
  }

  /** Texts that start with different numbers of as many digits compare as the numbers do. */
  lemma LexByDigits(d: string, e: string, s: string, t: string)
    requires AllDigits(d) && AllDigits(e) && |d| == |e| && d != e
    ensures LexLess(d + s, e + t) <==> Num(d) < Num(e)
  {
    assert (d + s)[..|d|] == d && (e + t)[..|d|] == e;
    LexTotal(d + s, e + t);
    if LexLess(d + s, e + t) {
      DigitsLex(d, e, s, t);
    } else {
      DigitsLex(e, d, t, s);
    }
  }

  /** Two numbers in front of texts, the shorter one followed by a colon: the leading digits decide. */
  lemma LexNumbers(d: string, e: string, more: string, s: string, t: string)
    requires AllDigits(d) && AllDigits(e) && AllDigits(more) && |d| == |e| && s != "" && s[0] == ':'
    requires d == e ==> more != ""
    ensures LexLess(d + s, e + (more + t)) <==> Num(d) < Num(e)
  {
    if d == e {
      LexBehindDigits(d, s, more, t);
    } else {
      LexByDigits(d, e, s, more + t);
    }
  }

  lemma CutText(n: string, k: nat, t: string)
    requires k <= |n|
    ensures n + t == n[..k] + (n[k..] + t) && n == n[..k] + n[k..]
  {}

  /**
   The exact condition for two items of one timestamp: they are returned in the order of their sequence
   numbers if and only if the smaller number is below the leading digits, as many as it has, of the larger.
   */
  lemma RedisOrderExact(a: Cached, b: Cached)
    requires a.ts == b.ts && a.no < b.no
    ensures |Dec(a.no)| <= |Dec(b.no)|
    ensures RedisLess(a, b) <==> a.no < Leading(b.no, |Dec(a.no)|)
  {
    DecLength(a.no, b.no);
    MemberParts(a);
    MemberParts(b);
    NumDec(a.no);
    NumDec(b.no);
    LexPrefix(DecInt(a.ts) + "-", Dec(a.no) + Tail(a), Dec(b.no) + Tail(b));
    var d, n := Dec(a.no), Dec(b.no);
    CutText(n, |d|, Tail(b));
    assert d + "" == d;
    LexNumbers(d, n[..|d|], n[|d|..], Tail(a), Tail(b));
  }

  /** So item 10 of a millisecond is returned before item 9. */
  lemma RedisOrderCanDiffer(ts: LongLong, e: ULong)
    ensures RedisLess(Cached(ts, 10, e, ""), Cached(ts, 9, e, ""))
  {
    var a, b := Cached(ts, 10, e, ""), Cached(ts, 9, e, "");
    MemberParts(a);
    MemberParts(b);
    assert Dec(1) == "1" && Dec(10) == Dec(1) + "0" == "10" && Dec(9) == "9";
    LexPrefix(DecInt(ts) + "-", "10" + Tail(a), "9" + Tail(b));
    assert ("10" + Tail(a))[0] == '1' && ("9" + Tail(b))[0] == '9';
  }

  // ----- what is read, in that order

  predicate Precedes(a: Cached, b: Cached) { RedisLess(a, b) && (a.ts == b.ts ==> a.no != b.no) }

  /** In Redis order, one member per id. */
  ghost predicate InRedisOrder(members: seq<Cached>) {
    forall j, k :: 0 <= j < k < |members| ==> Precedes(members[j], members[k])
  }

  lemma OrderedIdsDiffer(members: seq<Cached>)
    requires InRedisOrder(members)
    ensures MemberIdsDiffer(members)
  {
    forall j, k | 0 <= j < k < |members| ensures MetaFor(members[j]).id != MetaFor(members[k]).id {
      var a, b := members[j], members[k];
      assert Precedes(a, b);
      if MetaFor(a).id == MetaFor(b).id {
        FormatInjective(a.ts, a.no, b.ts, b.no);
      }
    }
  }

  /** The cached items `Found` gives the entries of. */
  function Kept(members: seq<Cached>, payload: map<string, string>, now: int): (r: seq<Cached>) {
    if members == [] then []
    else
      var c := members[|members| - 1];
      Kept(members[..|members| - 1], payload, now) +
      if c.expireAt >= now && FormatId(c.ts, c.no) in payload then [c] else []
  }

  predicate EntryOf(e: Entry, c: Cached) { e.id == FormatId(c.ts, c.no) }

  lemma {:induction false} KeptFound(topic: string, members: seq<Cached>, payload: map<string, string>, now: int)
    ensures var cs, items := Kept(members, payload, now), Found(topic, members, payload, now);
            |cs| == |items| && forall j :: 0 <= j < |cs| ==> EntryOf(items[j], cs[j])
  {
    if members != [] {
      KeptFound(topic, members[..|members| - 1], payload, now);
    }
  }

  lemma AddLast(members: seq<Cached>, r: seq<Cached>)
    requires members != [] && InRedisOrder(members) && InRedisOrder(r)
    requires forall c :: c in r ==> c in members[..|members| - 1]
    ensures InRedisOrder(r + [members[|members| - 1]])
  {
    var p, c := members[..|members| - 1], members[|members| - 1];
    forall j | 0 <= j < |r| ensures Precedes(r[j], c) {
      assert r[j] in r && r[j] in p;
      var i :| 0 <= i < |p| && p[i] == r[j];
      assert members[i] == r[j];
    }
  }

  lemma {:induction false} KeptOrdered(members: seq<Cached>, payload: map<string, string>, now: int)
    requires InRedisOrder(members)
    ensures InRedisOrder(Kept(members, payload, now))
    ensures forall c :: c in Kept(members, payload, now) ==> c in members
  {
    if members != [] {
      var p, c := members[..|members| - 1], members[|members| - 1];
      KeptOrdered(p, payload, now);
      AddLast(members, Kept(p, payload, now));
    }
  }

  lemma {:induction false} SinceOrdered(members: seq<Cached>, since: int)
    requires InRedisOrder(members)
    ensures InRedisOrder(Since(members, since))
    ensures forall k :: 0 <= k < |Since(members, since)| ==> Since(members, since)[k].ts >= since
    ensures forall c :: c in Since(members, since) ==> c in members
  {
    if members != [] {
      var p := members[..|members| - 1];
      SinceOrdered(p, since);
      AddLast(members, Since(p, since));
    }
  }

  lemma {:induction false} SinceMembers(members: seq<Cached>, since: int, c: Cached)
    ensures c in Since(members, since) <==> c in members && c.ts >= since
  {
    if members != [] {
      var p, last := members[..|members| - 1], members[|members| - 1];
      SinceMembers(p, since, c);
      assert members == p + [last];
    }
  }

  /**
   What a limit leaves: that many of the items since the timestamp, or all, in the order of the set, and every
   item left out comes before every one kept.
   */
  lemma NewestAreKept(members: seq<Cached>, since: int, limit: int, c: Cached, d: Cached)
    requires InRedisOrder(members)
    ensures var all, kept := Since(members, since), Newest(members, since, limit);
            && InRedisOrder(kept) && |kept| == (if limit < 0 || limit > |all| then |all| else limit)
            && (c in kept ==> c in members && c.ts >= since)
            && (c in kept && d in members && d.ts >= since && d !in kept ==> Precedes(d, c))
  {
    var all, kept := Since(members, since), Newest(members, since, limit);
    SinceOrdered(members, since);
    SinceMembers(members, since, c);
    SinceMembers(members, since, d);
    if c in kept && d in all && d !in kept {
      var n := |all| - |kept|;
      assert forall k :: n <= k < |all| ==> all[k] in kept;
      var j :| 0 <= j < |kept| && kept[j] == c;
      var i :| 0 <= i < |all| && all[i] == d;
      assert all[n + j] == c;
    }
  }

  lemma {:induction false} LexAsymmetric(s: string, t: string)
    requires LexLess(s, t)
    ensures !LexLess(t, s)
  {
    if s != "" && s[0] == t[0] {
      LexAsymmetric(s[1..], t[1..]);
    }
  }

  /**
   The sequence number of `since` is below the leading digits, as many as it has, of that of a later `at` of its
   timestamp.
   */
  predicate Fits(at: (int, int), since: (int, int)) {
    at.0 == since.0 && 0 <= since.1 < at.1 ==>
      |Dec(since.1)| <= |Dec(at.1)| && since.1 < Leading(at.1, |Dec(since.1)|)
  }

  /**
   Of two cached items in Redis order, the second is later by id just if it is of a later millisecond or its
   number fits.
   */
  lemma OrderedPair(a: Cached, b: Cached)
    requires Precedes(a, b)
    ensures Later((b.ts, b.no), (a.ts, a.no)) ==> Fits((b.ts, b.no), (a.ts, a.no))
    ensures Later((a.ts, a.no), (b.ts, b.no)) ==> !Fits((a.ts, a.no), (b.ts, b.no))
  {
    if a.ts == b.ts {
      if a.no < b.no {
        RedisOrderExact(a, b);
      } else {
        RedisOrderExact(b, a);
        LexAsymmetric(MemberText(a), MemberText(b));
      }
    }
  }

  /** A query on one topic: its score set and payloads in the store, the time, and the limit asked for. */
  datatype Query = Query(topic: string, members: seq<Cached>, payload: map<string, string>, now: int, limit: int)

  /** What `getCacheSince` gives for it. */
  function CacheSince(q: Query, ts: int): (items: seq<Entry>) {
    Found(q.topic, Newest(q.members, ts, q.limit), q.payload, q.now)
  }

  /** The id of an item comes apart into those of the cached item. */
  predicate Reads(e: Entry, c: Cached) { SplitIdAndSeq(e.id) == Some((c.ts, c.no)) }

  ghost predicate ReadAll(items: seq<Entry>, cs: seq<Cached>) {
    |cs| == |items| && forall j :: 0 <= j < |cs| ==> Reads(items[j], cs[j])
  }

  /** The items are those of `cs`, which Redis returned in this order. */
  ghost predicate Returned(items: seq<Entry>, cs: seq<Cached>) { ReadAll(items, cs) && InRedisOrder(cs) }

  lemma CacheSinceOrdered(q: Query, ts: int) returns (cs: seq<Cached>)
    requires InRedisOrder(q.members) && ts >= 0
    ensures Returned(CacheSince(q, ts), cs) && NotBefore(CacheSince(q, ts), ts) && forall c :: c in cs ==>
            c in q.members
  {
    SinceOrdered(q.members, ts);
    var newest := Newest(q.members, ts, q.limit);
    KeptOrdered(newest, q.payload, q.now);
    KeptFound(q.topic, newest, q.payload, q.now);
    cs := Kept(newest, q.payload, q.now);
    var items := CacheSince(q, ts);
    forall j | 0 <= j < |cs|
      ensures Reads(items[j], cs[j]) && cs[j].ts >= ts
    {
      assert cs[j] in newest && EntryOf(items[j], cs[j]);
      IdRoundTrip(cs[j].ts, cs[j].no);
    }
  }

  predicate NotNegative(e: Entry) { SplitIdAndSeq(e.id).None? || Stamp(e).0 >= 0 }

  lemma EntryNotNegative(topic: string, c: Cached, message: string)
    ensures NotNegative(EntryFor(topic, c, message))
  {
    IdRoundTrip(c.ts, c.no);
  }

  ghost predicate NoneNegative(items: seq<Entry>) { forall j :: 0 <= j < |items| ==> NotNegative(items[j]) }

  lemma NoneNegativePush(items: seq<Entry>, e: Entry)
    requires NoneNegative(items) && NotNegative(e)
    ensures NoneNegative(items + [e])
  {}

  lemma {:induction false} FoundNotNegative(q: Query, members: seq<Cached>)
    ensures NoneNegative(Found(q.topic, members, q.payload, q.now))
  {
    if members != [] {
      var p, c := members[..|members| - 1], members[|members| - 1];
      var items, id := Found(q.topic, p, q.payload, q.now), FormatId(c.ts, c.no);
      FoundNotNegative(q, p);
      assert items + [] == items;
      if id in q.payload {
        EntryNotNegative(q.topic, c, q.payload[id]);
        NoneNegativePush(items, EntryFor(q.topic, c, q.payload[id]));
      }
    }
  }

  lemma NegativeAbsent(items: seq<Entry>, since: (int, int))
    requires since.0 < 0 && items != [] && NotNegative(items[0])
    ensures Trim(items, since, false) == None
  {}

  /** A negative timestamp, which a number of more than 63 bits stands for, is that of no item: nothing is given. */
  lemma SinceIdNegative(q: Query, sinceId: string, since: (int, int))
    requires SplitIdAndSeq(sinceId) == Some(since) && since.0 < 0
    ensures SinceId(CacheSince(q, since.0), sinceId) == []
  {
    var items := CacheSince(q, since.0);
    FoundNotNegative(q, Newest(q.members, since.0, q.limit));
    if items != [] {
      NegativeAbsent(items, since);
    }
  }

  /** Two items of the answer compare as their numbers do just if they fit. */
  lemma PairInOrder(items: seq<Entry>, cs: seq<Cached>, i: nat, j: nat)
    requires Returned(items, cs) && i < |items| && j < |items|
    ensures Stamp(items[i]) == Stamp(items[j]) <==> i == j
    ensures Later(Stamp(items[j]), Stamp(items[i])) ==> (Fits(Stamp(items[j]), Stamp(items[i])) <==> i < j)
  {
    assert Reads(items[i], cs[i]) && Reads(items[j], cs[j]);
    if i < j {
      assert Precedes(cs[i], cs[j]);
      OrderedPair(cs[i], cs[j]);
    } else if j < i {
      assert Precedes(cs[j], cs[i]);
      OrderedPair(cs[j], cs[i]);
    }
  }

  /** Every item fits every earlier one. */
  ghost predicate AllFit(items: seq<Entry>) {
    forall a, b :: a in items && b in items && Later(Stamp(b), Stamp(a)) ==> Fits(Stamp(b), Stamp(a))
  }

  /** Exactly when what Redis returns is in the order of ids. */
  lemma SortedExactly(items: seq<Entry>, cs: seq<Cached>)
    requires Returned(items, cs)
    ensures Sorted(items) <==> AllFit(items)
  {
    forall i, j | 0 <= i < |items| && 0 <= j < |items|
      ensures i != j ==> Stamp(items[i]) != Stamp(items[j])
      ensures Later(Stamp(items[j]), Stamp(items[i])) ==> (Fits(Stamp(items[j]), Stamp(items[i])) <==> i < j)
    {
      PairInOrder(items, cs, i, j);
    }
    forall k | 0 <= k < |items| ensures SplitIdAndSeq(items[k].id).Some? {
      assert Reads(items[k], cs[k]);
    }
    if AllFit(items) {
      forall i, j | 0 <= i < j < |items| ensures Later(Stamp(items[j]), Stamp(items[i])) {
        assert items[i] in items && items[j] in items && Stamp(items[i]) != Stamp(items[j]);
      }
    }
    if Sorted(items) {
      forall a, b | a in items && b in items && Later(Stamp(b), Stamp(a)) ensures Fits(Stamp(b), Stamp(a)) {
        var i :| 0 <= i < |items| && items[i] == a;
        var j :| 0 <= j < |items| && items[j] == b;
        SortedAround(items, i, j);
      }
    }
  }

  /** The cached messages since a timestamp come from oldest to newest if and only if all of them fit. */
  lemma CacheSinceSorted(q: Query, ts: int)
    requires InRedisOrder(q.members) && ts >= 0
    ensures Sorted(CacheSince(q, ts)) <==> AllFit(CacheSince(q, ts))
  {
    var cs := CacheSinceOrdered(q, ts);
    SortedExactly(CacheSince(q, ts), cs);
  }

  /** Every item later than the id fits it. */
  ghost predicate LaterFit(items: seq<Entry>, since: (int, int)) {
    forall j :: 0 <= j < |items| && Later(Stamp(items[j]), since) ==> Fits(Stamp(items[j]), since)
  }

  lemma LaterFitIffNoneLater(items: seq<Entry>, cs: seq<Cached>, since: (int, int), k: nat)
    requires Returned(items, cs) && k < |items| && Stamp(items[k]) == since
    ensures forall j :: 0 <= j < k ==> Stamp(items[j]) != since
    ensures NoneLater(items, since, k) <==> LaterFit(items, since)
  {
    forall j | 0 <= j < |items| && j != k
      ensures Stamp(items[j]) != since
      ensures Later(Stamp(items[j]), since) ==> (Fits(Stamp(items[j]), since) <==> j > k)
    {
      PairInOrder(items, cs, k, j);
    }
  }

  lemma {:induction false} LaterOnesAre(items: seq<Entry>, since: (int, int), e: Entry)
    ensures e in LaterOnes(items, since) <==> e in items && Later(Stamp(e), since)
  {
    if items != [] {
      LaterOnesAre(items[1..], since, e);
      assert items == [items[0]] + items[1..];
    }
  }

  lemma OrderCons(cs: seq<Cached>, rest: seq<Cached>)
    requires cs != [] && InRedisOrder(cs) && InRedisOrder(rest) && forall d :: d in rest ==> d in cs[1..]
    ensures InRedisOrder([cs[0]] + rest)
  {
    forall j | 0 <= j < |rest| ensures Precedes(cs[0], rest[j]) {
      assert rest[j] in cs[1..];
      var i :| 0 <= i < |cs[1..]| && cs[1..][i] == rest[j];
      assert cs[i + 1] == rest[j];
    }
  }

  lemma ReadCons(e: Entry, c: Cached, items: seq<Entry>, cs: seq<Cached>)
    requires Reads(e, c) && ReadAll(items, cs)
    ensures ReadAll([e] + items, [c] + cs)
  {}

  lemma ReturnedRest(items: seq<Entry>, cs: seq<Cached>)
    requires Returned(items, cs) && items != []
    ensures Reads(items[0], cs[0]) && Returned(items[1..], cs[1..])
  {}

  /** The later items are returned in Redis order, too. */
  lemma {:induction false} LaterReturned(items: seq<Entry>, cs: seq<Cached>, since: (int, int))
    returns (ds: seq<Cached>)
    requires Returned(items, cs)
    ensures Returned(LaterOnes(items, since), ds) && forall d :: d in ds ==> d in cs
  {
    ds := [];
    if items != [] {
      ReturnedRest(items, cs);
      var more := LaterOnes(items[1..], since);
      var rest := LaterReturned(items[1..], cs[1..], since);
      if Later(Stamp(items[0]), since) {
        ds := [cs[0]] + rest;
        OrderCons(cs, rest);
        ReadCons(items[0], cs[0], more, rest);
      } else {
        ds := rest;
        assert [] + more == more;
      }
    }
  }

  /** What is promised for an id: the later items, all of them and nothing else, from oldest to newest. */
  ghost predicate Promised(items: seq<Entry>, since: (int, int), answer: seq<Entry>) {
    Sorted(answer) && forall e :: e in answer <==> e in items && Later(Stamp(e), since)
  }

  /** From the id on, every item fits every earlier one. */
  ghost predicate AllFitFrom(items: seq<Entry>, since: (int, int)) {
    forall a, b :: a in items && b in items && !Later(since, Stamp(a)) && Later(Stamp(b), Stamp(a)) ==>
      Fits(Stamp(b), Stamp(a))
  }

  lemma FitFromId(items: seq<Entry>, since: (int, int), k: nat)
    requires k < |items| && Stamp(items[k]) == since && AllFitFrom(items, since)
    ensures LaterFit(items, since)
  {
    forall j | 0 <= j < |items| && Later(Stamp(items[j]), since) ensures Fits(Stamp(items[j]), since) {
      assert items[k] in items && items[j] in items;
    }
  }

  lemma FitFromBoth(items: seq<Entry>, since: (int, int))
    requires LaterFit(items, since) && AllFit(LaterOnes(items, since))
    ensures AllFitFrom(items, since)
  {
    forall a, b | a in items && b in items && !Later(since, Stamp(a)) && Later(Stamp(b), Stamp(a))
      ensures Fits(Stamp(b), Stamp(a))
    {
      LaterOnesAre(items, since, a);
      LaterOnesAre(items, since, b);
    }
  }

  lemma FitFromParts(items: seq<Entry>, since: (int, int), k: nat)
    requires k < |items| && Stamp(items[k]) == since
    ensures AllFitFrom(items, since) <==> LaterFit(items, since) && AllFit(LaterOnes(items, since))
  {
    if AllFitFrom(items, since) {
      FitFromId(items, since, k);
      forall a, b | a in LaterOnes(items, since) && b in LaterOnes(items, since) && Later(Stamp(b), Stamp(a))
        ensures Fits(Stamp(b), Stamp(a))
      {
        LaterOnesAre(items, since, a);
        LaterOnesAre(items, since, b);
      }
    }
    if LaterFit(items, since) && AllFit(LaterOnes(items, since)) {
      FitFromBoth(items, since);
    }
  }

  lemma PromisedExactly(items: seq<Entry>, cs: seq<Cached>, since: (int, int), k: nat, answer: seq<Entry>)
    requires Returned(items, cs) && k < |items| && Stamp(items[k]) == since
    requires answer == if NoneLater(items, since, k) then LaterOnes(items, since) else []
    ensures Promised(items, since, answer) <==> AllFitFrom(items, since)
  {
    LaterFitIffNoneLater(items, cs, since, k);
    FitFromParts(items, since, k);
    var ds := LaterReturned(items, cs, since);
    SortedExactly(LaterOnes(items, since), ds);
    forall e ensures e in LaterOnes(items, since) <==> e in items && Later(Stamp(e), since) {
      LaterOnesAre(items, since, e);
    }
    if !NoneLater(items, since, k) {
      var j :| 0 <= j < k && Later(Stamp(items[j]), since);
      assert items[j] in items && items[j] !in answer;
    }
  }

  /** The answer is all later items or nothing, and exactly when it is what is promised. */
  ghost predicate Answers(items: seq<Entry>, since: (int, int), answer: seq<Entry>) {
    && (answer == LaterOnes(items, since) || answer == [])
    && (answer == LaterOnes(items, since) <==> LaterFit(items, since))
    && (Promised(items, since, answer) <==> AllFitFrom(items, since))
  }

  lemma AnswerWithId(items: seq<Entry>, cs: seq<Cached>, sinceId: string, since: (int, int), k: nat)
    requires Returned(items, cs) && IsId(sinceId, since) && NotBefore(items, since.0)
    requires k < |items| && Stamp(items[k]) == since
    ensures Answers(items, since, SinceId(items, sinceId))
  {
    LaterFitIffNoneLater(items, cs, since, k);
    SinceIdExact(items, sinceId, since, k);
    PromisedExactly(items, cs, since, k, SinceId(items, sinceId));
  }

  /**
   The two queries together, on a single topic, with the order Redis returns and for any text asked for. It
   gives nothing unless it comes apart into a positive timestamp and a number, and that id is among the newest
   `limit` items that are cached and have not expired. Then the answer is all later ones or nothing, all of them
   if and only if the number of each later item of the same millisecond fits; and it is what is promised, all
   later ones in the order of ids, if and only if all those fit each other as well.
   */
  lemma EventsAfterId(q: Query, sinceId: string, since: (int, int), k: nat)
    requires InRedisOrder(q.members) && SplitIdAndSeq(sinceId) == Some(since)
    ensures var items := CacheSince(q, since.0);
            && (since.0 <= 0 ==> SinceId(items, sinceId) == [])
            && ((forall j :: 0 <= j < |items| ==> Stamp(items[j]) != since) ==> SinceId(items, sinceId) == [])
            && (since.0 > 0 && k < |items| && Stamp(items[k]) == since ==>
                  Answers(items, since, SinceId(items, sinceId)))
  {
    if since.0 < 0 {
      SinceIdNegative(q, sinceId, since);
    } else if since.0 > 0 {
      var items := CacheSince(q, since.0);
      var cs := CacheSinceOrdered(q, since.0);
      if k < |items| && Stamp(items[k]) == since {
        AnswerWithId(items, cs, sinceId, since, k);
      }
      if forall j :: 0 <= j < |items| ==> Stamp(items[j]) != since {
        SinceIdAbsent(items, sinceId, since);
      }
    }
  }

  /** Sequence numbers of one millisecond have as many digits: fewer than ten messages, say. */
  ghost predicate SameWidth(cs: seq<Cached>) {
    forall a, b :: a in cs && b in cs && a.ts == b.ts ==> |Dec(a.no)| == |Dec(b.no)|
  }

  /** Then the whole answer of `getCacheSince` is in the order of ids, and the events after an id are a suffix of it. */
  lemma EventsAfterIdSameWidth(q: Query, sinceId: string, since: (int, int), k: nat)
    requires InRedisOrder(q.members) && SameWidth(q.members) && SplitIdAndSeq(sinceId) == Some(since) && since.0 > 0
    ensures var items := CacheSince(q, since.0);
            && Sorted(items)
            && (k < |items| && Stamp(items[k]) == since ==> SinceId(items, sinceId) == items[k + 1..])
  {
    var items := CacheSince(q, since.0);
    var cs := CacheSinceOrdered(q, since.0);
    forall i, j | 0 <= i < j < |items| ensures Later(Stamp(items[j]), Stamp(items[i])) {
      assert cs[i] in cs && cs[j] in cs && Precedes(cs[i], cs[j]);
      RedisOrderIsIdOrder(cs[i], cs[j]);
    }
    if k < |items| && Stamp(items[k]) == since {
      SinceIdIsSuffix(items, sinceId, since, k);
    }
  }

  /** Cached from `ts` on, not expired, and with its payload. */
  predicate Live(c: Cached, payload: map<string, string>, now: int, ts: int) {
    c.ts >= ts && c.expireAt >= now && FormatId(c.ts, c.no) in payload
  }

  /** What is given for it. */
  predicate GivenAs(q: Query, e: Entry, c: Cached) {
    var id := FormatId(c.ts, c.no);
    id in q.payload && e == EntryFor(q.topic, c, q.payload[id])
  }

  ghost predicate AllGiven(q: Query, items: seq<Entry>, cs: seq<Cached>) {
    |items| == |cs| && forall k :: 0 <= k < |cs| ==> GivenAs(q, items[k], cs[k])
  }

  lemma GivenPush(q: Query, items: seq<Entry>, cs: seq<Cached>, e: Entry, c: Cached)
    requires AllGiven(q, items, cs) && GivenAs(q, e, c)
    ensures AllGiven(q, items + [e], cs + [c])
  {}

  ghost predicate AllLive(q: Query, members: seq<Cached>, ts: int) {
    forall k :: 0 <= k < |members| ==> Live(members[k], q.payload, q.now, ts)
  }

  lemma GivenOne(q: Query, c: Cached, ts: int)
    requires Live(c, q.payload, q.now, ts)
    ensures var r := Given(q.topic, c, FormatId(c.ts, c.no), q.payload, q.now);
            |r| == 1 && r == [r[0]] && GivenAs(q, r[0], c)
  {}

  /** Of live items, all are given. */
  lemma {:induction false} AllFound(q: Query, members: seq<Cached>, ts: int)
    requires AllLive(q, members, ts)
    ensures Since(members, ts) == members && AllGiven(q, Found(q.topic, members, q.payload, q.now), members)
  {
    if members != [] {
      var p, c := members[..|members| - 1], members[|members| - 1];
      assert Live(c, q.payload, q.now, ts) && p + [c] == members;
      AllFound(q, p, ts);
      FoundPush(q.topic, p, c, q.payload, q.now);
      GivenOne(q, c, ts);
      GivenPush(q, Found(q.topic, p, q.payload, q.now), p,
          Given(q.topic, c, FormatId(c.ts, c.no), q.payload, q.now)[0], c);
    }
  }

  lemma AllCacheSince(q: Query, ts: int)
    requires AllLive(q, q.members, ts) && q.limit < 0
    ensures AllGiven(q, CacheSince(q, ts), q.members)
  {
    AllFound(q, q.members, ts);
  }

  lemma GivenReads(q: Query, items: seq<Entry>, ts: nat, k: nat)
    requires AllLive(q, q.members, ts) && AllGiven(q, items, q.members) && k < |items|
    ensures Stamp(items[k]) == (q.members[k].ts, q.members[k].no) && SplitIdAndSeq(items[k].id).Some?
    ensures Stamp(items[k]).0 >= ts
  {
    assert Live(q.members[k], q.payload, q.now, ts) && GivenAs(q, items[k], q.members[k]);
    IdRoundTrip(q.members[k].ts, q.members[k].no);
  }

  /** The stamps of an answer made of live items. */
  lemma GivenStamps(q: Query, items: seq<Entry>, ts: nat)
    requires AllLive(q, q.members, ts) && AllGiven(q, items, q.members)
    ensures NotBefore(items, ts)
    ensures forall k :: 0 <= k < |items| ==> Stamp(items[k]) == (q.members[k].ts, q.members[k].no)
  {
    forall k | 0 <= k < |items|
      ensures SplitIdAndSeq(items[k].id).Some? && Stamp(items[k]) == (q.members[k].ts, q.members[k].no)
      ensures Stamp(items[k]).0 >= ts
    {
      GivenReads(q, items, ts, k);
    }
  }

  lemma LaterCons(e: Entry, items: seq<Entry>, since: (int, int))
    ensures LaterOnes([e] + items, since) == (if Later(Stamp(e), since) then [e] else []) + LaterOnes(items, since)
  {
    assert ([e] + items)[1..] == items;
  }

  lemma LaterOfTwo(items: seq<Entry>, a: Entry, b: Entry, since: (int, int))
    requires items == [a, b] && Later(Stamp(a), since) && !Later(Stamp(b), since)
    ensures LaterOnes(items, since) == [a]
  {
    LaterCons(b, [], since);
    LaterCons(a, [b], since);
    assert [b] + [] == [b] && [a] + [b] == items;
  }

  lemma LostBetween(items: seq<Entry>, sinceId: string, since: (int, int))
    requires IsId(sinceId, since) && |items| == 2 && NotBefore(items, since.0)
    requires Later(Stamp(items[0]), since) && Stamp(items[1]) == since
    ensures SinceId(items, sinceId) == [] && LaterOnes(items, since) == [items[0]]
  {
    assert items == [items[0], items[1]];
    LaterOfTwo(items, items[0], items[1], since);
    SinceIdExact(items, sinceId, since, 1);
  }

  lemma PairGiven(q: Query, a: Cached, b: Cached, ts: nat, items: seq<Entry>)
    requires q.members == [a, b] && q.limit < 0 && AllLive(q, q.members, ts) && items == CacheSince(q, ts)
    ensures |items| == 2 && GivenAs(q, items[0], a) && NotBefore(items, ts)
    ensures Stamp(items[0]) == (a.ts, a.no) && Stamp(items[1]) == (b.ts, b.no)
  {
    AllCacheSince(q, ts);
    GivenStamps(q, items, ts);
    assert GivenAs(q, items[0], q.members[0]);
  }

  /** Whenever Redis returns the later of two items first, asking for what follows the earlier one gives nothing. */
  lemma PairLost(q: Query, a: Cached, b: Cached)
    requires q.members == [a, b] && q.limit < 0 && a.ts == b.ts > 0 && a.no > b.no
    requires AllLive(q, q.members, a.ts)
    ensures SinceId(CacheSince(q, a.ts), FormatId(b.ts, b.no)) == []
    ensures var later := LaterOnes(CacheSince(q, a.ts), (b.ts, b.no)); |later| == 1 && GivenAs(q, later[0], a)
  {
    var items, since := CacheSince(q, a.ts), (b.ts, b.no);
    PairGiven(q, a, b, a.ts, items);
    IdRoundTrip(b.ts, b.no);
    LostBetween(items, FormatId(b.ts, b.no), since);
  }

  /** The smallest case: asked for what follows number 9 of a millisecond, number 10 is not given. */
  lemma LaterItemLost(q: Query, ts: LongLong)
    requires ts > 0 && q.members == [Cached(ts, 10, 1, ""), Cached(ts, 9, 1, "")] && q.now == 0 && q.limit == -1
    requires FormatId(ts, 10) in q.payload && FormatId(ts, 9) in q.payload
    ensures InRedisOrder(q.members) && SinceId(CacheSince(q, ts), FormatId(ts, 9)) == []
    ensures LaterOnes(CacheSince(q, ts), (ts, 9)) != []
  {
    RedisOrderCanDiffer(ts, 1);
    PairLost(q, q.members[0], q.members[1]);
  }

  lemma LaterOfThree(items: seq<Entry>, a: Entry, b: Entry, c: Entry, since: (int, int))
    requires items == [a, b, c] && Stamp(a) == since && Later(Stamp(b), since) && Later(Stamp(c), since)
    ensures LaterOnes(items, since) == [b, c]
  {
    LaterCons(c, [], since);
    LaterCons(b, [c], since);
    LaterCons(a, [b, c], since);
    assert [c] + [] == [c] && [b] + [c] == [b, c] && [a] + [b, c] == items && [] + [b, c] == [b, c];
  }

  /** A first member of one digit, zero, before others of its millisecond. */
  lemma ZeroFirst(ts: LongLong, no: SeqNo, e: ULong)
    requires no > 0 && Leading(no, 1) > 0
    ensures Precedes(Cached(ts, 0, e, ""), Cached(ts, no, e, ""))
  {
    RedisOrderExact(Cached(ts, 0, e, ""), Cached(ts, no, e, ""));
  }

  lemma LeadingTen()
    ensures Leading(10, 1) == 1 && Leading(9, 1) == 9
  {
    assert Dec(1) == "1" && Dec(10) == Dec(1) + "0" == "10" && Dec(9) == "9";
    assert "10"[..1] == "1" && "9"[..1] == "9" && "1"[..0] == "" && "9"[..0] == "";
    assert Num("") == 0 && Num("1") == 1 && Num("9") == 9;
  }

  lemma OrderOfThree(cs: seq<Cached>, ts: LongLong)
    requires cs == [Cached(ts, 0, 1, ""), Cached(ts, 10, 1, ""), Cached(ts, 9, 1, "")]
    ensures InRedisOrder(cs)
  {
    LeadingTen();
    ZeroFirst(ts, 10, 1);
    ZeroFirst(ts, 9, 1);
    RedisOrderCanDiffer(ts, 1);
    forall j, k | 0 <= j < k < 3 ensures Precedes(cs[j], cs[k]) {}
  }

  /** Nothing lost, and still out of order: asked for what follows number 0, number 10 is given before number 9. */
  lemma LaterItemsSwapped(q: Query, ts: LongLong)
    requires ts > 0 && q.now == 0 && q.limit == -1
    requires q.members == [Cached(ts, 0, 1, ""), Cached(ts, 10, 1, ""), Cached(ts, 9, 1, "")]
    requires FormatId(ts, 0) in q.payload && FormatId(ts, 10) in q.payload && FormatId(ts, 9) in q.payload
    ensures InRedisOrder(q.members)
    ensures var answer := SinceId(CacheSince(q, ts), FormatId(ts, 0));
            && |answer| == 2 && Stamp(answer[0]) == (ts, 10) && Stamp(answer[1]) == (ts, 9) && !Sorted(answer)
    ensures Fits((ts, 10), (ts, 0)) && Fits((ts, 9), (ts, 0)) && !Fits((ts, 10), (ts, 9))
  {
    OrderOfThree(q.members, ts);
    OrderedPair(q.members[0], q.members[1]);
    OrderedPair(q.members[0], q.members[2]);
    OrderedPair(q.members[1], q.members[2]);
    var items := CacheSince(q, ts);
    AllCacheSince(q, ts);
    GivenStamps(q, items, ts);
    IdRoundTrip(ts, 0);
    LaterOfThree(items, items[0], items[1], items[2], (ts, 0));
    SinceIdExact(items, FormatId(ts, 0), (ts, 0), 0);
  }
}
