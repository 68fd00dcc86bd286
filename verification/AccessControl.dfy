/** The access lists of a token, the checks made against them, and the choice of a rate limit. */
module AccessControl {
  import opened Topics
  import opened Containment
  import opened Wrappers

  /** A claim of a token: not there, of a type the reader throws on, or there. */
  datatype Claim<T> = Absent | Mistyped | Present(value: T)

  /** The claims of a decoded token; `limits` are the well-formed entries of its rate limits. */
  datatype Claims = Claims(write: Claim<seq<string>>, read: Claim<seq<string>>, subject: Claim<string>,
                           limits: seq<RateLimit>)

  /** The filters of a claim. */
  function Filters(c: Claim<seq<string>>): (r: seq<string>) { if c.Present? then c.value else [] }

  datatype RateLimit = RateLimit(topic: string, interval: nat, max: nat)

  predicate Grants(acl: seq<string>, topic: string) {
    exists k :: 0 <= k < |acl| && FilterMatches(acl[k], topic)
  }

  predicate AllValid(acl: seq<string>) { forall k :: 0 <= k < |acl| ==> ValidTopicOrFilter(acl[k]) }

  /** The entries that are kept when a list of claims is loaded. */
  function Kept(filters: seq<string>): (r: seq<string>)
    ensures AllValid(r)
  {
    if filters == [] then []
    else
      var last := filters[|filters| - 1];
      Kept(filters[..|filters| - 1]) + if ValidTopicOrFilter(last) then [last] else []
  }

  /** The entries kept are those at `at`: the valid ones, in order. */
  ghost predicate KeptAt(r: seq<string>, at: seq<nat>, filters: seq<string>) {
    && |at| == |r| && (forall i, j :: 0 <= i < j < |at| ==> at[i] < at[j])
    && (forall j :: 0 <= j < |at| ==> at[j] < |filters| && r[j] == filters[at[j]])
    && (forall i :: 0 <= i < |filters| ==> (i in at <==> ValidTopicOrFilter(filters[i])))
  }

  lemma KeptNext(r: seq<string>, at: seq<nat>, filters: seq<string>, last: string, valid: bool)
    requires KeptAt(r, at, filters) && valid == ValidTopicOrFilter(last)
    ensures valid ==> KeptAt(r + [last], at + [|filters|], filters + [last])
    ensures !valid ==> KeptAt(r, at, filters + [last])
  {
    var all := filters + [last];
    assert forall i :: 0 <= i < |filters| ==> all[i] == filters[i];
    assert forall i :: i in at + [|filters|] <==> i in at || i == |filters|;
  }

  lemma {:induction false} KeptByPosition(filters: seq<string>) returns (at: seq<nat>)
    ensures KeptAt(Kept(filters), at, filters)
  {
    at := [];
    if filters != [] {
      var p, last := filters[..|filters| - 1], filters[|filters| - 1];
      at := KeptByPosition(p);
      KeptNext(Kept(p), at, p, last, ValidTopicOrFilter(last));
      assert p + [last] == filters && Kept(p) + [] == Kept(p);
      if ValidTopicOrFilter(last) {
        at := at + [|p|];
      }
    }
  }

  method AnyMatches(acl: seq<string>, topic: string) returns (ok: bool)
    ensures ok <==> Grants(acl, topic)
  {
    var i := 0;
    while i < |acl|
      invariant 0 <= i <= |acl|
      invariant forall k :: 0 <= k < i ==> !FilterMatches(acl[k], topic)
    {
      var m := IsFilterMatched(acl[i], topic);
      if m {
        return true;
      }
      i := i + 1;
    }
    return false;
  }

  class AccessController {
    const disableAuth: bool
    var tokenLoaded: bool
    var publishAcl: seq<string>
    var subscribeAcl: seq<string>
    var subject: string
    var limits: seq<RateLimit>

    ghost predicate Valid()
      reads this
    {
      AllValid(publishAcl) && AllValid(subscribeAcl)
    }

    constructor (disableAuth: bool)
      ensures Valid() && !tokenLoaded && publishAcl == [] && subscribeAcl == [] && this.disableAuth == disableAuth
      ensures subject == "" && limits == []
    {
      this.disableAuth := disableAuth;
      tokenLoaded, publishAcl, subscribeAcl, subject, limits := false, [], [], "", [];
    }

    method LoadFilters(filters: seq<string>) returns (kept: seq<string>)
      ensures kept == Kept(filters)
    {
      kept := [];
      var i := 0;
      while i < |filters|
        invariant 0 <= i <= |filters| && kept == Kept(filters[..i])
      {
        assert filters[..i + 1][..i] == filters[..i];
        var ok := IsValidTopicOrFilter(filters[i]);
        if ok {
          kept := kept + [filters[i]];
        }
        i := i + 1;
      }
      assert filters[..i] == filters;
    }

    /**
     Loads a token; `None` is one that does not decode. A mistyped claim is noticed when it is reached:
     the token is refused, but lists extended before that stay extended.
     */
    method Authenticate(token: Option<Claims>) returns (ok: bool)
      requires Valid()
      modifies this
      ensures Valid()
      ensures disableAuth ==> ok && unchanged(this)
      ensures !disableAuth && token.None? ==> !ok && unchanged(this)
      ensures !disableAuth && token.Some? ==>
                var c := token.value;
                && publishAcl == old(publishAcl) + Kept(Filters(c.write))
                && subscribeAcl == old(subscribeAcl) + (if c.write.Mistyped? then [] else Kept(Filters(c.read)))
                && (ok <==> !c.write.Mistyped? && !c.read.Mistyped? && !c.subject.Mistyped? &&
                            (publishAcl != [] || subscribeAcl != []))
                && tokenLoaded == (old(tokenLoaded) || ok)
                && subject == (if ok && c.subject.Present? then c.subject.value else old(subject))
                && limits == old(limits) + if ok then c.limits else []
    {
      if disableAuth {
        return true;
      }
      if token.None? {
        return false;
      }
      var c := token.value;
      if c.write.Mistyped? {
        return false;
      }
      var w := LoadFilters(Filters(c.write));
      publishAcl := publishAcl + w;
      if c.read.Mistyped? {
        return false;
      }
      var r := LoadFilters(Filters(c.read));
      subscribeAcl := subscribeAcl + r;
      if |subscribeAcl| + |publishAcl| == 0 || c.subject.Mistyped? {
        return false;
      }
      if c.subject.Present? {
        subject := c.subject.value;
      }
      limits := limits + c.limits;
      tokenLoaded := true;
      return true;
    }

    method AllowPublish(topic: string) returns (ok: bool)
      ensures ok <==> disableAuth || (tokenLoaded && Grants(publishAcl, topic))
    {
      if disableAuth { return true; }
      if !tokenLoaded { return false; }
      ok := AnyMatches(publishAcl, topic);
    }

    method AllowSubscribe(topic: string) returns (ok: bool)
      ensures ok <==> disableAuth || (tokenLoaded && Grants(subscribeAcl, topic))
    {
      if disableAuth { return true; }
      if !tokenLoaded { return false; }
      ok := AnyMatches(subscribeAcl, topic);
    }
  }

  /**
   What a granted subscription can deliver. If some granting entry does not leak, every valid topic the
   filter matches is one the list grants by itself.
   */
  lemma GrantedSubscriptionContained(acl: seq<string>, filter: string, k: nat, topic: string)
    requires AllValid(acl) && ValidTopicOrFilter(filter)
    requires k < |acl| && FilterMatches(acl[k], filter) && !Leaks(Split(acl[k]), Split(filter))
    requires ValidTopic(topic) && FilterMatches(filter, topic)
    ensures Grants(acl, topic)
  {
    ContainmentExact(acl[k], filter);
  }

  lemma LevelsOf(l: string, rest: string)
    requires NoSlash(l)
    ensures Split(l + "/" + rest) == [l] + Split(rest)
    ensures NoSlash(rest) ==> Split(rest) == [rest]
  {
    SplitAt(l, rest);
    if NoSlash(rest) {
      SplitNoSlash(rest);
    }
  }

  lemma ExampleLevels()
    ensures Split("a/+") == ["a", "+"] && Split("a/#") == ["a", "#"] && Split("a/x/x") == ["a", "x", "x"]
  {
    assert "a/+" == "a" + "/" + "+" && "a/#" == "a" + "/" + "#";
    LevelsOf("a", "+");
    LevelsOf("a", "#");
    assert "x/x" == "x" + "/" + "x";
    LevelsOf("x", "x");
    assert "a/x/x" == "a" + "/" + "x/x";
    LevelsOf("a", "x/x");
  }

  lemma ExampleValid()
    ensures ValidFilter("a/+") && ValidFilter("a/#") && ValidTopic("a/x/x")
  {
    ExampleLevels();
    assert WildcardsPlaced(["a", "+"]) && WildcardsPlaced(["a", "#"]);
  }

  lemma ExampleMatches()
    ensures Matches(["a", "+"], ["a", "#"]) && Matches(["a", "#"], ["a", "x", "x"]) &&
            !Matches(["a", "+"], ["a", "x", "x"])
  {
    assert ["a", "+"][1..] == ["+"] && ["a", "x", "x"][1..] == ["x", "x"] && ["x", "x"][1..] == ["x"] &&
        ["+"][1..] == [];
    assert !Matches(["+"], ["x", "x"]);
  }

  /** Without that condition it can: `a/+` grants a subscription to `a/#`, which receives `a/x/x`. */
  lemma GrantedSubscriptionCanExceed()
    ensures var acl, filter, topic := ["a/+"], "a/#", "a/x/x";
            && AllValid(acl) && ValidFilter(filter) && ValidTopic(topic)
            && Grants(acl, filter) && FilterMatches(filter, topic) && !Grants(acl, topic)
  {
    ExampleLevels();
    ExampleValid();
    ExampleMatches();
    assert FilterMatches(["a/+"][0], "a/#");
  }

  // ----- the rate limit of a topic

  predicate Exact(limits: seq<RateLimit>, topic: string, k: nat)
    requires k < |limits|
  {
    limits[k].topic == topic
  }

  predicate Pattern(limits: seq<RateLimit>, topic: string, k: nat)
    requires k < |limits|
  {
    FilterMatches(limits[k].topic, topic) && limits[k].topic != ""
  }

  predicate HasExact(limits: seq<RateLimit>, topic: string) {
    exists k :: 0 <= k < |limits| && Exact(limits, topic, k)
  }

  /** Entry `k` is the limit: the first exact one or, if there is none, the first of the longest matching patterns. */
  predicate Chosen(limits: seq<RateLimit>, topic: string, k: nat) {
    && k < |limits|
    && if HasExact(limits, topic) then
         Exact(limits, topic, k) && forall j :: 0 <= j < k ==> !Exact(limits, topic, j)
       else
         && Pattern(limits, topic, k)
         && forall j :: 0 <= j < |limits| && Pattern(limits, topic, j) ==>
              |limits[j].topic| <= |limits[k].topic| && (j < k ==> |limits[j].topic| < |limits[k].topic|)
  }

  /** There is never a second candidate. */
  lemma ChosenUnique(limits: seq<RateLimit>, topic: string, i: nat, j: nat)
    requires Chosen(limits, topic, i) && Chosen(limits, topic, j)
    ensures i == j
  {}

  /** Among the first `i` entries, none of them exact, `best` is the first of the longest matching patterns. */
  ghost predicate LongestSoFar(limits: seq<RateLimit>, topic: string, i: nat, r: Option<RateLimit>, best: nat,
                               len: nat) {
    && i <= |limits| && (forall k :: 0 <= k < i ==> !Exact(limits, topic, k))
    && if r.None? then len == 0 && forall k :: 0 <= k < i ==> !Pattern(limits, topic, k)
       else
         && best < i && r.value == limits[best] && Pattern(limits, topic, best) && |limits[best].topic| == len
         && forall j :: 0 <= j < i && Pattern(limits, topic, j) ==>
              |limits[j].topic| <= len && (j < best ==> |limits[j].topic| < len)
  }

  lemma LongestSoFarKept(limits: seq<RateLimit>, topic: string, i: nat, r: Option<RateLimit>, best: nat, len: nat)
    requires i < |limits| && LongestSoFar(limits, topic, i, r, best, len) && !Exact(limits, topic, i)
    requires !(FilterMatches(limits[i].topic, topic) && |limits[i].topic| > len)
    ensures LongestSoFar(limits, topic, i + 1, r, best, len)
  {}

  lemma LongestSoFarNew(limits: seq<RateLimit>, topic: string, i: nat, r: Option<RateLimit>, best: nat, len: nat)
    requires i < |limits| && LongestSoFar(limits, topic, i, r, best, len) && !Exact(limits, topic, i)
    requires FilterMatches(limits[i].topic, topic) && |limits[i].topic| > len
    ensures LongestSoFar(limits, topic, i + 1, Some(limits[i]), i, |limits[i].topic|)
  {}

  lemma FirstExact(limits: seq<RateLimit>, topic: string, i: nat)
    requires i < |limits| && limits[i].topic == topic && forall k :: 0 <= k < i ==> !Exact(limits, topic, k)
    ensures Chosen(limits, topic, i)
  {
    assert Exact(limits, topic, i);
  }

  method GetRateLimitForTopic(limits: seq<RateLimit>, topic: string) returns (r: Option<RateLimit>)
    ensures r.Some? ==> exists k: nat :: Chosen(limits, topic, k) && r.value == limits[k]
    ensures r.None? ==> !HasExact(limits, topic) && forall k :: 0 <= k < |limits| ==> !Pattern(limits, topic, k)
  {
    r := None;
    var matchedPatternLen: nat := 0;
    ghost var best: nat := 0;
    var i := 0;
    while i < |limits|
      invariant 0 <= i <= |limits| && LongestSoFar(limits, topic, i, r, best, matchedPatternLen)
    {
      var limit := limits[i];
      if limit.topic == topic {
        FirstExact(limits, topic, i);
        return Some(limit);
      }
      var m := IsFilterMatched(limit.topic, topic);
      if m && |limit.topic| > matchedPatternLen {
        LongestSoFarNew(limits, topic, i, r, best, matchedPatternLen);
        r := Some(limit);
        best := i;
        matchedPatternLen := |limit.topic|;
      } else {
        LongestSoFarKept(limits, topic, i, r, best, matchedPatternLen);
      }
      i := i + 1;
    }
    if r.Some? {
      assert Chosen(limits, topic, best);
    }
  }
}
