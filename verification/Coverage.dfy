/**
 What a whole access list covers. A subscription stays within the list if and only if the list grants
 every text made of the filter by writing 0, 1, 2, ... levels `+` for its final `#`, up to one more than
 the longest entry has: a condition the check itself can be asked about.
 */
module Coverage {
  import opened Topics
  import opened Containment
  import opened AccessControl

  function Pluses(d: nat): (r: Levels) { seq(d, _ => "+") }

  /** `f` with `d` levels `+` for its last level. */
  function Expand(f: Levels, d: nat): (g: Levels)
    requires f != []
  {
    f[..|f| - 1] + Pluses(d)
  }

  /** The number of levels of the longest entry. */
  function Longest(acl: seq<string>): (n: nat)
    ensures forall k :: 0 <= k < |acl| ==> |Split(acl[k])| <= n
  {
    if acl == [] then 0
    else
      var n, last := Longest(acl[..|acl| - 1]), |Split(acl[|acl| - 1])|;
      if n < last then last else n
  }

  /** Some valid topic has the shape of `g`: there is a level, and the last is not empty. */
  predicate Real(g: Levels) { g != [] && g[|g| - 1] != "" }

  predicate GrantsIfReal(acl: seq<string>, g: Levels) { Real(g) ==> Grants(acl, Join(g)) }

  predicate Covers(acl: seq<string>, filter: string) {
    var f := Split(filter);
    if f[|f| - 1] == "#" then forall d :: 0 <= d <= Longest(acl) + 1 ==> GrantsIfReal(acl, Expand(f, d))
    else GrantsIfReal(acl, f)
  }

  /** The levels of a filter without `#`. */
  predicate Hashless(g: Levels) { forall k :: 0 <= k < |g| ==> PlainLevel(g[k]) || g[k] == "+" }

  lemma NoHash(g: Levels)
    requires Hashless(g)
    ensures forall k :: 0 <= k < |g| ==> g[k] != "#"
  {
    forall k | 0 <= k < |g| ensures g[k] != "#" {
      if PlainLevel(g[k]) { PlainIsNoWildcard(g[k]); }
    }
  }

  lemma HashlessLevels(g: Levels)
    requires Hashless(g) && g != []
    ensures FilterLevels(g) && NoSlashes(g) && Split(Join(g)) == g
  {
    NoHash(g);
    forall k | 0 <= k < |g| ensures NoSlash(g[k]) { assert PlainLevel(g[k]) || g[k] == "+"; }
    SplitJoin(g);
  }

  lemma ExpandHashless(f: Levels, d: nat)
    requires FilterLevels(f) && f[|f| - 1] == "#"
    ensures Hashless(Expand(f, d))
  {}

  // ----- the condition is enough

  lemma {:induction false} PlusesMatch(t: Levels)
    ensures Matches(Pluses(|t|), t)
  {
    if t != [] {
      assert Pluses(|t|)[1..] == Pluses(|t| - 1);
      PlusesMatch(t[1..]);
    }
  }

  lemma {:induction false} ExpandMatches(f: Levels, t: Levels)
    requires FilterLevels(f) && f[|f| - 1] == "#" && Matches(f, t)
    ensures |t| >= |f| - 1 && Matches(Expand(f, |t| - (|f| - 1)), t)
  {
    if |f| == 1 {
      assert Expand(f, |t|) == Pluses(|t|);
      PlusesMatch(t);
    } else {
      var g := f[1..];
      ExpandMatches(g, t[1..]);
      var d := |t| - (|f| - 1);
      assert Expand(f, d) == [f[0]] + Expand(g, d);
    }
  }

  lemma {:induction false} RealIfMatched(g: Levels, t: Levels)
    requires Hashless(g) && Matches(g, t) && t != [] && t[|t| - 1] != ""
    ensures Real(g)
  {
    NoHash(g);
    MatchWithoutHash(g, t);
    if |t| > 1 {
      RealIfMatched(g[1..], t[1..]);
    }
  }

  /** An entry shorter than what it matches ends in `#`, so it matches what is longer still. */
  lemma {:induction false} LongerToo(p: Levels, g: Levels, more: Levels)
    requires Matches(p, g) && |p| < |g|
    ensures Matches(p, g + more)
  {
    if p != [] && p[0] != "#" {
      assert (g + more)[1..] == g[1..] + more;
      LongerToo(p[1..], g[1..], more);
    }
  }

  lemma LastLevelOf(topic: string)
    requires ValidTopic(topic)
    ensures Split(topic)[|Split(topic)| - 1] != ""
  {
    if Split(topic)[|Split(topic)| - 1] == "" {
      if |Split(topic)| >= 2 {
        EmptyLastLevel(topic);
      } else {
        JoinSplit(topic);
      }
    }
  }

  lemma HashlessContained(p: Levels, g: Levels, t: Levels)
    requires FilterLevels(p) && Hashless(g) && g != [] && Matches(p, g) && Matches(g, t)
    ensures Matches(p, t)
  {
    NoHash(g);
    HashlessLevels(g);
    Contained(p, g, t);
  }

  lemma GrantingEntry(acl: seq<string>, g: Levels) returns (k: nat)
    requires AllValid(acl) && Hashless(g) && g != [] && Grants(acl, Join(g))
    ensures k < |acl| && Matches(Split(acl[k]), g) && FilterLevels(Split(acl[k]))
  {
    HashlessLevels(g);
    k :| 0 <= k < |acl| && FilterMatches(acl[k], Join(g));
    ValidLevels(acl[k]);
  }

  /** An entry that grants the text `g` grants every topic that `g` matches. */
  lemma GrantReaches(acl: seq<string>, g: Levels, topic: string)
    requires AllValid(acl) && Hashless(g) && g != [] && Grants(acl, Join(g)) && Matches(g, Split(topic))
    ensures Grants(acl, topic)
  {
    var k := GrantingEntry(acl, g);
    HashlessContained(Split(acl[k]), g, Split(topic));
    assert FilterMatches(acl[k], topic);
  }

  /** The same for expansions longer than any entry, by the entry that grants a shorter one. */
  lemma GrantReachesLonger(acl: seq<string>, g: Levels, more: Levels, all: Levels, topic: string)
    requires AllValid(acl) && Hashless(g) && |g| > Longest(acl) && Grants(acl, Join(g))
    requires all == g + more && Hashless(all) && Matches(all, Split(topic))
    ensures Grants(acl, topic)
  {
    var k := GrantingEntry(acl, g);
    LongerToo(Split(acl[k]), g, more);
    HashlessContained(Split(acl[k]), all, Split(topic));
    assert FilterMatches(acl[k], topic);
  }

  lemma ExpandReaches(acl: seq<string>, f: Levels, d: nat, topic: string)
    requires AllValid(acl) && FilterLevels(f) && f[|f| - 1] == "#" && Real(Expand(f, d)) &&
             Matches(Expand(f, d), Split(topic))
    requires forall e :: 0 <= e <= Longest(acl) + 1 ==> GrantsIfReal(acl, Expand(f, e))
    ensures Grants(acl, topic)
  {
    var most := Longest(acl) + 1;
    ExpandHashless(f, d);
    if d <= most {
      assert GrantsIfReal(acl, Expand(f, d));
      GrantReaches(acl, Expand(f, d), topic);
    } else {
      ExpandHashless(f, most);
      assert GrantsIfReal(acl, Expand(f, most));
      assert Expand(f, d) == Expand(f, most) + Pluses(d - most);
      GrantReachesLonger(acl, Expand(f, most), Pluses(d - most), Expand(f, d), topic);
    }
  }

  lemma CoversIsEnough(acl: seq<string>, filter: string, topic: string)
    requires AllValid(acl) && ValidTopicOrFilter(filter) && Covers(acl, filter)
    requires ValidTopic(topic) && FilterMatches(filter, topic)
    ensures Grants(acl, topic)
  {
    var f, t := Split(filter), Split(topic);
    ValidLevels(filter);
    LastLevelOf(topic);
    if f[|f| - 1] == "#" {
      ExpandMatches(f, t);
      var d := |t| - (|f| - 1);
      ExpandHashless(f, d);
      RealIfMatched(Expand(f, d), t);
      ExpandReaches(acl, f, d, topic);
    } else {
      RealIfMatched(f, t);
      GrantReaches(acl, f, topic);
    }
  }

  // ----- the condition is needed

  function Xs(n: nat): (r: string)
    ensures |r| == n && PlainLevel(r)
  {
    seq(n, _ => 'x')
  }

  /** A name longer than any entry. */
  function Fresh(acl: seq<string>): (n: nat)
    ensures n > 0 && forall k :: 0 <= k < |acl| ==> |acl[k]| < n
  {
    if acl == [] then 1 else Fresh(acl[..|acl| - 1]) + |acl[|acl| - 1]|
  }

  lemma {:induction false} LevelsAreShort(s: string, k: nat)
    requires k < |Split(s)|
    ensures |Split(s)[k]| <= |s|
  {
    if s != "" {
      var r := Split(s[1..]);
      if s[0] == '/' {
        assert ([""] + r)[k] == if k == 0 then "" else r[k - 1];
        if k > 0 { LevelsAreShort(s[1..], k - 1); }
      } else {
        LevelsAreShort(s[1..], k);
      }
    }
  }

  /** A pattern without the name `x` matches the instance only if it matches the text. */
  lemma {:induction false} FreshMatch(p: Levels, g: Levels, x: string)
    requires x !in p && Matches(p, Instance(g, x))
    ensures Matches(p, g)
  {
    if p != [] && p[0] != "#" {
      FreshMatch(p[1..], g[1..], x);
    }
  }

  lemma {:induction false} InstanceSelf(g: Levels, x: string)
    requires Hashless(g)
    ensures Matches(g, Instance(g, x))
  {
    if g != [] {
      InstanceSelf(g[1..], x);
    }
  }

  lemma {:induction false} InstanceSum(f: Levels, g: Levels, x: string)
    ensures Instance(f + g, x) == Instance(f, x) + Instance(g, x)
  {
    if f == [] {
      assert f + g == g;
    } else {
      assert (f + g)[1..] == f[1..] + g;
      InstanceSum(f[1..], g, x);
    }
  }

  /** A topic that only entries granting the text `g` match. */
  lemma FreshTopic(acl: seq<string>, g: Levels) returns (topic: string)
    requires Hashless(g) && Real(g) && g[0] != ""
    ensures ValidTopic(topic) && Split(topic) == Instance(g, Xs(Fresh(acl)))
    ensures Grants(acl, topic) ==> Grants(acl, Join(g))
  {
    var x := Xs(Fresh(acl));
    InstancePlain(g, x);
    topic := TopicOf(Instance(g, x));
    HashlessLevels(g);
    if Grants(acl, topic) {
      var k :| 0 <= k < |acl| && FilterMatches(acl[k], topic);
      forall i | 0 <= i < |Split(acl[k])| ensures Split(acl[k])[i] != x {
        LevelsAreShort(acl[k], i);
      }
      FreshMatch(Split(acl[k]), g, x);
      assert FilterMatches(acl[k], Join(g));
    }
  }

  lemma ExpandNeeded(acl: seq<string>, filter: string, d: nat)
    requires ValidTopicOrFilter(filter) && Split(filter)[|Split(filter)| - 1] == "#"
    requires forall topic :: ValidTopic(topic) && FilterMatches(filter, topic) ==> Grants(acl, topic)
    ensures GrantsIfReal(acl, Expand(Split(filter), d))
  {
    var f := Split(filter);
    var g := Expand(f, d);
    ValidLevels(filter);
    ExpandHashless(f, d);
    if Real(g) {
      assert g[0] != "";
      var topic := FreshTopic(acl, g);
      var x := Xs(Fresh(acl));
      InstanceSum(f[..|f| - 1], Pluses(d), x);
      InstanceMatches(f, x, Instance(Pluses(d), x));
      assert FilterMatches(filter, topic);
    }
  }

  lemma TextNeeded(acl: seq<string>, filter: string)
    requires ValidTopicOrFilter(filter) && Split(filter)[|Split(filter)| - 1] != "#"
    requires forall topic :: ValidTopic(topic) && FilterMatches(filter, topic) ==> Grants(acl, topic)
    ensures GrantsIfReal(acl, Split(filter))
  {
    var f := Split(filter);
    ValidLevels(filter);
    assert Hashless(f);
    if Real(f) {
      var topic := FreshTopic(acl, f);
      InstanceSelf(f, Xs(Fresh(acl)));
      assert FilterMatches(filter, topic);
    }
  }

  /**
   The exact condition for a list of entries: every valid topic the filter matches is granted by some
   entry if and only if the list grants every expansion of the filter that a topic can have the shape of.
   */
  lemma SubscriptionExact(acl: seq<string>, filter: string)
    requires AllValid(acl) && ValidTopicOrFilter(filter)
    ensures (forall topic :: ValidTopic(topic) && FilterMatches(filter, topic) ==> Grants(acl, topic)) <==>
            Covers(acl, filter)
  {
    if Covers(acl, filter) {
      forall topic | ValidTopic(topic) && FilterMatches(filter, topic) ensures Grants(acl, topic) {
        CoversIsEnough(acl, filter, topic);
      }
    }
    if forall topic :: ValidTopic(topic) && FilterMatches(filter, topic) ==> Grants(acl, topic) {
      if Split(filter)[|Split(filter)| - 1] == "#" {
        forall d: nat | d <= Longest(acl) + 1 ensures GrantsIfReal(acl, Expand(Split(filter), d)) {
          ExpandNeeded(acl, filter, d);
        }
      } else {
        TextNeeded(acl, filter);
      }
    }
  }

  lemma TogetherLevels()
    ensures Split("a/+/#") == ["a", "+", "#"] && Split("a/#") == ["a", "#"] && Split("a") == ["a"]
  {
    assert "+/#" == "+" + "/" + "#" && "a/+/#" == "a" + "/" + "+/#" && "a/#" == "a" + "/" + "#";
    LevelsOf("+", "#");
    LevelsOf("a", "+/#");
    LevelsOf("a", "#");
    SplitNoSlash("a");
  }

  /**
   Entries can cover together what none of them covers: `a/+/#` matches the text `a/#` and leaks it, `a`
   does not match the text, yet every topic under `a/#` is granted by one of the two.
   */
  lemma CoveredTogether(topic: string)
    requires ValidTopic(topic) && FilterMatches("a/#", topic)
    ensures var acl := ["a/+/#", "a"];
            && AllValid(acl) && Leaks(Split(acl[0]), Split("a/#")) && !FilterMatches(acl[1], "a/#")
            && Grants(acl, topic)
  {
    var acl := ["a/+/#", "a"];
    TogetherLevels();
    var t := Split(topic);
    assert Matches(["a", "#"], t) && t[0] == "a";
    assert !Matches(["a"][1..], ["a", "#"][1..]);
    if |t| == 1 {
      assert Matches(["a"], t) && FilterMatches(acl[1], topic);
    } else {
      assert Matches(["a", "+", "#"][1..][1..], t[1..][1..]);
      assert Matches(["a", "+", "#"][1..], t[1..]);
      assert Matches(["a", "+", "#"], t) && FilterMatches(acl[0], topic);
    }
    assert ValidFilter(acl[0]) && ValidTopic(acl[1]);
  }
}
