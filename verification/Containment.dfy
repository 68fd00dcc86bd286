/**
 When may a subscription filter be granted because an access list entry matches its text? The exact
 condition under which every topic the filter matches is matched by the entry.
 */
module Containment {
  import opened Topics

  // ----- levels of valid names

  lemma {:induction false} SplitChars(s: string, k: nat, c: char)
    requires k < |Split(s)| && c in Split(s)[k]
    ensures c in s
  {
    if s != "" {
      var r := Split(s[1..]);
      if s[0] == '/' {
        assert ([""] + r)[k] == if k == 0 then "" else r[k - 1];
        SplitChars(s[1..], k - 1, c);
      } else if k == 0 && c == s[0] {
      } else {
        assert c in r[k];
        SplitChars(s[1..], k, c);
      }
    }
  }

  /** A level a topic may have: letters, digits, `-` and `_`. */
  predicate PlainLevel(l: string) { forall i :: 0 <= i < |l| ==> TopicChar(l[i]) && l[i] != '/' }

  predicate PlainLevels(ls: Levels) { forall k :: 0 <= k < |ls| ==> PlainLevel(ls[k]) }

  /** A filter's levels: plain ones, `+`, and `#` at the end only. */
  predicate FilterLevels(ls: Levels) {
    && |ls| >= 1
    && (forall k :: 0 <= k < |ls| ==> PlainLevel(ls[k]) || ls[k] == "+" || ls[k] == "#")
    && (forall k :: 0 <= k < |ls| - 1 ==> ls[k] != "#")
  }

  lemma TopicLevels(s: string)
    requires ValidTopic(s)
    ensures PlainLevels(Split(s))
  {
    SplitNoSlashes(s);
    forall k, i | 0 <= k < |Split(s)| && 0 <= i < |Split(s)[k]|
      ensures TopicChar(Split(s)[k][i]) && Split(s)[k][i] != '/'
    {
      assert NoSlash(Split(s)[k]);
      SplitChars(s, k, Split(s)[k][i]);
    }
  }

  lemma PlainIsNoWildcard(l: string)
    requires PlainLevel(l)
    ensures l != "+" && l != "#"
  {
    assert !TopicChar('+') && !TopicChar('#');
    assert l != "" ==> TopicChar(l[0]);
  }

  lemma ValidLevels(s: string)
    requires ValidTopicOrFilter(s)
    ensures FilterLevels(Split(s)) && Split(s)[0] != ""
  {
    if ValidTopic(s) {
      TopicLevels(s);
      forall k | 0 <= k < |Split(s)| ensures Split(s)[k] != "#" { PlainIsNoWildcard(Split(s)[k]); }
    } else {
      SplitNoSlashes(s);
      forall k | 0 <= k < |Split(s)| && Split(s)[k] != "+" && Split(s)[k] != "#"
        ensures PlainLevel(Split(s)[k])
      {
        assert NoSlash(Split(s)[k]);
        forall i | 0 <= i < |Split(s)[k]|
          ensures TopicChar(Split(s)[k][i]) && Split(s)[k][i] != '/'
        {
          SplitChars(s, k, Split(s)[k][i]);
          assert Split(s)[k][i] in Split(s)[k];
        }
      }
    }
  }

  lemma {:induction false} PlainMatchIsEquality(f: Levels, t: Levels)
    requires PlainLevels(f)
    ensures Matches(f, t) <==> f == t
  {
    if f != [] {
      PlainIsNoWildcard(f[0]);
      if t != [] {
        PlainMatchIsEquality(f[1..], t[1..]);
        assert f == [f[0]] + f[1..] && t == [t[0]] + t[1..];
      }
    }
  }

  /** A plain topic used as a filter matches itself and nothing else. */
  lemma PlainTopicMatchesOnlyItself(t: string, u: string)
    requires ValidTopic(t)
    ensures FilterMatches(t, u) <==> t == u
  {
    TopicLevels(t);
    PlainMatchIsEquality(Split(t), Split(u));
    if Split(t) == Split(u) {
      SplitInjective(t, u);
    }
  }

  // ----- containment

  /** The entry `p` has a `+` where `f` ends in `#`. */
  predicate PlusOppositeHash(p: Levels, f: Levels) {
    f != [] && f[|f| - 1] == "#" && |p| >= |f| && p[|f| - 1] == "+"
  }

  /** The exact failure condition: `p` then needs a level that `f` can do without, or stops where `f` goes on. */
  predicate Leaks(p: Levels, f: Levels) {
    PlusOppositeHash(p, f) && (|p| == |f| || (|f| >= 2 && f[|f| - 2] != ""))
  }

  lemma {:induction false} Contained(p: Levels, f: Levels, t: Levels)
    requires FilterLevels(p) || p == []
    requires FilterLevels(f) || f == []
    requires Matches(p, f) && Matches(f, t)
    requires PlusOppositeHash(p, f) ==> |p| > |f| && |t| >= |f|
    ensures Matches(p, t)
  {
    if p != [] && p[0] != "#" {
      if f[0] == "#" {
        assert |f| == 1;
        assert p[1..] != [] && p[1..][0] == "#";
      } else {
        assert p[1..] == [] || FilterLevels(p[1..]);
        assert f[1..] == [] || FilterLevels(f[1..]);
        Contained(p[1..], f[1..], t[1..]);
      }
    }
  }

  /** `f` with every `+` replaced by the name `x`. */
  function Instance(f: Levels, x: string): (t: Levels)
    ensures |t| == |f|
  {
    if f == [] then [] else [if f[0] == "+" then x else f[0]] + Instance(f[1..], x)
  }

  lemma {:induction false} InstancePlain(f: Levels, x: string)
    requires (forall k :: 0 <= k < |f| ==> PlainLevel(f[k]) || f[k] == "+") && PlainLevel(x) && x != ""
    ensures PlainLevels(Instance(f, x))
    ensures forall k :: 0 <= k < |f| ==> (Instance(f, x)[k] == "" <==> f[k] == "")
  {
    if f != [] {
      InstancePlain(f[1..], x);
    }
  }

  /** `f` ending in `#` matches the instance of what precedes, with anything after it. */
  lemma {:induction false} InstanceMatches(f: Levels, x: string, more: Levels)
    requires FilterLevels(f) && f[|f| - 1] == "#"
    ensures Matches(f, Instance(f[..|f| - 1], x) + more)
  {
    if |f| > 1 {
      var t := Instance(f[..|f| - 1], x) + more;
      assert f[..|f| - 1][1..] == f[1..][..|f| - 2];
      assert t[1..] == Instance(f[1..][..|f| - 2], x) + more;
      InstanceMatches(f[1..], x, more);
    }
  }

  /** A filter without `#` before index `n` and without `#` there needs at least that many levels. */
  lemma {:induction false} MatchNeedsLevels(p: Levels, t: Levels, n: nat)
    requires n < |p| && (forall k :: 0 <= k <= n ==> p[k] != "#") && Matches(p, t)
    ensures |t| > n
  {
    if n > 0 {
      MatchNeedsLevels(p[1..], t[1..], n - 1);
    }
  }

  lemma {:induction false} MatchWithoutHash(p: Levels, t: Levels)
    requires (forall k :: 0 <= k < |p| ==> p[k] != "#") && Matches(p, t)
    ensures |t| == |p|
  {
    if p != [] {
      MatchWithoutHash(p[1..], t[1..]);
    }
  }

  lemma {:induction false} JoinValid(ls: Levels)
    requires |ls| >= 1 && PlainLevels(ls) && ls[|ls| - 1] != ""
    ensures var s := Join(ls);
            && s != "" && s[|s| - 1] != '/'
            && (forall k :: 0 <= k < |s| ==> TopicChar(s[k]))
            && (ls[0] != "" ==> s[0] != '/')
  {
    assert PlainLevel(ls[0]);
    if |ls| > 1 {
      JoinValid(ls[1..]);
    }
  }

  /** Plain levels, the first and the last of them not empty, are those of a valid topic. */
  lemma TopicOf(ls: Levels) returns (topic: string)
    requires |ls| >= 1 && PlainLevels(ls) && ls[0] != "" && ls[|ls| - 1] != ""
    ensures ValidTopic(topic) && Split(topic) == ls
  {
    JoinValid(ls);
    topic := Join(ls);
    forall k | 0 <= k < |ls| ensures NoSlash(ls[k]) { assert PlainLevel(ls[k]); }
    SplitJoin(ls);
  }

  lemma LeakUnmatched(p: Levels, n: nat, t: Levels)
    requires FilterLevels(p) && 0 < n <= |p| && p[n - 1] == "+" && |t| == if |p| == n then n + 1 else n - 1
    ensures !Matches(p, t)
  {
    if Matches(p, t) {
      if |p| == n {
        MatchWithoutHash(p, t);
      } else {
        MatchNeedsLevels(p, t, n - 1);
      }
    }
  }

  /** A topic that shows the leak: matched by `f`, not by `p`. */
  lemma LeakWitness(p: Levels, f: Levels) returns (topic: string)
    requires FilterLevels(p) && FilterLevels(f) && f[0] != "" && Leaks(p, f)
    ensures ValidTopic(topic) && Matches(f, Split(topic)) && !Matches(p, Split(topic))
  {
    var n := |f|;
    assert PlainLevel("x");
    var stem := Instance(f[..n - 1], "x");
    InstancePlain(f[..n - 1], "x");
    var more := if |p| == n then ["x", "x"] else [];
    InstanceMatches(f, "x", more);
    assert n >= 2 ==> stem[0] != "";
    topic := TopicOf(stem + more);
    LeakUnmatched(p, n, stem + more);
  }

  /** A topic matched by `f` with fewer levels than `f` ends where `f`'s last level before `#` ends. */
  lemma {:induction false} ShortMatch(f: Levels, t: Levels)
    requires FilterLevels(f) && f[|f| - 1] == "#" && Matches(f, t) && |t| < |f|
    ensures |t| == |f| - 1
    ensures t != [] ==> f[|f| - 2] == "+" || t[|t| - 1] == f[|f| - 2]
  {
    if |f| > 1 {
      ShortMatch(f[1..], t[1..]);
    }
  }

  lemma {:induction false} EmptyLastLevel(s: string)
    requires |Split(s)| >= 2 && Split(s)[|Split(s)| - 1] == ""
    ensures s != "" && s[|s| - 1] == '/'
  {
    if |s| > 1 {
      var r := Split(s[1..]);
      if s[0] == '/' {
        if |r| == 1 {
          JoinSplit(s[1..]);
        } else {
          EmptyLastLevel(s[1..]);
        }
      } else {
        EmptyLastLevel(s[1..]);
      }
    }
  }

  lemma NoLeakContains(p: Levels, f: Levels, topic: string)
    requires FilterLevels(p) && FilterLevels(f) && f[0] != "" && Matches(p, f) && !Leaks(p, f)
    requires ValidTopic(topic) && Matches(f, Split(topic))
    ensures Matches(p, Split(topic))
  {
    var t := Split(topic);
    if PlusOppositeHash(p, f) && |t| < |f| {
      ShortMatch(f, t);
      assert |f| >= 2 && t[|t| - 1] == "";
      assert |f| >= 3;
      EmptyLastLevel(topic);
    }
    Contained(p, f, t);
  }

  /**
   The access check and containment. Suppose the entry matches the text of the filter. Then every
   valid topic matched by the filter is matched by the entry if and only if the pair does not leak.
   */
  lemma ContainmentExact(entry: string, filter: string)
    requires ValidTopicOrFilter(entry) && ValidTopicOrFilter(filter) && FilterMatches(entry, filter)
    ensures (forall topic :: ValidTopic(topic) && FilterMatches(filter, topic) ==> FilterMatches(entry, topic))
            <==> !Leaks(Split(entry), Split(filter))
  {
    var p, f := Split(entry), Split(filter);
    ValidLevels(entry);
    ValidLevels(filter);
    if Leaks(p, f) {
      var topic := LeakWitness(p, f);
      assert ValidTopic(topic) && FilterMatches(filter, topic) && !FilterMatches(entry, topic);
    } else {
      forall topic | ValidTopic(topic) && FilterMatches(filter, topic)
        ensures FilterMatches(entry, topic)
      {
        NoLeakContains(p, f, topic);
      }
    }
  }
}
