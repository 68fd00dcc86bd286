/** Topics and topic filters: splitting into levels, validation and wildcard matching. */
module Topics {
  type Levels = seq<string>

  // ----- levels

  /** The levels of a topic or filter: what stands between its slashes. There is always at least one. */
  function Split(s: string): (r: Levels)
    ensures |r| >= 1
  {
    if s == "" then [""]
    else
      var r := Split(s[1..]);
      if s[0] == '/' then [""] + r else [[s[0]] + r[0]] + r[1..]
  }

  function Join(ls: Levels): (s: string)
    requires |ls| >= 1
  {
    if |ls| == 1 then ls[0] else ls[0] + "/" + Join(ls[1..])
  }

  predicate NoSlash(s: string) { '/' !in s }

  predicate NoSlashes(ls: Levels) { forall k :: 0 <= k < |ls| ==> NoSlash(ls[k]) }

  lemma {:induction false} JoinSplit(s: string)
    ensures Join(Split(s)) == s
  {
    if s != "" {
      var r := Split(s[1..]);
      JoinSplit(s[1..]);
      if s[0] == '/' {
        assert ([""] + r)[1..] == r;
      } else {
        assert ([[s[0]] + r[0]] + r[1..])[1..] == r[1..];
        assert Join([[s[0]] + r[0]] + r[1..]) == [s[0]] + Join(r);
      }
      assert s == [s[0]] + s[1..];
    }
  }

  lemma {:induction false} SplitNoSlash(s: string)
    requires NoSlash(s)
    ensures Split(s) == [s]
  {
    if s != "" {
      assert NoSlash(s[1..]);
      SplitNoSlash(s[1..]);
      assert s == [s[0]] + s[1..];
    }
  }

  /** The first level ends at the first slash. */
  lemma {:induction false} SplitAt(l: string, rest: string)
    requires NoSlash(l)
    ensures Split(l + "/" + rest) == [l] + Split(rest)
  {
    var s := l + "/" + rest;
    if l == "" {
      assert s[0] == '/' && s[1..] == rest;
    } else {
      assert s[0] == l[0] != '/' && s[1..] == l[1..] + "/" + rest;
      SplitAt(l[1..], rest);
      assert l == [l[0]] + l[1..];
      assert ([l[1..]] + Split(rest))[1..] == Split(rest);
    }
  }

  lemma {:induction false} SplitJoin(ls: Levels)
    requires |ls| >= 1 && NoSlashes(ls)
    ensures Split(Join(ls)) == ls
  {
    assert NoSlash(ls[0]);
    if |ls| == 1 {
      SplitNoSlash(ls[0]);
    } else {
      SplitAt(ls[0], Join(ls[1..]));
      SplitJoin(ls[1..]);
    }
  }

  lemma {:induction false} SplitNoSlashes(s: string)
    ensures NoSlashes(Split(s))
  {
    if s != "" {
      SplitNoSlashes(s[1..]);
      assert NoSlash(Split(s[1..])[0]);
    }
  }

  lemma SplitInjective(s: string, t: string)
    requires Split(s) == Split(t)
    ensures s == t
  {
    JoinSplit(s);
    JoinSplit(t);
  }

  lemma Cut(input: string, start: nat, i: nat)
    requires start <= i <= |input| && NoSlash(input[start..i]) && (i == |input| || input[i] == '/')
    ensures i == |input| ==> Split(input[start..]) == [input[start..i]]
    ensures i < |input| ==> Split(input[start..]) == [input[start..i]] + Split(input[i + 1..])
  {
    if i == |input| {
      assert input[start..] == input[start..i];
      SplitNoSlash(input[start..i]);
    } else {
      assert input[start..] == input[start..i] + "/" + input[i + 1..];
      SplitAt(input[start..i], input[i + 1..]);
    }
  }

  method SplitLevels(input: string) returns (parts: Levels)
    ensures parts == Split(input)
  {
    parts := [];
    var start, i := 0, 0;
    assert input[0..] == input;
    while i <= |input|
      invariant 0 <= i <= |input| + 1
      invariant i <= |input| ==> start <= i && NoSlash(input[start..i]) && Split(input) == parts + Split(input[start..])
      invariant i == |input| + 1 ==> Split(input) == parts
    {
      if i == |input| || input[i] == '/' {
        var part := input[start..i];
        Cut(input, start, i);
        if i < |input| {
          ghost var rest := Split(input[i + 1..]);
          assert parts + ([part] + rest) == parts + [part] + rest;
        }
        parts := parts + [part];
        start := i + 1;
      } else {
        assert input[start..i + 1] == input[start..i] + [input[i]];
      }
      i := i + 1;
    }
  }

  // ----- matching

  /** Level by level: `+` matches any one level, `#` whatever is left, also nothing. */
  predicate Matches(f: Levels, t: Levels) {
    if f == [] then t == []
    else f[0] == "#" || (t != [] && (f[0] == "+" || f[0] == t[0]) && Matches(f[1..], t[1..]))
  }

  /** The first `n` levels agree: none is `#`, and each is `+` or the level of the topic. */
  predicate AgreeTo(f: Levels, t: Levels, n: int) {
    n <= |f| && n <= |t| && forall i :: 0 <= i < n ==> f[i] != "#" && (f[i] == "+" || f[i] == t[i])
  }

  /** The filter agrees with the topic to the end of both, or up to a `#` in the filter. */
  predicate AgreesWith(f: Levels, t: Levels) {
    (|f| == |t| && AgreeTo(f, t, |f|)) || exists h :: 0 <= h < |f| && f[h] == "#" && AgreeTo(f, t, h)
  }

  lemma AgreeNext(f: Levels, t: Levels, n: nat)
    requires f != [] && t != [] && n > 0
    ensures AgreeTo(f, t, n) <==> f[0] != "#" && (f[0] == "+" || f[0] == t[0]) && AgreeTo(f[1..], t[1..], n - 1)
  {
    if AgreeTo(f, t, n) {
      forall i | 0 <= i < n - 1 ensures f[1..][i] != "#" && (f[1..][i] == "+" || f[1..][i] == t[1..][i]) {
        assert f[1..][i] == f[i + 1] && t[1..][i] == t[i + 1];
      }
    }
    if f[0] != "#" && (f[0] == "+" || f[0] == t[0]) && AgreeTo(f[1..], t[1..], n - 1) {
      forall i | 0 <= i < n ensures f[i] != "#" && (f[i] == "+" || f[i] == t[i]) {
        if i > 0 { assert f[1..][i - 1] == f[i] && t[1..][i - 1] == t[i]; }
      }
    }
  }

  lemma AgreesNext(f: Levels, t: Levels)
    requires f != [] && t != [] && f[0] != "#"
    ensures AgreesWith(f, t) <==> (f[0] == "+" || f[0] == t[0]) && AgreesWith(f[1..], t[1..])
  {
    AgreeNext(f, t, |f|);
    if h :| 0 <= h < |f| && f[h] == "#" && AgreeTo(f, t, h) {
      AgreeNext(f, t, h);
      assert f[1..][h - 1] == f[h];
    }
    if h :| 0 <= h < |f[1..]| && f[1..][h] == "#" && AgreeTo(f[1..], t[1..], h) {
      AgreeNext(f, t, h + 1);
      assert f[h + 1] == f[1..][h];
    }
  }

  /** Matching, said by positions. */
  lemma {:induction false} MatchesByPosition(f: Levels, t: Levels)
    ensures Matches(f, t) <==> AgreesWith(f, t)
  {
    if f != [] && f[0] == "#" {
      assert AgreeTo(f, t, 0);
    } else if f != [] && t != [] {
      MatchesByPosition(f[1..], t[1..]);
      AgreesNext(f, t);
    }
  }

  /** A filter string matches a topic string. */
  predicate FilterMatches(filter: string, topic: string) {
    Matches(Split(filter), Split(topic))
  }

  method IsFilterMatched(filterName: string, topicName: string) returns (r: bool)
    ensures r <==> FilterMatches(filterName, topicName)
  {
    var filterLevels := SplitLevels(filterName);
    var topicLevels := SplitLevels(topicName);
    var topicIndex, filterIndex := 0, 0;
    assert filterLevels[0..] == filterLevels && topicLevels[0..] == topicLevels;
    while filterIndex < |filterLevels|
      invariant topicIndex == filterIndex <= |filterLevels| && topicIndex <= |topicLevels|
      invariant FilterMatches(filterName, topicName) <==>
                Matches(filterLevels[filterIndex..], topicLevels[topicIndex..])
    {
      var filterLevel := filterLevels[filterIndex];
      assert filterLevels[filterIndex..][1..] == filterLevels[filterIndex + 1..];
      if filterLevel == "#" {
        return true;
      }
      if topicIndex >= |topicLevels| {
        return false;
      }
      assert topicLevels[topicIndex..][1..] == topicLevels[topicIndex + 1..];
      if filterLevel != "+" {
        if filterLevel != topicLevels[topicIndex] {
          return false;
        }
      }
      filterIndex, topicIndex := filterIndex + 1, topicIndex + 1;
    }
    return topicIndex == |topicLevels|;
  }

  // ----- validation

  predicate IsAlnum(c: char) { '0' <= c <= '9' || 'A' <= c <= 'Z' || 'a' <= c <= 'z' }

  predicate TopicChar(c: char) { IsAlnum(c) || c == '-' || c == '_' || c == '/' }

  predicate FilterChar(c: char) { TopicChar(c) || c == '+' || c == '#' }

  /** A topic name: not empty, no slash at either end, no wildcard, letters, digits, `-` and `_`. */
  predicate ValidTopic(s: string) {
    && s != "" && s[0] != '/' && s[|s| - 1] != '/'
    && forall k :: 0 <= k < |s| ==> TopicChar(s[k])
  }

  /** Wildcards stand alone in their level, and `#` only in the last one. */
  predicate WildcardsPlaced(ls: Levels) {
    forall k :: 0 <= k < |ls| ==> ('+' in ls[k] ==> ls[k] == "+") && ('#' in ls[k] ==> ls[k] == "#" && k == |ls| - 1)
  }

  predicate ValidFilter(s: string) {
    && s != "" && s[0] != '/'
    && (forall k :: 0 <= k < |s| ==> FilterChar(s[k]))
    && ('+' in s || '#' in s)
    && WildcardsPlaced(Split(s))
  }

  method IsValidTopic(topicName: string) returns (r: bool)
    ensures r <==> ValidTopic(topicName)
  {
    if topicName == "" {
      return false;
    }
    if topicName[0] == '/' {
      return false;
    }
    if '+' in topicName || '#' in topicName {
      return false;
    }
    var i := 0;
    while i < |topicName|
      invariant 0 <= i <= |topicName|
      invariant forall k :: 0 <= k < i ==> TopicChar(topicName[k])
      invariant i == |topicName| ==> topicName[i - 1] != '/'
    {
      if !IsAlnum(topicName[i]) && topicName[i] != '-' && topicName[i] != '_' && topicName[i] != '/' {
        return false;
      }
      if i + 1 == |topicName| && topicName[i] == '/' {
        return false;
      }
      i := i + 1;
    }
    return true;
  }

  /** What the scan looks at: the neighbours of the wildcard at `i`. */
  predicate NeighboursOk(s: string, i: nat)
    requires i < |s|
  {
    var before, after := i == 0 || s[i - 1] == '/', i + 1 == |s| || s[i + 1] == '/';
    && (s[i] == '+' ==> before && after)
    && (s[i] == '#' ==> before && i + 1 == |s|)
  }

  predicate AllNeighboursOk(s: string) { forall i :: 0 <= i < |s| ==> NeighboursOk(s, i) }

  lemma LastLevelNeighbours(s: string)
    requires NoSlash(s)
    ensures AllNeighboursOk(s) <==> ('+' in s ==> s == "+") && ('#' in s ==> s == "#")
  {
    if AllNeighboursOk(s) {
      if '+' in s {
        var i :| 0 <= i < |s| && s[i] == '+';
        assert NeighboursOk(s, i);
        assert |s| == 1;
      }
      if '#' in s {
        var i :| 0 <= i < |s| && s[i] == '#';
        assert NeighboursOk(s, i);
        assert |s| == 1;
      }
    }
  }

  lemma FirstLevelNeighbours(l: string, rest: string)
    requires NoSlash(l)
    ensures AllNeighboursOk(l + "/" + rest) <==> ('+' in l ==> l == "+") && '#' !in l && AllNeighboursOk(rest)
  {
    var s := l + "/" + rest;
    assert s[|l|] == '/';
    if '#' in l {
      var i :| 0 <= i < |l| && l[i] == '#';
      assert s[i] == l[i] && !NeighboursOk(s, i);
    }
    assert forall i :: 0 <= i < |rest| ==> s[|l| + 1 + i] == rest[i];
    if AllNeighboursOk(s) {
      if '+' in l {
        var i :| 0 <= i < |l| && l[i] == '+';
        assert NeighboursOk(s, i) && s[i] == l[i];
        assert |l| == 1;
      }
      forall i | 0 <= i < |rest|
        ensures NeighboursOk(rest, i)
      {
        assert NeighboursOk(s, |l| + 1 + i);
      }
    }
    if ('+' in l ==> l == "+") && '#' !in l && AllNeighboursOk(rest) {
      forall i | 0 <= i < |s|
        ensures NeighboursOk(s, i)
      {
        if i < |l| {
          assert s[i] == l[i] && l[i] in l;
        } else if i > |l| {
          assert NeighboursOk(rest, i - |l| - 1);
        }
      }
    }
  }

  function FirstSlash(s: string): (i: nat)
    requires !NoSlash(s)
    ensures i < |s| && s[i] == '/' && NoSlash(s[..i])
  {
    if s[0] == '/' then 0
    else
      assert s == [s[0]] + s[1..];
      var j := FirstSlash(s[1..]);
      assert s[..j + 1] == [s[0]] + s[1..][..j];
      j + 1
  }

  lemma PlacedCons(l: string, ls: Levels)
    requires ls != []
    ensures WildcardsPlaced([l] + ls) <==> ('+' in l ==> l == "+") && '#' !in l && WildcardsPlaced(ls)
  {
    var all := [l] + ls;
    if WildcardsPlaced(all) {
      assert all[0] == l;
      forall k | 0 <= k < |ls|
        ensures ('+' in ls[k] ==> ls[k] == "+") && ('#' in ls[k] ==> ls[k] == "#" && k == |ls| - 1)
      {
        assert all[k + 1] == ls[k];
      }
    }
  }

  /** The scan of neighbours is the statement about levels. */
  lemma {:induction false} ScanIsPlacement(s: string)
    ensures AllNeighboursOk(s) <==> WildcardsPlaced(Split(s))
    decreases |s|
  {
    if NoSlash(s) {
      SplitNoSlash(s);
      LastLevelNeighbours(s);
      assert [s][0] == s;
    } else {
      var i := FirstSlash(s);
      var l, rest := s[..i], s[i + 1..];
      assert s == l + "/" + rest;
      SplitAt(l, rest);
      FirstLevelNeighbours(l, rest);
      ScanIsPlacement(rest);
      PlacedCons(l, Split(rest));
    }
  }

  method IsValidTopicFilter(filterName: string) returns (r: bool)
    ensures r <==> ValidFilter(filterName)
  {
    ScanIsPlacement(filterName);
    if filterName == "" {
      return false;
    }
    if filterName[0] == '/' {
      return false;
    }
    var hasWildcard := false;
    var i := 0;
    while i < |filterName|
      invariant 0 <= i <= |filterName|
      invariant forall k :: 0 <= k < i ==> FilterChar(filterName[k]) && NeighboursOk(filterName, k)
      invariant hasWildcard <==> exists k :: 0 <= k < i && (filterName[k] == '+' || filterName[k] == '#')
    {
      var c := filterName[i];
      if !IsAlnum(c) && c != '-' && c != '_' && c != '+' && c != '#' && c != '/' {
        return false;
      }
      if c == '+' {
        hasWildcard := true;
        var prevOk := i == 0 || filterName[i - 1] == '/';
        var nextOk := i + 1 == |filterName| || filterName[i + 1] == '/';
        if !prevOk || !nextOk {
          assert !NeighboursOk(filterName, i);
          return false;
        }
      } else if c == '#' {
        hasWildcard := true;
        var prevOk := i == 0 || filterName[i - 1] == '/';
        if !prevOk || i + 1 != |filterName| {
          assert !NeighboursOk(filterName, i);
          return false;
        }
      }
      i := i + 1;
    }
    return hasWildcard;
  }

  predicate ValidTopicOrFilter(s: string) { ValidTopic(s) || ValidFilter(s) }

  method IsValidTopicOrFilter(topic: string) returns (r: bool)
    ensures r <==> ValidTopicOrFilter(topic)
  {
    var a := IsValidTopic(topic);
    if a {
      return true;
    }
    r := IsValidTopicFilter(topic);
  }

  /** A filter the comment on the validator rules out and the scan accepts: it ends in a slash. */
  lemma FinalSlashAccepted()
    ensures ValidFilter("a/+/")
  {
    assert "a/+/" == "a" + "/" + "+/" && "+/" == "+" + "/" + "";
    SplitAt("a", "+/");
    SplitAt("+", "");
    assert Split("a/+/") == ["a", "+", ""];
  }

  /** Another: it has both wildcards. */
  lemma BothWildcardsAccepted()
    ensures ValidFilter("+/#")
  {
    assert "+/#" == "+" + "/" + "#";
    SplitAt("+", "#");
    SplitNoSlash("#");
    assert Split("+/#") == ["+", "#"];
  }
}
