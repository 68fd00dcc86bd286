/** Names and values of a request: letter case, what is kept of several values of a name, and query strings. */
module HttpNames {
  import opened Bytes

  type Text = seq<byte>

  const EQUALS: byte := 61
  const AMPERSAND: byte := 38

  /** The octet of an ASCII character. */
  function Code(c: char): (b: byte) { if (c as int) < 256 then c as int else 0 }

  /** Text as it is written. */
  function Ascii(s: string): (r: Text)
    ensures |r| == |s| && forall k :: 0 <= k < |s| ==> r[k] == Code(s[k])
  {
    seq(|s|, k requires 0 <= k < |s| => Code(s[k]))
  }

  function LowerChar(c: byte): (d: byte) { if 65 <= c <= 90 then c + 32 else c }

  function Lower(s: Text): (r: Text)
    ensures |r| == |s|
  {
    seq(|s|, k requires 0 <= k < |s| => LowerChar(s[k]))
  }

  /** The same octet, or the same ASCII letter in its two cases. */
  predicate SameLetter(c: byte, d: byte) { c == d || (65 <= c <= 90 && d == c + 32) || (65 <= d <= 90 && c == d + 32) }

  predicate SameName(s: Text, t: Text) { |s| == |t| && forall k :: 0 <= k < |s| ==> SameLetter(s[k], t[k]) }

  predicate NoCapitals(s: Text) { forall k :: 0 <= k < |s| ==> !(65 <= s[k] <= 90) }

  /** Lower case is the one name without capitals that is the same. */
  lemma LowerIs(s: Text, t: Text)
    ensures Lower(s) == t <==> NoCapitals(t) && SameName(s, t)
  {
    if NoCapitals(t) && SameName(s, t) {
      forall k | 0 <= k < |s| ensures Lower(s)[k] == t[k] {
        assert SameLetter(s[k], t[k]);
      }
    }
  }

  lemma LowerSame(s: Text, t: Text)
    ensures Lower(s) == Lower(t) <==> SameName(s, t)
  {
    if SameName(s, t) {
      forall k | 0 <= k < |s| ensures LowerChar(s[k]) == LowerChar(t[k]) {
        assert SameLetter(s[k], t[k]);
      }
    } else if |s| == |t| {
      var k :| 0 <= k < |s| && !SameLetter(s[k], t[k]);
      assert Lower(s)[k] != Lower(t)[k];
    } else {
      assert |Lower(s)| != |Lower(t)|;
    }
  }

  /** The first index of `c` from `i` on, or the length. */
  function Find(s: Text, c: byte, i: nat): (k: nat)
    requires i <= |s|
    ensures i <= k <= |s| && (k < |s| ==> s[k] == c)
    decreases |s| - i
  {
    if i == |s| || s[i] == c then i else Find(s, c, i + 1)
  }

  // ----- named values

  /** A name and its value; where `drop` is set, those with an empty part do not count. */
  predicate Counts(p: (Text, Text), drop: bool) { !drop || (p.0 != [] && p.1 != []) }

  /** Of the values given for a name, in whatever case, the last is at `i`. */
  predicate IsLast(ps: seq<(Text, Text)>, name: Text, i: int, drop: bool) {
    && 0 <= i < |ps| && Counts(ps[i], drop) && SameName(ps[i].0, name)
    && forall j :: i < j < |ps| && Counts(ps[j], drop) ==> !SameName(ps[j].0, name)
  }

  ghost predicate FiledUnder(k: Text, ps: seq<(Text, Text)>, m: map<Text, Text>, drop: bool) {
    && (k in m ==> NoCapitals(k) && exists i :: IsLast(ps, k, i, drop) && m[k] == ps[i].1)
    && (forall i :: NoCapitals(k) && IsLast(ps, k, i, drop) ==> k in m && m[k] == ps[i].1)
  }

  /** `m` holds the last value of every name, under the name without capitals, and nothing else. */
  ghost predicate Filed(ps: seq<(Text, Text)>, m: map<Text, Text>, drop: bool) {
    forall k :: FiledUnder(k, ps, m, drop)
  }

  lemma FiledNone(ps: seq<(Text, Text)>, m: map<Text, Text>, drop: bool)
    requires ps == [] && m == map[]
    ensures Filed(ps, m, drop)
  {
    forall k ensures FiledUnder(k, ps, m, drop) {}
  }

  lemma LastBefore(ps: seq<(Text, Text)>, p: (Text, Text), name: Text, i: int, drop: bool)
    requires 0 <= i < |ps| && !(Counts(p, drop) && SameName(p.0, name))
    ensures IsLast(ps + [p], name, i, drop) <==> IsLast(ps, name, i, drop)
  {
    var all := ps + [p];
    if IsLast(ps, name, i, drop) {
      forall j | i < j < |all| && Counts(all[j], drop) ensures !SameName(all[j].0, name) {
        if j < |ps| { assert all[j] == ps[j]; }
      }
    }
    if IsLast(all, name, i, drop) {
      forall j | i < j < |ps| && Counts(ps[j], drop) ensures !SameName(ps[j].0, name) {
        assert all[j] == ps[j];
      }
    }
  }

  lemma LastIsNew(ps: seq<(Text, Text)>, p: (Text, Text), name: Text, i: int, drop: bool)
    requires Counts(p, drop) && SameName(p.0, name)
    ensures IsLast(ps + [p], name, i, drop) <==> i == |ps|
  {
    var all := ps + [p];
    assert all[|ps|] == p;
  }

  lemma FiledNew(ps: seq<(Text, Text)>, m: map<Text, Text>, p: (Text, Text), drop: bool)
    requires Counts(p, drop)
    ensures FiledUnder(Lower(p.0), ps + [p], m[Lower(p.0) := p.1], drop)
  {
    var k, all := Lower(p.0), ps + [p];
    LowerIs(p.0, k);
    forall i ensures IsLast(all, k, i, drop) <==> i == |ps| { LastIsNew(ps, p, k, i, drop); }
    assert IsLast(all, k, |ps|, drop) && all[|ps|] == p;
  }

  lemma FiledOld(ps: seq<(Text, Text)>, m: map<Text, Text>, p: (Text, Text), k: Text, r: map<Text, Text>, drop: bool)
    requires FiledUnder(k, ps, m, drop) && (k in m <==> k in r) && (k in m ==> r[k] == m[k])
    requires !(Counts(p, drop) && SameName(p.0, k))
    ensures FiledUnder(k, ps + [p], r, drop)
  {
    var all := ps + [p];
    forall i | 0 <= i < |ps| ensures IsLast(all, k, i, drop) <==> IsLast(ps, k, i, drop) {
      LastBefore(ps, p, k, i, drop);
    }
    if k in m {
      var i :| IsLast(ps, k, i, drop) && m[k] == ps[i].1;
      assert IsLast(all, k, i, drop) && r[k] == all[i].1;
    }
    forall i | NoCapitals(k) && IsLast(all, k, i, drop) ensures k in r && r[k] == all[i].1 {
      assert i < |ps|;
    }
  }

  lemma FiledHidden(ps: seq<(Text, Text)>, m: map<Text, Text>, k: Text, drop: bool)
    requires !NoCapitals(k) && k !in m
    ensures FiledUnder(k, ps, m, drop)
  {}

  /** One more value is stored. */
  lemma FiledPush(ps: seq<(Text, Text)>, m: map<Text, Text>, p: (Text, Text), drop: bool)
    requires Filed(ps, m, drop)
    ensures Filed(ps + [p], if Counts(p, drop) then m[Lower(p.0) := p.1] else m, drop)
  {
    var r := if Counts(p, drop) then m[Lower(p.0) := p.1] else m;
    forall k ensures FiledUnder(k, ps + [p], r, drop) {
      assert FiledUnder(k, ps, m, drop);
      LowerIs(p.0, k);
      if Counts(p, drop) && k == Lower(p.0) {
        FiledNew(ps, m, p, drop);
      } else if !NoCapitals(k) {
        FiledHidden(ps + [p], r, k, drop);
      } else {
        FiledOld(ps, m, p, k, r, drop);
      }
    }
  }

  /** The value under a name in any case; empty if there is none. */
  function Lookup(m: map<Text, Text>, name: Text): (r: Text) { if Lower(name) in m then m[Lower(name)] else [] }

  lemma SameAsLower(ps: seq<(Text, Text)>, name: Text, i: int, drop: bool)
    ensures IsLast(ps, Lower(name), i, drop) <==> IsLast(ps, name, i, drop)
  {
    LowerIs(name, Lower(name));
    forall j | 0 <= j < |ps| ensures SameName(ps[j].0, Lower(name)) <==> SameName(ps[j].0, name) {
      LowerSame(ps[j].0, name);
      LowerSame(ps[j].0, Lower(name));
      LowerSame(name, Lower(name));
    }
  }

  /** A lookup finds the last value given for the name in any case, and nothing if there is none. */
  lemma LookupIs(ps: seq<(Text, Text)>, m: map<Text, Text>, name: Text, drop: bool)
    requires Filed(ps, m, drop)
    ensures forall i :: IsLast(ps, name, i, drop) ==> Lookup(m, name) == ps[i].1
    ensures (forall i :: 0 <= i < |ps| && Counts(ps[i], drop) ==> !SameName(ps[i].0, name)) ==> Lookup(m, name) == []
  {
    var k := Lower(name);
    LowerIs(name, k);
    assert FiledUnder(k, ps, m, drop);
    forall i | IsLast(ps, name, i, drop) ensures Lookup(m, name) == ps[i].1 {
      SameAsLower(ps, name, i, drop);
    }
    if k in m {
      var i :| IsLast(ps, k, i, drop) && m[k] == ps[i].1;
      SameAsLower(ps, name, i, drop);
    }
  }

  // ----- the query string

  function Stored(param: Text, value: Text, m: map<Text, Text>): (r: map<Text, Text>) {
    if param != [] && value != [] then m[Lower(param) := value] else m
  }

  /**
   Parameters from `pos` on are added to `m`, later ones replacing earlier ones; empty names and values are
   dropped.
   */
  function Query(s: Text, pos: nat, m: map<Text, Text>): (r: map<Text, Text>)
    requires pos <= |s|
    decreases |s| - pos
  {
    var eq := Find(s, EQUALS, pos);
    if eq == |s| then m
    else
      var amp := Find(s, AMPERSAND, eq + 1);
      Query(s, if amp == |s| then |s| else amp + 1, Stored(s[pos..eq], s[eq + 1..amp], m))
  }

  lemma QueryAt(s: Text, pos: nat, eq: nat, amp: nat, k: Text, v: Text, m: map<Text, Text>, next: nat)
    requires pos <= eq < |s| && Find(s, EQUALS, pos) == eq && Find(s, AMPERSAND, eq + 1) == amp
    requires k == s[pos..eq] && v == s[eq + 1..amp] && next == if amp == |s| then |s| else amp + 1
    ensures Query(s, pos, m) == Query(s, next, Stored(k, v, m))
  {}

  method ExecQuery(s: Text, m: map<Text, Text>) returns (r: map<Text, Text>)
    ensures r == Query(s, 0, m)
  {
    r := m;
    var pos := 0;
    while pos < |s|
      invariant 0 <= pos <= |s| && Query(s, 0, m) == Query(s, pos, r)
    {
      var eq := Find(s, EQUALS, pos);
      if eq == |s| {
        return;
      }
      var amp := Find(s, AMPERSAND, eq + 1);
      var param, value := s[pos..eq], s[eq + 1..amp];
      QueryAt(s, pos, eq, amp, param, value, r, if amp == |s| then |s| else amp + 1);
      pos := if amp == |s| then |s| else amp + 1;
      if param != [] && value != [] {
        r := r[Lower(param) := value];
      }
    }
  }

  /** Parameters as a client writes them, and a `tail` without an equals sign behind them. */
  function Render(ps: seq<(Text, Text)>, tail: Text): (s: Text)
    decreases |ps|, 1
  {
    if ps == [] then tail
    else ps[0].0 + Ascii("=") + ps[0].1 + Behind(ps, tail)
  }

  /** What follows the first parameter. */
  function Behind(ps: seq<(Text, Text)>, tail: Text): (r: Text)
    requires ps != []
    decreases |ps|, 0
  {
    if |ps| == 1 && tail == [] then [] else Ascii("&") + Render(ps[1..], tail)
  }

  predicate GoodQuery(ps: seq<(Text, Text)>, tail: Text) {
    Code('=') !in tail && forall k :: 0 <= k < |ps| ==> Code('=') !in ps[k].0 && Code('&') !in ps[k].1
  }

  /** What the parameters leave in the map: those with an empty name or value leave nothing. */
  function Assign(ps: seq<(Text, Text)>, m: map<Text, Text>): (r: map<Text, Text>)
    decreases |ps|
  {
    if ps == [] then m else Assign(ps[1..], Stored(ps[0].0, ps[0].1, m))
  }

  lemma {:induction false} AssignFiled(done: seq<(Text, Text)>, ps: seq<(Text, Text)>, m: map<Text, Text>)
    requires Filed(done, m, true)
    ensures Filed(done + ps, Assign(ps, m), true)
    decreases |ps|
  {
    if ps == [] {
      assert done + ps == done;
    } else {
      FiledPush(done, m, ps[0], true);
      AssignFiled(done + [ps[0]], ps[1..], Stored(ps[0].0, ps[0].1, m));
      assert done + [ps[0]] + ps[1..] == done + ps;
    }
  }

  lemma {:induction false} FindIs(s: Text, c: byte, i: nat, k: nat)
    requires i <= k <= |s| && (k < |s| ==> s[k] == c) && forall j :: i <= j < k ==> s[j] != c
    ensures Find(s, c, i) == k
    decreases k - i
  {
    if i < k {
      FindIs(s, c, i + 1, k);
    }
  }

  lemma ParameterParts(t: Text, k: Text, v: Text, rest: Text)
    requires t == k + [EQUALS] + v + rest
    ensures var n := |k|;
            var end := n + 1 + |v|;
            && |t| == end + |rest| && t[..n] == k && t[n] == EQUALS && t[n + 1..end] == v
            && (rest != [] ==> t[end] == rest[0])
  {}

  lemma SuffixParts(s: Text, pos: nat, t: Text, n: nat, end: nat)
    requires pos <= |s| && t == s[pos..] && n < end <= |t|
    ensures s[pos..pos + n] == t[..n] && s[pos + n] == t[n] && s[pos + n + 1..pos + end] == t[n + 1..end]
    ensures end < |t| ==> s[pos + end] == t[end]
  {}

  lemma FindName(s: Text, pos: nat, k: Text, eq: nat)
    requires eq == pos + |k| < |s| && s[pos..eq] == k && s[eq] == EQUALS && EQUALS !in k
    ensures Find(s, EQUALS, pos) == eq
  {
    assert forall j :: pos <= j < eq ==> s[j] == k[j - pos];
    FindIs(s, EQUALS, pos, eq);
  }

  lemma FindValue(s: Text, start: nat, v: Text, amp: nat)
    requires amp == start + |v| <= |s| && s[start..amp] == v && (amp < |s| ==> s[amp] == AMPERSAND) && AMPERSAND !in v
    ensures Find(s, AMPERSAND, start) == amp
  {
    assert forall j :: start <= j < amp ==> s[j] == v[j - start];
    FindIs(s, AMPERSAND, start, amp);
  }

  /** The parts of the parameter `k=v` at `pos`. */
  lemma ParameterPlaces(s: Text, pos: nat, k: Text, v: Text, rest: Text)
    requires pos <= |s| && s[pos..] == k + [EQUALS] + v + rest
    ensures var eq, amp := pos + |k|, pos + |k| + 1 + |v|;
            && eq < amp == |s| - |rest| <= |s| && s[pos..eq] == k && s[eq] == EQUALS && s[eq + 1..amp] == v
            && (rest != [] ==> s[amp] == rest[0])
  {
    ParameterParts(s[pos..], k, v, rest);
    SuffixParts(s, pos, s[pos..], |k|, |k| + 1 + |v|);
  }

  /** Where it has its equals sign and its end. */
  lemma ParameterAt(s: Text, pos: nat, k: Text, v: Text, rest: Text)
    requires pos <= |s| && s[pos..] == k + [EQUALS] + v + rest && (rest != [] ==> rest[0] == AMPERSAND)
    requires EQUALS !in k && AMPERSAND !in v
    ensures var eq, amp := pos + |k|, pos + |k| + 1 + |v|;
            && Find(s, EQUALS, pos) == eq < |s| && Find(s, AMPERSAND, eq + 1) == amp == |s| - |rest|
            && s[pos..eq] == k && s[eq + 1..amp] == v
  {
    ParameterPlaces(s, pos, k, v, rest);
    FindName(s, pos, k, pos + |k|);
    FindValue(s, pos + |k| + 1, v, pos + |k| + 1 + |v|);
  }

  lemma QueryOne(s: Text, pos: nat, k: Text, v: Text, rest: Text, m: map<Text, Text>, next: nat)
    requires pos <= |s| && s[pos..] == k + [EQUALS] + v + rest && (rest != [] ==> rest[0] == AMPERSAND)
    requires EQUALS !in k && AMPERSAND !in v && next == if rest == [] then |s| else |s| - |rest| + 1
    ensures next <= |s| && Query(s, pos, m) == Query(s, next, Stored(k, v, m))
  {
    ParameterAt(s, pos, k, v, rest);
    QueryAt(s, pos, pos + |k|, |s| - |rest|, k, v, m, next);
  }

  lemma SuffixOfSuffix(s: Text, pos: nat, head: Text, rest: Text)
    requires pos <= |s| && s[pos..] == head + rest
    ensures s[|s| - |rest|..] == rest
  {
    assert s[|s| - |rest|..] == s[pos..][|head|..];
  }

  lemma QueryStops(s: Text, pos: nat, m: map<Text, Text>)
    requires pos <= |s| && EQUALS !in s[pos..]
    ensures Query(s, pos, m) == m
  {
    assert forall j :: pos <= j < |s| ==> s[j] == s[pos..][j - pos];
    FindIs(s, EQUALS, pos, |s|);
  }

  /** Every list of parameters is read as written. */
  lemma {:induction false} QueryReads(s: Text, pos: nat, ps: seq<(Text, Text)>, tail: Text, m: map<Text, Text>)
    requires pos <= |s| && s[pos..] == Render(ps, tail) && GoodQuery(ps, tail)
    ensures Query(s, pos, m) == Assign(ps, m)
    decreases |ps|
  {
    if ps == [] {
      QueryStops(s, pos, m);
    } else {
      var rest := Behind(ps, tail);
      var next := if rest == [] then |s| else |s| - |rest| + 1;
      assert Ascii("=") == [EQUALS] && (rest != [] ==> rest[0] == Ascii("&")[0] == AMPERSAND);
      QueryOne(s, pos, ps[0].0, ps[0].1, rest, m, next);
      SuffixOfSuffix(s, pos, ps[0].0 + [EQUALS] + ps[0].1, rest);
      assert s[next..] == if rest == [] then [] else s[|s| - |rest|..][1..];
      QueryReads(s, next, ps[1..], tail, Stored(ps[0].0, ps[0].1, m));
    }
  }

  /**
   Every list of parameters comes back: the last value of a name in any case, under the name without capitals;
   parameters with an empty name or value are dropped, and so is a tail without an equals sign.
   */
  lemma QueryRoundTrip(ps: seq<(Text, Text)>, tail: Text)
    requires GoodQuery(ps, tail)
    ensures Filed(ps, Query(Render(ps, tail), 0, map[]), true)
  {
    var s := Render(ps, tail);
    assert s[0..] == s && [] + ps == ps;
    QueryReads(s, 0, ps, tail, map[]);
    FiledNone([], map[], true);
    AssignFiled([], ps, map[]);
  }
}
