/**
 The subscription index of a worker: a map from filters to topics, a list of subscriber nodes in each
 topic, and in each connection a map from filters to its topic and node. The three must agree with one
 plain relation between connections and filters, which is what publishing goes by.
 */
module Subscriptions {
  import opened Topics

  datatype ConnectionState = Http | WebSocket | Sse

  /** A node of a topic's subscriber list; a reference to it is the list iterator a connection keeps. */
  class Node {
    const conn: Connection
    const requestId: string

    constructor (conn: Connection, requestId: string)
      ensures this.conn == conn && this.requestId == requestId
    {
      this.conn, this.requestId := conn, requestId;
    }
  }

  datatype Subscription = Subscription(topic: Topic, node: Node, requestId: string)

  /** A published text: not JSON, JSON without the fields an SSE event needs, or a proper event. */
  datatype Message = NotJson | NoEvent | Event(id: string, text: string)

  /** One copy sent: to whom, for which filter and, over WebSocket, with the id of the subscription request. */
  datatype Delivery =
    | ToWebSocket(conn: Connection, filter: string, requestId: string)
    | ToSse(conn: Connection, filter: string)

  type TopicMap = map<string, Topic>
  type ListMap = map<Topic, seq<Node>>
  type HeldMap = map<Connection, map<string, Subscription>>

  ghost predicate NoDup<T>(s: seq<T>) { forall i, j :: 0 <= i < j < |s| ==> s[i] != s[j] }

  /** `s` without the first `x`. */
  function Without<T(==)>(s: seq<T>, x: T): (r: seq<T>) {
    if s == [] then [] else if s[0] == x then s[1..] else [s[0]] + Without(s[1..], x)
  }

  lemma {:induction false} WithoutMember<T>(s: seq<T>, x: T, y: T)
    requires NoDup(s)
    ensures y in Without(s, x) <==> y in s && y != x
  {
    if s != [] {
      assert y in s <==> y == s[0] || y in s[1..];
      if s[0] == x {
        assert x !in s[1..];
      } else {
        WithoutMember(s[1..], x, y);
        assert y in [s[0]] + Without(s[1..], x) <==> y == s[0] || y in Without(s[1..], x);
      }
    }
  }

  lemma {:induction false} WithoutNoDup<T>(s: seq<T>, x: T)
    requires NoDup(s)
    ensures NoDup(Without(s, x))
  {
    if s != [] && s[0] != x {
      WithoutNoDup(s[1..], x);
      WithoutMember(s[1..], x, s[0]);
      assert s[0] !in s[1..];
    }
  }

  // ----- agreement

  /** Node `n` in the list of filter `f`: the one its connection holds for `f`. */
  ghost predicate NodeOk(f: string, t: Topic, n: Node, held: HeldMap) {
    n.conn in held && f in held[n.conn] && held[n.conn][f] == Subscription(t, n, n.requestId)
  }

  ghost predicate TopicOk(f: string, topics: TopicMap, lists: ListMap, held: HeldMap) {
    && f in topics && topics[f].id == f && topics[f] in lists
    && lists[topics[f]] != [] && NoDup(lists[topics[f]])
    && forall n :: n in lists[topics[f]] ==> NodeOk(f, topics[f], n, held)
  }

  /** Filter `f` as connection `c` holds it: the topic in the map, and its own node in that topic's list. */
  ghost predicate HeldOk(c: Connection, f: string, topics: TopicMap, lists: ListMap, held: HeldMap) {
    && c in held && f in held[c]
    && f in topics && held[c][f].topic == topics[f] && topics[f] in lists
    && held[c][f].node in lists[topics[f]] && held[c][f].node.conn == c
  }

  ghost predicate Agrees(topics: TopicMap, lists: ListMap, held: HeldMap) {
    && (forall f :: f in topics ==> TopicOk(f, topics, lists, held))
    && (forall c, f :: c in held && f in held[c] ==> HeldOk(c, f, topics, lists, held))
  }

  /**
   What agreement means: a connection holds a filter if and only if the topic map has it with a node for
   that connection, the node is the one the connection's iterator names and the only one; no topic is empty.
   */
  lemma AgreementExact(topics: TopicMap, lists: ListMap, held: HeldMap, c: Connection, f: string)
    requires Agrees(topics, lists, held) && c in held
    ensures f in topics ==> topics[f] in lists && lists[topics[f]] != []
    ensures f in held[c] <==> f in topics && exists n :: n in lists[topics[f]] && n.conn == c
    ensures f in held[c] ==> forall n :: n in lists[topics[f]] && n.conn == c ==> n == held[c][f].node
  {
    if f in held[c] {
      assert HeldOk(c, f, topics, lists, held);
      assert TopicOk(f, topics, lists, held);
    }
    if f in topics {
      assert TopicOk(f, topics, lists, held);
      forall n | n in lists[topics[f]] ensures NodeOk(f, topics[f], n, held) {}
    }
  }

  /** Subscribing: a new node at the front of the topic's list, the topic created if there was none. */
  lemma AddAgrees(topics: TopicMap, lists: ListMap, held: HeldMap, f: string, t: Topic, n: Node, rest: seq<Node>)
    requires Agrees(topics, lists, held) && n.conn in held && f !in held[n.conn] && t.id == f
    requires if f in topics then t == topics[f] && t in lists && rest == lists[t] else rest == []
    requires forall g :: g in topics && g != f ==> topics[g] != t
    requires n !in rest
    ensures Agrees(topics[f := t], lists[t := [n] + rest],
                   held[n.conn := held[n.conn][f := Subscription(t, n, n.requestId)]])
  {
    var topics', lists' := topics[f := t], lists[t := [n] + rest];
    var held' := held[n.conn := held[n.conn][f := Subscription(t, n, n.requestId)]];
    forall g | g in topics' ensures TopicOk(g, topics', lists', held') {
      if g in topics {
        assert TopicOk(g, topics, lists, held);
      }
      forall m | m in lists'[topics'[g]] ensures NodeOk(g, topics'[g], m, held') {
        if m != n {
          assert NodeOk(g, topics[g], m, held);
        }
      }
    }
    forall c, g | c in held' && g in held'[c] ensures HeldOk(c, g, topics', lists', held') {
      if !(c == n.conn && g == f) {
        assert HeldOk(c, g, topics, lists, held);
      }
    }
  }

  /** Unsubscribing: the node leaves the list, and the topic the map if the list is left empty. */
  lemma RemoveAgrees(topics: TopicMap, lists: ListMap, held: HeldMap, c: Connection, f: string)
    requires Agrees(topics, lists, held) && c in held && f in held[c]
    ensures HeldOk(c, f, topics, lists, held)
    ensures var t := held[c][f].topic;
            var left := Without(lists[t], held[c][f].node);
            Agrees(if left == [] then topics - {f} else topics, lists[t := left], held[c := held[c] - {f}])
  {
    assert HeldOk(c, f, topics, lists, held) && TopicOk(f, topics, lists, held);
    var t, n := held[c][f].topic, held[c][f].node;
    var left := Without(lists[t], n);
    var topics' := if left == [] then topics - {f} else topics;
    var lists', held' := lists[t := left], held[c := held[c] - {f}];
    WithoutNoDup(lists[t], n);
    forall g | g in topics' ensures TopicOk(g, topics', lists', held') {
      assert TopicOk(g, topics, lists, held);
      assert g != f ==> topics[g] != t;
      forall m | m in lists'[topics'[g]] ensures NodeOk(g, topics'[g], m, held') {
        if g == f { WithoutMember(lists[t], n, m); }
        assert NodeOk(g, topics[g], m, held);
      }
    }
    forall d, g | d in held' && g in held'[d] ensures HeldOk(d, g, topics', lists', held') {
      assert HeldOk(d, g, topics, lists, held);
      if g == f {
        WithoutMember(lists[t], n, held[d][g].node);
      } else {
        assert TopicOk(g, topics, lists, held);
      }
    }
  }

  lemma AgreesNamed(topics: TopicMap, lists: ListMap, held: HeldMap)
    requires Agrees(topics, lists, held)
    ensures forall f :: f in topics ==> topics[f].id == f
  {
    forall f | f in topics ensures topics[f].id == f {
      assert TopicOk(f, topics, lists, held);
    }
  }

  lemma Smaller<K, V>(m: map<K, V>, k: K)
    requires k in m
    ensures |m - {k}| < |m|
  {
    assert (m - {k}).Keys == m.Keys - {k};
  }

  // ----- copies of a message

  /** What publishing asks of a connection. */
  datatype Status = Status(live: bool, isShutdown: bool, state: ConnectionState)

  type Statuses = map<Connection, Status>

  ghost function Snap(conns: set<Connection>): (st: Statuses)
    reads conns
  {
    map c | c in conns :: Status(c.live, c.isShutdown, c.state)
  }

  predicate Up(st: Statuses, c: Connection) { c in st && st[c].live && !st[c].isShutdown && st[c].state != Http }

  /** `st` with the connections of `down` shut down. */
  function ShutDown(st: Statuses, down: set<Connection>): (r: Statuses) {
    map c | c in st :: if c in down then st[c].(isShutdown := true) else st[c]
  }

  lemma ShutDownMore(st: Statuses, a: set<Connection>, b: set<Connection>)
    ensures ShutDown(ShutDown(st, a), b) == ShutDown(st, a + b) && ShutDown(st, {}) == st
  {}

  /** The copy of a message that filter `f` is due on connection `c`. */
  function Copy(f: string, c: Connection, requestId: string, st: Statuses): (d: Delivery)
    requires c in st
  {
    if st[c].state == WebSocket then ToWebSocket(c, f, requestId) else ToSse(c, f)
  }

  /** The copies a subscriber list is due while no connection closes, in its order. */
  function Copies(f: string, nodes: seq<Node>, st: Statuses): (r: seq<Delivery>) {
    if nodes == [] then []
    else
      var n := nodes[|nodes| - 1];
      Copies(f, nodes[..|nodes| - 1], st) + if Up(st, n.conn) then [Copy(f, n.conn, n.requestId, st)] else []
  }

  lemma {:induction false} CopiesMember(f: string, nodes: seq<Node>, st: Statuses, d: Delivery)
    ensures d in Copies(f, nodes, st) <==>
            exists n :: n in nodes && Up(st, n.conn) && d == Copy(f, n.conn, n.requestId, st)
  {
    if nodes != [] {
      var p, n := nodes[..|nodes| - 1], nodes[|nodes| - 1];
      CopiesMember(f, p, st, d);
      assert forall m :: m in nodes <==> m in p || m == n;
    }
  }

  /** Distinct connections get distinct copies. */
  lemma {:induction false} CopiesNoDup(f: string, nodes: seq<Node>, st: Statuses)
    requires forall i, j :: 0 <= i < j < |nodes| ==> nodes[i].conn != nodes[j].conn
    ensures NoDup(Copies(f, nodes, st))
  {
    if nodes != [] {
      var p, n := nodes[..|nodes| - 1], nodes[|nodes| - 1];
      CopiesNoDup(f, p, st);
      if Up(st, n.conn) {
        CopiesMember(f, p, st, Copy(f, n.conn, n.requestId, st));
        forall m | m in p ensures m.conn != n.conn {}
      }
    }
  }

  // ----- sending copies

  /** The connections that copies in `fatal`, those whose write fails or overflows, have shut down. */
  function Closed(out: seq<Delivery>, fatal: set<Delivery>): (r: set<Connection>) {
    set d | d in out && d in fatal :: d.conn
  }

  /** One of the copies has shut the connection down. */
  ghost predicate ShutBy(c: Connection, out: seq<Delivery>, fatal: set<Delivery>) {
    exists d :: d in out && d in fatal && d.conn == c
  }

  /** A copy for the filter has gone to the connection. */
  ghost predicate SentTo(c: Connection, f: string, out: seq<Delivery>) {
    exists d :: d in out && d.conn == c && d.filter == f
  }

  lemma ClosedPush(out: seq<Delivery>, d: Delivery, fatal: set<Delivery>)
    ensures Closed(out + [d], fatal) == Closed(out, fatal) + if d in fatal then {d.conn} else {}
  {}

  lemma ClosedSum(a: seq<Delivery>, b: seq<Delivery>, fatal: set<Delivery>)
    ensures Closed(a + b, fatal) == Closed(a, fatal) + Closed(b, fatal)
  {}

  /** What is sent after `done` when the copies `cs` come up in turn: a closed connection gets no more. */
  function Sends(done: seq<Delivery>, cs: seq<Delivery>, fatal: set<Delivery>): (r: seq<Delivery>) {
    if cs == [] then done
    else
      var out, d := Sends(done, cs[..|cs| - 1], fatal), cs[|cs| - 1];
      if d.conn in Closed(out, fatal) then out else out + [d]
  }

  lemma SendsPush(done: seq<Delivery>, cs: seq<Delivery>, d: Delivery, fatal: set<Delivery>)
    ensures var out := Sends(done, cs, fatal);
            Sends(done, cs + [d], fatal) == if d.conn in Closed(out, fatal) then out else out + [d]
  {
    assert (cs + [d])[..|cs|] == cs;
  }

  lemma {:induction false} SendsSplit(done: seq<Delivery>, a: seq<Delivery>, b: seq<Delivery>, fatal: set<Delivery>)
    ensures Sends(done, a + b, fatal) == Sends(Sends(done, a, fatal), b, fatal)
  {
    if b == [] {
      assert a + b == a;
    } else {
      var p := b[..|b| - 1];
      assert (a + b)[..|a + b| - 1] == a + p;
      SendsSplit(done, a, p, fatal);
    }
  }

  lemma {:induction false} SentIsDue(cs: seq<Delivery>, fatal: set<Delivery>, d: Delivery)
    requires d in Sends([], cs, fatal)
    ensures d in cs
  {
    var p, last := cs[..|cs| - 1], cs[|cs| - 1];
    if d != last {
      SentIsDue(p, fatal, d);
    }
  }

  lemma {:induction false} SentNoDup(cs: seq<Delivery>, fatal: set<Delivery>)
    requires NoDup(cs)
    ensures NoDup(Sends([], cs, fatal))
  {
    if cs != [] {
      var p, last := cs[..|cs| - 1], cs[|cs| - 1];
      SentNoDup(p, fatal);
      if last in Sends([], p, fatal) {
        SentIsDue(p, fatal, last);
      }
    }
  }

  lemma {:induction false} SentOrClosed(cs: seq<Delivery>, fatal: set<Delivery>, d: Delivery)
    requires d in cs
    ensures d in Sends([], cs, fatal) || d.conn in Closed(Sends([], cs, fatal), fatal)
  {
    var p, last := cs[..|cs| - 1], cs[|cs| - 1];
    ClosedPush(Sends([], p, fatal), last, fatal);
    if d in p {
      SentOrClosed(p, fatal, d);
    }
  }

  /** No copy follows one that shut its connection down. */
  ghost predicate NoneAfterClose(out: seq<Delivery>, fatal: set<Delivery>) {
    forall i, j :: 0 <= i < j < |out| && out[i].conn == out[j].conn ==> out[i] !in fatal
  }

  lemma {:induction false} SentStops(cs: seq<Delivery>, fatal: set<Delivery>)
    ensures NoneAfterClose(Sends([], cs, fatal), fatal)
  {
    if cs != [] {
      var p := cs[..|cs| - 1];
      SentStops(p, fatal);
      var out := Sends([], p, fatal);
      forall i | 0 <= i < |out| && out[i].conn == cs[|cs| - 1].conn && cs[|cs| - 1].conn !in Closed(out, fatal)
        ensures out[i] !in fatal
      {
        assert out[i] in out;
      }
    }
  }

  lemma CopiesPush(f: string, nodes: seq<Node>, st: Statuses)
    requires nodes != []
    ensures var n, cs := nodes[|nodes| - 1], Copies(f, nodes[..|nodes| - 1], st);
            Copies(f, nodes, st) == if Up(st, n.conn) then cs + [Copy(f, n.conn, n.requestId, st)] else cs
  {
    var cs := Copies(f, nodes[..|nodes| - 1], st);
    assert cs + [] == cs;
  }

  lemma StillUp(st: Statuses, down: set<Connection>, cur: Statuses, f: string, n: Node)
    requires cur == ShutDown(st, down)
    ensures Up(cur, n.conn) <==> Up(st, n.conn) && n.conn !in down
    ensures Up(cur, n.conn) ==> Copy(f, n.conn, n.requestId, cur) == Copy(f, n.conn, n.requestId, st)
  {}

  lemma SendsOnOne(done: seq<Delivery>, cs: seq<Delivery>, now: seq<Delivery>, d: Delivery, fatal: set<Delivery>)
    requires done + Sends([], now, fatal) == Sends(done, cs, fatal)
    ensures var next := if d.conn in Closed(done, fatal) then now else now + [d];
            done + Sends([], next, fatal) == Sends(done, cs + [d], fatal)
  {
    var out := Sends([], now, fatal);
    ClosedSum(done, out, fatal);
    SendsPush(done, cs, d, fatal);
    SendsPush([], now, d, fatal);
    assert done + (out + [d]) == done + out + [d];
  }

  /**
   A list published while the connections closed by `done` are down: what it sends after `done` is what
   the copies due at the start make of it.
   */
  lemma {:induction false} SendsOn(done: seq<Delivery>, f: string, nodes: seq<Node>, st: Statuses, cur: Statuses,
                                   fatal: set<Delivery>)
    requires cur == ShutDown(st, Closed(done, fatal))
    ensures done + Sends([], Copies(f, nodes, cur), fatal) == Sends(done, Copies(f, nodes, st), fatal)
  {
    if nodes == [] {
      assert done + [] == done;
    } else {
      var p, n := nodes[..|nodes| - 1], nodes[|nodes| - 1];
      SendsOn(done, f, p, st, cur, fatal);
      CopiesPush(f, nodes, st);
      CopiesPush(f, nodes, cur);
      StillUp(st, Closed(done, fatal), cur, f, n);
      if Up(st, n.conn) {
        SendsOnOne(done, Copies(f, p, st), Copies(f, p, cur), Copy(f, n.conn, n.requestId, st), fatal);
      }
    }
  }

  // ----- what a list sends

  /** A copy over WebSocket carries the id of the request that subscribed; one for SSE needs none. */
  predicate Carries(d: Delivery, requestId: string, state: ConnectionState) {
    match d
    case ToWebSocket(_, _, id) => state == WebSocket && id == requestId
    case ToSse(_, _) => state == Sse
  }

  /** Copy `d` is the one for node `n` of filter `f`. */
  predicate CopyFor(d: Delivery, f: string, n: Node, st: Statuses) {
    d.conn == n.conn && d.filter == f && n.conn in st && Carries(d, n.requestId, st[n.conn].state)
  }

  predicate Streaming(c: Connection, st: Statuses) {
    c in st && st[c].live && !st[c].isShutdown && (st[c].state == WebSocket || st[c].state == Sse)
  }

  /** A copy for a node before the `i`-th has shut the connection `c` down. */
  ghost predicate ShutBefore(i: int, c: Connection, out: seq<Delivery>, at: seq<nat>, fatal: set<Delivery>)
    requires |at| == |out|
  {
    exists j :: 0 <= j < |out| && at[j] < i && out[j] in fatal && out[j].conn == c
  }

  /** The nodes served are those of `at`, in the order of the list: all whose connections are still open in turn. */
  ghost predicate ServedAt(out: seq<Delivery>, at: seq<nat>, f: string, nodes: seq<Node>, st: Statuses,
                           fatal: set<Delivery>) {
    && |at| == |out| && (forall i, j :: 0 <= i < j < |at| ==> at[i] < at[j])
    && (forall j :: 0 <= j < |out| ==> at[j] < |nodes| && CopyFor(out[j], f, nodes[at[j]], st))
    && (forall i :: 0 <= i < |nodes| ==>
          (i in at <==> Streaming(nodes[i].conn, st) && !ShutBefore(i, nodes[i].conn, out, at, fatal)))
  }

  lemma ShutBeforeIs(nodes: seq<Node>, out: seq<Delivery>, at: seq<nat>, f: string, st: Statuses, fatal: set<Delivery>,
                     c: Connection)
    requires ServedAt(out, at, f, nodes, st, fatal)
    ensures c in Closed(out, fatal) <==> ShutBefore(|nodes|, c, out, at, fatal)
  {
    if c in Closed(out, fatal) {
      var d :| d in out && d in fatal && d.conn == c;
      var j :| 0 <= j < |out| && out[j] == d;
      assert at[j] < |nodes|;
    }
  }

  lemma ShutPush(i: int, c: Connection, out: seq<Delivery>, at: seq<nat>, d: Delivery, k: nat, fatal: set<Delivery>)
    requires |at| == |out| && i <= k
    ensures ShutBefore(i, c, out + [d], at + [k], fatal) <==> ShutBefore(i, c, out, at, fatal)
  {
    var out1, at1 := out + [d], at + [k];
    if ShutBefore(i, c, out, at, fatal) {
      var j :| 0 <= j < |out| && at[j] < i && out[j] in fatal && out[j].conn == c;
      assert out1[j] == out[j] && at1[j] == at[j];
    }
  }

  lemma ServedNext(out: seq<Delivery>, at: seq<nat>, f: string, p: seq<Node>, n: Node, d: Delivery, st: Statuses,
                   fatal: set<Delivery>)
    requires ServedAt(out, at, f, p, st, fatal) && CopyFor(d, f, n, st) && Streaming(n.conn, st)
    requires n.conn !in Closed(out, fatal)
    ensures ServedAt(out + [d], at + [|p|], f, p + [n], st, fatal)
  {
    var all, out1, at1 := p + [n], out + [d], at + [|p|];
    ShutBeforeIs(p, out, at, f, st, fatal, n.conn);
    forall i | 0 <= i < |all|
      ensures i in at1 <==> Streaming(all[i].conn, st) && !ShutBefore(i, all[i].conn, out1, at1, fatal)
    {
      ShutPush(i, all[i].conn, out, at, d, |p|, fatal);
      assert i in at1 <==> i in at || i == |p|;
    }
  }

  lemma ServedSkip(out: seq<Delivery>, at: seq<nat>, f: string, p: seq<Node>, n: Node, st: Statuses,
                   fatal: set<Delivery>)
    requires ServedAt(out, at, f, p, st, fatal) && !(Streaming(n.conn, st) && n.conn !in Closed(out, fatal))
    ensures ServedAt(out, at, f, p + [n], st, fatal)
  {
    ShutBeforeIs(p, out, at, f, st, fatal, n.conn);
    var all := p + [n];
    forall i | 0 <= i < |all|
      ensures i in at <==> Streaming(all[i].conn, st) && !ShutBefore(i, all[i].conn, out, at, fatal)
    {
      if i == |p| {
        assert i !in at;
      }
    }
  }

  lemma SendsNext(f: string, p: seq<Node>, n: Node, st: Statuses, fatal: set<Delivery>, out: seq<Delivery>)
    requires out == Sends([], Copies(f, p, st), fatal)
    ensures var open := Up(st, n.conn) && n.conn !in Closed(out, fatal);
            Sends([], Copies(f, p + [n], st), fatal) ==
            if open then out + [Copy(f, n.conn, n.requestId, st)] else out
  {
    assert (p + [n])[..|p|] == p;
    CopiesPush(f, p + [n], st);
    if Up(st, n.conn) {
      SendsPush([], Copies(f, p, st), Copy(f, n.conn, n.requestId, st), fatal);
    }
  }

  lemma UpIsStreaming(f: string, n: Node, st: Statuses)
    ensures Up(st, n.conn) <==> Streaming(n.conn, st)
    ensures Up(st, n.conn) ==> CopyFor(Copy(f, n.conn, n.requestId, st), f, n, st)
  {}

  lemma ServesNext(out: seq<Delivery>, at: seq<nat>, f: string, p: seq<Node>, n: Node, st: Statuses,
                   fatal: set<Delivery>, next: seq<Delivery>)
    returns (more: seq<nat>)
    requires ServedAt(out, at, f, p, st, fatal)
    requires var open := Up(st, n.conn) && n.conn !in Closed(out, fatal);
             next == if open then out + [Copy(f, n.conn, n.requestId, st)] else out
    ensures ServedAt(next, more, f, p + [n], st, fatal)
  {
    UpIsStreaming(f, n, st);
    if Up(st, n.conn) && n.conn !in Closed(out, fatal) {
      ServedNext(out, at, f, p, n, Copy(f, n.conn, n.requestId, st), st, fatal);
      more := at + [|p|];
    } else {
      ServedSkip(out, at, f, p, n, st, fatal);
      more := at;
    }
  }

  lemma ServesNone(f: string, st: Statuses, fatal: set<Delivery>)
    ensures ServedAt(Sends([], Copies(f, [], st), fatal), [], f, [], st, fatal)
  {}

  /** What a list sends, node by node. */
  lemma {:induction false} SendsServes(f: string, nodes: seq<Node>, st: Statuses, fatal: set<Delivery>)
    returns (at: seq<nat>)
    ensures ServedAt(Sends([], Copies(f, nodes, st), fatal), at, f, nodes, st, fatal)
    decreases nodes, 0
  {
    if nodes == [] {
      at := [];
      ServesNone(f, st, fatal);
    } else {
      var p, n := nodes[..|nodes| - 1], nodes[|nodes| - 1];
      assert nodes == p + [n];
      at := SendsServesOn(f, p, n, st, fatal);
    }
  }

  lemma {:induction false} SendsServesOn(f: string, p: seq<Node>, n: Node, st: Statuses, fatal: set<Delivery>)
    returns (at: seq<nat>)
    ensures ServedAt(Sends([], Copies(f, p + [n], st), fatal), at, f, p + [n], st, fatal)
    decreases p, 1
  {
    var out, next := Sends([], Copies(f, p, st), fatal), Sends([], Copies(f, p + [n], st), fatal);
    SendsNext(f, p, n, st, fatal, out);
    at := SendsServes(f, p, st, fatal);
    at := ServesNext(out, at, f, p, n, st, fatal, next);
  }

  /** The nodes of one list belong to different connections. */
  lemma ListConnsDiffer(topics: TopicMap, lists: ListMap, held: HeldMap, f: string)
    requires Agrees(topics, lists, held) && f in topics
    ensures topics[f] in lists
    ensures forall i, j :: 0 <= i < j < |lists[topics[f]]| ==> lists[topics[f]][i].conn != lists[topics[f]][j].conn
  {
    assert TopicOk(f, topics, lists, held);
    var s := lists[topics[f]];
    forall i, j | 0 <= i < j < |s| ensures s[i].conn != s[j].conn {
      assert NodeOk(f, topics[f], s[i], held) && NodeOk(f, topics[f], s[j], held);
    }
  }

  // ----- what a topic is due

  /** The relation between connections and filters says that `d` is due for a publish on `topicName`. */
  predicate Due(older d: Delivery, topicName: string, held: HeldMap, st: Statuses) {
    && d.conn in held && d.filter in held[d.conn] && FilterMatches(d.filter, topicName)
    && d.conn in st && st[d.conn].live && !st[d.conn].isShutdown
    && Carries(d, held[d.conn][d.filter].requestId, st[d.conn].state)
  }

  /** The copies of one topic are those due for its filter. */
  lemma CopiesAreDue(topics: TopicMap, lists: ListMap, held: HeldMap, st: Statuses, f: string, topicName: string,
                     d: Delivery)
    requires Agrees(topics, lists, held) && f in topics && FilterMatches(f, topicName)
    ensures topics[f] in lists
    ensures d in Copies(f, lists[topics[f]], st) <==> d.filter == f && Due(d, topicName, held, st)
  {
    assert TopicOk(f, topics, lists, held);
    var nodes := lists[topics[f]];
    CopiesMember(f, nodes, st, d);
    if d in Copies(f, nodes, st) {
      var n :| n in nodes && Up(st, n.conn) && d == Copy(f, n.conn, n.requestId, st);
      assert NodeOk(f, topics[f], n, held);
    }
    if d.filter == f && Due(d, topicName, held, st) {
      assert HeldOk(d.conn, f, topics, lists, held);
      var n := held[d.conn][f].node;
      assert NodeOk(f, topics[f], n, held) && n in nodes;
    }
  }

  /** Those of the first `k` nodes are among them, each once. */
  lemma PrefixCopies(topics: TopicMap, lists: ListMap, held: HeldMap, st: Statuses, f: string, topicName: string,
                     k: nat)
    requires Agrees(topics, lists, held) && f in topics && FilterMatches(f, topicName)
    requires topics[f] in lists && k <= |lists[topics[f]]|
    ensures NoDup(Copies(f, lists[topics[f]][..k], st))
    ensures forall d :: d in Copies(f, lists[topics[f]][..k], st) ==> d.filter == f && Due(d, topicName, held, st)
  {
    var nodes := lists[topics[f]];
    ListConnsDiffer(topics, lists, held, f);
    CopiesNoDup(f, nodes[..k], st);
    forall d | d in Copies(f, nodes[..k], st) ensures d.filter == f && Due(d, topicName, held, st) {
      CopiesMember(f, nodes[..k], st, d);
      CopiesMember(f, nodes, st, d);
      CopiesAreDue(topics, lists, held, st, f, topicName, d);
    }
  }

  // ----- the objects

  class Topic {
    const id: string
    var subscribers: seq<Node>

    constructor (id: string)
      ensures this.id == id && subscribers == []
    {
      this.id := id;
      subscribers := [];
    }

    method AddSubscriber(conn: Connection, requestId: string) returns (node: Node)
      modifies this
      ensures fresh(node) && node.conn == conn && node.requestId == requestId
      ensures subscribers == [node] + old(subscribers)
    {
      node := new Node(conn, requestId);
      subscribers := [node] + subscribers;
    }

    method DeleteSubscriberByIterator(node: Node)
      modifies this
      ensures subscribers == Without(old(subscribers), node)
    {
      subscribers := Without(subscribers, node);
    }

    /** Writes one copy; a copy in `fatal` shuts its connection down. */
    method Deliver(d: Delivery, fatal: set<Delivery>, ghost conns: set<Connection>)
      requires d.conn in conns
      modifies d.conn`isShutdown
      ensures Snap(conns) == ShutDown(old(Snap(conns)), if d in fatal then {d.conn} else {})
    {
      if d in fatal {
        d.conn.isShutdown := true;
      }
    }

    /** The next copy goes out. */
    ghost predicate Sending(st: Statuses, k: nat, out: seq<Delivery>, fatal: set<Delivery>, conns: set<Connection>)
      reads this, conns
    {
      && k <= |subscribers| && out == Sends([], Copies(id, subscribers[..k], st), fatal)
      && Snap(conns) == ShutDown(st, Closed(out, fatal))
    }

    lemma NodeStatus(st: Statuses, k: nat, out: seq<Delivery>, fatal: set<Delivery>, conns: set<Connection>)
      requires Sending(st, k, out, fatal, conns) && k < |subscribers| && subscribers[k].conn in conns
      ensures var n := subscribers[k];
              && n.conn in st && n.conn.state == st[n.conn].state
              && (n.conn.live && !n.conn.isShutdown <==>
                    st[n.conn].live && !st[n.conn].isShutdown && n.conn !in Closed(out, fatal))
    {
      var c := subscribers[k].conn;
      assert Snap(conns)[c] == Status(c.live, c.isShutdown, c.state);
    }

    lemma SendingNext(st: Statuses, k: nat, out: seq<Delivery>, fatal: set<Delivery>)
      requires k < |subscribers| && out == Sends([], Copies(id, subscribers[..k], st), fatal)
      ensures var n := subscribers[k];
              Sends([], Copies(id, subscribers[..k + 1], st), fatal) ==
              if Up(st, n.conn) && n.conn !in Closed(out, fatal) then out + [Copy(id, n.conn, n.requestId, st)] else out
    {
      var n := subscribers[k];
      assert subscribers[..k + 1][..k] == subscribers[..k];
      if Up(st, n.conn) {
        SendsPush([], Copies(id, subscribers[..k], st), Copy(id, n.conn, n.requestId, st), fatal);
      } else {
        assert Copies(id, subscribers[..k], st) + [] == Copies(id, subscribers[..k], st);
      }
    }

    /** The turn of subscriber `k`: it gets a copy if it is up, or the publish stops there. */
    method Turn(k: nat, out: seq<Delivery>, msg: Message, fatal: set<Delivery>, ghost st: Statuses,
                ghost conns: set<Connection>)
      returns (next: seq<Delivery>, stop: bool)
      requires Sending(st, k, out, fatal, conns) && k < |subscribers| && subscribers[k].conn in conns
      modifies conns`isShutdown
      ensures Sending(st, if stop then k else k + 1, next, fatal, conns)
      ensures stop ==> msg.NoEvent? && Up(Snap(conns), subscribers[k].conn) && subscribers[k].conn.state == Sse
      ensures next == out || exists d :: next == out + [d] && (msg.NoEvent? ==> d.ToWebSocket?)
    {
      var n := subscribers[k];
      NodeStatus(st, k, out, fatal, conns);
      SendingNext(st, k, out, fatal);
      if !n.conn.live || n.conn.isShutdown || n.conn.state == Http {
        return out, false;
      }
      if n.conn.state == Sse && msg.NoEvent? {
        return out, true;
      }
      var d := if n.conn.state == WebSocket then ToWebSocket(n.conn, id, n.requestId) else ToSse(n.conn, id);
      ClosedPush(out, d, fatal);
      ShutDownMore(st, Closed(out, fatal), if d in fatal then {d.conn} else {});
      Deliver(d, fatal, conns);
      return out + [d], false;
    }

    /**
     Sends a copy per subscriber that is up when its turn comes. JSON without event fields stops at the
     first SSE subscriber that is up. Copies in `fatal` shut their connections down.
     */
    method Publish(msg: Message, fatal: set<Delivery>, ghost conns: set<Connection>)
      returns (out: seq<Delivery>, ghost sent: nat, ghost at: seq<nat>)
      requires forall n :: n in subscribers ==> n.conn in conns
      modifies conns`isShutdown
      ensures sent <= |subscribers| && out == Sends([], Copies(id, subscribers[..sent], old(Snap(conns))), fatal)
      ensures sent <= |subscribers| && ServedAt(out, at, id, subscribers[..sent], old(Snap(conns)), fatal)
      ensures Snap(conns) == ShutDown(old(Snap(conns)), Closed(out, fatal))
      ensures msg.NotJson? ==> sent == 0
      ensures msg.Event? ==> sent == |subscribers|
      ensures msg.NoEvent? ==> forall d :: d in out ==> d.ToWebSocket?
      ensures msg.NoEvent? && sent < |subscribers| ==>
                Up(Snap(conns), subscribers[sent].conn) && subscribers[sent].conn.state == Sse
    {
      ghost var st := Snap(conns);
      ShutDownMore(st, {}, {});
      out, sent := [], 0;
      if msg.NotJson? {
        at := SendsServes(id, subscribers[..0], st, fatal);
        return;
      }
      var i := 0;
      while i < |subscribers|
        invariant 0 <= i <= |subscribers| && Sending(st, i, out, fatal, conns)
        invariant msg.NoEvent? ==> forall d :: d in out ==> d.ToWebSocket?
      {
        var stop;
        out, stop := Turn(i, out, msg, fatal, st, conns);
        if stop {
          sent := i;
          at := SendsServes(id, subscribers[..i], st, fatal);
          return;
        }
        i := i + 1;
      }
      sent := i;
      at := SendsServes(id, subscribers[..i], st, fatal);
    }

    function GetSubscriberCount(): (n: nat)
      reads this
    {
      |subscribers|
    }
  }

  class Connection {
    var live: bool           // false once the last shared pointer is gone
    var isShutdown: bool
    var state: ConnectionState
    var subscribed: map<string, Subscription>

    constructor ()
      ensures live && !isShutdown && state == Http && subscribed == map[]
    {
      live, isShutdown, state, subscribed := true, false, Http, map[];
    }

    method Subscribe(tm: TopicManager, filter: string, requestId: string)
      requires tm.Valid() && this in tm.connections
      modifies this`subscribed, tm`topicList, tm`lists, tm`held, tm.topicList.Values
      ensures tm.Valid()
      ensures if filter in old(subscribed) then subscribed == old(subscribed)
              else
                && filter in subscribed && subscribed[filter].requestId == requestId
                && subscribed == old(subscribed)[filter := subscribed[filter]]
    {
      if filter in subscribed {
        return;
      }
      ghost var topics, lists, held := tm.topicList, tm.lists, tm.held;
      AgreesNamed(topics, lists, held);
      var topic, node, rest := Attach(tm, filter, requestId);
      AddAgrees(topics, lists, held, filter, topic, node, rest);
    }

    /** A node for `filter` is made and recorded on both sides. */
    method Attach(tm: TopicManager, filter: string, requestId: string)
      returns (topic: Topic, node: Node, ghost rest: seq<Node>)
      requires tm.Mirrored() && tm.Named() && this in tm.connections
      modifies this`subscribed, tm`topicList, tm`lists, tm`held, tm.topicList.Values
      ensures tm.Mirrored()
      ensures node.conn == this && node.requestId == requestId && topic.id == filter && node !in rest
      ensures if filter in old(tm.topicList) then topic == old(tm.topicList)[filter] && rest == old(tm.lists)[topic]
              else topic !in old(tm.topicList).Values && rest == []
      ensures tm.topicList == old(tm.topicList)[filter := topic]
      ensures tm.lists == old(tm.lists)[topic := [node] + rest]
      ensures subscribed == old(subscribed)[filter := Subscription(topic, node, requestId)]
      ensures tm.held == old(tm.held)[this := subscribed]
    {
      ghost var topics := tm.topicList;
      rest := if filter in topics then topics[filter].subscribers else [];
      topic, node := tm.SubscribeConnection(this, filter, requestId);
      assert topic.subscribers == [node] + rest;
      subscribed := subscribed[filter := Subscription(topic, node, requestId)];
      tm.Record(this, filter, topic);
    }

    /** Takes the node for `filter` out of its topic, and the topic out of the map if it is left empty. */
    method Release(tm: TopicManager, filter: string)
      requires tm.Valid() && this in tm.connections && filter in subscribed
      modifies this`subscribed, tm`topicList, tm`errors, tm`lists, tm`held, tm.topicList.Values
      ensures tm.Valid() && tm.errors == old(tm.errors)
      ensures subscribed == old(subscribed) - {filter}
      ensures tm.topicList.Values <= old(tm.topicList.Values)
    {
      RemoveAgrees(tm.topicList, tm.lists, tm.held, this, filter);
      AgreesNamed(tm.topicList, tm.lists, tm.held);
      Detach(tm, filter);
    }

    method Detach(tm: TopicManager, filter: string)
      requires tm.Mirrored() && tm.Named() && this in tm.connections && filter in subscribed
      requires filter in tm.topicList && subscribed[filter].topic == tm.topicList[filter]
      modifies this`subscribed, tm`topicList, tm`errors, tm`lists, tm`held, tm.topicList.Values
      ensures tm.Mirrored() && tm.errors == old(tm.errors)
      ensures var t := old(subscribed)[filter].topic;
              var left := Without(old(tm.lists)[t], old(subscribed)[filter].node);
              && tm.topicList == (if left == [] then old(tm.topicList) - {filter} else old(tm.topicList))
              && tm.lists == old(tm.lists)[t := left]
      ensures subscribed == old(subscribed) - {filter} && tm.held == old(tm.held)[this := subscribed]
      ensures tm.topicList.Values <= old(tm.topicList.Values)
    {
      var subscription := subscribed[filter];
      var topic := subscription.topic;
      topic.DeleteSubscriberByIterator(subscription.node);
      if topic.GetSubscriberCount() == 0 {
        tm.DeleteTopic(filter);
      }
      subscribed := subscribed - {filter};
      tm.Record(this, filter, topic);
    }

    method Unsubscribe(tm: TopicManager, filter: string) returns (was: bool)
      requires tm.Valid() && this in tm.connections
      modifies this`subscribed, tm`topicList, tm`errors, tm`lists, tm`held, tm.topicList.Values
      ensures tm.Valid() && tm.errors == old(tm.errors)
      ensures was == (filter in old(subscribed)) && subscribed == old(subscribed) - {filter}
      ensures tm.topicList.Values <= old(tm.topicList.Values)
    {
      if filter !in subscribed {
        assert subscribed - {filter} == subscribed;
        return false;
      }
      Release(tm, filter);
      return true;
    }

    method UnsubscribeAll(tm: TopicManager) returns (count: nat)
      requires tm.Valid() && this in tm.connections
      modifies this`subscribed, tm`topicList, tm`errors, tm`lists, tm`held, tm.topicList.Values
      ensures tm.Valid() && tm.errors == old(tm.errors)
      ensures subscribed == map[] && count == |old(subscribed)|
    {
      count := |subscribed|;
      while subscribed != map[]
        invariant tm.Valid() && tm.errors == old(tm.errors)
        invariant tm.topicList.Values <= old(tm.topicList.Values)
        decreases |subscribed|
      {
        var filter :| filter in subscribed;
        Smaller(subscribed, filter);
        Release(tm, filter);
      }
    }

    /** The last owner lets go: the destructor unsubscribes, and the worker knows the connection no more. */
    method Disconnect(tm: TopicManager)
      requires tm.Valid() && this in tm.connections
      modifies this`subscribed, this`live, tm`topicList, tm`errors, tm`connections, tm`lists, tm`held,
               tm.topicList.Values
      ensures tm.Valid() && tm.errors == old(tm.errors)
      ensures !live && subscribed == map[] && tm.connections == old(tm.connections) - {this}
    {
      MarkDead(tm);
      var _ := UnsubscribeAll(tm);
      tm.Forget(this);
    }

    method MarkDead(tm: TopicManager)
      requires tm.Valid()
      modifies this`live
      ensures tm.Valid() && !live
    {
      live := false;
    }
  }

  /** A connection that holds nothing can be forgotten. */
  lemma ForgetAgrees(topics: TopicMap, lists: ListMap, held: HeldMap, c: Connection)
    requires Agrees(topics, lists, held) && c in held && held[c] == map[]
    ensures Agrees(topics, lists, held - {c})
  {
    forall f | f in topics ensures TopicOk(f, topics, lists, held - {c}) {
      assert TopicOk(f, topics, lists, held);
      forall n | n in lists[topics[f]] ensures NodeOk(f, topics[f], n, held - {c}) {
        assert NodeOk(f, topics[f], n, held);
      }
    }
    forall d, f | d in held - {c} && f in held[d] ensures HeldOk(d, f, topics, lists, held - {c}) {
      assert HeldOk(d, f, topics, lists, held);
    }
  }

  lemma AdoptAgrees(topics: TopicMap, lists: ListMap, held: HeldMap, c: Connection)
    requires Agrees(topics, lists, held) && c !in held
    ensures Agrees(topics, lists, held[c := map[]])
  {
    var held' := held[c := map[]];
    forall f | f in topics ensures TopicOk(f, topics, lists, held') {
      assert TopicOk(f, topics, lists, held);
      forall n | n in lists[topics[f]] ensures NodeOk(f, topics[f], n, held') {
        assert NodeOk(f, topics[f], n, held);
      }
    }
    forall d, f | d in held' && f in held'[d] ensures HeldOk(d, f, topics, lists, held') {
      assert HeldOk(d, f, topics, lists, held);
    }
  }

  lemma NoDupSum<T>(a: seq<T>, b: seq<T>)
    requires NoDup(a) && NoDup(b) && forall x :: x in a ==> x !in b
    ensures NoDup(a + b)
  {
    forall i, j | 0 <= i < j < |a + b| ensures (a + b)[i] != (a + b)[j] {
      if i < |a| <= j {
        assert a[i] in a && (a + b)[j] == b[j - |a|];
      }
    }
  }

  class TopicManager {
    var topicList: map<string, Topic>
    var errors: nat                          // "does not exist" messages logged
    ghost var connections: set<Connection>   // the connections of this worker

    /** `lists` and `held` mirror the objects; they are what agreement is stated on. */
    ghost var lists: ListMap
    ghost var held: HeldMap

    ghost predicate Mirrored()
      reads this, topicList.Values, connections
    {
      && (forall f :: f in topicList ==> topicList[f] in lists && topicList[f].subscribers == lists[topicList[f]])
      && held.Keys == connections && (forall c :: c in connections ==> c.subscribed == held[c])
    }

    ghost predicate Named()
      reads this
    {
      forall f :: f in topicList ==> topicList[f].id == f
    }

    ghost predicate Valid()
      reads this, topicList.Values, connections
    {
      Mirrored() && Agrees(topicList, lists, held)
    }

    constructor ()
      ensures Valid() && topicList == map[] && connections == {} && errors == 0
    {
      topicList, connections, errors, lists, held := map[], {}, 0, map[], map[];
    }

    /** A new connection of this worker. */
    ghost method Adopt(conn: Connection)
      requires Valid() && conn !in connections && conn.subscribed == map[]
      modifies this`connections, this`held
      ensures Valid() && connections == old(connections) + {conn}
    {
      AdoptAgrees(topicList, lists, held, conn);
      connections, held := connections + {conn}, held[conn := map[]];
    }

    /** Everything is mirrored but the list of `topic`, which only `filter` may name, and what `conn` holds. */
    ghost predicate MirroredBut(conn: Connection, filter: string, topic: Topic)
      reads this, topicList.Values, connections
    {
      && (forall f :: f in topicList && f != filter ==>
            topicList[f] != topic && topicList[f] in lists && topicList[f].subscribers == lists[topicList[f]])
      && (filter in topicList ==> topicList[filter] == topic)
      && held.Keys == connections && (forall c :: c in connections && c != conn ==> c.subscribed == held[c])
    }

    /** Brings the mirrors up to date. */
    ghost method Record(conn: Connection, filter: string, topic: Topic)
      requires conn in connections && MirroredBut(conn, filter, topic)
      modifies this`lists, this`held
      ensures Mirrored()
      ensures lists == old(lists)[topic := topic.subscribers] && held == old(held)[conn := conn.subscribed]
    {
      lists := lists[topic := topic.subscribers];
      held := held[conn := conn.subscribed];
    }

    method SubscribeConnection(conn: Connection, filter: string, requestId: string) returns (topic: Topic, node: Node)
      requires filter in topicList ==> topicList[filter].id == filter
      modifies this`topicList, topicList.Values
      ensures fresh(node) && node.conn == conn && node.requestId == requestId
      ensures topic.id == filter && topicList == old(topicList)[filter := topic]
      ensures if filter in old(topicList) then
                && topic == old(topicList[filter])
                && topic.subscribers == [node] + old(topicList[filter].subscribers)
              else fresh(topic) && topic.subscribers == [node]
      ensures forall f :: f in old(topicList) && old(topicList)[f] != topic ==>
              old(topicList)[f].subscribers == old(topicList[f].subscribers)
    {
      if filter !in topicList {
        var t := new Topic(filter);
        topicList := topicList[filter := t];
      }
      topic := topicList[filter];
      node := topic.AddSubscriber(conn, requestId);
    }

    ghost method Forget(conn: Connection)
      requires Valid() && conn in connections && conn.subscribed == map[]
      modifies this`connections, this`held
      ensures Valid() && connections == old(connections) - {conn}
    {
      ForgetAgrees(topicList, lists, held, conn);
      connections, held := connections - {conn}, held - {conn};
    }

    method DeleteTopic(filter: string)
      modifies this`topicList, this`errors
      ensures if filter in old(topicList) then topicList == old(topicList) - {filter} && errors == old(errors)
              else topicList == old(topicList) && errors == old(errors) + 1
    {
      if filter !in topicList {
        errors := errors + 1;
        return;
      }
      topicList := topicList - {filter};
    }

    /** Connection `c` is subscribed to a filter `f` that matches, and can be sent to; `down` are shut down. */
    ghost predicate Receives(c: Connection, f: string, topicName: string, down: set<Connection>)
      reads this, connections
    {
      && c in connections && c.live && c !in down && (c.state == WebSocket || c.state == Sse)
      && f in c.subscribed && FilterMatches(f, topicName)
    }

    /** Copy `d` is one that may be sent: in the form its connection takes, with the id its subscription was made by. */
    ghost predicate IsDue(d: Delivery, topicName: string, down: set<Connection>)
      reads this, connections
    {
      && d.conn in connections && Receives(d.conn, d.filter, topicName, down)
      && (d.ToWebSocket? ==>
            d.conn.state == WebSocket && d.requestId == d.conn.subscribed[d.filter].requestId)
      && (d.ToSse? ==> d.conn.state == Sse)
    }

    /** The copies `all` have come up for the filters not in `left`. */
    ghost predicate Gathered(topicName: string, msg: Message, st: Statuses, left: set<string>, all: seq<Delivery>)
      reads this
    {
      && NoDup(all) && (forall d :: d in all ==> Due(d, topicName, held, st) && d.filter !in left)
      && (msg.NotJson? ==> all == [])
      && (msg.Event? ==> forall d :: Due(d, topicName, held, st) && d.filter in topicList && d.filter !in left ==>
          d in all)
      && (msg.NoEvent? ==> forall d :: Due(d, topicName, held, st) && d.filter in topicList && d.filter !in left ==>
                             d in all || Stopped(d.filter, topicName, st))
    }

    /** An SSE subscriber of the filter is up, at which JSON without event fields stops. */
    ghost predicate Stopped(f: string, topicName: string, st: Statuses)
      reads this
    {
      exists c :: c in held && Due(ToSse(c, f), topicName, held, st)
    }

    lemma GatheredNext(topicName: string, msg: Message, st: Statuses, left: set<string>, all: seq<Delivery>,
                       f: string, k: nat)
      requires Valid() && Gathered(topicName, msg, st, left, all) && f in left && f in topicList
      requires FilterMatches(f, topicName) && k <= |lists[topicList[f]]|
      requires msg.NotJson? ==> k == 0
      requires msg.Event? ==> k == |lists[topicList[f]]|
      requires msg.NoEvent? && k < |lists[topicList[f]]| ==>
                 Up(st, lists[topicList[f]][k].conn) && st[lists[topicList[f]][k].conn].state == Sse
      ensures Gathered(topicName, msg, st, left - {f}, all + Copies(f, lists[topicList[f]][..k], st))
    {
      var nodes := lists[topicList[f]];
      var cs := Copies(f, nodes[..k], st);
      PrefixCopies(topicList, lists, held, st, f, topicName, k);
      NoDupSum(all, cs);
      if k == |nodes| {
        assert nodes[..k] == nodes;
        forall d | Due(d, topicName, held, st) && d.filter == f ensures d in cs {
          CopiesAreDue(topicList, lists, held, st, f, topicName, d);
        }
      } else if msg.NoEvent? {
        var n := nodes[k];
        assert TopicOk(f, topicList, lists, held) && NodeOk(f, topicList[f], n, held);
        assert Due(ToSse(n.conn, f), topicName, held, st);
      }
    }

    /** A publish under way: `out` has been sent of the copies `all` that came up, and filters in `left` remain. */
    ghost predicate Publishing(topicName: string, msg: Message, st: Statuses, left: set<string>, all: seq<Delivery>,
                               out: seq<Delivery>, fatal: set<Delivery>)
      reads this, connections
    {
      && left <= topicList.Keys && Gathered(topicName, msg, st, left, all) && out == Sends([], all, fatal)
      && Snap(connections) == ShutDown(st, Closed(out, fatal))
      && (msg.NoEvent? ==> forall d :: d in out ==> d.ToWebSocket?)
    }

    lemma PublishingStart(topicName: string, msg: Message, fatal: set<Delivery>)
      ensures Publishing(topicName, msg, Snap(connections), topicList.Keys, [], [], fatal)
    {
      ShutDownMore(Snap(connections), {}, {});
    }

    lemma PublishingSkip(f: string, topicName: string, msg: Message, st: Statuses, left: set<string>,
                         all: seq<Delivery>, out: seq<Delivery>, fatal: set<Delivery>)
      requires Publishing(topicName, msg, st, left, all, out, fatal) && f in left && !FilterMatches(f, topicName)
      ensures Publishing(topicName, msg, st, left - {f}, all, out, fatal)
    {}

    lemma PublishingNext(f: string, topicName: string, msg: Message, st: Statuses, left: set<string>,
                         all: seq<Delivery>, out: seq<Delivery>, fatal: set<Delivery>, cur: Statuses, sent: nat,
                         more: seq<Delivery>)
      requires Valid() && f in left && left <= topicList.Keys && FilterMatches(f, topicName)
      requires Gathered(topicName, msg, st, left, all) && out == Sends([], all, fatal) &&
               cur == ShutDown(st, Closed(out, fatal))
      requires sent <= |lists[topicList[f]]| && more == Sends([], Copies(f, lists[topicList[f]][..sent], cur), fatal)
      requires msg.NotJson? ==> sent == 0
      requires msg.Event? ==> sent == |lists[topicList[f]]|
      requires msg.NoEvent? && sent < |lists[topicList[f]]| ==>
                 Up(st, lists[topicList[f]][sent].conn) && st[lists[topicList[f]][sent].conn].state == Sse
      ensures var next := all + Copies(f, lists[topicList[f]][..sent], st);
              Gathered(topicName, msg, st, left - {f}, next) && out + more == Sends([], next, fatal)
      ensures ShutDown(cur, Closed(more, fatal)) == ShutDown(st, Closed(out + more, fatal))
    {
      var nodes := lists[topicList[f]][..sent];
      SendsOn(out, f, nodes, st, cur, fatal);
      SendsSplit([], all, Copies(f, nodes, st), fatal);
      ClosedSum(out, more, fatal);
      ShutDownMore(st, Closed(out, fatal), Closed(more, fatal));
      GatheredNext(topicName, msg, st, left, all, f, sent);
    }

    /** One topic's turn: its list sends what is due and still open. */
    method Turn(f: string, topicName: string, msg: Message, fatal: set<Delivery>, out: seq<Delivery>,
                ghost st: Statuses, ghost left: set<string>, ghost all: seq<Delivery>)
      returns (next: seq<Delivery>, ghost allNext: seq<Delivery>)
      requires Valid() && f in left && FilterMatches(f, topicName) &&
               Publishing(topicName, msg, st, left, all, out, fatal)
      modifies connections`isShutdown
      ensures Valid() && Publishing(topicName, msg, st, left - {f}, allNext, next, fatal)
    {
      ghost var nodes, cur := lists[topicList[f]], Snap(connections);
      assert TopicOk(f, topicList, lists, held);
      forall n | n in nodes ensures n.conn in connections { assert NodeOk(f, topicList[f], n, held); }
      ghost var sent, at;
      var more;
      more, sent, at := topicList[f].Publish(msg, fatal, connections);
      allNext, next := all + Copies(f, nodes[..sent], st), out + more;
      PublishingNext(f, topicName, msg, st, left, all, out, fatal, cur, sent, more);
    }

    method TurnIfMatched(f: string, topicName: string, msg: Message, fatal: set<Delivery>, out: seq<Delivery>,
                         ghost st: Statuses, ghost left: set<string>, ghost all: seq<Delivery>)
      returns (next: seq<Delivery>, ghost allNext: seq<Delivery>)
      requires Valid() && f in left && Publishing(topicName, msg, st, left, all, out, fatal)
      modifies connections`isShutdown
      ensures Valid() && Publishing(topicName, msg, st, left - {f}, allNext, next, fatal)
    {
      var matched := IsFilterMatched(f, topicName);
      if matched {
        next, allNext := Turn(f, topicName, msg, fatal, out, st, left, all);
      } else {
        PublishingSkip(f, topicName, msg, st, left, all, out, fatal);
        next, allNext := out, all;
      }
    }

    /** Every topic gets its turn, in whatever order the map has them. */
    method TakeTurns(topicName: string, msg: Message, fatal: set<Delivery>)
      returns (out: seq<Delivery>, ghost all: seq<Delivery>)
      requires Valid()
      modifies connections`isShutdown
      ensures Valid() && Publishing(topicName, msg, old(Snap(connections)), {}, all, out, fatal)
    {
      ghost var st := Snap(connections);
      PublishingStart(topicName, msg, fatal);
      out, all := [], [];
      var left := topicList.Keys;
      while left != {}
        invariant Valid() && Publishing(topicName, msg, st, left, all, out, fatal)
        decreases left
      {
        var f :| f in left;
        out, all := TurnIfMatched(f, topicName, msg, fatal, out, st, left, all);
        left := left - {f};
      }
    }

    /** An SSE connection is subscribed to the filter, at which JSON without event fields stops. */
    ghost predicate Blocked(f: string, topicName: string, down: set<Connection>)
      reads this, connections
    {
      exists c :: c in connections && c.state == Sse && Receives(c, f, topicName, down)
    }

    ghost predicate Published(topicName: string, msg: Message, down: set<Connection>, out: seq<Delivery>,
                              fatal: set<Delivery>)
      reads this, connections
    {
      && (forall d :: d in out ==> IsDue(d, topicName, down))
      && (forall i, j :: 0 <= i < j < |out| && out[i].conn == out[j].conn ==>
            out[i].filter != out[j].filter && out[i] !in fatal)
      && (msg.NotJson? ==> out == [])
      && (msg.NoEvent? ==> forall d :: d in out ==> d.ToWebSocket?)
      && (!msg.NotJson? ==>
            forall c, f :: c in connections && f in c.subscribed && Receives(c, f, topicName, down) ==>
              SentTo(c, f, out) || ShutBy(c, out, fatal) || (msg.NoEvent? && Blocked(f, topicName, down)))
    }

    /** `st` is how the connections were when those in `down` were shut down. */
    ghost predicate Were(st: Statuses, down: set<Connection>)
      reads this, connections
    {
      forall c :: c in connections ==> c in st && st[c] == Status(c.live, c in down, c.state)
    }

    lemma DueIsDue(d: Delivery, topicName: string, st: Statuses, down: set<Connection>)
      requires Valid() && Were(st, down)
      ensures Due(d, topicName, held, st) <==> IsDue(d, topicName, down)
    {}

    lemma OnePerFilter(topicName: string, down: set<Connection>, out: seq<Delivery>)
      requires NoDup(out) && forall d :: d in out ==> IsDue(d, topicName, down)
      ensures forall i, j :: 0 <= i < j < |out| && out[i].conn == out[j].conn ==> out[i].filter != out[j].filter
    {
      forall i, j | 0 <= i < j < |out| && out[i].conn == out[j].conn ensures out[i].filter != out[j].filter {
        assert IsDue(out[i], topicName, down) && IsDue(out[j], topicName, down);
      }
    }

    /** The copy that a receiving connection is due. */
    ghost function CopyOf(c: Connection, f: string): (d: Delivery)
      requires f in c.subscribed
      reads c
    {
      if c.state == WebSocket then ToWebSocket(c, f, c.subscribed[f].requestId) else ToSse(c, f)
    }

    lemma StoppedIsBlocked(f: string, topicName: string, st: Statuses, down: set<Connection>)
      requires Valid() && Were(st, down) && Stopped(f, topicName, st)
      ensures Blocked(f, topicName, down)
    {
      var c :| c in held && Due(ToSse(c, f), topicName, held, st);
      DueIsDue(ToSse(c, f), topicName, st, down);
    }

    lemma ReceiverServed(topicName: string, msg: Message, st: Statuses, down: set<Connection>, all: seq<Delivery>,
                         out: seq<Delivery>, fatal: set<Delivery>, c: Connection, f: string)
      requires Valid() && Were(st, down) && Publishing(topicName, msg, st, {}, all, out, fatal) && !msg.NotJson?
      requires c in connections && f in c.subscribed && Receives(c, f, topicName, down)
      ensures SentTo(c, f, out) || ShutBy(c, out, fatal) || (msg.NoEvent? && Blocked(f, topicName, down))
    {
      var d := CopyOf(c, f);
      DueIsDue(d, topicName, st, down);
      assert HeldOk(c, f, topicList, lists, held);
      if d in all {
        SentOrClosed(all, fatal, d);
      } else {
        StoppedIsBlocked(f, topicName, st, down);
      }
    }

    lemma PublishedAll(topicName: string, msg: Message, st: Statuses, down: set<Connection>, all: seq<Delivery>,
                       out: seq<Delivery>, fatal: set<Delivery>)
      requires Valid() && Were(st, down) && Publishing(topicName, msg, st, {}, all, out, fatal)
      ensures Published(topicName, msg, down, out, fatal)
    {
      SentNoDup(all, fatal);
      SentStops(all, fatal);
      forall d | d in out ensures IsDue(d, topicName, down) {
        SentIsDue(all, fatal, d);
        DueIsDue(d, topicName, st, down);
      }
      OnePerFilter(topicName, down, out);
      if !msg.NotJson? {
        forall c, f | c in connections && f in c.subscribed && Receives(c, f, topicName, down)
          ensures SentTo(c, f, out) || ShutBy(c, out, fatal) || (msg.NoEvent? && Blocked(f, topicName, down))
        {
          ReceiverServed(topicName, msg, st, down, all, out, fatal, c, f);
        }
      }
    }

    /**
     A publish. Every copy sent goes to a live connection that was not shut down and is subscribed to a matching
     filter, in the form it takes and with the id of the request that made the subscription; at most one per
     connection and filter. Every connection that should receive one does, unless an earlier copy of this publish
     shut it down; after that it gets no more. The order of the topic map does not matter.
     */
    method Publish(topicName: string, msg: Message, fatal: set<Delivery>) returns (out: seq<Delivery>)
      requires Valid()
      modifies connections`isShutdown
      ensures Valid()
      ensures Published(topicName, msg, old(set c | c in connections && c.isShutdown), out, fatal)
      ensures forall c :: c in connections ==> (c.isShutdown <==> old(c.isShutdown) || ShutBy(c, out, fatal))
    {
      ghost var all;
      ghost var st, down := Snap(connections), set c | c in connections && c.isShutdown;
      out, all := TakeTurns(topicName, msg, fatal);
      PublishedAll(topicName, msg, st, down, all, out, fatal);
      forall c | c in connections ensures c.isShutdown <==> old(c.isShutdown) || ShutBy(c, out, fatal) {
        assert Snap(connections)[c].isShutdown == c.isShutdown;
      }
    }
  }
}
