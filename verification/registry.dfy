/**
  The server's list of clients: the acceptor appends a new `Client` with the
  next index for every connection, and the watcher's periodic pass reports
  the speed of unfinished clients and removes the finished ones.
 */
module Registry {
  import opened Session

  /** The clients whose `finished` flag equals `finished`, in list order. */
  function WithStatus(clients: seq<Client>, finished: bool): seq<Client>
  {
    if |clients| == 0 then []
    else (if clients[0].finished == finished then [clients[0]] else []) + WithStatus(clients[1..], finished)
  }

  /** A client is selected exactly when its `finished` flag has the given value, and no client is added. */
  lemma {:induction false} WithStatusMembers(clients: seq<Client>, finished: bool)
    ensures forall c :: c in WithStatus(clients, finished) <==> c in clients && c.finished == finished
    ensures |WithStatus(clients, finished)| <= |clients|
  {
    if |clients| > 0 {
      WithStatusMembers(clients[1..], finished);
      assert clients == [clients[0]] + clients[1..];
    }
  }

  function Unfinished(clients: seq<Client>): seq<Client>
  {
    WithStatus(clients, false)
  }

  /** The indices of `clients`, in order: what the watcher prints speeds for. */
  function Indices(clients: seq<Client>): (r: seq<nat>)
    ensures |r| == |clients|
  {
    seq(|clients|, i requires 0 <= i < |clients| => clients[i].idx)
  }

  /** `a` is `b` with some elements deleted, the rest in their original order. */
  predicate IsSubsequence(a: seq<Client>, b: seq<Client>)
    decreases |b|
  {
    || |a| == 0
    || (&& |b| > 0
        && ((a[0] == b[0] && IsSubsequence(a[1..], b[1..])) || IsSubsequence(a, b[1..])))
  }

  lemma {:induction false} WithStatusSnoc(clients: seq<Client>, c: Client, finished: bool)
    ensures WithStatus(clients + [c], finished) == WithStatus(clients, finished) + (if c.finished == finished then [c] else [])
  {
    if |clients| > 0 {
      assert (clients + [c])[1..] == clients[1..] + [c];
      WithStatusSnoc(clients[1..], c, finished);
    } else {
      assert WithStatus([c], finished) == (if c.finished == finished then [c] else []) + WithStatus([], finished);
    }
  }

  /** The kept clients are the unfinished ones in their original relative order. */
  lemma {:induction false} UnfinishedKeepsOrder(clients: seq<Client>)
    ensures IsSubsequence(Unfinished(clients), clients)
  {
    if |clients| > 0 {
      UnfinishedKeepsOrder(clients[1..]);
      var rest := Unfinished(clients[1..]);
      if !clients[0].finished {
        assert Unfinished(clients) == [clients[0]] + rest;
        assert ([clients[0]] + rest)[1..] == rest;
      } else {
        assert Unfinished(clients) == rest;
      }
    }
  }

  /** `list.remove(x)`: drop the first element equal to `x`. */
  function RemoveFirst(l: seq<Client>, x: Client): seq<Client>
  {
    if |l| == 0 then []
    else if l[0] == x then l[1..]
    else [l[0]] + RemoveFirst(l[1..], x)
  }

  /** `for client in xs: clients.remove(client)`. */
  function RemoveEach(l: seq<Client>, xs: seq<Client>): seq<Client>
    decreases |xs|
  {
    if |xs| == 0 then l else RemoveEach(RemoveFirst(l, xs[0]), xs[1..])
  }

  lemma {:induction false} RemoveFirstAfter(u: seq<Client>, x: Client, l: seq<Client>)
    requires x !in u
    ensures RemoveFirst(u + [x] + l, x) == u + l
  {
    if |u| > 0 {
      assert (u + [x] + l)[1..] == u[1..] + [x] + l;
      RemoveFirstAfter(u[1..], x, l);
      assert [u[0]] + (u[1..] + l) == u + l;
    } else {
      assert u + [x] + l == [x] + l;
    }
  }

  /**
    Removing, one by one in list order, the finished clients of `l` from a
    list whose front `u` holds only unfinished clients leaves exactly the
    unfinished ones.
   */
  lemma {:induction false} RemoveFinished(u: seq<Client>, l: seq<Client>)
    requires forall c :: c in u ==> !c.finished
    ensures RemoveEach(u + l, WithStatus(l, true)) == u + Unfinished(l)
    decreases |l|
  {
    if |l| == 0 {
      assert u + l == u;
    } else if l[0].finished {
      RemoveFinished(u, l[1..]);
      RemoveFinishedHead(u, l);
    } else {
      RemoveFinished(u + [l[0]], l[1..]);
      KeepUnfinishedHead(u, l);
    }
  }

  /** A finished head is the first client removed, and only it goes. */
  lemma {:induction false} RemoveFinishedHead(u: seq<Client>, l: seq<Client>)
    requires forall c :: c in u ==> !c.finished
    requires |l| > 0 && l[0].finished
    requires RemoveEach(u + l[1..], WithStatus(l[1..], true)) == u + Unfinished(l[1..])
    ensures RemoveEach(u + l, WithStatus(l, true)) == u + Unfinished(l)
  {
    var x := l[0];
    var rest := l[1..];
    var removed := WithStatus(rest, true);
    assert WithStatus(l, true) == [x] + removed;
    assert Unfinished(l) == Unfinished(rest);
    calc {
      RemoveEach(u + l, [x] + removed);
      { assert ([x] + removed)[1..] == removed; }
      RemoveEach(RemoveFirst(u + l, x), removed);
      { assert u + l == u + [x] + rest; assert x !in u; RemoveFirstAfter(u, x, rest); }
      RemoveEach(u + rest, removed);
    }
  }

  /** An unfinished head is not removed: it moves to the unfinished front. */
  lemma {:induction false} KeepUnfinishedHead(u: seq<Client>, l: seq<Client>)
    requires |l| > 0 && !l[0].finished
    requires RemoveEach(u + [l[0]] + l[1..], WithStatus(l[1..], true)) == u + [l[0]] + Unfinished(l[1..])
    ensures RemoveEach(u + l, WithStatus(l, true)) == u + Unfinished(l)
  {
    var x := l[0];
    var rest := l[1..];
    assert WithStatus(l, true) == WithStatus(rest, true);
    assert Unfinished(l) == [x] + Unfinished(rest);
    assert u + l == u + [x] + rest;
    assert u + [x] + Unfinished(rest) == u + Unfinished(l);
  }

  /**
    One pass of `client_watcher_loop`: collect the finished clients and print
    the speed of the others, then remove the collected ones from the list.
    Returns the remaining list and the indices whose speed was reported.
   */
  method WatchOnce(clients: seq<Client>) returns (kept: seq<Client>, reported: seq<nat>)
    ensures kept == Unfinished(clients)
    ensures forall c :: c in kept <==> c in clients && !c.finished
    ensures IsSubsequence(kept, clients)
    ensures reported == Indices(kept)
  {
    var toRemove: seq<Client> := [];
    reported := [];
    for i := 0 to |clients|
      invariant toRemove == WithStatus(clients[..i], true)
      invariant reported == Indices(Unfinished(clients[..i]))
    {
      var client := clients[i];
      assert clients[..i + 1] == clients[..i] + [client];
      WithStatusSnoc(clients[..i], client, true);
      WithStatusSnoc(clients[..i], client, false);
      if client.finished {
        toRemove := toRemove + [client];
        continue;
      }
      reported := reported + [client.idx];
    }
    assert clients[..|clients|] == clients;
    kept := clients;
    for k := 0 to |toRemove|
      invariant RemoveEach(kept, toRemove[k..]) == RemoveEach(clients, toRemove)
    {
      assert toRemove[k..][1..] == toRemove[k + 1..];
      kept := RemoveFirst(kept, toRemove[k]);
    }
    RemoveFinished([], clients);
    assert [] + clients == clients;
    UnfinishedKeepsOrder(clients);
    WithStatusMembers(clients, false);
  }

  /** The shared list and the acceptor's `last_client_idx`. */
  datatype State = State(clients: seq<Client>, lastIdx: nat)

  /** `clients = []` and `last_client_idx = 0`. */
  const Initial := State([], 0)

  /** One accepted connection: a new client with the next index, appended to the list. */
  function Accept(r: State): State
  {
    State(r.clients + [NewClient(r.lastIdx)], r.lastIdx + 1)
  }

  /** The list after one watcher pass. */
  function Prune(r: State): State
  {
    r.(clients := Unfinished(r.clients))
  }

  /** A session's handler changes its own client's fields; the list holds that client. */
  function Publish(r: State, c: Client): State
  {
    r.(clients := seq(|r.clients|, i requires 0 <= i < |r.clients| => if r.clients[i].idx == c.idx then c else r.clients[i]))
  }

  /** Indices increase along the list and are all below `last_client_idx`; hence they are distinct. */
  predicate Valid(r: State)
  {
    Increasing(r.clients) && AllBelow(r.clients, r.lastIdx)
  }

  predicate Increasing(clients: seq<Client>)
  {
    forall i, j :: 0 <= i < j < |clients| ==> clients[i].idx < clients[j].idx
  }

  predicate AllBelow(clients: seq<Client>, bound: nat)
  {
    forall c :: c in clients ==> c.idx < bound
  }

  datatype Step = Accepted | Watched | Updated(client: Client)

  function Apply(r: State, step: Step): State
  {
    match step
    case Accepted => Accept(r)
    case Watched => Prune(r)
    case Updated(c) => Publish(r, c)
  }

  function Run(r: State, steps: seq<Step>): State
    decreases |steps|
  {
    if |steps| == 0 then r else Run(Apply(r, steps[0]), steps[1..])
  }

  function CountAccepted(steps: seq<Step>): nat
  {
    if |steps| == 0 then 0 else (if steps[0].Accepted? then 1 else 0) + CountAccepted(steps[1..])
  }

  lemma {:induction false} UnfinishedIncreasing(clients: seq<Client>)
    requires Increasing(clients)
    ensures Increasing(Unfinished(clients))
  {
    if |clients| > 0 {
      var head := clients[0];
      var tail := clients[1..];
      var rest := Unfinished(tail);
      assert Increasing(tail);
      UnfinishedIncreasing(tail);
      WithStatusMembers(tail, false);
      if !head.finished {
        forall c | c in rest
          ensures head.idx < c.idx
        {
          var j :| 0 <= j < |tail| && tail[j] == c;
          assert clients[j + 1] == c;
        }
        ConsIncreasing(head, rest);
        assert Unfinished(clients) == [head] + rest;
      } else {
        assert Unfinished(clients) == rest;
      }
    }
  }

  lemma ConsIncreasing(head: Client, rest: seq<Client>)
    requires Increasing(rest)
    requires forall c :: c in rest ==> head.idx < c.idx
    ensures Increasing([head] + rest)
  {
    var l := [head] + rest;
    forall i, j | 0 <= i < j < |l|
      ensures l[i].idx < l[j].idx
    {
      assert l[j] == rest[j - 1];
      if i > 0 {
        assert l[i] == rest[i - 1];
      } else {
        assert rest[j - 1] in rest;
      }
    }
  }

  lemma UnfinishedValid(r: State)
    requires Valid(r)
    ensures Valid(Prune(r))
  {
    UnfinishedIncreasing(r.clients);
    WithStatusMembers(r.clients, false);
  }

  /** Every registry operation keeps the indices increasing and below the counter. */
  lemma ApplyValid(r: State, step: Step)
    requires Valid(r)
    ensures Valid(Apply(r, step))
    ensures Apply(r, step).lastIdx == r.lastIdx + (if step.Accepted? then 1 else 0)
  {
    match step
    case Accepted =>
    case Watched => UnfinishedValid(r);
    case Updated(c) =>
  }

  /**
    Whatever the interleaving of accepts, watcher passes and session updates,
    the list stays valid and `last_client_idx` counts the accepted connections,
    so the `k`-th accepted connection gets index `k`.
   */
  lemma {:induction false} RunValid(r: State, steps: seq<Step>)
    requires Valid(r)
    ensures Valid(Run(r, steps))
    ensures Run(r, steps).lastIdx == r.lastIdx + CountAccepted(steps)
    decreases |steps|
  {
    if |steps| > 0 {
      ApplyValid(r, steps[0]);
      RunValid(Apply(r, steps[0]), steps[1..]);
    }
  }

  /**
    A session whose handler returned normally is removed by the next watcher
    pass; one whose name failed to decode keeps its unfinished client in the
    list, so it is reported on every pass and never removed.
   */
  lemma FinishedSessionPruned(r: State, c: Client, s: Handled)
    requires Valid(r) && c in r.clients
    requires s.client.idx == c.idx
    ensures s.client.finished ==> forall d :: d in Prune(Publish(r, s.client)).clients ==> d.idx != c.idx
    ensures !s.client.finished ==> s.client in Prune(Publish(r, s.client)).clients
  {
    var p := Publish(r, s.client);
    WithStatusMembers(p.clients, false);
    forall d | d in p.clients && d.idx == c.idx
      ensures d == s.client
    {
    }
    if !s.client.finished {
      var i :| 0 <= i < |r.clients| && r.clients[i] == c;
      assert p.clients[i] == s.client;
    }
  }
}
