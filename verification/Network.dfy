/**
  What a request meets outside: a context that may be cancelled at some point, and servers of which each
  may answer each question with any reply, or not at all.
  */
module Network {
  import opened Sequences
  import opened Names
  import opened Records

  /** A question put to one server, and what came back, if anything. */
  datatype Exchange = Exchange(server: NameServer, name: Name, qtype: U16, reply: Option<Reply>)

  /**
    The context is cancelled once it has been read doneAfter times, if ever, and stays so. The k-th exchange
    of the request brings what network says, if anything.
    */
  datatype World = World(doneAfter: Option<nat>, network: (nat, NameServer, Name, U16) -> Option<Reply>)

  /** The context is found cancelled when it is read after p + i readings. */
  predicate Done(w: World, p: nat, i: nat) {
    w.doneAfter.Some? && w.doneAfter.value <= p + i
  }

  datatype Ask = Ask(name: Name, qtype: U16, servers: seq<NameServer>)

  /** What server i replies if it is asked after k + i exchanges. */
  function Answer(w: World, k: nat, a: Ask, i: nat): Option<Reply>
    requires i < |a.servers|
  {
    w.network(k + i, a.servers[i], a.name, a.qtype)
  }

  /** The first i servers are all asked, under a live context, and none replies. */
  predicate InVain(w: World, k: nat, p: nat, a: Ask, i: nat) {
    i <= |a.servers| && forall j :: 0 <= j < i ==> !Done(w, p, j) && Answer(w, k, a, j).None?
  }

  /** Server i is the first to reply, and the context is live until then. */
  predicate RepliesFirst(w: World, k: nat, p: nat, a: Ask, i: nat) {
    InVain(w, k, p, a, i) && i < |a.servers| && !Done(w, p, i) && Answer(w, k, a, i).Some?
  }

  /** The context is found cancelled before server i is asked, and no server has replied by then. */
  predicate CutOff(w: World, k: nat, p: nat, a: Ask, i: nat) {
    InVain(w, k, p, a, i) && i < |a.servers| && Done(w, p, i)
  }

  /** The first n exchanges. */
  function Traffic(w: World, k: nat, a: Ask, n: nat): seq<Exchange>
    requires n <= |a.servers|
  {
    seq(n, i requires 0 <= i < n => Exchange(a.servers[i], a.name, a.qtype, Answer(w, k, a, i)))
  }

  lemma InVainMore(w: World, k: nat, p: nat, a: Ask, i: nat)
    requires InVain(w, k, p, a, i) && i < |a.servers| && !Done(w, p, i) && Answer(w, k, a, i).None?
    ensures InVain(w, k, p, a, i + 1)
  {
  }

  /** How asking the servers ends: with a reply, with a cancelled context, or with all of them asked in vain. */
  ghost predicate Ends(w: World, k: nat, p: nat, a: Ask, answered: Option<Reply>, cancelled: bool, n: nat) {
    if answered.Some? then RepliesFirst(w, k, p, a, n) && answered == Answer(w, k, a, n)
    else if cancelled then CutOff(w, k, p, a, n)
    else n == |a.servers| && InVain(w, k, p, a, n)
  }

  lemma TrafficMore(w: World, k: nat, a: Ask, i: nat, before: seq<Exchange>, now: seq<Exchange>, reply: Option<Reply>)
    requires i < |a.servers| && reply == Answer(w, k, a, i)
    requires now == before + Traffic(w, k, a, i) + [Exchange(a.servers[i], a.name, a.qtype, reply)]
    ensures now == before + Traffic(w, k, a, i + 1)
  {
    assert Traffic(w, k, a, i + 1) == Traffic(w, k, a, i) + [Exchange(a.servers[i], a.name, a.qtype, reply)];
    Associative(before, Traffic(w, k, a, i), [Exchange(a.servers[i], a.name, a.qtype, reply)]);
  }

  /** No two servers can be the first to reply or the one before whom the context is cancelled. */
  lemma OneStop(w: World, k: nat, p: nat, a: Ask, i: nat, j: nat)
    requires RepliesFirst(w, k, p, a, i) || CutOff(w, k, p, a, i)
    requires RepliesFirst(w, k, p, a, j) || CutOff(w, k, p, a, j) || (j == |a.servers| && InVain(w, k, p, a, j))
    ensures i == j
  {
  }

  /** Either some server is the first to reply, or the context is cancelled before, or all are asked in vain. */
  lemma {:induction false} SomeStop(w: World, k: nat, p: nat, a: Ask, n: nat) returns (i: nat)
    requires n <= |a.servers|
    ensures i <= n && InVain(w, k, p, a, i)
    ensures i < n ==> RepliesFirst(w, k, p, a, i) || CutOff(w, k, p, a, i)
  {
    if n == 0 {
      i := 0;
    } else {
      i := SomeStop(w, k, p, a, n - 1);
      if i == n - 1 && !Done(w, p, i) && Answer(w, k, a, i).None? {
        i := n;
      }
    }
  }

  /** Under a context that stays live, some server is the first to reply exactly if any of them would. */
  lemma LiveContext(w: World, k: nat, p: nat, a: Ask)
    requires forall i :: 0 <= i < |a.servers| ==> !Done(w, p, i)
    ensures (exists i :: RepliesFirst(w, k, p, a, i)) <==> exists i :: 0 <= i < |a.servers| && Answer(w, k, a, i).Some?
  {
    var i := SomeStop(w, k, p, a, |a.servers|);
    assert i < |a.servers| ==> RepliesFirst(w, k, p, a, i);
  }
}
