/**
  The record of a whole request: one resolution from the root for the queried name, and one more for
  every CNAME that led out of what the previous one could vouch for.
  */
module Run {
  import opened Sequences
  import opened Names
  import opened Records
  import opened Bailiwick
  import opened Writes
  import opened Helper
  import opened Walk
  import opened WalkProofs
  import opened Chase
  import opened Reach

  datatype Response = Response(rcode: nat, answer: seq<RR>, ns: seq<RR>)

  type Handled = Outcome<Response, Error>

  /** The answers of all resolutions so far, one after another. */
  function Joined(walks: seq<Walk>): seq<RR> {
    if walks == [] then []
    else
      var last := walks[|walks| - 1].result;
      Joined(walks[..|walks| - 1]) + if last.Ok? then last.value.answer else []
  }

  /** w ended in a CNAME that says to start again at target. */
  ghost predicate Restarts(w: Walk, target: Name) {
    && w.result.Ok? && w.result.value.rcode == RCODE_SUCCESS && w.result.value.answer != []
    && Dangles(w.result.value.answer, w.question.qtype, w.question.name, target)
  }

  /** w is the next resolution after before: same type, at depth 0, on what is left of the one budget. */
  ghost predicate StartsAfter(name: Name, qtype: U16, before: seq<Walk>, w: Walk) {
    && w.question.qtype == qtype && w.question.depth == 0
    && w.budget == MAX_TOTAL_LOOKUPS - |WalkCalls(before)|
    && if before == [] then w.question.name == name else Restarts(before[|before| - 1], w.question.name)
  }

  ghost predicate Restarted(name: Name, qtype: U16, walks: seq<Walk>) {
    forall i {:trigger StartsAfter(name, qtype, walks[..i], walks[i])} :: 0 <= i < |walks| ==>
      StartsAfter(name, qtype, walks[..i], walks[i])
  }

  /** What a request returns whose last resolution was w. */
  ghost predicate Concludes(name: Name, qtype: U16, walks: seq<Walk>, w: Walk, outcome: Handled) {
    match w.result
    case Err(e) => outcome == Err(e)
    case Ok(r) =>
      if r.rcode != RCODE_SUCCESS || r.answer == [] then outcome == Ok(Response(r.rcode, Joined(walks), r.ns))
      else if forall t :: !Dangles(r.answer, qtype, w.question.name, t) then
        outcome == Ok(Response(RCODE_SUCCESS, Joined(walks), []))
      else |walks| == MAX_CNAME_RESTARTS && outcome == Err(RestartsExceeded(name, qtype))
  }

  /** The resolutions of one request, and its outcome. */
  ghost predicate ValidRun(name: Name, qtype: U16, walks: seq<Walk>, roots: seq<NameServer>, outcome: Handled) {
    && 0 < |walks| <= MAX_CNAME_RESTARTS
    && Restarted(name, qtype, walks) && ValidWalks(walks, roots)
    && Concludes(name, qtype, walks, walks[|walks| - 1], outcome)
  }

  lemma RestartedMore(name: Name, qtype: U16, walks: seq<Walk>, w: Walk)
    requires Restarted(name, qtype, walks) && StartsAfter(name, qtype, walks, w)
    ensures Restarted(name, qtype, walks + [w])
  {
    var more := walks + [w];
    forall i | 0 <= i < |more|
      ensures StartsAfter(name, qtype, more[..i], more[i])
    {
      if i < |walks| {
        assert more[..i] == walks[..i];
        assert StartsAfter(name, qtype, walks[..i], walks[i]);
      } else {
        assert more[..i] == walks;
      }
    }
  }

  lemma JoinedMore(walks: seq<Walk>, w: Walk)
    ensures Joined(walks + [w]) == Joined(walks) + if w.result.Ok? then w.result.value.answer else []
  {
    assert (walks + [w])[..|walks|] == walks;
  }

  /** One more resolution of the request, after calls made before it. */
  lemma OneMore(name: Name, qtype: U16, walks: seq<Walk>, w: Walk, roots: seq<NameServer>, calls: seq<Call>)
    requires Restarted(name, qtype, walks) && ValidWalks(walks, roots)
    requires StartsAfter(name, qtype, walks, w) && ValidWalk(w, roots)
    ensures Restarted(name, qtype, walks + [w]) && ValidWalks(walks + [w], roots)
    ensures Joined(walks + [w]) == Joined(walks) + if w.result.Ok? then w.result.value.answer else []
    ensures calls + WalkCalls(walks) + Calls(w) == calls + WalkCalls(walks + [w])
    ensures |WalkCalls(walks + [w])| == |WalkCalls(walks)| + |Calls(w)|
  {
    RestartedMore(name, qtype, walks, w);
    WalksMore(walks, w, roots);
    JoinedMore(walks, w);
    Associative(calls, WalkCalls(walks), Calls(w));
  }

  // ---- The budget of a request ----

  lemma RestartedPrefix(name: Name, qtype: U16, walks: seq<Walk>, roots: seq<NameServer>, n: nat)
    requires Restarted(name, qtype, walks) && ValidWalks(walks, roots) && n <= |walks|
    ensures Restarted(name, qtype, walks[..n]) && ValidWalks(walks[..n], roots)
  {
    forall i | 0 <= i < n
      ensures StartsAfter(name, qtype, walks[..n][..i], walks[..n][i]) && ValidWalk(walks[..n][i], roots)
    {
      assert walks[..n][..i] == walks[..i];
      assert StartsAfter(name, qtype, walks[..i], walks[i]) && ValidWalk(walks[i], roots);
    }
  }

  lemma {:induction false} WalksWithinBudget(name: Name, qtype: U16, walks: seq<Walk>, roots: seq<NameServer>)
    requires Restarted(name, qtype, walks) && ValidWalks(walks, roots)
    ensures |WalkCalls(walks)| <= 100
  {
    if walks == [] {
    } else {
      var n := |walks| - 1;
      RestartedPrefix(name, qtype, walks, roots, n);
      WalksWithinBudget(name, qtype, walks[..n], roots);
      assert StartsAfter(name, qtype, walks[..n], walks[n]);
      assert ValidWalk(walks[n], roots);
      WalkWithinBudget(walks[n], roots);
    }
  }

  /** No request makes more than a hundred lookups, however its resolutions nest, fail and restart. */
  lemma RunWithinBudget(name: Name, qtype: U16, walks: seq<Walk>, roots: seq<NameServer>, outcome: Handled)
    requires ValidRun(name, qtype, walks, roots, outcome)
    ensures |WalkCalls(walks)| <= 100
  {
    WalksWithinBudget(name, qtype, walks, roots);
  }

  // ---- The answer of a request hangs together ----

  /** A lookup of anything but NS records returns an answer connected to its name. */
  lemma LookupConnected(c: Call)
    requires Trustworthy(c) && c.qtype != TYPE_NS && c.outcome.Ok?
    ensures Connected(c.outcome.value.answer, Fqdn(c.name))
  {
    match c.via
    case PositiveHit(src) =>
      LegitPutConnected(src, Put(CacheKey(Fqdn(c.name), c.qtype, CLASS_INET), c.outcome.value.answer));
    case NegativeHit(_) =>
    case Replied(_, reply) =>
      FilteredAnswerConnected(Fqdn(c.zone), Fqdn(c.name), reply.answer);
    case Failed =>
  }

  /** A resolution that succeeds returns the outcome of its last lookup. */
  lemma ResultIsLast(w: Walk, roots: seq<NameServer>)
    requires ValidWalk(w, roots) && w.result.Ok?
    ensures w.hops != [] && w.result == w.hops[|w.hops| - 1].call.outcome
    ensures w.hops[|w.hops| - 1].call.name == w.question.name && w.hops[|w.hops| - 1].call.qtype == w.question.qtype
  {
    AsksAt(w, roots, |w.hops| - 1);
  }

  lemma WalkConnected(w: Walk, roots: seq<NameServer>)
    requires ValidWalk(w, roots) && AllTrustworthy(Calls(w)) && w.result.Ok? && w.question.qtype != TYPE_NS
    ensures Connected(w.result.value.answer, Fqdn(w.question.name))
  {
    ResultIsLast(w, roots);
    HopTrusted(w, |w.hops| - 1);
    LookupConnected(w.hops[|w.hops| - 1].call);
  }

  /** The answers joined before a resolution lead to the name it starts at. */
  ghost predicate Leads(name: Name, front: seq<RR>, next: Name) {
    next.Fq? && if front == [] then next == name else Reaches(front, name, next)
  }

  lemma TrustedParts(walks: seq<Walk>)
    requires walks != [] && AllTrustworthy(WalkCalls(walks))
    ensures AllTrustworthy(Calls(walks[|walks| - 1]))
    ensures AllTrustworthy(WalkCalls(walks[..|walks| - 1]))
  {
    WalkCallsContain(walks, |walks| - 1);
  }

  lemma JoinedLast(name: Name, front: seq<Walk>, w: Walk)
    requires Connected(Joined(front), name) && Leads(name, Joined(front), w.question.name)
    requires w.result.Ok? ==> Connected(w.result.value.answer, w.question.name)
    ensures Connected(Joined(front + [w]), name)
  {
    JoinedMore(front, w);
    if w.result.Ok? {
      ConnectedAppend(Joined(front), w.result.value.answer, name, w.question.name);
    } else {
      assert Joined(front) + [] == Joined(front);
    }
  }

  /** The target of a restart is reached by the answers joined up to it. */
  lemma {:induction false} RestartReached(name: Name, walks: seq<Walk>, target: Name)
    requires walks != [] && Restarts(walks[|walks| - 1], target)
    requires Leads(name, Joined(walks[..|walks| - 1]), walks[|walks| - 1].question.name)
    ensures Joined(walks) != [] && Leads(name, Joined(walks), target)
  {
    var front, w := walks[..|walks| - 1], walks[|walks| - 1];
    var answer := w.result.value.answer;
    assert walks == front + [w];
    JoinedMore(front, w);
    DanglesReachable(answer, w.question.qtype, w.question.name, target);
    ReachesMore(answer, Joined(walks), w.question.name, target);
    if Joined(front) == [] {
      ReachesSelf(Joined(walks), name, w.question.name);
    } else {
      ReachesMore(Joined(front), Joined(walks), name, w.question.name);
    }
    ReachesTransitive(Joined(walks), name, w.question.name, target);
  }

  // ---- Cached delegations ----

  /** The call was answered by the NS entry that a referral left behind. */
  ghost predicate CachedDelegation(c: Call) {
    && c.via.PositiveHit? && c.outcome.Ok? && c.qtype == TYPE_NS
    && Put(CacheKey(Fqdn(c.name), TYPE_NS, CLASS_INET), c.outcome.value.answer) in NsWrites(c.via.src)
  }

  /** Other than from a cached delegation, answers to NS questions are connected too. */
  lemma NsLookupConnected(c: Call)
    requires Trustworthy(c) && c.qtype == TYPE_NS && c.outcome.Ok?
    ensures var name, answer := Fqdn(c.name), c.outcome.value.answer;
      if CachedDelegation(c) then
        Connected(answer, name) <==> forall r :: r in answer && r.data.SOA? ==> EqualFold(name, r.owner)
      else Connected(answer, name)
  {
    var name, answer := Fqdn(c.name), c.outcome.value.answer;
    match c.via
    case PositiveHit(src) =>
      var w := Put(CacheKey(name, TYPE_NS, CLASS_INET), answer);
      if w in NsWrites(src) {
        NsPutConnected(src, w);
      } else if w in AnswerWrites(src) {
        FilteredAnswerConnected(src.zone, src.name, src.reply.answer);
      } else {
        forall r | r in answer
          ensures Reaches(answer, name, r.owner)
        {
          FilterMember(SourceExtra(src), InGroup(NameType(name, TYPE_NS)), r);
          ReachesSelf(answer, name, r.owner);
        }
      }
    case NegativeHit(_) =>
    case Replied(_, reply) =>
      FilteredAnswerConnected(Fqdn(c.zone), name, reply.answer);
    case Failed =>
  }

  /** A cached delegation consists of NS records of the name asked for, and of SOAs. */
  lemma DelegationRecords(c: Call)
    requires Trustworthy(c) && CachedDelegation(c)
    ensures forall r :: r in c.outcome.value.answer ==> r.data.SOA? || (r.data.NS? && EqualFold(Fqdn(c.name), r.owner))
  {
    var src := c.via.src;
    FilterMembers(src.reply.ns, KeptNs(src.zone, src.name, SourceCut(src)));
  }

  lemma RestartNotDelegation(c: Call, name: Name, target: Name)
    requires Trustworthy(c) && c.outcome.Ok? && Dangles(c.outcome.value.answer, c.qtype, name, target)
    ensures !CachedDelegation(c)
  {
    if forall r :: r in c.outcome.value.answer ==> !r.data.CNAME? {
      NoCNAMENoRestart(c.outcome.value.answer, c.qtype, name, target);
    }
    if CachedDelegation(c) {
      DelegationRecords(c);
    }
  }

  /** The answer of a resolution that restarts is connected, whatever the question. */
  lemma RestartConnected(w: Walk, roots: seq<NameServer>, target: Name)
    requires ValidWalk(w, roots) && AllTrustworthy(Calls(w)) && Restarts(w, target)
    ensures Connected(w.result.value.answer, Fqdn(w.question.name))
  {
    if w.question.qtype != TYPE_NS {
      WalkConnected(w, roots);
    } else {
      ResultIsLast(w, roots);
      HopTrusted(w, |w.hops| - 1);
      RestartNotDelegation(w.hops[|w.hops| - 1].call, w.question.name, target);
      NsLookupConnected(w.hops[|w.hops| - 1].call);
    }
  }

  /** Before the last resolution all restarted, so their answers are connected and lead to its name. */
  lemma {:induction false} FrontConnected(name: Name, qtype: U16, walks: seq<Walk>, roots: seq<NameServer>)
    requires name.Fq? && walks != []
    requires Restarted(name, qtype, walks) && ValidWalks(walks, roots) && AllTrustworthy(WalkCalls(walks))
    ensures Connected(Joined(walks[..|walks| - 1]), name)
    ensures Leads(name, Joined(walks[..|walks| - 1]), walks[|walks| - 1].question.name)
  {
    var n := |walks| - 1;
    var front := walks[..n];
    assert StartsAfter(name, qtype, front, walks[n]);
    if front == [] {
    } else {
      var last := front[n - 1];
      TrustedParts(walks);
      RestartedPrefix(name, qtype, walks, roots, n);
      FrontConnected(name, qtype, front, roots);
      TrustedParts(front);
      assert ValidWalk(last, roots);
      RestartConnected(last, roots, walks[n].question.name);
      JoinedLast(name, front[..n - 1], last);
      assert front == front[..n - 1] + [last];
      RestartReached(name, front, walks[n].question.name);
    }
  }

  // ---- Whole responses ----

  /** A response joins what led to the last resolution's name and that resolution's own answer. */
  lemma ResponseParts(name: Name, qtype: U16, walks: seq<Walk>, roots: seq<NameServer>, outcome: Handled)
    requires ValidRun(name, qtype, walks, roots, outcome) && AllTrustworthy(WalkCalls(walks))
    requires name.Fq? && outcome.Ok?
    ensures var front, w := Joined(walks[..|walks| - 1]), walks[|walks| - 1];
      && Connected(front, name) && Leads(name, front, w.question.name)
      && w.question.qtype == qtype && ValidWalk(w, roots) && AllTrustworthy(Calls(w))
      && w.result.Ok? && outcome.value.answer == front + w.result.value.answer
  {
    var n := |walks| - 1;
    FrontConnected(name, qtype, walks, roots);
    TrustedParts(walks);
    assert StartsAfter(name, qtype, walks[..n], walks[n]) && ValidWalk(walks[n], roots);
  }

  /**
    For every question but NS, whatever the servers send and the cache holds, each record of a response's
    answer is owned by a name that the response's own CNAMEs lead to from the queried name.
    */
  lemma ResponseConnected(name: Name, qtype: U16, walks: seq<Walk>, roots: seq<NameServer>, outcome: Handled)
    requires ValidRun(name, qtype, walks, roots, outcome) && AllTrustworthy(WalkCalls(walks))
    requires name.Fq? && qtype != TYPE_NS && outcome.Ok?
    ensures Connected(outcome.value.answer, name)
  {
    var front, w := Joined(walks[..|walks| - 1]), walks[|walks| - 1];
    ResponseParts(name, qtype, walks, roots, outcome);
    WalkConnected(w, roots);
    ConnectedAppend(front, w.result.value.answer, name, w.question.name);
  }

  /** The owners of all SOAs among rrs are names that the CNAMEs of ans lead to. */
  ghost predicate SOAsReached(rrs: seq<RR>, ans: seq<RR>, name: Name) {
    forall r :: r in rrs && r.data.SOA? ==> Reaches(ans, name, r.owner)
  }

  lemma DelegationAppended(front: seq<RR>, answer: seq<RR>, name: Name, n: Name)
    requires Connected(front, name) && Leads(name, front, n)
    requires forall r :: r in answer ==> r.data.SOA? || EqualFold(n, r.owner)
    ensures Connected(front + answer, name) <==> SOAsReached(answer, front + answer, name)
  {
    var all := front + answer;
    if front == [] {
      ReachesSelf(all, name, n);
    } else {
      ReachesMore(front, all, name, n);
    }
    forall r | r in front
      ensures Reaches(all, name, r.owner)
    {
      ReachesMore(front, all, name, r.owner);
    }
    forall r | r in answer && EqualFold(n, r.owner)
      ensures Reaches(all, name, r.owner)
    {
      ReachesSelf(all, n, r.owner);
      ReachesTransitive(all, name, n, r.owner);
    }
  }

  /** The last lookup of a resolution. */
  ghost function LastCall(w: Walk): Call
    requires w.hops != []
  {
    w.hops[|w.hops| - 1].call
  }

  lemma LastAppended(front: seq<RR>, name: Name, w: Walk, roots: seq<NameServer>)
    requires Connected(front, name) && Leads(name, front, w.question.name)
    requires ValidWalk(w, roots) && AllTrustworthy(Calls(w)) && w.result.Ok? && w.question.qtype == TYPE_NS
    ensures w.hops != [] && w.result == LastCall(w).outcome
    ensures var all := front + w.result.value.answer;
      if CachedDelegation(LastCall(w)) then Connected(all, name) <==> SOAsReached(w.result.value.answer, all, name)
      else Connected(all, name)
  {
    ResultIsLast(w, roots);
    HopTrusted(w, |w.hops| - 1);
    var c := LastCall(w);
    if CachedDelegation(c) {
      DelegationRecords(c);
      DelegationAppended(front, w.result.value.answer, name, w.question.name);
    } else {
      NsLookupConnected(c);
      ConnectedAppend(front, w.result.value.answer, name, w.question.name);
    }
  }

  /** Exactly when the answer to a request for NS records is connected, whose last resolution was w. */
  ghost predicate NsConnected(name: Name, w: Walk, answer: seq<RR>) {
    && w.hops != [] && LastCall(w).outcome.Ok?
    && if CachedDelegation(LastCall(w)) then
         Connected(answer, name) <==> SOAsReached(LastCall(w).outcome.value.answer, answer, name)
       else Connected(answer, name)
  }

  /**
    For NS questions too, unless the last lookup was answered by a cached delegation; then exactly if
    the owners of the SOAs that came with the delegation are reached as well.
    */
  lemma NsResponseConnected(name: Name, walks: seq<Walk>, roots: seq<NameServer>, outcome: Handled)
    requires ValidRun(name, TYPE_NS, walks, roots, outcome) && AllTrustworthy(WalkCalls(walks))
    requires name.Fq? && outcome.Ok?
    ensures NsConnected(name, walks[|walks| - 1], outcome.value.answer)
  {
    ResponseParts(name, TYPE_NS, walks, roots, outcome);
    LastAppended(Joined(walks[..|walks| - 1]), name, walks[|walks| - 1], roots);
  }

  // ---- What a response says ----

  ghost predicate PartAt(w: Walk, answer: seq<RR>, from: nat, to: nat) {
    && from <= to <= |answer| && w.hops != [] && w.hops[|w.hops| - 1].call.outcome.Ok?
    && answer[from..to] == w.hops[|w.hops| - 1].call.outcome.value.answer
  }

  /** The answer consists of the answers of the resolutions' last lookups, from one of the places at to the next. */
  ghost predicate InPlaces(walks: seq<Walk>, answer: seq<RR>, at: seq<nat>) {
    && |at| == |walks| + 1 && at[0] == 0 && at[|walks|] == |answer|
    && forall i :: 0 <= i < |walks| ==> PartAt(walks[i], answer, at[i], at[i + 1])
  }

  lemma PlacesMore(walks: seq<Walk>, answer: seq<RR>, at: seq<nat>, w: Walk)
    requires InPlaces(walks, answer, at) && w.hops != [] && LastCall(w).outcome.Ok?
    ensures var more := answer + LastCall(w).outcome.value.answer;
      InPlaces(walks + [w], more, at + [|more|])
  {
    var more := answer + LastCall(w).outcome.value.answer;
    var ws, at' := walks + [w], at + [|more|];
    forall i | 0 <= i < |ws|
      ensures PartAt(ws[i], more, at'[i], at'[i + 1])
    {
      if i < |walks| {
        assert PartAt(walks[i], answer, at[i], at[i + 1]);
        assert more[at[i]..at[i + 1]] == answer[at[i]..at[i + 1]];
      } else {
        assert more[|answer|..|more|] == LastCall(w).outcome.value.answer;
      }
    }
  }

  lemma {:induction false} JoinedPlaces(walks: seq<Walk>, roots: seq<NameServer>) returns (at: seq<nat>)
    requires ValidWalks(walks, roots) && forall i :: 0 <= i < |walks| ==> walks[i].result.Ok?
    ensures InPlaces(walks, Joined(walks), at)
  {
    if walks == [] {
      at := [0];
    } else {
      var n := |walks| - 1;
      var front := walks[..n];
      forall i | 0 <= i < n
        ensures ValidWalk(front[i], roots)
      {
        assert ValidWalk(walks[i], roots);
      }
      at := JoinedPlaces(front, roots);
      assert ValidWalk(walks[n], roots);
      ResultIsLast(walks[n], roots);
      PlacesMore(front, Joined(front), at, walks[n]);
      assert walks == front + [walks[n]];
      at := at + [|Joined(walks)|];
    }
  }

  /** All resolutions of a request but the last succeeded with an answer that says where to go on. */
  lemma AllButLastRestart(name: Name, qtype: U16, walks: seq<Walk>, roots: seq<NameServer>, outcome: Handled, i: nat)
    requires ValidRun(name, qtype, walks, roots, outcome) && i < |walks|
    ensures walks[i].question == Question(walks[i].question.name, qtype, 0) && ValidWalk(walks[i], roots)
    ensures i == 0 ==> walks[i].question.name == name && walks[i].budget == 100
    ensures i > 0 ==>
      && walks[i - 1].result.Ok? && walks[i - 1].result.value.rcode == 0 && walks[i - 1].result.value.answer != []
      && Dangles(walks[i - 1].result.value.answer, qtype, walks[i - 1].question.name, walks[i].question.name)
  {
    assert StartsAfter(name, qtype, walks[..i], walks[i]);
    assert ValidWalk(walks[i], roots);
    if i > 0 {
      assert walks[..i][i - 1] == walks[i - 1];
      assert StartsAfter(name, qtype, walks[..i - 1], walks[i - 1]);
    }
  }

  /**
    A response has the RCode of the request's last lookup. It has that lookup's authority section if the RCode
    is not 0 or there is no answer, and else none. Its answer is the concatenation of the answers of the last
    lookups of all resolutions.
    */
  lemma ResponseExact(name: Name, qtype: U16, walks: seq<Walk>, roots: seq<NameServer>, outcome: Handled)
    returns (at: seq<nat>)
    requires ValidRun(name, qtype, walks, roots, outcome) && outcome.Ok?
    ensures walks[|walks| - 1].hops != [] && LastCall(walks[|walks| - 1]).outcome.Ok?
    ensures var last := LastCall(walks[|walks| - 1]).outcome.value;
      && outcome.value.rcode == last.rcode
      && outcome.value.ns == (if last.rcode != 0 || last.answer == [] then last.ns else [])
    ensures InPlaces(walks, outcome.value.answer, at)
  {
    var n := |walks| - 1;
    forall i | 0 <= i <= n
      ensures walks[i].result.Ok?
    {
      AllButLastRestart(name, qtype, walks, roots, outcome, if i < n then i + 1 else i);
    }
    assert ValidWalk(walks[n], roots);
    ResultIsLast(walks[n], roots);
    at := JoinedPlaces(walks, roots);
  }

  /**
    A request fails with the error of its last resolution, or, after eight resolutions, because the last one's answer
    still leads elsewhere; and in no other case.
    */
  lemma FailureExact(name: Name, qtype: U16, walks: seq<Walk>, roots: seq<NameServer>, outcome: Handled)
    requires ValidRun(name, qtype, walks, roots, outcome)
    ensures var w := walks[|walks| - 1];
      && |walks| <= 8
      && (w.result.Err? ==> outcome == Err(w.result.error))
      && (w.result.Ok? ==>
            var r := w.result.value;
            if r.rcode == 0 && r.answer != [] && exists t :: Dangles(r.answer, qtype, w.question.name, t) then
              |walks| == 8 && outcome == Err(RestartsExceeded(name, qtype))
            else outcome.Ok?)
  {
  }

  /** A request runs out of budget only after exactly a hundred lookups. */
  lemma BudgetSpent(name: Name, qtype: U16, walks: seq<Walk>, roots: seq<NameServer>, outcome: Handled)
    requires ValidRun(name, qtype, walks, roots, outcome)
    requires outcome == Err(BudgetExceeded(walks[|walks| - 1].question.name, qtype))
    requires AllTrustworthy(WalkCalls(walks))
    ensures |WalkCalls(walks)| == 100
  {
    var n := |walks| - 1;
    var w := walks[n];
    WalksWithinBudget(name, qtype, walks, roots);
    assert StartsAfter(name, qtype, walks[..n], w) && ValidWalk(w, roots);
    TrustedParts(walks);
    if w.hops != [] && !GivesUp(w) {
      HopTrusted(w, |w.hops| - 1);
    }
    assert WalkCalls(walks) == WalkCalls(walks[..n]) + Calls(w);
  }

  /** What a request reports: the response is that of its last lookup, and hangs together. */
  ghost predicate Reported(name: Name, qtype: U16, walks: seq<Walk>, response: Response) {
    && walks != [] && walks[|walks| - 1].hops != [] && LastCall(walks[|walks| - 1]).outcome.Ok?
    && var last := LastCall(walks[|walks| - 1]).outcome.value;
    && response.rcode == last.rcode
    && response.ns == (if last.rcode != 0 || last.answer == [] then last.ns else [])
    && (exists at :: InPlaces(walks, response.answer, at))
    && if qtype == TYPE_NS then NsConnected(name, walks[|walks| - 1], response.answer)
       else Connected(response.answer, name)
  }

  lemma ReportedExact(name: Name, qtype: U16, walks: seq<Walk>, roots: seq<NameServer>, outcome: Handled)
    requires ValidRun(name, qtype, walks, roots, outcome) && AllTrustworthy(WalkCalls(walks))
    requires name.Fq? && outcome.Ok?
    ensures Reported(name, qtype, walks, outcome.value)
  {
    var at := ResponseExact(name, qtype, walks, roots, outcome);
    if qtype == TYPE_NS {
      NsResponseConnected(name, walks, roots, outcome);
    } else {
      ResponseConnected(name, qtype, walks, roots, outcome);
    }
  }
}
