/** Which addresses a resolution finds in glue and in answers, record by record. */
module Addresses {
  import opened Sequences
  import opened Names
  import opened Records
  import opened Walk

  /** Some record of extra gives s its address. */
  ghost predicate GlueGives(extra: seq<RR>, s: NameServer) {
    && |s.addr| in {4, 16}
    && exists r :: r in extra && EqualFold(r.owner, s.name) && (r.data == A(s.addr) || r.data == AAAA(s.addr))
  }

  /** Some A record of the answer has this address. */
  ghost predicate AnswerGives(answer: seq<RR>, addr: Addr) {
    |addr| in {4, 16} && exists r :: r in answer && r.data == A(addr)
  }

  lemma GlueOfExact(name: Name, r: RR, s: NameServer)
    ensures s in GlueOf(name, r) <==>
      && s.name == name && EqualFold(r.owner, name) && |s.addr| in {4, 16}
      && (r.data == A(s.addr) || r.data == AAAA(s.addr))
    ensures |GlueOf(name, r)| <= 1
  {
  }

  lemma {:induction false} GlueForExact(name: Name, extra: seq<RR>, s: NameServer)
    ensures s in GlueFor(name, extra) <==> s.name == name && GlueGives(extra, s)
  {
    if extra == [] {
    } else {
      var front, last := extra[..|extra| - 1], extra[|extra| - 1];
      assert extra == front + [last];
      assert last in extra;
      GlueForExact(name, front, s);
      GlueOfExact(name, last, s);
    }
  }

  /** The glue gives exactly the usable addresses in its A and AAAA records that are owned by one of the names. */
  lemma {:induction false} AllGlueExact(names: seq<Name>, extra: seq<RR>, s: NameServer)
    ensures s in AllGlue(names, extra) <==> s.name in names && GlueGives(extra, s)
  {
    if names == [] {
    } else {
      var front, last := names[..|names| - 1], names[|names| - 1];
      assert names == front + [last];
      AllGlueExact(front, extra, s);
      GlueForExact(last, extra, s);
    }
  }

  /** An answer gives exactly the usable addresses in its A records. */
  lemma {:induction false} AnswerAddrsExact(name: Name, answer: seq<RR>, s: NameServer)
    ensures s in AnswerAddrs(name, answer) <==> s.name == name && AnswerGives(answer, s.addr)
  {
    if answer == [] {
    } else {
      var front, last := answer[..|answer| - 1], answer[|answer| - 1];
      assert answer == front + [last];
      assert last in answer;
      AnswerAddrsExact(name, front, s);
    }
  }

  /** One server for each usable record, in the order of the records, and name by name. */
  lemma {:induction false} AddressesInOrder(name: Name, a: seq<RR>, b: seq<RR>)
    ensures AnswerAddrs(name, a + b) == AnswerAddrs(name, a) + AnswerAddrs(name, b)
    ensures GlueFor(name, a + b) == GlueFor(name, a) + GlueFor(name, b)
  {
    if b == [] {
      assert a + b == a;
    } else {
      var c := b[..|b| - 1];
      assert (a + b)[..|a + b| - 1] == a + c;
      AddressesInOrder(name, a, c);
      var last := b[|b| - 1];
      Associative(GlueFor(name, a), GlueFor(name, c), GlueOf(name, last));
      Associative(AnswerAddrs(name, a), AnswerAddrs(name, c), AnswerAddrs(name, b)[|AnswerAddrs(name, c)|..]);
    }
  }

  lemma {:induction false} GlueInOrder(a: seq<Name>, b: seq<Name>, extra: seq<RR>)
    ensures AllGlue(a + b, extra) == AllGlue(a, extra) + AllGlue(b, extra)
  {
    if b == [] {
      assert a + b == a;
    } else {
      var c := b[..|b| - 1];
      assert (a + b)[..|a + b| - 1] == a + c;
      GlueInOrder(a, c, extra);
      Associative(AllGlue(a, extra), AllGlue(c, extra), GlueFor(b[|b| - 1], extra));
    }
  }
}
