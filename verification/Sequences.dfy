/** Order-preserving selection from a sequence, and the algebra the other modules need. */
module Sequences {

  datatype Option<+T> = None | Some(value: T)

  /** The elements of s that satisfy p, in their original order. */
  function Filter<T>(s: seq<T>, p: T -> bool): seq<T> {
    if s == [] then []
    else
      var front := Filter(s[..|s| - 1], p);
      if p(s[|s| - 1]) then front + [s[|s| - 1]] else front
  }

  lemma {:induction false} FilterAppend<T>(a: seq<T>, b: seq<T>, p: T -> bool)
    ensures Filter(a + b, p) == Filter(a, p) + Filter(b, p)
  {
    if b == [] {
      assert a + b == a;
    } else {
      var c := b[..|b| - 1];
      assert (a + b)[..|a + b| - 1] == a + c;
      FilterAppend(a, c, p);
    }
  }

  lemma {:induction false} FilterMember<T>(s: seq<T>, p: T -> bool, x: T)
    ensures x in Filter(s, p) <==> x in s && p(x)
  {
    if s == [] {
    } else {
      var front := s[..|s| - 1];
      assert s == front + [s[|s| - 1]];
      FilterMember(front, p, x);
    }
  }

  lemma FilterMembers<T>(s: seq<T>, p: T -> bool)
    ensures forall x :: x in Filter(s, p) <==> x in s && p(x)
  {
    forall x
      ensures x in Filter(s, p) <==> x in s && p(x)
    {
      FilterMember(s, p, x);
    }
  }

  lemma FilterEmpty<T>(s: seq<T>, p: T -> bool)
    ensures Filter(s, p) == [] <==> forall x :: x in s ==> !p(x)
  {
    FilterMembers(s, p);
    if Filter(s, p) != [] {
      assert Filter(s, p)[0] in Filter(s, p);
    }
  }

  lemma {:induction false} FilterExt<T>(s: seq<T>, p: T -> bool, q: T -> bool)
    requires forall x :: x in s ==> p(x) == q(x)
    ensures Filter(s, p) == Filter(s, q)
  {
    if s == [] {
    } else {
      FilterExt(s[..|s| - 1], p, q);
    }
  }

  lemma {:induction false} FilterAll<T>(s: seq<T>, p: T -> bool)
    requires forall x :: x in s ==> p(x)
    ensures Filter(s, p) == s
  {
    if s == [] {
    } else {
      FilterAll(s[..|s| - 1], p);
      assert s == s[..|s| - 1] + [s[|s| - 1]];
    }
  }

  /** Selecting twice is selecting once by the conjunction. */
  lemma {:induction false} FilterTwice<T>(s: seq<T>, p: T -> bool, q: T -> bool, r: T -> bool)
    requires forall x :: x in s ==> (r(x) <==> p(x) && q(x))
    ensures Filter(Filter(s, p), q) == Filter(s, r)
  {
    if s == [] {
    } else {
      FilterTwice(s[..|s| - 1], p, q, r);
    }
  }

  /** Selecting by either of two exclusive conditions selects both parts. */
  lemma {:induction false} FilterDisjoint<T>(s: seq<T>, p: T -> bool, q: T -> bool, either: T -> bool)
    requires forall x :: x in s ==> (either(x) <==> p(x) || q(x)) && !(p(x) && q(x))
    ensures multiset(Filter(s, p)) + multiset(Filter(s, q)) == multiset(Filter(s, either))
  {
    if s == [] {
    } else {
      FilterDisjoint(s[..|s| - 1], p, q, either);
    }
  }

  lemma SameParts<T>(fa: multiset<T>, na: multiset<T>, fb: multiset<T>, nb: multiset<T>)
    requires fa + na == fb + nb
    requires fa !! nb && fb !! na
    ensures fa == fb
  {
    forall x | x in fa
      ensures fa[x] <= fb[x]
    {
      assert (fa + na)[x] == (fb + nb)[x];
    }
    forall x | x in fb
      ensures fb[x] <= fa[x]
    {
      assert (fa + na)[x] == (fb + nb)[x];
    }
    assert fa <= fb && fb <= fa;
  }

  lemma PartsDisjoint<T>(a: seq<T>, b: seq<T>, p: T -> bool, others: T -> bool)
    requires forall x :: others(x) <==> !p(x)
    ensures multiset(Filter(a, p)) !! multiset(Filter(b, others))
  {
    FilterMembers(a, p);
    FilterMembers(b, others);
    forall x | x in multiset(Filter(a, p))
      ensures x !in multiset(Filter(b, others))
    {
      assert x in Filter(a, p);
    }
  }

  /** Permuting a sequence permutes every selection from it. */
  lemma FilterPermutation<T>(a: seq<T>, b: seq<T>, p: T -> bool)
    requires multiset(a) == multiset(b)
    ensures multiset(Filter(a, p)) == multiset(Filter(b, p))
  {
    var others, all := (x: T) => !p(x), (x: T) => true;
    FilterDisjoint(a, p, others, all);
    FilterDisjoint(b, p, others, all);
    FilterAll(a, all);
    FilterAll(b, all);
    PartsDisjoint(a, b, p, others);
    PartsDisjoint(b, a, p, others);
    SameParts(multiset(Filter(a, p)), multiset(Filter(a, others)), multiset(Filter(b, p)), multiset(Filter(b, others)));
  }

  lemma {:induction false} FilterSplitLength<T>(s: seq<T>, p: T -> bool, q: T -> bool)
    requires forall x :: x in s ==> (q(x) <==> !p(x))
    ensures |Filter(s, p)| + |Filter(s, q)| == |s|
  {
    if s == [] {
    } else {
      FilterSplitLength(s[..|s| - 1], p, q);
    }
  }

  /** One more element of the input: what a scan adds in one iteration. */
  lemma FilterStep<T>(s: seq<T>, i: nat, p: T -> bool)
    requires i < |s|
    ensures Filter(s[..i + 1], p) == if p(s[i]) then Filter(s[..i], p) + [s[i]] else Filter(s[..i], p)
  {
    assert s[..i + 1][..i] == s[..i];
  }

  lemma Associative<T>(a: seq<T>, b: seq<T>, c: seq<T>)
    ensures a + b + c == a + (b + c)
  {
  }

  lemma SameElements<T>(a: seq<T>, b: seq<T>)
    requires multiset(a) == multiset(b)
    ensures forall x :: x in a <==> x in b
  {
    forall x
      ensures x in a <==> x in b
    {
      assert x in a <==> x in multiset(a);
      assert x in b <==> x in multiset(b);
    }
  }
}
