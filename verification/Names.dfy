/**
  Domain names as label sequences with their spelling, and the three operations of the
  DNS library the resolver uses on them: Fqdn, EqualFold and IsSubDomain.

  Empty stands for the empty string, which the resolver uses as "no name" and which a record
  with no RDATA carries as its CNAME target or NS host.
  */
module Names {

  type Label = string

  datatype Name = Empty | Fq(labels: seq<Label>)

  const ROOT: Name := Fq([])

  function FoldChar(c: char): char {
    if 'A' <= c <= 'Z' then (c as int + 32) as char else c
  }

  function FoldLabel(l: Label): Label {
    seq(|l|, i requires 0 <= i < |l| => FoldChar(l[i]))
  }

  function FoldLabels(ls: seq<Label>): seq<Label> {
    seq(|ls|, i requires 0 <= i < |ls| => FoldLabel(ls[i]))
  }

  function Fold(n: Name): Name {
    if n.Empty? then Empty else Fq(FoldLabels(n.labels))
  }

  /** Names differ at most in the case of their letters. */
  predicate EqualFold(a: Name, b: Name) {
    Fold(a) == Fold(b)
  }

  function Fqdn(n: Name): Name {
    if n.Empty? then ROOT else n
  }

  function LabelCount(n: Name): nat {
    if n.Empty? then 0 else |n.labels|
  }

  /** child is at or below parent. Everything, even the empty string, is below the root. */
  predicate IsSubDomain(parent: Name, child: Name) {
    if parent.Empty? then child.Empty?
    else
      var n := |parent.labels|;
      || n == 0
      || (child.Fq? && n <= |child.labels|
          && FoldLabels(child.labels[|child.labels| - n..]) == FoldLabels(parent.labels))
  }

  predicate FoldIn(n: Name, names: seq<Name>) {
    exists i :: 0 <= i < |names| && EqualFold(names[i], n)
  }

  lemma FoldSuffix(ls: seq<Label>, k: nat)
    requires k <= |ls|
    ensures FoldLabels(ls[k..]) == FoldLabels(ls)[k..]
  {
  }

  lemma SubDomainReflexive(n: Name)
    ensures IsSubDomain(n, n)
  {
    if n.Fq? {
      assert n.labels[0..] == n.labels;
    }
  }

  /** The bailiwick test only sees names up to case. */
  lemma SubDomainFolds(p: Name, p': Name, c: Name, c': Name)
    requires EqualFold(p, p') && EqualFold(c, c')
    ensures IsSubDomain(p, c) <==> IsSubDomain(p', c')
  {
    if p.Fq? {
      assert |FoldLabels(p.labels)| == |FoldLabels(p'.labels)|;
      if c.Fq? {
        assert |FoldLabels(c.labels)| == |FoldLabels(c'.labels)|;
        var n := |p.labels|;
        if n <= |c.labels| {
          FoldSuffix(c.labels, |c.labels| - n);
          FoldSuffix(c'.labels, |c.labels| - n);
        }
      }
    }
  }

  lemma SubDomainTransitive(a: Name, b: Name, c: Name)
    requires IsSubDomain(a, b) && IsSubDomain(b, c)
    ensures IsSubDomain(a, c)
  {
    if a.Fq? && |a.labels| > 0 {
      var n, m, k := |a.labels|, |b.labels|, |c.labels|;
      FoldSuffix(b.labels, m - n);
      FoldSuffix(c.labels, k - m);
      FoldSuffix(c.labels, k - n);
      assert FoldLabels(c.labels)[k - n..] == FoldLabels(c.labels)[k - m..][m - n..];
    }
  }

  /** A zone strictly below another has strictly more labels: what makes a referral progress. */
  lemma SubDomainStrict(parent: Name, child: Name)
    requires parent.Fq? && child.Fq?
    requires IsSubDomain(parent, child)
    ensures LabelCount(parent) <= LabelCount(child)
    ensures LabelCount(parent) == LabelCount(child) <==> EqualFold(parent, child)
  {
    if |parent.labels| == |child.labels| {
      assert child.labels[0..] == child.labels;
      assert |parent.labels| == 0 ==> parent.labels == child.labels;
    } else {
      assert |FoldLabels(parent.labels)| != |FoldLabels(child.labels)|;
    }
  }
}
