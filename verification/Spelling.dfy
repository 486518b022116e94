/** What the comparisons of names identify, character by character. */
module Spelling {
  import opened Names

  /** An ASCII letter and its other case have codes 32 apart. */
  predicate UpperOf(c: char, d: char) {
    65 <= c as int <= 90 && d as int == c as int + 32
  }

  predicate SameLetter(c: char, d: char) {
    c == d || UpperOf(c, d) || UpperOf(d, c)
  }

  predicate SameLabel(l: Label, m: Label) {
    |l| == |m| && forall j :: 0 <= j < |l| ==> SameLetter(l[j], m[j])
  }

  lemma FoldLabelExact(l: Label, m: Label)
    ensures FoldLabel(l) == FoldLabel(m) <==> SameLabel(l, m)
  {
    if FoldLabel(l) == FoldLabel(m) {
      assert |FoldLabel(l)| == |FoldLabel(m)|;
      forall j | 0 <= j < |l|
        ensures SameLetter(l[j], m[j])
      {
        assert FoldLabel(l)[j] == FoldLabel(m)[j];
      }
    }
  }

  /** Folding identifies names label by label, and labels that differ at most in the case of ASCII letters. */
  lemma EqualFoldExact(a: seq<Label>, b: seq<Label>)
    ensures EqualFold(Fq(a), Fq(b)) <==> |a| == |b| && forall i :: 0 <= i < |a| ==> SameLabel(a[i], b[i])
    ensures !EqualFold(Empty, Fq(a)) && !EqualFold(Fq(a), Empty) && EqualFold(Empty, Empty)
  {
    forall i | 0 <= i < |a| && i < |b|
      ensures FoldLabel(a[i]) == FoldLabel(b[i]) <==> SameLabel(a[i], b[i])
    {
      FoldLabelExact(a[i], b[i]);
    }
    if FoldLabels(a) == FoldLabels(b) {
      assert |FoldLabels(a)| == |FoldLabels(b)|;
      forall i | 0 <= i < |a|
        ensures SameLabel(a[i], b[i])
      {
        assert FoldLabels(a)[i] == FoldLabels(b)[i];
      }
    }
  }

  /** child is at or below parent exactly if parent, up to case, is what is left of child without some first labels. */
  lemma SubDomainExact(parent: Name, child: Name)
    ensures parent.Fq? && child.Fq? ==>
      (IsSubDomain(parent, child) <==>
         exists k :: 0 <= k <= |child.labels| && EqualFold(parent, Fq(child.labels[k..])))
    ensures parent.Empty? ==> (IsSubDomain(parent, child) <==> child.Empty?)
    ensures child.Empty? ==> (IsSubDomain(parent, child) <==> parent.Empty? || parent == Fq([]))
  {
    if parent.Fq? && child.Fq? {
      var n, m := |parent.labels|, |child.labels|;
      if IsSubDomain(parent, child) {
        assert n == 0 ==> child.labels[m..] == parent.labels;
        assert EqualFold(parent, Fq(child.labels[m - n..]));
      }
      if k :| 0 <= k <= m && EqualFold(parent, Fq(child.labels[k..])) {
        assert |FoldLabels(parent.labels)| == |FoldLabels(child.labels[k..])|;
        assert k == m - n;
      }
    }
  }
}
