/**
 * The nesting of the fragment tree. Fragments are meant to form a strictly nested
 * tree: every child lies inside its parent, and siblings follow each other in the
 * text. On such a tree, looking a fragment up by its bounds always finds it.
 */
module FragmentTrees {
  import opened Outcomes
  import opened FragmentTypes
  import opened SourceFragments

  /** `a` lies inside `p`. */
  predicate Inside(a: SourceFragment, p: SourceFragment) {
    p.start <= a.start && a.end <= p.end
  }

  /**
   * A chain is well nested when every fragment has a non-negative width, ends
   * no later than each of its next siblings starts, contains its children, and
   * its children and next siblings are well nested in turn.
   */
  predicate WellNested(c: seq<SourceFragment>) {
    c == [] ||
    (&& c[0].start <= c[0].end
     && (forall j :: 1 <= j < |c| ==> c[0].end <= c[j].start)
     && (forall k :: 0 <= k < |c[0].children| ==> Inside(c[0].children[k], c[0]))
     && WellNested(c[0].children)
     && WellNested(c[1..]))
  }

  /** Every fragment of the chain lies within [lo, hi). */
  predicate Bounded(c: seq<SourceFragment>, lo: int, hi: int) {
    forall i :: 0 <= i < |c| ==> lo <= c[i].start && c[i].end <= hi
  }

  lemma WellNestedCons(h: SourceFragment, rest: seq<SourceFragment>)
    ensures WellNested([h] + rest)
            <==> && h.start <= h.end
                 && (forall j :: 0 <= j < |rest| ==> h.end <= rest[j].start)
                 && (forall k :: 0 <= k < |h.children| ==> Inside(h.children[k], h))
                 && WellNested(h.children) && WellNested(rest)
  {
    var c := [h] + rest;
    assert c[0] == h && c[1..] == rest;
    assert forall j :: 1 <= j < |c| ==> c[j] == rest[j - 1];
  }

  /** The members of a well-nested chain lie between the start of the first and the end of the last. */
  lemma {:induction false} TopSpan(c: seq<SourceFragment>)
    requires WellNested(c) && c != []
    ensures forall i :: 0 <= i < |c| ==> c[i].start <= c[i].end
    ensures Bounded(c, c[0].start, c[|c| - 1].end)
  {
    if |c| > 1 {
      TopSpan(c[1..]);
      assert forall i :: 1 <= i < |c| ==> c[i] == c[1..][i - 1];
    }
  }

  /** Every fragment of a well-nested chain, descendants included, lies within the chain's span. */
  lemma {:induction false} NodesSpan(c: seq<SourceFragment>)
    requires WellNested(c) && c != []
    ensures forall n | n in Nodes(c) :: c[0].start <= n.start <= n.end <= c[|c| - 1].end
  {
    TopSpan(c);
    var ch := c[0].children;
    if ch != [] {
      NodesSpan(ch);
      assert Inside(ch[0], c[0]) && Inside(ch[|ch| - 1], c[0]);
    }
    if |c| > 1 {
      NodesSpan(c[1..]);
    }
  }

  lemma {:induction false} WellNestedSuffix(c: seq<SourceFragment>, k: nat)
    requires WellNested(c) && k <= |c|
    ensures WellNested(c[k..])
    decreases k
  {
    if k > 0 {
      WellNestedSuffix(c[1..], k - 1);
      assert c[1..][k - 1..] == c[k..];
    }
  }

  lemma {:induction false} WellNestedPrefix(c: seq<SourceFragment>, k: nat)
    requires WellNested(c) && k <= |c|
    ensures WellNested(c[..k])
    decreases k
  {
    if k > 0 {
      WellNestedPrefix(c[1..], k - 1);
      assert c[1..][..k - 1] == c[..k][1..];
      WellNestedCons(c[0], c[1..][..k - 1]);
      assert c[..k] == [c[0]] + c[1..][..k - 1];
    }
  }

  /** One member of a well-nested chain, with its descendants, is well nested on its own. */
  lemma WellNestedMember(c: seq<SourceFragment>, i: nat)
    requires WellNested(c) && i < |c|
    ensures WellNested([c[i]])
  {
    WellNestedSuffix(c, i);
    WellNestedPrefix(c[i..], 1);
    assert c[i..][..1] == [c[i]];
  }

  /**
   * On a well-nested chain, the lookup by bounds finds every non-empty fragment
   * of the tree: the result is that fragment, another one with its bounds, or
   * the enclosing fragment of its element (GetSourceFragmentOf states which).
   */
  lemma {:induction false} LookupFindsNested(c: seq<SourceFragment>, n: SourceFragment)
    requires WellNested(c) && n in Nodes(c) && n.start < n.end
    ensures GetSourceFragmentOf(c, n.start, n.end).Ok?
    ensures GetSourceFragmentOf(c, n.start, n.end).value.Some?
  {
    var self := c[0];
    assert Nodes(c) == {self} + Nodes(self.children) + Nodes(c[1..]);
    if n == self {
    } else if n in Nodes(self.children) {
      NodesSpan(self.children);
      var ch := self.children;
      assert Inside(ch[0], self) && Inside(ch[|ch| - 1], self);
      if !(self.start == n.start && self.end == n.end) {
        LookupFindsNested(ch, n);
      }
    } else {
      NodesSpan(c[1..]);
      assert self.end <= c[1].start;
      LookupFindsNested(c[1..], n);
    }
  }

  // Nesting under the insertion of SourceFragment#add.

  function Min(a: int, b: int): int { if a <= b then a else b }
  function Max(a: int, b: int): int { if a <= b then b else a }

  /** What the insertions below assume of the chain `t` and the new fragment `x`. */
  predicate NestedPair(t: seq<SourceFragment>, x: SourceFragment) {
    t != [] && WellNested(t) && WellNested([x])
  }

  /** The result stays within the span of `t` and `x` together. */
  predicate WithinPair(r: seq<SourceFragment>, t: seq<SourceFragment>, x: SourceFragment)
    requires t != []
  {
    Bounded(r, Min(t[0].start, x.start), Max(t[|t| - 1].end, x.end))
  }

  /** The insertion of a fragment without children around the head of `t`, unfolded. */
  lemma AddAroundLeafStep(t: seq<SourceFragment>, x: SourceFragment)
    requires t != [] && x.children == [] && Compare(t[0], x) == Ok(OtherIsParent)
    ensures Add(t, [x]).Ok? ==> AbsorbSiblings(x.(children := t), t[1..]).Ok?
    ensures AbsorbSiblings(x.(children := t), t[1..]).Ok? ==>
              var s := AbsorbSiblings(x.(children := t), t[1..]).value;
              Add(t, [x]) == Ok([x.(children := [t[0]] + s.kept)] + s.cut)
  {
    AddDispatch(t, [x]);
    var p := x.(children := t);
    assert AddChild(x, t) == Ok(p);
    if AbsorbSiblings(p, t[1..]).Ok? {
      var s := AbsorbSiblings(p, t[1..]).value;
      var q := p.(children := [t[0]] + s.kept);
      assert MergeSiblingsOfChild(p, t, t[0].id) == Ok(Split([t[0]] + s.kept, s.cut, true));
      assert [x][1..] == [] && [q] + [] == [q];
      if s.cut != [] {
        AddNextSiblingCases([q], s.cut);
      }
      assert q == x.(children := [t[0]] + s.kept);
    } else {
      assert MergeSiblingsOfChild(p, t, t[0].id).Err?;
    }
  }

  /** A fragment put in front of a well-nested chain that starts after it. */
  lemma PrependNests(h: SourceFragment, rest: seq<SourceFragment>, lo: int, hi: int)
    requires WellNested([h]) && WellNested(rest) && Bounded(rest, lo, hi) && h.end <= lo && h.end <= hi
    ensures WellNested([h] + rest) && Bounded([h] + rest, h.start, hi)
  {
    assert [h][1..] == [];
    WellNestedCons(h, rest);
    if rest != [] {
      TopSpan(rest);
    }
    var r := [h] + rest;
    assert forall i :: 1 <= i < |r| ==> r[i] == rest[i - 1];
  }

  /** A fragment given a well-nested chain inside it as its children. */
  lemma AdoptNests(p: SourceFragment, c: seq<SourceFragment>)
    requires p.start <= p.end && WellNested(c) && Bounded(c, p.start, p.end)
    ensures WellNested([p.(children := c)])
  {
    WellNestedCons(p.(children := c), []);
    assert [p.(children := c)] + [] == [p.(children := c)];
  }

  lemma AddAfterOk(t: seq<SourceFragment>, x: SourceFragment)
    requires |t| > 1 && Compare(t[0], x) == Ok(OtherIsAfter) && Add(t, [x]).Ok?
    ensures Add(t[1..], [x]).Ok?
  {
    AddDispatch(t, [x]);
  }

  lemma AddIntoOk(t: seq<SourceFragment>, x: SourceFragment)
    requires t != [] && Compare(t[0], x) == Ok(OtherIsChild) && Add(t, [x]).Ok?
    ensures AddChild(t[0], [x]).Ok?
    ensures t[0].children != [] ==> Add(t[0].children, [x]).Ok?
  {
    AddDispatch(t, [x]);
  }

  /**
   * SourceFragment#add keeps a well-nested tree well nested when the new fragment
   * has no children, or never encloses a fragment it meets: a fragment with
   * children that encloses the head of `t` adopts `t`'s fragments among its
   * children by position, which can put them under the wrong child
   * (AddMisnestsExample).
   */
  lemma {:induction false} AddNests(t: seq<SourceFragment>, x: SourceFragment)
    requires NestedPair(t, x) && Add(t, [x]).Ok?
    requires x.children == [] || forall n | n in Nodes(t) :: Compare(n, x) != Ok(OtherIsParent)
    ensures WellNested(Add(t, [x]).value) && WithinPair(Add(t, [x]).value, t, x)
    decreases Size(t), 1
  {
    match Compare(t[0], x).value
    case OtherIsAfter => AddAfterNests(t, x);
    case OtherIsBefore =>
      AddBeforeStep(t, x);
      TopSpan(t);
      PrependNests(x, t, t[0].start, t[|t| - 1].end);
    case OtherIsChild => AddIntoNests(t, x);
    case OtherIsParent => AddAroundNests(t, x);
  }

  lemma {:induction false} AddAfterNests(t: seq<SourceFragment>, x: SourceFragment)
    requires NestedPair(t, x) && Add(t, [x]).Ok? && Compare(t[0], x) == Ok(OtherIsAfter)
    requires x.children == [] || forall n | n in Nodes(t) :: Compare(n, x) != Ok(OtherIsParent)
    ensures WellNested(Add(t, [x]).value) && WithinPair(Add(t, [x]).value, t, x)
    decreases Size(t), 0
  {
    if |t| == 1 {
      AddAfterLastStep(t, x);
      assert [t[0]] + [x] == [t[0], x];
      AfterNests(t, x, [x]);
    } else {
      AddAfterOk(t, x);
      var rest := Add(t[1..], [x]).value;
      assert t == [t[0]] + t[1..];
      SizeCons(t[0], t[1..]);
      NodesOfRest(t, 1);
      WellNestedSuffix(t, 1);
      AddNests(t[1..], x);
      AddAfterStep(t, x, rest);
      AfterNests(t, x, rest);
    }
  }

  /** The nesting part of the AFTER case: the head of `t` followed by `rest`, `x` placed among `t`'s next siblings. */
  lemma AfterNests(t: seq<SourceFragment>, x: SourceFragment, rest: seq<SourceFragment>)
    requires NestedPair(t, x) && t[0].end <= x.start && WellNested(rest)
    requires |t| == 1 ==> rest == [x]
    requires |t| > 1 ==> WithinPair(rest, t[1..], x)
    ensures WellNested([t[0]] + rest) && WithinPair([t[0]] + rest, t, x)
  {
    TopSpan(t);
    WellNestedMember(t, 0);
    if |t| == 1 {
      PrependNests(t[0], [x], x.start, x.end);
    } else {
      PrependNests(t[0], rest, Min(t[1].start, x.start), Max(t[|t| - 1].end, x.end));
    }
  }

  lemma {:induction false} AddIntoNests(t: seq<SourceFragment>, x: SourceFragment)
    requires NestedPair(t, x) && Add(t, [x]).Ok? && Compare(t[0], x) == Ok(OtherIsChild)
    requires x.children == [] || forall n | n in Nodes(t) :: Compare(n, x) != Ok(OtherIsParent)
    ensures WellNested(Add(t, [x]).value) && WithinPair(Add(t, [x]).value, t, x)
    decreases Size(t), 0
  {
    var t0 := t[0];
    AddIntoOk(t, x);
    var h := AddChild(t0, [x]).value;
    AddIntoHeadStep(t, x, h);
    if t0.children == [] {
      AddChildStep(t0, x, [x]);
      IntoNests(t, x, [x]);
    } else {
      var ch := t0.children;
      AddChildStep(t0, x, Add(ch, [x]).value);
      assert t == [t0] + t[1..];
      SizeCons(t0, t[1..]);
      NodesOfRest(t, 0);
      AddNests(ch, x);
      IntoNests(t, x, Add(ch, [x]).value);
    }
  }

  /** The nesting part of the CHILD case: the head of `t` given the children `c`, `x` placed among its old ones. */
  lemma IntoNests(t: seq<SourceFragment>, x: SourceFragment, c: seq<SourceFragment>)
    requires NestedPair(t, x) && Inside(x, t[0]) && WellNested(c)
    requires t[0].children == [] ==> c == [x]
    requires t[0].children != [] ==> WithinPair(c, t[0].children, x)
    ensures WellNested([t[0].(children := c)] + t[1..]) && WithinPair([t[0].(children := c)] + t[1..], t, x)
  {
    var t0 := t[0];
    var ch := t0.children;
    TopSpan(t);
    if ch != [] {
      assert Inside(ch[0], t0) && Inside(ch[|ch| - 1], t0);
    }
    AdoptNests(t0, c);
    WellNestedSuffix(t, 1);
    if |t| > 1 {
      TopSpan(t[1..]);
      PrependNests(t0.(children := c), t[1..], t[1].start, t[|t| - 1].end);
    } else {
      PrependNests(t0.(children := c), [], t0.end, t0.end);
    }
  }

  lemma {:induction false} AddAroundNests(t: seq<SourceFragment>, x: SourceFragment)
    requires NestedPair(t, x) && Add(t, [x]).Ok? && Compare(t[0], x) == Ok(OtherIsParent)
    requires x.children == [] || forall n | n in Nodes(t) :: Compare(n, x) != Ok(OtherIsParent)
    ensures WellNested(Add(t, [x]).value) && WithinPair(Add(t, [x]).value, t, x)
  {
    assert t[0] in Nodes(t);
    var p := x.(children := t);
    AddAroundLeafStep(t, x);
    var s := AbsorbSiblings(p, t[1..]).value;
    AbsorbSiblingsClassifies(p, t[1..]);
    assert forall i :: 0 <= i < |s.kept| ==> Inside(s.kept[i], x);
    AroundNests(t, x, s.kept, s.cut);
  }

  /** The nesting part of the PARENT case: `x` adopts the head of `t` and the siblings `kept`; `cut` follows it. */
  lemma AroundNests(t: seq<SourceFragment>, x: SourceFragment, kept: seq<SourceFragment>, cut: seq<SourceFragment>)
    requires NestedPair(t, x) && Inside(t[0], x) && t[1..] == kept + cut
    requires forall i :: 0 <= i < |kept| ==> Inside(kept[i], x)
    requires cut != [] ==> x.end <= cut[0].start
    ensures WellNested([x.(children := [t[0]] + kept)] + cut)
    ensures WithinPair([x.(children := [t[0]] + kept)] + cut, t, x)
  {
    var k := 1 + |kept|;
    assert [t[0]] + kept == t[..k] && cut == t[k..];
    AdoptPrefixNests(t, x, k);
    WellNestedSuffix(t, k);
    TopSpan(t);
    if cut != [] {
      TopSpan(cut);
      assert forall i :: 0 <= i < |cut| ==> cut[i] == t[k + i];
      PrependNests(x.(children := t[..k]), cut, cut[0].start, t[|t| - 1].end);
    } else {
      PrependNests(x.(children := t[..k]), [], x.end, x.end);
    }
  }

  lemma AdoptPrefixNests(t: seq<SourceFragment>, x: SourceFragment, k: nat)
    requires NestedPair(t, x) && 0 < k <= |t|
    requires forall i :: 0 <= i < k ==> Inside(t[i], x)
    ensures WellNested([x.(children := t[..k])])
  {
    WellNestedPrefix(t, k);
    AdoptNests(x, t[..k]);
  }

  /** A chain that starts after `m` and inside the childless `n` is added below `n` as a whole. */
  lemma ChainUnderSecond(m: SourceFragment, n: SourceFragment, b: SourceFragment, es: seq<SourceFragment>)
    requires es != [] && n.children == []
    requires Compare(m, es[0]) == Ok(OtherIsAfter) && Compare(n, es[0]) == Ok(OtherIsChild)
    ensures Add([m, n, b], es) == Ok([m, n.(children := es), b])
  {
    var n1 := n.(children := es);
    ChainUnderHead(n, b, es);
    assert [m, n, b][1..] == [n, b];
    AddNextSiblingCases([m, n, b], es);
    AddDispatch([m, n, b], es);
    assert [m] + [n1, b] == [m, n1, b];
  }

  lemma ChainUnderHead(n: SourceFragment, b: SourceFragment, es: seq<SourceFragment>)
    requires es != [] && n.children == [] && Compare(n, es[0]) == Ok(OtherIsChild)
    ensures Add([n, b], es) == Ok([n.(children := es), b])
  {
    var n1 := n.(children := es);
    assert AddChild(n, es) == Ok(n1);
    assert [n1] + [n, b][1..] == [n1, b];
    assert AddIntoHead([n, b], es) == Ok([n1, b]);
    AddDispatch([n, b], es);
  }

  /**
   * The walk after `p` adopted `e1`, found below `n1`: `e2`, inside `p`, stays
   * below `n1`; `e3`, after `p`, is cut off.
   */
  lemma SiblingsKeptUnderSecond(p: SourceFragment, m: SourceFragment, n1: SourceFragment, b: SourceFragment,
                                e1: SourceFragment, e2: SourceFragment, e3: SourceFragment)
    requires m.children == [] && n1.children == [e1, e2, e3] && m.id != e1.id && n1.id != e1.id
    requires Compare(p, e2) == Ok(OtherIsChild) && Compare(p, e3) == Ok(OtherIsAfter)
    ensures MergeSiblingsOfChild(p, [m, n1, b], e1.id) == Ok(Split([m, n1.(children := [e1, e2]), b], [e3], true))
  {
    var es := [e1, e2, e3];
    assert AbsorbSiblings(p, [e3]) == Ok(Split([], [e3], true));
    assert [e2, e3][1..] == [e3] && [e2] + [] == [e2];
    assert AbsorbSiblings(p, [e2, e3]) == Ok(Split([e2], [e3], true));
    assert es[1..] == [e2, e3] && [e1] + [e2] == [e1, e2];
    assert MergeSiblingsOfChild(p, es, e1.id) == Ok(Split([e1, e2], [e3], true));
    var n2 := n1.(children := [e1, e2]);
    assert [n1, b][1..] == [b] && [n2] + [b] == [n2, b];
    assert MergeSiblingsOfChild(p, [n1, b], e1.id) == Ok(Split([n2, b], [e3], true));
    assert MergeSiblingsOfChild(p, [], e1.id) == Ok(Split([], [], false));
    assert [m, n1, b][1..] == [n1, b] && [m] + [n2, b] == [m, n2, b];
  }

  /**
   * SourceFragment#add, as written, with a new fragment [10,50) that already has
   * the children [10,12), [12,20), [20,50) and encloses the head of the chain
   * [14,16), [25,30), [60,70): the adopted chain is added to the children as a
   * whole, so [25,30) lands under [12,20), which does not contain it. The tree is
   * no longer well nested and the lookup of [25,30) finds nothing.
   */
  lemma AddMisnestsExample(e1: SourceFragment, e2: SourceFragment, e3: SourceFragment,
                           m: SourceFragment, n: SourceFragment, b: SourceFragment, f0: SourceFragment)
    requires (e1.start, e1.end, e2.start, e2.end, e3.start, e3.end) == (14, 16, 25, 30, 60, 70)
    requires (m.start, m.end, n.start, n.end, b.start, b.end, f0.start, f0.end) == (10, 12, 12, 20, 20, 50, 10, 50)
    requires e1.id !in {m.id, n.id, f0.id} && f0.id !in {e2.id, e3.id}
    requires e1.children == e2.children == e3.children == m.children == n.children == b.children == []
    ensures var f := f0.(children := [m, n, b]);
            var r := [f.(children := [m, n.(children := [e1, e2]), b]), e3];
            && WellNested([e1, e2, e3]) && WellNested([f])
            && Add([e1, e2, e3], [f]) == Ok(r)
            && !WellNested(r)
            && e2 in Nodes(r) && GetSourceFragmentOf(r, 25, 30) == Ok(None)
  {
    var f := f0.(children := [m, n, b]);
    var es := [e1, e2, e3];
    ChainUnderSecond(m, n, b, es);
    var p := f.(children := [m, n.(children := es), b]);
    assert AddChild(f, es) == Ok(p);
    SiblingsKeptUnderSecond(p, m, n.(children := es), b, e1, e2, e3);
    var n2 := n.(children := [e1, e2]);
    var q := p.(children := [m, n2, b]);
    assert [f][1..] == [] && [q] + [] == [q] && [q] + [e3] == [q, e3];
    assert AddNextSibling([q], [e3]) == Ok([q, e3]);
    assert AddAroundHead(es, [f]) == Ok([q, e3]);
    AddDispatch(es, [f]);
    MisnestedLookup(q, m, n2, b, e2, e3);
    assert q == f.(children := [m, n.(children := [e1, e2]), b]);
    InputsNested(e1, e2, e3, m, n, b, f0);
  }

  lemma InputsNested(e1: SourceFragment, e2: SourceFragment, e3: SourceFragment,
                     m: SourceFragment, n: SourceFragment, b: SourceFragment, f0: SourceFragment)
    requires (e1.start, e1.end, e2.start, e2.end, e3.start, e3.end) == (14, 16, 25, 30, 60, 70)
    requires (m.start, m.end, n.start, n.end, b.start, b.end, f0.start, f0.end) == (10, 12, 12, 20, 20, 50, 10, 50)
    requires e1.children == e2.children == e3.children == m.children == n.children == b.children == []
    ensures WellNested([e1, e2, e3]) && WellNested([f0.(children := [m, n, b])])
  {
    assert [e1, e2, e3][1..] == [e2, e3] && [e2, e3][1..] == [e3] && [e3][1..] == [];
    assert WellNested([e3]);
    assert WellNested([e2, e3]);
    assert [m, n, b][1..] == [n, b] && [n, b][1..] == [b] && [b][1..] == [];
    assert WellNested([b]);
    assert WellNested([n, b]);
    assert WellNested([m, n, b]);
  }

  /**
   * The corrected insertion on the same input: the adopted fragments are placed
   * one by one, [14,16) under [12,20) and [25,30) under [20,50); the tree stays
   * well nested and the lookup of [25,30) finds it.
   */
  lemma InsertRepairsExample(e1: SourceFragment, e2: SourceFragment, e3: SourceFragment,
                             m: SourceFragment, n: SourceFragment, b: SourceFragment, f0: SourceFragment)
    requires (e1.start, e1.end, e2.start, e2.end, e3.start, e3.end) == (14, 16, 25, 30, 60, 70)
    requires (m.start, m.end, n.start, n.end, b.start, b.end, f0.start, f0.end) == (10, 12, 12, 20, 20, 50, 10, 50)
    requires e1.id !in {m.id, n.id, f0.id} && e2.id !in {m.id, n.id, b.id, f0.id} && f0.id != e3.id
    requires e1.children == e2.children == e3.children == m.children == n.children == b.children == []
    ensures var f := f0.(children := [m, n, b]);
            var r := [f.(children := [m, n.(children := [e1]), b.(children := [e2])]), e3];
            && Insert([e1, e2, e3], f) == Ok(r)
            && WellNested(r)
            && e2 in Nodes(r) && GetSourceFragmentOf(r, 25, 30).Ok? && GetSourceFragmentOf(r, 25, 30).value.Some?
  {
    var f := f0.(children := [m, n, b]);
    var es := [e1, e2, e3];
    var q := f.(children := [m, n.(children := [e1]), b.(children := [e2])]);
    RepairedTree(e1, e2, e3, m, n, b, f0);
    InputsNested(e1, e2, e3, m, n, b, f0);
    InsertNests(es, f);
    RepairedLookup(q, m, n.(children := [e1]), b.(children := [e2]), e2, e3);
  }

  lemma RepairedTree(e1: SourceFragment, e2: SourceFragment, e3: SourceFragment,
                     m: SourceFragment, n: SourceFragment, b: SourceFragment, f0: SourceFragment)
    requires (e1.start, e1.end, e2.start, e2.end, e3.start, e3.end) == (14, 16, 25, 30, 60, 70)
    requires (m.start, m.end, n.start, n.end, b.start, b.end, f0.start, f0.end) == (10, 12, 12, 20, 20, 50, 10, 50)
    requires e1.id !in {m.id, n.id, f0.id} && e2.id !in {m.id, n.id, b.id, f0.id} && f0.id != e3.id
    requires n.children == b.children == []
    ensures var f := f0.(children := [m, n, b]);
            Insert([e1, e2, e3], f) == Ok([f.(children := [m, n.(children := [e1]), b.(children := [e2])]), e3])
  {
    var f := f0.(children := [m, n, b]);
    var es := [e1, e2, e3];
    FirstPlaced(m, n, b, e1);
    SecondPlaced(m, n.(children := [e1]), b, e2);
    assert [e1, e2][1..] == [e2];
    assert InsertAll([m, n, b], [e1, e2]) == InsertAll([m, n.(children := [e1]), b], [e2]);
    SecondKept(f, e2, e3);
    assert es[1..] == [e2, e3];
    assert es[..2] == [e1, e2] && es[2..] == [e3];
    var q := f.(children := [m, n.(children := [e1]), b.(children := [e2])]);
    assert InsertAround(es, f) == Ok([q] + [e3]);
    assert [q] + [e3] == [q, e3];
  }

  /** [25,30) lies inside [10,50), [60,70) after it. */
  lemma SecondKept(f: SourceFragment, e2: SourceFragment, e3: SourceFragment)
    requires (f.start, f.end, e2.start, e2.end, e3.start, e3.end) == (10, 50, 25, 30, 60, 70)
    requires f.id !in {e2.id, e3.id}
    ensures AbsorbSiblings(f, [e2, e3]) == Ok(Split([e2], [e3], true))
  {
    assert [e2, e3][1..] == [e3];
    assert AbsorbSiblings(f, [e3]) == Ok(Split([], [e3], true));
    assert [e2] + [] == [e2];
  }

  /** [14,16) goes under [12,20). */
  lemma FirstPlaced(m: SourceFragment, n: SourceFragment, b: SourceFragment, e1: SourceFragment)
    requires (e1.start, e1.end, m.start, m.end, n.start, n.end) == (14, 16, 10, 12, 12, 20)
    requires e1.id !in {m.id, n.id} && n.children == []
    ensures InsertChild([m, n, b], e1) == Ok([m, n.(children := [e1]), b])
  {
    var n1 := n.(children := [e1]);
    assert [m, n, b][1..] == [n, b] && [n1] + [n, b][1..] == [n1, b] && [m] + [n1, b] == [m, n1, b];
    assert Insert([n, b], e1) == Ok([n1, b]);
  }

  /** [25,30) goes under [20,50), and nothing is left to insert. */
  lemma SecondPlaced(m: SourceFragment, n1: SourceFragment, b: SourceFragment, e2: SourceFragment)
    requires (e2.start, e2.end, m.start, m.end, n1.start, n1.end, b.start, b.end) == (25, 30, 10, 12, 12, 20, 20, 50)
    requires e2.id !in {m.id, n1.id, b.id} && b.children == []
    ensures InsertAll([m, n1, b], [e2]) == Ok([m, n1, b.(children := [e2])])
  {
    var b2 := b.(children := [e2]);
    assert [b][1..] == [] && [b2] + [] == [b2];
    assert Insert([b], e2) == Ok([b2]);
    assert [m, n1, b][1..] == [n1, b] && [n1, b][1..] == [b] && [n1] + [b2] == [n1, b2] && [m] + [n1, b2] == [m, n1, b2];
    assert Insert([n1, b], e2) == Ok([n1, b2]);
    assert InsertChild([m, n1, b], e2) == Ok([m, n1, b2]);
    assert [e2][1..] == [];
  }

  /** [25,30) is in the repaired tree, which the lookup therefore finds when the tree is well nested. */
  lemma RepairedLookup(q: SourceFragment, m: SourceFragment, n1: SourceFragment, b2: SourceFragment,
                       e2: SourceFragment, e3: SourceFragment)
    requires q.children == [m, n1, b2] && b2.children == [e2] && e2.start < e2.end && WellNested([q, e3])
    ensures e2 in Nodes([q, e3])
    ensures GetSourceFragmentOf([q, e3], e2.start, e2.end).Ok? && GetSourceFragmentOf([q, e3], e2.start, e2.end).value.Some?
  {
    assert e2 in Nodes(b2.children) && e2 in Nodes([b2]);
    assert [m, n1, b2][1..] == [n1, b2] && [n1, b2][1..] == [b2];
    assert e2 in Nodes([n1, b2]) && e2 in Nodes(q.children) && e2 in Nodes([q, e3]);
    LookupFindsNested([q, e3], e2);
  }

  /** [25,30) lies under [12,20), and the lookup walks past [12,20) to [20,50). */
  lemma MisnestedLookup(q: SourceFragment, m: SourceFragment, n2: SourceFragment, b: SourceFragment,
                        e2: SourceFragment, e3: SourceFragment)
    requires q.children == [m, n2, b] && |n2.children| == 2 && n2.children[1] == e2 && b.children == []
    requires (m.start, m.end, n2.start, n2.end, b.start, b.end) == (10, 12, 12, 20, 20, 50)
    requires (q.start, q.end, e2.start, e2.end) == (10, 50, 25, 30)
    ensures !WellNested([q, e3]) && e2 in Nodes([q, e3]) && GetSourceFragmentOf([q, e3], 25, 30) == Ok(None)
  {
    assert !Inside(e2, n2);
    assert [m, n2, b][1..] == [n2, b];
    assert !WellNested([n2, b]);
    assert !WellNested(q.children);
    assert e2 in Nodes(n2.children) && e2 in Nodes(q.children) && e2 in Nodes([q, e3]);
    assert [n2, b][1..] == [b];
    assert GetSourceFragmentOf([b], 25, 30) == Ok(None);
    assert GetSourceFragmentOf([n2, b], 25, 30) == Ok(None);
    assert GetSourceFragmentOf(q.children, 25, 30) == Ok(None);
  }

  // The insertion SourceFragment#add evidently intends: a fragment that encloses
  // the head of the chain takes the enclosed fragments into its own children one
  // by one, each by position, instead of appending them to those children as a
  // chain.

  /** Inserts the single fragment `x` into the chain `t`, returning the new head of the chain. */
  function Insert(t: seq<SourceFragment>, x: SourceFragment): (r: Result<seq<SourceFragment>>)
    requires t != []
    ensures r.Ok? ==> r.value != [] && Size(r.value) == Size(t) + Size([x])
    decreases Size(t) + Size([x]), 0, 1
  {
    if t[0].id == x.id then
      Err("SourceFragment#add must not be called twice for the same SourceFragment")
    else
      assert t == [t[0]] + t[1..];
      SizeCons(t[0], t[1..]);
      match Compare(t[0], x)
      case Err(m) => Err(m)
      case Ok(OtherIsAfter) =>
        if |t| == 1 then
          SizeAppend(t, [x]);
          Ok(t + [x])
        else
          var rest :- Insert(t[1..], x);
          SizeCons(t[0], rest);
          Ok([t[0]] + rest)
      case Ok(OtherIsBefore) =>
        SizeAppend([x], t);
        Ok([x] + t)
      case Ok(OtherIsChild) =>
        var c :- InsertChild(t[0].children, x);
        SizeCons(t[0].(children := c), t[1..]);
        Ok([t[0].(children := c)] + t[1..])
      case Ok(OtherIsParent) =>
        InsertAround(t, x)
  }

  /**
   * `x` encloses the head of `t`: the head and those of its next siblings that
   * lie inside `x` (the first `k` fragments of `t`) are inserted among `x`'s
   * children; the first one after `x` and its followers become `x`'s next siblings.
   */
  function InsertAround(t: seq<SourceFragment>, x: SourceFragment): (r: Result<seq<SourceFragment>>)
    requires t != []
    ensures r.Ok? ==> r.value != [] && r.value[0].id == x.id && Size(r.value) == Size(t) + Size([x])
    decreases Size(t) + Size([x]), 0, 0
  {
    var s :- AbsorbSiblings(x, t[1..]);
    var k := 1 + |s.kept|;
    assert s.kept + s.cut == t[1..];
    SizeAppend(t[..k], t[k..]);
    assert t[..k] + t[k..] == t;
    SizeCons(x, []);
    assert [x] + [] == [x];
    var c :- InsertAll(x.children, t[..k]);
    SizeCons(x.(children := c), t[k..]);
    Ok([x.(children := c)] + t[k..])
  }

  /** Inserts `x` among `children`, which may be empty. */
  function InsertChild(children: seq<SourceFragment>, x: SourceFragment): (r: Result<seq<SourceFragment>>)
    ensures r.Ok? ==> r.value != [] && Size(r.value) == Size(children) + Size([x])
    decreases Size(children) + Size([x]), 0, 2
  {
    if children == [] then Ok([x]) else Insert(children, x)
  }

  /** Inserts the fragments of `items` one by one among `acc`. */
  function InsertAll(acc: seq<SourceFragment>, items: seq<SourceFragment>): (r: Result<seq<SourceFragment>>)
    ensures r.Ok? ==> Size(r.value) == Size(acc) + Size(items)
    decreases Size(acc) + Size(items), |items|, 3
  {
    if items == [] then Ok(acc)
    else
      assert items == [items[0]] + items[1..];
      SizeCons(items[0], items[1..]);
      SizeCons(items[0], []);
      assert [items[0]] + [] == [items[0]];
      var a :- InsertChild(acc, items[0]);
      InsertAll(a, items[1..])
  }

  /** The corrected insertion keeps every well-nested tree well nested, within the span of `t` and `x`. */
  lemma {:induction false} InsertNests(t: seq<SourceFragment>, x: SourceFragment)
    requires NestedPair(t, x) && Insert(t, x).Ok?
    ensures WellNested(Insert(t, x).value) && WithinPair(Insert(t, x).value, t, x)
    decreases Size(t) + Size([x]), 0, 1
  {
    match Compare(t[0], x).value
    case OtherIsAfter =>
      InsertAfterNests(t, x);
    case OtherIsBefore =>
      assert Insert(t, x).value == [x] + t;
      TopSpan(t);
      PrependNests(x, t, t[0].start, t[|t| - 1].end);
    case OtherIsChild =>
      InsertIntoNests(t, x);
    case OtherIsParent =>
      assert Insert(t, x) == InsertAround(t, x);
      InsertAroundNests(t, x);
  }

  lemma {:induction false} InsertAfterNests(t: seq<SourceFragment>, x: SourceFragment)
    requires NestedPair(t, x) && Insert(t, x).Ok? && Compare(t[0], x) == Ok(OtherIsAfter)
    ensures WellNested(Insert(t, x).value) && WithinPair(Insert(t, x).value, t, x)
    decreases Size(t) + Size([x]), 0, 0
  {
    if |t| == 1 {
      assert Insert(t, x).value == [t[0]] + [x];
      AfterNests(t, x, [x]);
    } else {
      assert t == [t[0]] + t[1..];
      SizeCons(t[0], t[1..]);
      var rest := Insert(t[1..], x).value;
      assert Insert(t, x).value == [t[0]] + rest;
      WellNestedSuffix(t, 1);
      InsertNests(t[1..], x);
      AfterNests(t, x, rest);
    }
  }

  lemma {:induction false} InsertIntoNests(t: seq<SourceFragment>, x: SourceFragment)
    requires NestedPair(t, x) && Insert(t, x).Ok? && Compare(t[0], x) == Ok(OtherIsChild)
    ensures WellNested(Insert(t, x).value) && WithinPair(Insert(t, x).value, t, x)
    decreases Size(t) + Size([x]), 0, 0
  {
    assert t == [t[0]] + t[1..];
    SizeCons(t[0], t[1..]);
    var c := InsertChild(t[0].children, x).value;
    assert Insert(t, x).value == [t[0].(children := c)] + t[1..];
    InsertChildNests(t[0].children, x);
    IntoNests(t, x, c);
  }

  lemma {:induction false} InsertChildNests(children: seq<SourceFragment>, x: SourceFragment)
    requires WellNested(children) && WellNested([x]) && InsertChild(children, x).Ok?
    ensures WellNested(InsertChild(children, x).value)
    ensures children == [] ==> InsertChild(children, x).value == [x]
    ensures children != [] ==> WithinPair(InsertChild(children, x).value, children, x)
    decreases Size(children) + Size([x]), 0, 2
  {
    if children != [] {
      InsertNests(children, x);
    }
  }

  lemma {:induction false} InsertAroundNests(t: seq<SourceFragment>, x: SourceFragment)
    requires NestedPair(t, x) && Compare(t[0], x) == Ok(OtherIsParent) && InsertAround(t, x).Ok?
    ensures WellNested(InsertAround(t, x).value) && WithinPair(InsertAround(t, x).value, t, x)
    decreases Size(t) + Size([x]), 0, 0
  {
    InsertAroundStep(t, x);
    var k := 1 + |AbsorbSiblings(x, t[1..]).value.kept|;
    AbsorbedPrefix(t, x);
    AdoptedItems(t, x, k);
    assert [x][1..] == [];
    InsertAllNests(x.children, t[..k], x);
    CutNests(t, x, k, InsertAll(x.children, t[..k]).value);
  }

  /** InsertAround unfolded: `x` takes the first `k` fragments of `t`, the rest follows it. */
  lemma InsertAroundStep(t: seq<SourceFragment>, x: SourceFragment)
    requires t != [] && InsertAround(t, x).Ok?
    ensures AbsorbSiblings(x, t[1..]).Ok?
    ensures var k := 1 + |AbsorbSiblings(x, t[1..]).value.kept|;
            && k <= |t|
            && Size(x.children) + Size(t[..k]) < Size(t) + Size([x])
            && InsertAll(x.children, t[..k]).Ok?
            && InsertAround(t, x).value == [x.(children := InsertAll(x.children, t[..k]).value)] + t[k..]
  {
    var s := AbsorbSiblings(x, t[1..]).value;
    var k := 1 + |s.kept|;
    assert s.kept + s.cut == t[1..];
    AdoptedSize(t, x, k);
    assert InsertAll(x.children, t[..k]).Ok?;
  }

  lemma AdoptedSize(t: seq<SourceFragment>, x: SourceFragment, k: nat)
    requires k <= |t|
    ensures Size(x.children) + Size(t[..k]) < Size(t) + Size([x])
  {
    SizeAppend(t[..k], t[k..]);
    assert t[..k] + t[k..] == t;
    SizeCons(x, []);
    assert [x] + [] == [x];
  }

  /** The fragments SourceFragment#add walks into `x` all lie inside it; the first one left lies after it. */
  lemma AbsorbedPrefix(t: seq<SourceFragment>, x: SourceFragment)
    requires t != [] && Compare(t[0], x) == Ok(OtherIsParent) && AbsorbSiblings(x, t[1..]).Ok?
    ensures var k := 1 + |AbsorbSiblings(x, t[1..]).value.kept|;
            && k <= |t|
            && (forall i :: 0 <= i < k ==> Inside(t[i], x))
            && (k < |t| ==> x.end <= t[k].start)
  {
    var s := AbsorbSiblings(x, t[1..]).value;
    AbsorbSiblingsClassifies(x, t[1..]);
    var k := 1 + |s.kept|;
    assert s.kept + s.cut == t[1..];
    assert forall i :: 0 < i < k ==> t[i] == s.kept[i - 1];
    assert k < |t| ==> t[k] == s.cut[0];
  }

  /** The fragments `x` adopts are well nested on their own and lie inside it. */
  lemma AdoptedItems(t: seq<SourceFragment>, x: SourceFragment, k: nat)
    requires WellNested(t) && 0 < k <= |t| && forall i :: 0 <= i < k ==> Inside(t[i], x)
    ensures forall i :: 0 <= i < k ==> WellNested([t[..k][i]]) && Inside(t[..k][i], x)
  {
    forall i | 0 <= i < k
      ensures WellNested([t[..k][i]])
    {
      WellNestedMember(t, i);
    }
  }

  /** `x`, with the well-nested children `c` inside it, followed by the part of `t` after it. */
  lemma CutNests(t: seq<SourceFragment>, x: SourceFragment, k: nat, c: seq<SourceFragment>)
    requires NestedPair(t, x) && 0 < k <= |t| && WellNested(c) && Bounded(c, x.start, x.end)
    requires Inside(t[0], x) && (k < |t| ==> x.end <= t[k].start)
    ensures WellNested([x.(children := c)] + t[k..]) && WithinPair([x.(children := c)] + t[k..], t, x)
  {
    assert [x][1..] == [];
    AdoptNests(x, c);
    WellNestedSuffix(t, k);
    TopSpan(t);
    var cut := t[k..];
    if cut != [] {
      TopSpan(cut);
      assert forall i :: 0 <= i < |cut| ==> cut[i] == t[k + i];
      PrependNests(x.(children := c), cut, cut[0].start, t[|t| - 1].end);
    } else {
      PrependNests(x.(children := c), [], x.end, x.end);
    }
  }

  lemma {:induction false} InsertAllNests(acc: seq<SourceFragment>, items: seq<SourceFragment>, p: SourceFragment)
    requires WellNested(acc) && Bounded(acc, p.start, p.end)
    requires forall i :: 0 <= i < |items| ==> WellNested([items[i]]) && Inside(items[i], p)
    requires InsertAll(acc, items).Ok?
    ensures WellNested(InsertAll(acc, items).value) && Bounded(InsertAll(acc, items).value, p.start, p.end)
    decreases Size(acc) + Size(items), |items|, 3
  {
    if items != [] {
      assert items == [items[0]] + items[1..];
      SizeCons(items[0], items[1..]);
      SizeCons(items[0], []);
      assert [items[0]] + [] == [items[0]];
      var a := InsertChild(acc, items[0]).value;
      assert InsertAll(acc, items) == InsertAll(a, items[1..]);
      InsertChildNests(acc, items[0]);
      InsertedBounded(acc, items[0], a, p);
      assert forall i :: 0 <= i < |items[1..]| ==> items[1..][i] == items[i + 1];
      InsertAllNests(a, items[1..], p);
    }
  }

  /** The corrected insertion loses no fragment and duplicates none: the identities are those of `t` and `x`. */
  lemma {:induction false} InsertKeepsIds(t: seq<SourceFragment>, x: SourceFragment)
    requires t != [] && Insert(t, x).Ok?
    ensures Ids(Insert(t, x).value) == Ids(t) + Ids([x])
    decreases Size(t) + Size([x]), 0, 1
  {
    assert t == [t[0]] + t[1..];
    SizeCons(t[0], t[1..]);
    match Compare(t[0], x).value
    case OtherIsAfter =>
      if |t| == 1 {
        assert Insert(t, x).value == t + [x];
        IdsAppend(t, [x]);
      } else {
        var rest := Insert(t[1..], x).value;
        assert Insert(t, x).value == [t[0]] + rest;
        InsertKeepsIds(t[1..], x);
        ConsKeepsIds(t, [x], rest);
      }
    case OtherIsBefore =>
      assert Insert(t, x).value == [x] + t;
      IdsAppend([x], t);
      SumSwap(Ids([x] + t), Ids([x]), Ids(t));
    case OtherIsChild =>
      var c := InsertChild(t[0].children, x).value;
      assert Insert(t, x).value == [t[0].(children := c)] + t[1..];
      InsertChildKeepsIds(t[0].children, x);
      HeadChildrenIds(t, t[0].(children := c), Ids([x]));
    case OtherIsParent =>
      assert Insert(t, x) == InsertAround(t, x);
      InsertAroundKeepsIds(t, x);
  }

  /** The identities of a chain whose head gets more descendants. */
  lemma HeadChildrenIds(t: seq<SourceFragment>, h: SourceFragment, extra: multiset<FragId>)
    requires t != [] && h.id == t[0].id && Ids(h.children) == Ids(t[0].children) + extra
    ensures Ids([h] + t[1..]) == Ids(t) + extra
  {
    IdsCons(h, t[1..]);
    IdsCons(t[0], t[1..]);
    assert t == [t[0]] + t[1..];
    SumGrowMiddle(Ids([h] + t[1..]), multiset{h.id}, Ids(h.children), Ids(t[1..]), Ids(t), Ids(t[0].children), extra);
  }

  lemma {:induction false} InsertChildKeepsIds(children: seq<SourceFragment>, x: SourceFragment)
    requires InsertChild(children, x).Ok?
    ensures Ids(InsertChild(children, x).value) == Ids(children) + Ids([x])
    decreases Size(children) + Size([x]), 0, 2
  {
    if children != [] {
      InsertKeepsIds(children, x);
    }
  }

  lemma {:induction false} InsertAroundKeepsIds(t: seq<SourceFragment>, x: SourceFragment)
    requires t != [] && InsertAround(t, x).Ok?
    ensures Ids(InsertAround(t, x).value) == Ids(t) + Ids([x])
    decreases Size(t) + Size([x]), 0, 0
  {
    InsertAroundStep(t, x);
    var k := 1 + |AbsorbSiblings(x, t[1..]).value.kept|;
    InsertAllKeepsIds(x.children, t[..k]);
    AdoptedIds(t, x, k, InsertAll(x.children, t[..k]).value);
  }

  /** `x` given the children `c`, which hold its old ones and the first `k` fragments of `t`, followed by the rest of `t`. */
  lemma AdoptedIds(t: seq<SourceFragment>, x: SourceFragment, k: nat, c: seq<SourceFragment>)
    requires k <= |t| && Ids(c) == Ids(x.children) + Ids(t[..k])
    ensures Ids([x.(children := c)] + t[k..]) == Ids(t) + Ids([x])
  {
    var r := Ids([x.(children := c)] + t[k..]);
    var a, b, xs, ts := Ids(c), Ids(t[k..]), Ids([x]), Ids(t);
    assert r == multiset{x.id} + a + b by {
      IdsCons(x.(children := c), t[k..]);
    }
    assert xs == multiset{x.id} + Ids(x.children) by {
      IdsSingle(x);
    }
    assert ts == Ids(t[..k]) + b by {
      IdsSplit(t, k);
    }
    SumAdopt(r, multiset{x.id}, a, b, Ids(x.children), Ids(t[..k]), xs, multiset{}, ts);
  }

  lemma IdsSingle(x: SourceFragment)
    ensures Ids([x]) == multiset{x.id} + Ids(x.children)
  {
    IdsCons(x, []);
    assert [x] + [] == [x];
  }

  lemma IdsSplit(t: seq<SourceFragment>, k: nat)
    requires k <= |t|
    ensures Ids(t) == Ids(t[..k]) + Ids(t[k..])
  {
    var a, b := t[..k], t[k..];
    assert a + b == t;
    IdsAppend(a, b);
  }

  lemma {:induction false} InsertAllKeepsIds(acc: seq<SourceFragment>, items: seq<SourceFragment>)
    requires InsertAll(acc, items).Ok?
    ensures Ids(InsertAll(acc, items).value) == Ids(acc) + Ids(items)
    decreases Size(acc) + Size(items), |items|, 3
  {
    if items != [] {
      assert items == [items[0]] + items[1..];
      SizeCons(items[0], items[1..]);
      SizeCons(items[0], []);
      assert [items[0]] + [] == [items[0]];
      var a := InsertChild(acc, items[0]).value;
      assert InsertAll(acc, items) == InsertAll(a, items[1..]);
      InsertChildKeepsIds(acc, items[0]);
      InsertAllKeepsIds(a, items[1..]);
      IdsAppend([items[0]], items[1..]);
      SumShift(Ids(InsertAll(acc, items).value), Ids(a), Ids(items[1..]), Ids(acc), Ids([items[0]]), Ids(items));
    }
  }

  /** A fragment inside `p` inserted among fragments inside `p` leaves them all inside `p`. */
  lemma InsertedBounded(acc: seq<SourceFragment>, y: SourceFragment, a: seq<SourceFragment>, p: SourceFragment)
    requires Bounded(acc, p.start, p.end) && Inside(y, p)
    requires acc == [] ==> a == [y]
    requires acc != [] ==> WithinPair(a, acc, y)
    ensures Bounded(a, p.start, p.end)
  {
    if acc != [] {
      assert acc[0].start >= p.start && acc[|acc| - 1].end <= p.end;
    }
  }

  // Regrouping sums of multisets, element by element.

  lemma SumSwap<T>(r: multiset<T>, a: multiset<T>, b: multiset<T>)
    requires r == a + b
    ensures r == b + a
  {
    forall e ensures r[e] == (b + a)[e] { }
  }

  lemma SumGrowMiddle<T>(r: multiset<T>, i: multiset<T>, m: multiset<T>, s: multiset<T>,
                         t: multiset<T>, m0: multiset<T>, extra: multiset<T>)
    requires r == i + m + s && t == i + m0 + s && m == m0 + extra
    ensures r == t + extra
  {
    forall e ensures r[e] == (t + extra)[e] { }
  }

  lemma SumAdopt<T>(r: multiset<T>, i: multiset<T>, c: multiset<T>, cut: multiset<T>, xc: multiset<T>,
                    pre: multiset<T>, x: multiset<T>, none: multiset<T>, t: multiset<T>)
    requires r == i + c + cut && c == xc + pre && x == i + xc + none && none == multiset{} && t == pre + cut
    ensures r == t + x
  {
    forall e ensures r[e] == (t + x)[e] { }
  }

  lemma SumShift<T>(r: multiset<T>, a: multiset<T>, s: multiset<T>, acc: multiset<T>, h: multiset<T>, items: multiset<T>)
    requires r == a + s && a == acc + h && items == h + s
    ensures r == acc + items
  {
    forall e ensures r[e] == (acc + items)[e] { }
  }

  // Connecting the fragment of a scanned element to the tree.

  /** What addChild(parentFragment, otherElement) does with the element's fragment. */
  datatype Placement =
    | NoFragment
    | UnderParent(fragment: SourceFragment, newParent: SourceFragment)
    | UnderRoot(fragment: SourceFragment, newRoot: SourceFragment)

  /**
   * addChild(parentFragment, otherElement): no fragment for an element without a
   * concrete position in a compilation unit, or sharing the parent's position
   * instance; an error for another compilation unit (and, as a null dereference,
   * when the parent has none); otherwise a new MAIN fragment, added below the
   * parent when it lies inside it, below the root when it lies before or after it,
   * and an error when it encloses or overlaps the parent. The fragment is added
   * with the source's own insertion, AddChild. The fragment returned is the one
   * created; when the insertion makes it adopt fragments, the node in the tree is
   * that fragment with those children (the new parent's or root's children hold it).
   */
  function PlaceElement(root: SourceFragment, parent: SourceFragment, serial: nat, element: nat,
                        other: Option<SourcePosition>): (r: Result<Placement>)
    ensures r == Ok(NoFragment)
            <==> other.None? || other.value.cu.None? || other.value.id == parent.position.id
    ensures other.Some? && other.value.cu.Some? && other.value.id != parent.position.id
            && (parent.position.cu.None? || parent.position.cu.value.id != other.value.cu.value.id)
            ==> r.Err?
    ensures r.Ok? && !r.value.NoFragment? ==>
              && other.Some? && r.value.fragment.position == other.value
              && r.value.fragment.element == Some(element) && r.value.fragment.fragmentType == MainFragment
    ensures r.Ok? && r.value.UnderParent? ==>
              && parent.start <= r.value.fragment.start && r.value.fragment.end <= parent.end
              && AddChild(parent, [r.value.fragment]) == Ok(r.value.newParent)
              && r.value.newParent == parent.(children := r.value.newParent.children)
              && Ids(r.value.newParent.children) == Ids(parent.children) + Ids([r.value.fragment])
    ensures r.Ok? && r.value.UnderRoot? ==>
              && (r.value.fragment.end <= parent.start || parent.end <= r.value.fragment.start)
              && AddChild(root, [r.value.fragment]) == Ok(r.value.newRoot)
              && r.value.newRoot == root.(children := r.value.newRoot.children)
              && Ids(r.value.newRoot.children) == Ids(root.children) + Ids([r.value.fragment])
  {
    if other.None? || other.value.cu.None? then Ok(NoFragment)
    else if other.value.id == parent.position.id then Ok(NoFragment)
    else if parent.position.cu.None? then Err("NullPointerException: the parent fragment has no compilation unit")
    else if parent.position.cu.value.id != other.value.cu.value.id then
      Err("SourcePosition from unexpected compilation unit")
    else
      var f :- NewMainFragment(serial, Some(element), other.value);
      var cmp :- Compare(parent, f);
      if cmp == OtherIsChild then
        var p :- AddChild(parent, [f]);
        AddChildKeepsIds(parent, [f]);
        Ok(UnderParent(f, p))
      else if cmp == OtherIsAfter || cmp == OtherIsBefore then
        var p :- AddChild(root, [f]);
        AddChildKeepsIds(root, [f]);
        Ok(UnderRoot(f, p))
      else
        Err("The SourcePosition of elements are not consistent")
  }

  /**
   * PlaceElement with the corrected insertion, Insert, in place of SourceFragment#add:
   * the same decisions, the element's fragment inserted among the children by position.
   */
  function PlaceElementCorrected(root: SourceFragment, parent: SourceFragment, serial: nat, element: nat,
                                 other: Option<SourcePosition>): (r: Result<Placement>)
    ensures r == Ok(NoFragment)
            <==> other.None? || other.value.cu.None? || other.value.id == parent.position.id
    ensures other.Some? && other.value.cu.Some? && other.value.id != parent.position.id
            && (parent.position.cu.None? || parent.position.cu.value.id != other.value.cu.value.id)
            ==> r.Err?
    ensures r.Ok? && !r.value.NoFragment? ==>
              && other.Some? && r.value.fragment.position == other.value
              && r.value.fragment.element == Some(element) && r.value.fragment.fragmentType == MainFragment
    ensures r.Ok? && r.value.UnderParent? ==>
              && parent.start <= r.value.fragment.start && r.value.fragment.end <= parent.end
              && r.value.newParent == parent.(children := r.value.newParent.children)
              && InsertChild(parent.children, r.value.fragment) == Ok(r.value.newParent.children)
              && Ids(r.value.newParent.children) == Ids(parent.children) + Ids([r.value.fragment])
    ensures r.Ok? && r.value.UnderRoot? ==>
              && (r.value.fragment.end <= parent.start || parent.end <= r.value.fragment.start)
              && r.value.newRoot == root.(children := r.value.newRoot.children)
              && InsertChild(root.children, r.value.fragment) == Ok(r.value.newRoot.children)
              && Ids(r.value.newRoot.children) == Ids(root.children) + Ids([r.value.fragment])
  {
    if other.None? || other.value.cu.None? then Ok(NoFragment)
    else if other.value.id == parent.position.id then Ok(NoFragment)
    else if parent.position.cu.None? then Err("NullPointerException: the parent fragment has no compilation unit")
    else if parent.position.cu.value.id != other.value.cu.value.id then
      Err("SourcePosition from unexpected compilation unit")
    else
      var f :- NewMainFragment(serial, Some(element), other.value);
      var cmp :- Compare(parent, f);
      if cmp == OtherIsChild then
        var c :- InsertChild(parent.children, f);
        InsertChildKeepsIds(parent.children, f);
        Ok(UnderParent(f, parent.(children := c)))
      else if cmp == OtherIsAfter || cmp == OtherIsBefore then
        var c :- InsertChild(root.children, f);
        InsertChildKeepsIds(root.children, f);
        Ok(UnderRoot(f, root.(children := c)))
      else
        Err("The SourcePosition of elements are not consistent")
  }

  /** An element whose fragment encloses the parent's is rejected as inconsistent. */
  lemma EnclosingElementRejected(root: SourceFragment, parent: SourceFragment, serial: nat, element: nat, other: SourcePosition)
    requires other.cu.Some? && other.id != parent.position.id
    requires parent.position.cu.Some? && parent.position.cu.value.id == other.cu.value.id
    requires NewMainFragment(serial, Some(element), other).Ok?
    requires Compare(parent, NewMainFragment(serial, Some(element), other).value) == Ok(OtherIsParent)
    ensures PlaceElement(root, parent, serial, element, Some(other)).Err?
  {
  }

  /**
   * Placing an element as the source does keeps the tree it goes into well nested,
   * when its own fragment is, and the fragment either has no sub-fragments or
   * encloses no fragment below the node it is added to (AddNests).
   */
  lemma PlaceElementNests(root: SourceFragment, parent: SourceFragment, serial: nat, element: nat,
                          other: Option<SourcePosition>)
    requires WellNested(root.children) && WellNested([parent])
    ensures var r := PlaceElement(root, parent, serial, element, other);
            r.Ok? && r.value.UnderParent? && WellNested([r.value.fragment])
            && (r.value.fragment.children == []
                || forall n | n in Nodes(parent.children) :: Compare(n, r.value.fragment) != Ok(OtherIsParent))
            ==> WellNested([r.value.newParent])
    ensures var r := PlaceElement(root, parent, serial, element, other);
            r.Ok? && r.value.UnderRoot? && WellNested([r.value.fragment])
            && (r.value.fragment.children == []
                || forall n | n in Nodes(root.children) :: Compare(n, r.value.fragment) != Ok(OtherIsParent))
            ==> WellNested(r.value.newRoot.children)
  {
    var r := PlaceElement(root, parent, serial, element, other);
    if r.Ok? && r.value.UnderParent? && WellNested([r.value.fragment]) {
      var f := r.value.fragment;
      if f.children == [] || forall n | n in Nodes(parent.children) :: Compare(n, f) != Ok(OtherIsParent) {
        assert [parent][1..] == [];
        if parent.children == [] {
          ChildInsertedNests(parent, f, [f]);
        } else {
          AddNests(parent.children, f);
          ChildInsertedNests(parent, f, r.value.newParent.children);
        }
      }
    } else if r.Ok? && r.value.UnderRoot? && WellNested([r.value.fragment]) {
      var f := r.value.fragment;
      if root.children != [] && (f.children == [] || forall n | n in Nodes(root.children) :: Compare(n, f) != Ok(OtherIsParent)) {
        AddNests(root.children, f);
      }
    }
  }

  /** Placing an element with the corrected insertion keeps the tree well nested, when its own fragment is. */
  lemma PlaceElementCorrectedNests(root: SourceFragment, parent: SourceFragment, serial: nat, element: nat,
                                   other: Option<SourcePosition>)
    requires WellNested(root.children) && WellNested([parent])
    ensures var r := PlaceElementCorrected(root, parent, serial, element, other);
            r.Ok? && r.value.UnderParent? && WellNested([r.value.fragment]) ==> WellNested([r.value.newParent])
    ensures var r := PlaceElementCorrected(root, parent, serial, element, other);
            r.Ok? && r.value.UnderRoot? && WellNested([r.value.fragment]) ==> WellNested(r.value.newRoot.children)
  {
    var r := PlaceElementCorrected(root, parent, serial, element, other);
    if r.Ok? && r.value.UnderParent? && WellNested([r.value.fragment]) {
      assert [parent][1..] == [];
      InsertChildNests(parent.children, r.value.fragment);
      ChildInsertedNests(parent, r.value.fragment, r.value.newParent.children);
    } else if r.Ok? && r.value.UnderRoot? && WellNested([r.value.fragment]) {
      InsertChildNests(root.children, r.value.fragment);
    }
  }

  /** A fragment inside `parent`, inserted among its children, leaves `parent` well nested. */
  lemma ChildInsertedNests(parent: SourceFragment, f: SourceFragment, c: seq<SourceFragment>)
    requires WellNested([parent]) && Inside(f, parent) && WellNested(c)
    requires parent.children == [] ==> c == [f]
    requires parent.children != [] ==> WithinPair(c, parent.children, f)
    ensures WellNested([parent.(children := c)])
  {
    assert [parent][1..] == [];
    var ch := parent.children;
    if ch != [] {
      TopSpan(ch);
      assert Inside(ch[0], parent) && Inside(ch[|ch| - 1], parent);
    }
    AdoptNests(parent, c);
  }

}
