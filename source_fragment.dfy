/**
 * The tree of source fragments of one compilation unit: every fragment is a
 * half-open interval [start, end) of the original text; fragments nest or follow
 * each other, and are linked as first-child / next-sibling chains.
 *
 * A chain is modelled as a sequence: a fragment's next siblings are the rest of
 * the sequence it heads, and its first child heads its `children` sequence.
 */
module SourceFragments {
  import opened Outcomes
  import opened FragmentTypes
  import FD = FragmentDescriptors

  /** A compilation unit (source file) and its original text, when known. */
  datatype CompilationUnit = CompilationUnit(id: nat, originalSourceCode: Option<string>)

  datatype BodyOffsets = BodyOffsets(bodyStart: int, bodyEnd: int)

  /** The extra offsets of a declaration; `body` is present for body holders. */
  datatype DeclarationOffsets = DeclarationOffsets(
    modifierSourceStart: int, modifierSourceEnd: int,
    nameStart: int, nameEnd: int,
    body: Option<BodyOffsets>)

  /**
   * A concrete source position. End offsets are inclusive, as in the source;
   * `id` stands for the identity of the position object.
   */
  datatype SourcePosition = SourcePosition(
    id: nat,
    cu: Option<CompilationUnit>,
    sourceStart: int, sourceEnd: int,
    declaration: Option<DeclarationOffsets>)

  /** Fragment kinds other than MAIN exist only for declarations, BODY only for body holders. */
  predicate Applicable(sp: SourcePosition, ft: FragmentType) {
    ft == MainFragment || (sp.declaration.Some? && (ft == Body ==> sp.declaration.value.body.Some?))
  }

  /** Offset of the first character of the fragment of kind `ft`. */
  function GetStart(sp: SourcePosition, ft: FragmentType): (r: int)
    requires Applicable(sp, ft)
    ensures ft == MainFragment ==> r == sp.sourceStart
    ensures ft == BeforeName ==> r == GetEnd(sp, Modifiers)
    ensures ft == Name ==> r == GetEnd(sp, BeforeName)
    ensures ft == AfterName ==> r == GetEnd(sp, Name)
    ensures ft == Body ==> r == GetEnd(sp, AfterName)
  {
    match ft
    case MainFragment => sp.sourceStart
    case Modifiers => sp.declaration.value.modifierSourceStart
    case BeforeName => sp.declaration.value.modifierSourceEnd + 1
    case Name => sp.declaration.value.nameStart
    case AfterName => sp.declaration.value.nameEnd + 1
    case Body => sp.declaration.value.body.value.bodyStart
  }

  /** Offset of the character after the fragment of kind `ft`. */
  function GetEnd(sp: SourcePosition, ft: FragmentType): (r: int)
    requires Applicable(sp, ft)
    ensures ft == MainFragment ==> r == sp.sourceEnd + 1
    ensures ft == AfterName && sp.declaration.value.body.None? ==> r == sp.sourceEnd + 1
    ensures ft == Body ==> r == sp.declaration.value.body.value.bodyEnd + 1
  {
    match ft
    case MainFragment => sp.sourceEnd + 1
    case Modifiers => sp.declaration.value.modifierSourceEnd + 1
    case BeforeName => sp.declaration.value.nameStart
    case Name => sp.declaration.value.nameEnd + 1
    case AfterName =>
      if sp.declaration.value.body.Some? then sp.declaration.value.body.value.bodyStart
      else sp.sourceEnd + 1
    case Body => sp.declaration.value.body.value.bodyEnd + 1
  }

  /** Consecutive sub-fragments of a declaration abut, and the last one ends where the declaration ends. */
  lemma SubFragmentsAbut(sp: SourcePosition)
    requires sp.declaration.Some?
    ensures GetEnd(sp, Modifiers) == GetStart(sp, BeforeName)
    ensures GetEnd(sp, BeforeName) == GetStart(sp, Name)
    ensures GetEnd(sp, Name) == GetStart(sp, AfterName)
    ensures sp.declaration.value.body.Some? ==> GetEnd(sp, AfterName) == GetStart(sp, Body)
    ensures sp.declaration.value.body.None? ==> GetEnd(sp, AfterName) == GetEnd(sp, MainFragment)
  {
  }

  /** The identity of a fragment object: the serial of the MAIN fragment it was created with, and its kind. */
  datatype FragId = FragId(serial: nat, part: FragmentType)

  /**
   * One fragment. `element` is the identity of the syntax element it belongs to
   * (None for null); `start` and `end` are fixed at creation from the position.
   */
  datatype SourceFragment = SourceFragment(
    id: FragId,
    element: Option<nat>,
    position: SourcePosition,
    fragmentType: FragmentType,
    start: int,
    end: int,
    modified: bool,
    fragmentDescriptor: Option<FD.FragmentDescriptor>,
    children: seq<SourceFragment>)

  /** A fragment as the private constructor creates it: unmodified, no descriptor, no children. */
  function NewFragment(serial: nat, element: Option<nat>, sp: SourcePosition, ft: FragmentType): (f: SourceFragment)
    requires Applicable(sp, ft)
    ensures f.start == GetStart(sp, ft) && f.end == GetEnd(sp, ft)
    ensures f.id == FragId(serial, ft) && f.children == [] && !f.modified
  {
    SourceFragment(FragId(serial, ft), element, sp, ft, GetStart(sp, ft), GetEnd(sp, ft), false, None, [])
  }

  /** The identities of all fragments of a chain, their descendants included. */
  function Ids(c: seq<SourceFragment>): multiset<FragId>
  {
    if c == [] then multiset{} else multiset{c[0].id} + Ids(c[0].children) + Ids(c[1..])
  }

  /** The number of fragments in a chain, descendants included. */
  function Size(c: seq<SourceFragment>): nat
  {
    if c == [] then 0 else 1 + Size(c[0].children) + Size(c[1..])
  }

  lemma {:induction false} SizeIsIdsCount(c: seq<SourceFragment>)
    ensures Size(c) == |Ids(c)|
  {
    if c != [] {
      SizeIsIdsCount(c[0].children);
      SizeIsIdsCount(c[1..]);
    }
  }

  lemma {:induction false} IdsAppend(a: seq<SourceFragment>, b: seq<SourceFragment>)
    ensures Ids(a + b) == Ids(a) + Ids(b)
  {
    if a != [] {
      assert (a + b)[0] == a[0];
      assert (a + b)[1..] == a[1..] + b;
      IdsAppend(a[1..], b);
    } else {
      assert a + b == b;
    }
  }

  lemma {:induction false} SizeAppend(a: seq<SourceFragment>, b: seq<SourceFragment>)
    ensures Size(a + b) == Size(a) + Size(b)
  {
    if a != [] {
      assert (a + b)[0] == a[0];
      assert (a + b)[1..] == a[1..] + b;
      SizeAppend(a[1..], b);
    } else {
      assert a + b == b;
    }
  }

  lemma SizeCons(x: SourceFragment, rest: seq<SourceFragment>)
    ensures Size([x] + rest) == 1 + Size(x.children) + Size(rest)
  {
    assert ([x] + rest)[0] == x;
    assert ([x] + rest)[1..] == rest;
  }

  lemma IdsCons(x: SourceFragment, rest: seq<SourceFragment>)
    ensures Ids([x] + rest) == multiset{x.id} + Ids(x.children) + Ids(rest)
  {
    assert ([x] + rest)[0] == x;
    assert ([x] + rest)[1..] == rest;
  }

  /** How `other` lies relative to `this`. */
  datatype Cmp = OtherIsBefore | OtherIsAfter | OtherIsChild | OtherIsParent

  /** Two intervals are laminar when they are disjoint or one contains the other. */
  predicate Laminar(a: SourceFragment, b: SourceFragment) {
    a.end <= b.start || b.end <= a.start
    || (a.start <= b.start && b.end <= a.end)
    || (b.start <= a.start && a.end <= b.end)
  }

  /**
   * Classifies `other` against `this`, in the order AFTER, BEFORE, CHILD, PARENT;
   * fails for the same fragment and for partial overlap.
   */
  function Compare(self: SourceFragment, other: SourceFragment): (r: Result<Cmp>)
    ensures r.Ok? <==> self.id != other.id && Laminar(self, other)
    ensures r == Ok(OtherIsAfter) <==> self.id != other.id && self.end <= other.start
    ensures r == Ok(OtherIsBefore) <==> self.id != other.id && other.start < self.end && other.end <= self.start
    ensures r == Ok(OtherIsChild)
            <==> self.id != other.id && other.start < self.end && self.start < other.end
                 && self.start <= other.start && other.end <= self.end
    ensures r == Ok(OtherIsParent)
            <==> self.id != other.id && other.start < self.end && self.start < other.end
                 && !(self.start <= other.start && other.end <= self.end)
                 && other.start <= self.start && self.end <= other.end
    ensures r.Ok? && self.start <= other.start && other.end <= self.end && other.start < other.end
            ==> r == Ok(OtherIsChild)
  {
    if other.id == self.id then
      Err("SourcePositionImpl#addNextSibling must not be called twice for the same SourcePosition")
    else if self.end <= other.start then Ok(OtherIsAfter)
    else if other.end <= self.start then Ok(OtherIsBefore)
    else if self.start <= other.start && self.end >= other.end then Ok(OtherIsChild)
    else if self.start >= other.start && self.end <= other.end then Ok(OtherIsParent)
    else Err("Cannot compare self with other: the fragments overlap")
  }

  /** For non-empty intervals the classification is symmetric; identical bounds nest as CHILD both ways. */
  lemma CompareSwap(a: SourceFragment, b: SourceFragment)
    requires a.id != b.id && a.start < a.end && b.start < b.end
    ensures Compare(a, b) == Ok(OtherIsAfter) <==> Compare(b, a) == Ok(OtherIsBefore)
    ensures Compare(a, b) == Ok(OtherIsBefore) <==> Compare(b, a) == Ok(OtherIsAfter)
    ensures (a.start, a.end) != (b.start, b.end) ==>
              (Compare(a, b) == Ok(OtherIsChild) <==> Compare(b, a) == Ok(OtherIsParent))
    ensures (a.start, a.end) == (b.start, b.end) ==>
              Compare(a, b) == Ok(OtherIsChild) && Compare(b, a) == Ok(OtherIsChild)
  {
  }

  /**
   * Inserts the chain `o` (a fragment with its next siblings) into the chain `t`
   * (this fragment with its next siblings) and returns the new head of `t`:
   * `this` when `o` is after or inside it, `o` when `o` is before or around it.
   */
  function Add(t: seq<SourceFragment>, o: seq<SourceFragment>): (r: Result<seq<SourceFragment>>)
    requires t != [] && o != []
    ensures r.Ok? ==> r.value != [] && Size(r.value) == Size(t) + Size(o)
    ensures r.Ok? ==> Compare(t[0], o[0]).Ok?
    ensures r.Ok? ==> r.value[0].id == (if Compare(t[0], o[0]) in {Ok(OtherIsBefore), Ok(OtherIsParent)}
                                        then o[0].id else t[0].id)
    decreases Size(t) + Size(o), 3
  {
    if t[0].id == o[0].id then
      Err("SourceFragment#add must not be called twice for the same SourceFragment")
    else
      match Compare(t[0], o[0])
      case Err(m) => Err(m)
      case Ok(OtherIsAfter) => AddNextSibling(t, o)
      case Ok(OtherIsBefore) => AddNextSibling(o, t)
      case Ok(OtherIsChild) => AddIntoHead(t, o)
      case Ok(OtherIsParent) => AddAroundHead(t, o)
  }

  /** `o` lies inside the fragment heading `t`: it becomes one of its children. */
  function AddIntoHead(t: seq<SourceFragment>, o: seq<SourceFragment>): (r: Result<seq<SourceFragment>>)
    requires t != [] && o != []
    ensures r.Ok? ==> r.value != [] && r.value[0].id == t[0].id && Size(r.value) == Size(t) + Size(o)
    decreases Size(t) + Size(o), 2
  {
    var h :- AddChild(t[0], o);
    SizeCons(t[0], t[1..]);
    SizeCons(h, t[1..]);
    Ok([h] + t[1..])
  }

  /**
   * The fragment heading `o` encloses the fragment heading `t`: `t` becomes its
   * child, together with those of `t`'s next siblings that also lie inside; the
   * first one after it and its followers become next siblings of `o`.
   */
  function AddAroundHead(t: seq<SourceFragment>, o: seq<SourceFragment>): (r: Result<seq<SourceFragment>>)
    requires t != [] && o != []
    ensures r.Ok? ==> r.value != [] && r.value[0].id == o[0].id && Size(r.value) == Size(t) + Size(o)
    decreases Size(t) + Size(o), 2
  {
    var p :- AddChild(o[0], t);
    var split :- MergeSiblingsOfChild(p, p.children, t[0].id);
    var p' := p.(children := split.kept);
    SizeCons(o[0], o[1..]);
    SizeCons(p', o[1..]);
    if split.cut == [] then Ok([p'] + o[1..])
    else AddNextSibling([p'] + o[1..], split.cut)
  }

  /** Appends the chain `sibling` after the fragment heading `x`, merging it into `x`'s next siblings. */
  function AddNextSibling(x: seq<SourceFragment>, sibling: seq<SourceFragment>): (r: Result<seq<SourceFragment>>)
    requires x != [] && sibling != []
    ensures r.Ok? ==> r.value != [] && r.value[0] == x[0] && Size(r.value) == Size(x) + Size(sibling)
    decreases Size(x) + Size(sibling), 1
  {
    SizeCons(x[0], x[1..]);
    assert x == [x[0]] + x[1..];
    if |x| == 1 then
      SizeAppend(x, sibling);
      Ok(x + sibling)
    else
      var rest :- Add(x[1..], sibling);
      SizeCons(x[0], rest);
      Ok([x[0]] + rest)
  }

  /** Inserts the chain `child` among the children of `n`. */
  function AddChild(n: SourceFragment, child: seq<SourceFragment>): (r: Result<SourceFragment>)
    requires child != []
    ensures r.Ok? ==> r.value == n.(children := r.value.children)
    ensures r.Ok? ==> r.value.children != [] && Size(r.value.children) == Size(n.children) + Size(child)
    decreases Size(n.children) + Size(child) + 1, 1
  {
    if n.children == [] then
      Ok(n.(children := child))
    else
      var c :- Add(n.children, child);
      Ok(n.(children := c))
  }

  /** The two parts a sibling chain is split into by MergeSiblingsOfChild. */
  datatype Split = Split(kept: seq<SourceFragment>, cut: seq<SourceFragment>, found: bool)

  /**
   * After the new parent `p` adopted the fragment `target`, walks `target`'s next
   * siblings: those inside `p` stay, the first one after `p` is cut off with its
   * own next siblings (to become `p`'s next sibling), anything else fails.
   * `target` is looked up by identity anywhere in `chain`.
   */
  function MergeSiblingsOfChild(p: SourceFragment, chain: seq<SourceFragment>, target: FragId): (r: Result<Split>)
    ensures r.Ok? ==> Size(r.value.kept) + Size(r.value.cut) == Size(chain)
    ensures r.Ok? && !r.value.found ==> r.value.kept == chain && r.value.cut == []
    decreases Size(chain)
  {
    if chain == [] then Ok(Split(chain, [], false))
    else if chain[0].id == target then
      var s :- AbsorbSiblings(p, chain[1..]);
      SizeAppend(s.kept, s.cut);
      SizeCons(chain[0], chain[1..]);
      SizeCons(chain[0], s.kept);
      Ok(Split([chain[0]] + s.kept, s.cut, true))
    else
      SizeCons(chain[0], chain[1..]);
      var inner :- MergeSiblingsOfChild(p, chain[0].children, target);
      if inner.found then
        var c0 := chain[0].(children := inner.kept);
        SizeCons(c0, chain[1..]);
        Ok(Split([c0] + chain[1..], inner.cut, true))
      else
        var rest :- MergeSiblingsOfChild(p, chain[1..], target);
        SizeCons(chain[0], rest.kept);
        assert rest.found || [chain[0]] + rest.kept == chain;
        Ok(Split([chain[0]] + rest.kept, rest.cut, rest.found))
  }

  /** The loop of mergeSiblingsOfChild over the siblings following the adopted fragment. */
  function AbsorbSiblings(p: SourceFragment, siblings: seq<SourceFragment>): (r: Result<Split>)
    ensures r.Ok? ==> r.value.kept + r.value.cut == siblings
  {
    if siblings == [] then Ok(Split([], [], true))
    else
      match Compare(p, siblings[0])
      case Ok(OtherIsChild) =>
        var s :- AbsorbSiblings(p, siblings[1..]);
        assert siblings == [siblings[0]] + siblings[1..];
        Ok(Split([siblings[0]] + s.kept, s.cut, true))
      case Ok(OtherIsAfter) =>
        Ok(Split([], siblings, true))
      case _ =>
        Err("Unexpected child SourceFragment")
  }

  /** The siblings kept under the new parent all lie inside it; the first one cut off lies after it. */
  lemma {:induction false} AbsorbSiblingsClassifies(p: SourceFragment, siblings: seq<SourceFragment>)
    requires AbsorbSiblings(p, siblings).Ok?
    ensures var r := AbsorbSiblings(p, siblings).value;
            && (forall i :: 0 <= i < |r.kept| ==> Compare(p, r.kept[i]) == Ok(OtherIsChild))
            && (r.cut != [] ==> Compare(p, r.cut[0]) == Ok(OtherIsAfter))
  {
    if siblings != [] && Compare(p, siblings[0]) == Ok(OtherIsChild) {
      AbsorbSiblingsClassifies(p, siblings[1..]);
      var s := AbsorbSiblings(p, siblings[1..]).value;
      var kept := [siblings[0]] + s.kept;
      assert AbsorbSiblings(p, siblings).value == Split(kept, s.cut, true);
      assert forall i :: 0 < i < |kept| ==> kept[i] == s.kept[i - 1];
    }
  }

  /** The walk fails exactly when a sibling before the first one after `p` is neither inside nor after it. */
  lemma {:induction false} AbsorbSiblingsFails(p: SourceFragment, siblings: seq<SourceFragment>)
    ensures AbsorbSiblings(p, siblings).Err?
            <==> exists j :: 0 <= j < |siblings| && Misplaced(p, siblings, j)
  {
    if siblings != [] {
      var c := Compare(p, siblings[0]);
      if c == Ok(OtherIsChild) {
        assert AbsorbSiblings(p, siblings).Err? <==> AbsorbSiblings(p, siblings[1..]).Err?;
        AbsorbSiblingsFails(p, siblings[1..]);
        MisplacedShift(p, siblings);
      } else if c != Ok(OtherIsAfter) {
        assert AbsorbSiblings(p, siblings).Err?;
        assert Misplaced(p, siblings, 0);
      } else {
        assert AbsorbSiblings(p, siblings).Ok?;
        forall j | 0 <= j < |siblings| ensures !Misplaced(p, siblings, j) {
          if j > 0 {
            assert Compare(p, siblings[0]) != Ok(OtherIsChild);
          }
        }
      }
    }
  }

  /** `siblings[j]` is neither inside nor after `p`, and all siblings before it are inside. */
  predicate Misplaced(p: SourceFragment, siblings: seq<SourceFragment>, j: nat)
    requires j < |siblings|
  {
    Compare(p, siblings[j]) != Ok(OtherIsChild) && Compare(p, siblings[j]) != Ok(OtherIsAfter)
    && forall i :: 0 <= i < j ==> Compare(p, siblings[i]) == Ok(OtherIsChild)
  }

  lemma MisplacedShift(p: SourceFragment, siblings: seq<SourceFragment>)
    requires siblings != [] && Compare(p, siblings[0]) == Ok(OtherIsChild)
    ensures (exists j :: 0 <= j < |siblings| && Misplaced(p, siblings, j))
            <==> exists j :: 0 <= j < |siblings[1..]| && Misplaced(p, siblings[1..], j)
  {
    forall j | 0 <= j < |siblings| - 1 && Misplaced(p, siblings[1..], j) ensures Misplaced(p, siblings, j + 1) {
      MisplacedLater(p, siblings, j);
    }
    forall j | 0 <= j < |siblings| && Misplaced(p, siblings, j) ensures j > 0 && Misplaced(p, siblings[1..], j - 1) {
      MisplacedEarlier(p, siblings, j);
    }
  }

  lemma MisplacedLater(p: SourceFragment, siblings: seq<SourceFragment>, j: nat)
    requires siblings != [] && Compare(p, siblings[0]) == Ok(OtherIsChild)
    requires j < |siblings| - 1 && Misplaced(p, siblings[1..], j)
    ensures Misplaced(p, siblings, j + 1)
  {
    var tail := siblings[1..];
    assert siblings[j + 1] == tail[j];
    forall i | 0 < i < j + 1 ensures Compare(p, siblings[i]) == Ok(OtherIsChild) {
      assert siblings[i] == tail[i - 1];
    }
  }

  lemma MisplacedEarlier(p: SourceFragment, siblings: seq<SourceFragment>, j: nat)
    requires siblings != [] && Compare(p, siblings[0]) == Ok(OtherIsChild)
    requires j < |siblings| && Misplaced(p, siblings, j)
    ensures j > 0 && Misplaced(p, siblings[1..], j - 1)
  {
    var tail := siblings[1..];
    assert tail[j - 1] == siblings[j];
    forall i | 0 <= i < j - 1 ensures Compare(p, tail[i]) == Ok(OtherIsChild) {
      assert tail[i] == siblings[i + 1];
    }
  }

  // Inserting a chain neither loses nor duplicates a fragment: the identities of
  // the result are exactly those of the two chains.

  lemma {:induction false} AddKeepsIds(t: seq<SourceFragment>, o: seq<SourceFragment>)
    requires t != [] && o != [] && Add(t, o).Ok?
    ensures Ids(Add(t, o).value) == Ids(t) + Ids(o)
    decreases Size(t) + Size(o), 3
  {
    match Compare(t[0], o[0])
    case Ok(OtherIsAfter) =>
      AddNextSiblingKeepsIds(t, o);
    case Ok(OtherIsBefore) =>
      AddNextSiblingKeepsIds(o, t);
    case Ok(OtherIsChild) =>
      AddIntoHeadKeepsIds(t, o);
    case Ok(OtherIsParent) =>
      AddAroundHeadKeepsIds(t, o);
  }

  lemma {:induction false} AddIntoHeadKeepsIds(t: seq<SourceFragment>, o: seq<SourceFragment>)
    requires t != [] && o != [] && AddIntoHead(t, o).Ok?
    ensures Ids(AddIntoHead(t, o).value) == Ids(t) + Ids(o)
    decreases Size(t) + Size(o), 2
  {
    var h := AddChild(t[0], o).value;
    assert AddIntoHead(t, o).value == [h] + t[1..];
    assert Ids(h.children) == Ids(t[0].children) + Ids(o) by {
      AddChildKeepsIds(t[0], o);
    }
    assert Ids([h] + t[1..]) == multiset{t[0].id} + Ids(h.children) + Ids(t[1..]) by {
      IdsCons(h, t[1..]);
    }
  }

  lemma {:induction false} AddAroundHeadKeepsIds(t: seq<SourceFragment>, o: seq<SourceFragment>)
    requires t != [] && o != [] && AddAroundHead(t, o).Ok?
    ensures Ids(AddAroundHead(t, o).value) == Ids(t) + Ids(o)
    decreases Size(t) + Size(o), 2
  {
    var p := AddChild(o[0], t).value;
    var split := MergeSiblingsOfChild(p, p.children, t[0].id).value;
    var p' := p.(children := split.kept);
    var head := [p'] + o[1..];
    var r := AddAroundHead(t, o).value;
    assert Ids(p.children) == Ids(o[0].children) + Ids(t) by {
      AddChildKeepsIds(o[0], t);
    }
    assert Ids(split.kept) + Ids(split.cut) == Ids(p.children) by {
      MergeKeepsIds(p, p.children, t[0].id);
    }
    assert Ids(head) + multiset{o[0].id} + Ids(o[0].children) == Ids(o) + multiset{o[0].id} + Ids(split.kept) by {
      ReplaceHeadIds(o, p');
    }
    assert Ids(r) == Ids(head) + Ids(split.cut) by {
      SizeCons(o[0], o[1..]);
      SizeCons(p', o[1..]);
      if split.cut == [] {
        assert r == head;
      } else {
        assert r == AddNextSibling(head, split.cut).value;
        AddNextSiblingKeepsIds(head, split.cut);
      }
    }
    MultisetCancel(Ids(r), Ids(head), Ids(split.cut), Ids(split.kept), Ids(p.children),
                   Ids(o), Ids(t), multiset{o[0].id}, Ids(o[0].children));
  }

  /** The identities of a chain whose head is replaced. */
  lemma ReplaceHeadIds(o: seq<SourceFragment>, h: SourceFragment)
    requires o != []
    ensures Ids([h] + o[1..]) + multiset{o[0].id} + Ids(o[0].children)
            == Ids(o) + multiset{h.id} + Ids(h.children)
  {
    IdsCons(h, o[1..]);
  }

  lemma MultisetCancel<T>(r: multiset<T>, head: multiset<T>, cut: multiset<T>, kept: multiset<T>,
                          children: multiset<T>, o: multiset<T>, t: multiset<T>, x: multiset<T>, c: multiset<T>)
    requires r == head + cut && head + x + c == o + x + kept
    requires kept + cut == children && children == c + t
    ensures r == t + o
  {
    forall e ensures r[e] == (t + o)[e] {
      assert r[e] == head[e] + cut[e];
      assert (head + x + c)[e] == (o + x + kept)[e];
      assert (kept + cut)[e] == (c + t)[e];
    }
  }

  lemma {:induction false} AddNextSiblingKeepsIds(x: seq<SourceFragment>, sibling: seq<SourceFragment>)
    requires x != [] && sibling != [] && AddNextSibling(x, sibling).Ok?
    ensures Ids(AddNextSibling(x, sibling).value) == Ids(x) + Ids(sibling)
    decreases Size(x) + Size(sibling), 1
  {
    AddNextSiblingCases(x, sibling);
    if |x| == 1 {
      IdsAppend(x, sibling);
    } else {
      SizeCons(x[0], x[1..]);
      assert x == [x[0]] + x[1..];
      assert Add(x[1..], sibling).Ok?;
      AddKeepsIds(x[1..], sibling);
      ConsKeepsIds(x, sibling, Add(x[1..], sibling).value);
    }
  }

  lemma ConsKeepsIds(x: seq<SourceFragment>, sibling: seq<SourceFragment>, rest: seq<SourceFragment>)
    requires x != [] && Ids(rest) == Ids(x[1..]) + Ids(sibling)
    ensures Ids([x[0]] + rest) == Ids(x) + Ids(sibling)
  {
    var a := multiset{x[0].id} + Ids(x[0].children);
    IdsCons(x[0], rest);
    assert Ids(x) == a + Ids(x[1..]) by {
      IdsCons(x[0], x[1..]);
      assert x == [x[0]] + x[1..];
    }
    MultisetRegroup(Ids([x[0]] + rest), a, Ids(rest), Ids(x[1..]), Ids(sibling), Ids(x));
  }

  lemma MultisetRegroup<T>(r: multiset<T>, a: multiset<T>, b: multiset<T>, c: multiset<T>, s: multiset<T>, x: multiset<T>)
    requires r == a + b && b == c + s && x == a + c
    ensures r == x + s
  {
    forall e ensures r[e] == (x + s)[e] {
      assert r[e] == a[e] + b[e];
    }
  }

  lemma {:induction false} AddChildKeepsIds(n: SourceFragment, child: seq<SourceFragment>)
    requires child != [] && AddChild(n, child).Ok?
    ensures Ids(AddChild(n, child).value.children) == Ids(n.children) + Ids(child)
    decreases Size(n.children) + Size(child) + 1, 1
  {
    if n.children != [] {
      AddKeepsIds(n.children, child);
    }
  }

  lemma {:induction false} MergeKeepsIds(p: SourceFragment, chain: seq<SourceFragment>, target: FragId)
    requires MergeSiblingsOfChild(p, chain, target).Ok?
    ensures var r := MergeSiblingsOfChild(p, chain, target).value;
            Ids(r.kept) + Ids(r.cut) == Ids(chain)
    decreases Size(chain)
  {
    if chain != [] {
      SizeCons(chain[0], chain[1..]);
      assert chain == [chain[0]] + chain[1..];
      if chain[0].id == target {
        MergeFoundHere(p, chain, target);
      } else {
        MergeKeepsIds(p, chain[0].children, target);
        if MergeSiblingsOfChild(p, chain[0].children, target).value.found {
          MergeFoundInside(p, chain, target);
        } else {
          MergeKeepsIds(p, chain[1..], target);
          MergeFoundLater(p, chain, target);
        }
      }
    }
  }

  lemma MergeFoundHere(p: SourceFragment, chain: seq<SourceFragment>, target: FragId)
    requires chain != [] && chain[0].id == target && MergeSiblingsOfChild(p, chain, target).Ok?
    ensures var r := MergeSiblingsOfChild(p, chain, target).value;
            Ids(r.kept) + Ids(r.cut) == Ids(chain)
  {
    var r := MergeSiblingsOfChild(p, chain, target).value;
    var s := AbsorbSiblings(p, chain[1..]).value;
    assert r.kept == [chain[0]] + s.kept && r.cut == s.cut;
    assert Ids(s.kept) + Ids(s.cut) == Ids(chain[1..]) by {
      IdsAppend(s.kept, s.cut);
    }
    assert Ids(r.kept) == multiset{chain[0].id} + Ids(chain[0].children) + Ids(s.kept) by {
      IdsCons(chain[0], s.kept);
    }
  }

  lemma MergeFoundInside(p: SourceFragment, chain: seq<SourceFragment>, target: FragId)
    requires chain != [] && chain[0].id != target && MergeSiblingsOfChild(p, chain, target).Ok?
    requires MergeSiblingsOfChild(p, chain[0].children, target).Ok?
    requires var inner := MergeSiblingsOfChild(p, chain[0].children, target).value;
             inner.found && Ids(inner.kept) + Ids(inner.cut) == Ids(chain[0].children)
    ensures var r := MergeSiblingsOfChild(p, chain, target).value;
            Ids(r.kept) + Ids(r.cut) == Ids(chain)
  {
    var r := MergeSiblingsOfChild(p, chain, target).value;
    var inner := MergeSiblingsOfChild(p, chain[0].children, target).value;
    var c0' := chain[0].(children := inner.kept);
    assert r.kept == [c0'] + chain[1..] && r.cut == inner.cut;
    assert Ids(r.kept) == multiset{chain[0].id} + Ids(inner.kept) + Ids(chain[1..]) by {
      IdsCons(c0', chain[1..]);
    }
  }

  lemma MergeFoundLater(p: SourceFragment, chain: seq<SourceFragment>, target: FragId)
    requires chain != [] && chain[0].id != target && MergeSiblingsOfChild(p, chain, target).Ok?
    requires MergeSiblingsOfChild(p, chain[0].children, target).Ok?
    requires !MergeSiblingsOfChild(p, chain[0].children, target).value.found
    requires MergeSiblingsOfChild(p, chain[1..], target).Ok?
    requires var rest := MergeSiblingsOfChild(p, chain[1..], target).value;
             Ids(rest.kept) + Ids(rest.cut) == Ids(chain[1..])
    ensures var r := MergeSiblingsOfChild(p, chain, target).value;
            Ids(r.kept) + Ids(r.cut) == Ids(chain)
  {
    var r := MergeSiblingsOfChild(p, chain, target).value;
    var rest := MergeSiblingsOfChild(p, chain[1..], target).value;
    assert r.kept == [chain[0]] + rest.kept && r.cut == rest.cut;
    assert Ids(r.kept) == multiset{chain[0].id} + Ids(chain[0].children) + Ids(rest.kept) by {
      IdsCons(chain[0], rest.kept);
    }
  }

  // Appending a fragment that lies after every fragment of a chain.

  lemma {:induction false} AppendAfterAll(chain: seq<SourceFragment>, c: SourceFragment)
    requires chain != []
    requires forall i :: 0 <= i < |chain| ==> chain[i].end <= c.start && chain[i].id != c.id
    ensures Add(chain, [c]) == Ok(chain + [c])
    decreases |chain|
  {
    assert Compare(chain[0], c) == Ok(OtherIsAfter);
    if |chain| > 1 {
      AppendAfterAll(chain[1..], c);
      assert [chain[0]] + (chain[1..] + [c]) == chain + [c];
    }
  }

  lemma AddChildAppends(n: SourceFragment, c: SourceFragment)
    requires forall i :: 0 <= i < |n.children| ==> n.children[i].end <= c.start && n.children[i].id != c.id
    ensures AddChild(n, [c]) == Ok(n.(children := n.children + [c]))
  {
    if n.children != [] {
      AppendAfterAll(n.children, c);
      assert AddChild(n, [c]) == Ok(n.(children := Add(n.children, [c]).value));
    } else {
      assert n.children + [c] == [c];
    }
  }

  // Creation of a MAIN fragment and of the sub-fragments of a declaration.

  /**
   * The public constructor: a MAIN fragment for the position `sp`, with the
   * sub-fragments of a declaration as its children. The guards compare with
   * `sourceStart` every time, exactly as the source does.
   */
  function NewMainFragment(serial: nat, element: Option<nat>, sp: SourcePosition): (r: Result<SourceFragment>)
    ensures sp.declaration.None? ==> r == Ok(NewFragment(serial, element, sp, MainFragment))
    ensures sp.declaration.Some? && sp.sourceStart < sp.declaration.value.modifierSourceStart ==> r.Err?
    ensures r.Ok? ==> r.value == NewFragment(serial, element, sp, MainFragment).(children := r.value.children)
  {
    var main := NewFragment(serial, element, sp, MainFragment);
    if sp.declaration.None? then Ok(main)
    else
      var endOfLastFragment := sp.sourceStart;
      if endOfLastFragment < sp.declaration.value.modifierSourceStart then
        Err("DeclarationSourcePosition#sourceStart < modifierSourceStart")
      else
        var m :- AddLeadingParts(serial, element, sp, main);
        AddTrailingParts(serial, element, sp, m)
  }

  /** MODIFIERS, BEFORE_NAME when `sourceStart < nameStart`, and NAME. */
  function AddLeadingParts(serial: nat, element: Option<nat>, sp: SourcePosition, main: SourceFragment): Result<SourceFragment>
    requires sp.declaration.Some? && main.children == []
  {
    var d := sp.declaration.value;
    var endOfLastFragment := sp.sourceStart;
    var m1 := AddChild(main, [NewFragment(serial, element, sp, Modifiers)]).value;
    var m2 :- if endOfLastFragment < d.nameStart
              then AddChild(m1, [NewFragment(serial, element, sp, BeforeName)]) else Ok(m1);
    AddChild(m2, [NewFragment(serial, element, sp, Name)])
  }

  /** AFTER_NAME when it starts after `sourceStart` (body holders) or always before the end, then BODY for body holders. */
  function AddTrailingParts(serial: nat, element: Option<nat>, sp: SourcePosition, m: SourceFragment): Result<SourceFragment>
    requires sp.declaration.Some?
  {
    var d := sp.declaration.value;
    var endOfLastFragment := sp.sourceStart;
    if d.body.Some? then
      var m4 :- if endOfLastFragment < d.body.value.bodyStart
                then AddChild(m, [NewFragment(serial, element, sp, AfterName)]) else Ok(m);
      var bodyFragment := NewFragment(serial, element, sp, Body);
      var m5 :- AddChild(m4, [bodyFragment]);
      if bodyFragment.end != d.body.value.bodyEnd + 1 then
        Err("Last bodyEnd is not equal to SourcePosition#sourceEnd")
      else Ok(m5)
    else if endOfLastFragment < sp.sourceEnd + 1 then
      AddChild(m, [NewFragment(serial, element, sp, AfterName)])
    else Ok(m)
  }

  /** The kinds of the sub-fragments the constructor creates for a declaration, in order. */
  function ChildKinds(sp: SourcePosition): seq<FragmentType>
    requires sp.declaration.Some?
  {
    LeadingKinds(sp) + TrailingKinds(sp)
  }

  function LeadingKinds(sp: SourcePosition): seq<FragmentType>
    requires sp.declaration.Some?
  {
    [Modifiers] + (if sp.sourceStart < sp.declaration.value.nameStart then [BeforeName] else []) + [Name]
  }

  function TrailingKinds(sp: SourcePosition): seq<FragmentType>
    requires sp.declaration.Some?
  {
    var d := sp.declaration.value;
    if d.body.Some? then
      (if sp.sourceStart < d.body.value.bodyStart then [AfterName] else []) + [Body]
    else if sp.sourceStart < sp.sourceEnd + 1 then [AfterName] else []
  }

  /** The fragments of the kinds `kinds` for one element and position. */
  function Parts(serial: nat, element: Option<nat>, sp: SourcePosition, kinds: seq<FragmentType>): seq<SourceFragment>
    requires forall k :: k in kinds ==> Applicable(sp, k)
  {
    seq(|kinds|, i requires 0 <= i < |kinds| => NewFragment(serial, element, sp, kinds[i]))
  }

  /** The offsets of a declaration follow each other: no sub-fragment has negative width. */
  predicate Ordered(d: DeclarationOffsets, sourceEnd: int) {
    d.modifierSourceStart <= d.modifierSourceEnd + 1 <= d.nameStart <= d.nameEnd + 1
    && (if d.body.Some? then d.nameEnd + 1 <= d.body.value.bodyStart <= d.body.value.bodyEnd + 1
        else d.nameEnd + 1 <= sourceEnd + 1)
  }

  /**
   * For a declaration with ordered offsets that starts no earlier than its
   * modifiers, the MAIN fragment's children are exactly the created
   * sub-fragments, in source order, each ending no later than the next one starts.
   */
  lemma MainFragmentChildren(serial: nat, element: Option<nat>, sp: SourcePosition)
    requires sp.declaration.Some? && Ordered(sp.declaration.value, sp.sourceEnd)
    requires sp.declaration.value.modifierSourceStart <= sp.sourceStart
    ensures forall k :: k in ChildKinds(sp) ==> Applicable(sp, k)
    ensures NewMainFragment(serial, element, sp)
            == Ok(NewFragment(serial, element, sp, MainFragment).(children := Parts(serial, element, sp, ChildKinds(sp))))
    ensures var c := Parts(serial, element, sp, ChildKinds(sp));
            forall i, j :: 0 <= i < j < |c| ==> c[i].start <= c[i].end <= c[j].start
  {
    PartsInSourceOrder(serial, element, sp);
    var main := NewFragment(serial, element, sp, MainFragment);
    var m := main.(children := Parts(serial, element, sp, LeadingKinds(sp)));
    assert AddLeadingParts(serial, element, sp, main) == Ok(m) by {
      LeadingPartsAppended(serial, element, sp, main);
    }
    assert AddTrailingParts(serial, element, sp, m)
           == Ok(m.(children := m.children + Parts(serial, element, sp, TrailingKinds(sp)))) by {
      TrailingPartsAppended(serial, element, sp, m);
    }
    PartsAppend(serial, element, sp, LeadingKinds(sp), TrailingKinds(sp));
  }

  lemma PartsAppend(serial: nat, element: Option<nat>, sp: SourcePosition, k1: seq<FragmentType>, k2: seq<FragmentType>)
    requires forall k :: k in k1 ==> Applicable(sp, k)
    requires forall k :: k in k2 ==> Applicable(sp, k)
    ensures Parts(serial, element, sp, k1) + Parts(serial, element, sp, k2) == Parts(serial, element, sp, k1 + k2)
  {
  }

  lemma LeadingPartsAppended(serial: nat, element: Option<nat>, sp: SourcePosition, main: SourceFragment)
    requires sp.declaration.Some? && Ordered(sp.declaration.value, sp.sourceEnd) && main.children == []
    ensures forall k :: k in LeadingKinds(sp) ==> Applicable(sp, k)
    ensures AddLeadingParts(serial, element, sp, main)
            == Ok(main.(children := Parts(serial, element, sp, LeadingKinds(sp))))
  {
    var mods := NewFragment(serial, element, sp, Modifiers);
    AddChildAppends(main, mods);
    var m1 := main.(children := [mods]);
    assert AddChild(main, [mods]).value == m1;
    NamePartAppended(serial, element, sp, m1);
  }

  /** BEFORE_NAME when `sourceStart < nameStart`, then NAME, appended after MODIFIERS. */
  lemma NamePartAppended(serial: nat, element: Option<nat>, sp: SourcePosition, m1: SourceFragment)
    requires sp.declaration.Some? && Ordered(sp.declaration.value, sp.sourceEnd)
    requires m1.children == [NewFragment(serial, element, sp, Modifiers)]
    ensures forall k :: k in LeadingKinds(sp) ==> Applicable(sp, k)
    ensures var name := NewFragment(serial, element, sp, Name);
            var m2 := if sp.sourceStart < sp.declaration.value.nameStart
                      then AddChild(m1, [NewFragment(serial, element, sp, BeforeName)]) else Ok(m1);
            && m2.Ok?
            && AddChild(m2.value, [name]) == Ok(m1.(children := Parts(serial, element, sp, LeadingKinds(sp))))
  {
    var mods := m1.children[0];
    var name := NewFragment(serial, element, sp, Name);
    LeadingPartsShape(serial, element, sp);
    if sp.sourceStart < sp.declaration.value.nameStart {
      var before := NewFragment(serial, element, sp, BeforeName);
      BeforeNameAppended(m1, mods, before, name);
    } else {
      AddChildAppends(m1, name);
      assert m1.children + [name] == [mods, name];
    }
  }

  lemma LeadingPartsShape(serial: nat, element: Option<nat>, sp: SourcePosition)
    requires sp.declaration.Some?
    ensures forall k :: k in LeadingKinds(sp) ==> Applicable(sp, k)
    ensures var mods := NewFragment(serial, element, sp, Modifiers);
            var name := NewFragment(serial, element, sp, Name);
            Parts(serial, element, sp, LeadingKinds(sp))
            == if sp.sourceStart < sp.declaration.value.nameStart
               then [mods, NewFragment(serial, element, sp, BeforeName), name] else [mods, name]
  {
  }

  lemma BeforeNameAppended(m1: SourceFragment, mods: SourceFragment, before: SourceFragment, name: SourceFragment)
    requires m1.children == [mods]
    requires mods.end <= before.start && mods.id != before.id
    requires mods.end <= name.start && mods.id != name.id && before.end <= name.start && before.id != name.id
    ensures AddChild(m1, [before]) == Ok(m1.(children := [mods, before]))
    ensures AddChild(m1.(children := [mods, before]), [name]) == Ok(m1.(children := [mods, before, name]))
  {
    AddChildAppends(m1, before);
    assert [mods] + [before] == [mods, before];
    var m2 := m1.(children := [mods, before]);
    AddChildAppends(m2, name);
    assert m2.children + [name] == [mods, before, name];
  }

  lemma TrailingPartsAppended(serial: nat, element: Option<nat>, sp: SourcePosition, m: SourceFragment)
    requires sp.declaration.Some? && Ordered(sp.declaration.value, sp.sourceEnd)
    requires forall k :: k in LeadingKinds(sp) ==> Applicable(sp, k)
    requires m.children == Parts(serial, element, sp, LeadingKinds(sp))
    ensures forall k :: k in TrailingKinds(sp) ==> Applicable(sp, k)
    ensures AddTrailingParts(serial, element, sp, m)
            == Ok(m.(children := m.children + Parts(serial, element, sp, TrailingKinds(sp))))
  {
    var name := NewFragment(serial, element, sp, Name);
    assert forall i :: 0 <= i < |m.children| ==> m.children[i].end <= name.end;
    if sp.declaration.value.body.Some? {
      BodyPartsAppended(serial, element, sp, m);
    } else if sp.sourceStart < sp.sourceEnd + 1 {
      AddChildAppends(m, NewFragment(serial, element, sp, AfterName));
      assert m.children + [NewFragment(serial, element, sp, AfterName)]
             == m.children + Parts(serial, element, sp, TrailingKinds(sp));
    } else {
      assert m.children == m.children + Parts(serial, element, sp, TrailingKinds(sp));
    }
  }

  lemma BodyPartsAppended(serial: nat, element: Option<nat>, sp: SourcePosition, m: SourceFragment)
    requires sp.declaration.Some? && sp.declaration.value.body.Some? && Ordered(sp.declaration.value, sp.sourceEnd)
    requires forall i :: 0 <= i < |m.children| ==> m.children[i].end <= GetEnd(sp, Name)
    requires forall i :: 0 <= i < |m.children| ==> m.children[i].id != FragId(serial, AfterName)
    requires forall i :: 0 <= i < |m.children| ==> m.children[i].id != FragId(serial, Body)
    ensures forall k :: k in TrailingKinds(sp) ==> Applicable(sp, k)
    ensures AddTrailingParts(serial, element, sp, m)
            == Ok(m.(children := m.children + Parts(serial, element, sp, TrailingKinds(sp))))
  {
    var after := NewFragment(serial, element, sp, AfterName);
    var body := NewFragment(serial, element, sp, Body);
    BodyPartsShape(serial, element, sp);
    if sp.sourceStart < sp.declaration.value.body.value.bodyStart {
      TwoAppended(m, after, body);
      assert m.children + [after] + [body] == m.children + [after, body];
    } else {
      AddChildAppends(m, body);
    }
  }

  lemma BodyPartsShape(serial: nat, element: Option<nat>, sp: SourcePosition)
    requires sp.declaration.Some? && sp.declaration.value.body.Some?
    ensures forall k :: k in TrailingKinds(sp) ==> Applicable(sp, k)
    ensures var after := NewFragment(serial, element, sp, AfterName);
            var body := NewFragment(serial, element, sp, Body);
            Parts(serial, element, sp, TrailingKinds(sp))
            == if sp.sourceStart < sp.declaration.value.body.value.bodyStart then [after, body] else [body]
  {
  }

  lemma TwoAppended(m: SourceFragment, x: SourceFragment, y: SourceFragment)
    requires forall i :: 0 <= i < |m.children| ==> m.children[i].end <= x.start && m.children[i].id != x.id
    requires forall i :: 0 <= i < |m.children| ==> m.children[i].end <= y.start && m.children[i].id != y.id
    requires x.end <= y.start && x.id != y.id
    ensures AddChild(m, [x]) == Ok(m.(children := m.children + [x]))
    ensures AddChild(m.(children := m.children + [x]), [y]) == Ok(m.(children := m.children + [x] + [y]))
  {
    var c1 := m.children + [x];
    assert AddChild(m, [x]) == Ok(m.(children := c1)) by {
      AddChildAppends(m, x);
    }
    assert forall i :: 0 <= i < |c1| ==> c1[i].end <= y.start && c1[i].id != y.id by {
      forall i | 0 <= i < |c1| ensures c1[i].end <= y.start && c1[i].id != y.id {
        if i < |m.children| {
          assert c1[i] == m.children[i];
        }
      }
    }
    AddChildAppends(m.(children := c1), y);
  }

  /** The position of a sub-fragment kind in a declaration. */
  function Rank(k: FragmentType): nat {
    match k
    case MainFragment => 0
    case Modifiers => 1
    case BeforeName => 2
    case Name => 3
    case AfterName => 4
    case Body => 5
  }

  lemma PartsInSourceOrder(serial: nat, element: Option<nat>, sp: SourcePosition)
    requires sp.declaration.Some? && Ordered(sp.declaration.value, sp.sourceEnd)
    ensures forall k :: k in ChildKinds(sp) ==> Applicable(sp, k)
    ensures var c := Parts(serial, element, sp, ChildKinds(sp));
            forall i, j :: 0 <= i < j < |c| ==> c[i].start <= c[i].end <= c[j].start
  {
    var kinds := ChildKinds(sp);
    KindsAscend(sp);
    var c := Parts(serial, element, sp, kinds);
    forall i, j | 0 <= i < j < |c|
      ensures c[i].start <= c[i].end <= c[j].start
    {
      KindsInOrder(sp, kinds[i], kinds[j]);
    }
  }

  /** The created kinds are applicable and listed by increasing rank. */
  lemma KindsAscend(sp: SourcePosition)
    requires sp.declaration.Some?
    ensures forall k :: k in ChildKinds(sp) ==> k != MainFragment && Applicable(sp, k)
    ensures var kinds := ChildKinds(sp);
            forall i, j :: 0 <= i < j < |kinds| ==> Rank(kinds[i]) < Rank(kinds[j])
  {
  }

  /** A sub-fragment kind of lower rank ends no later than one of higher rank starts. */
  lemma KindsInOrder(sp: SourcePosition, k1: FragmentType, k2: FragmentType)
    requires sp.declaration.Some? && Ordered(sp.declaration.value, sp.sourceEnd)
    requires k1 != MainFragment && Applicable(sp, k1) && Applicable(sp, k2) && Rank(k1) < Rank(k2)
    ensures GetStart(sp, k1) <= GetEnd(sp, k1) <= GetStart(sp, k2)
  {
  }

  // The fragments of the declaration 90..130 with modifiers 90..95 and name 100..110.

  const DeclarationPosition := SourcePosition(0, None, 90, 130, Some(DeclarationOffsets(90, 95, 100, 110, None)))
  const BodyHolderPosition :=
    SourcePosition(1, None, 90, 130, Some(DeclarationOffsets(90, 95, 100, 110, Some(BodyOffsets(120, 130)))))

  lemma DeclarationFragmentsExample(serial: nat, element: Option<nat>)
    ensures var r := NewMainFragment(serial, element, DeclarationPosition);
            && r.Ok? && r.value.start == 90 && r.value.end == 131
            && var c := r.value.children;
            && |c| == 4
            && c[0].fragmentType == Modifiers && c[0].start == 90 && c[0].end == 96
            && c[1].fragmentType == BeforeName && c[1].start == 96 && c[1].end == 100
            && c[2].fragmentType == Name && c[2].start == 100 && c[2].end == 111
            && c[3].fragmentType == AfterName && c[3].start == 111 && c[3].end == 131
  {
    var kinds := [Modifiers, BeforeName, Name, AfterName];
    var c := ExampleMain(serial, element, DeclarationPosition, kinds);
    ExampleParts(serial, element, DeclarationPosition, kinds, c);
  }

  lemma BodyHolderFragmentsExample(serial: nat, element: Option<nat>)
    ensures var r := NewMainFragment(serial, element, BodyHolderPosition);
            && r.Ok? && r.value.start == 90 && r.value.end == 131
            && var c := r.value.children;
            && |c| == 5
            && c[0].fragmentType == Modifiers && c[0].start == 90 && c[0].end == 96
            && c[1].fragmentType == BeforeName && c[1].start == 96 && c[1].end == 100
            && c[2].fragmentType == Name && c[2].start == 100 && c[2].end == 111
            && c[3].fragmentType == AfterName && c[3].start == 111 && c[3].end == 120
            && c[4].fragmentType == Body && c[4].start == 120 && c[4].end == 131
  {
    var kinds := [Modifiers, BeforeName, Name, AfterName, Body];
    var c := ExampleMain(serial, element, BodyHolderPosition, kinds);
    ExampleParts(serial, element, BodyHolderPosition, kinds, c);
  }

  lemma ExampleMain(serial: nat, element: Option<nat>, sp: SourcePosition, kinds: seq<FragmentType>)
    returns (c: seq<SourceFragment>)
    requires sp == DeclarationPosition || sp == BodyHolderPosition
    requires kinds == if sp == DeclarationPosition then [Modifiers, BeforeName, Name, AfterName]
                      else [Modifiers, BeforeName, Name, AfterName, Body]
    ensures forall k :: k in kinds ==> Applicable(sp, k)
    ensures c == Parts(serial, element, sp, kinds)
    ensures var r := NewMainFragment(serial, element, sp);
            r.Ok? && r.value.start == 90 && r.value.end == 131 && r.value.children == c
  {
    ExampleKinds(sp, kinds);
    MainFragmentChildren(serial, element, sp);
    c := Parts(serial, element, sp, kinds);
  }

  lemma ExampleParts(serial: nat, element: Option<nat>, sp: SourcePosition, kinds: seq<FragmentType>, c: seq<SourceFragment>)
    requires sp == DeclarationPosition || sp == BodyHolderPosition
    requires kinds == if sp == DeclarationPosition then [Modifiers, BeforeName, Name, AfterName]
                      else [Modifiers, BeforeName, Name, AfterName, Body]
    requires forall k :: k in kinds ==> Applicable(sp, k)
    requires c == Parts(serial, element, sp, kinds)
    ensures |c| == |kinds|
    ensures c[0].fragmentType == Modifiers && c[0].start == 90 && c[0].end == 96
    ensures c[1].fragmentType == BeforeName && c[1].start == 96 && c[1].end == 100
    ensures c[2].fragmentType == Name && c[2].start == 100 && c[2].end == 111
    ensures c[3].fragmentType == AfterName && c[3].start == 111 && c[3].end == (if sp == DeclarationPosition then 131 else 120)
    ensures sp == BodyHolderPosition ==> c[4].fragmentType == Body && c[4].start == 120 && c[4].end == 131
  {
    PartFields(serial, element, sp, kinds);
  }

  lemma ExampleKinds(sp: SourcePosition, kinds: seq<FragmentType>)
    requires sp == DeclarationPosition || sp == BodyHolderPosition
    requires kinds == if sp == DeclarationPosition then [Modifiers, BeforeName, Name, AfterName]
                      else [Modifiers, BeforeName, Name, AfterName, Body]
    ensures sp.declaration.Some? && Ordered(sp.declaration.value, sp.sourceEnd)
    ensures sp.declaration.value.modifierSourceStart <= sp.sourceStart
    ensures ChildKinds(sp) == kinds
  {
  }

  /** The i-th created fragment has the i-th kind and that kind's bounds. */
  lemma PartFields(serial: nat, element: Option<nat>, sp: SourcePosition, kinds: seq<FragmentType>)
    requires forall k :: k in kinds ==> Applicable(sp, k)
    ensures var c := Parts(serial, element, sp, kinds);
            && |c| == |kinds|
            && forall i :: 0 <= i < |c| ==>
                 c[i].fragmentType == kinds[i] && c[i].start == GetStart(sp, kinds[i]) && c[i].end == GetEnd(sp, kinds[i])
  {
  }

  // Looking a fragment up by its interval.

  /** All fragments of a chain: its members and their descendants. */
  function Nodes(c: seq<SourceFragment>): set<SourceFragment>
  {
    if c == [] then {} else {c[0]} + Nodes(c[0].children) + Nodes(c[1..])
  }

  /**
   * `child`, unless it belongs to the same non-null element as `self`, in which
   * case the element's enclosing fragment `self` is returned instead.
   */
  function RootFragmentOfElement(self: SourceFragment, child: Option<SourceFragment>): (r: Option<SourceFragment>)
    ensures r.None? <==> child.None?
    ensures r != child ==> r == Some(self) && self.element.Some? && child.value.element == self.element
  {
    if child.Some? && self.element.Some? && child.value.element == self.element then Some(self) else child
  }

  /**
   * Searches the chain (siblings first, then children) for the fragment with
   * exactly the bounds [start, end); a found sub-fragment of a non-null element
   * is replaced by the element's enclosing fragment.
   */
  function GetSourceFragmentOf(chain: seq<SourceFragment>, start: int, end: int): (r: Result<Option<SourceFragment>>)
    requires chain != []
    ensures chain[0].start == start < end == chain[0].end ==> r == Ok(Some(chain[0]))
    ensures chain[0].start == chain[0].end == start && |chain| == 1 ==> r == Ok(None)
    ensures start < chain[0].start && start < chain[0].end ==> r.Err?
    ensures r.Ok? && r.value.Some? ==>
              var f := r.value.value;
              f in Nodes(chain)
              && exists n :: n in Nodes(chain) && n.start == start && n.end == end
                             && (n == f || (f.element.Some? && n.element == f.element))
    decreases Size(chain)
  {
    var self := chain[0];
    assert chain == [self] + chain[1..];
    if self.end <= start then
      if |chain| == 1 then Ok(None)
      else
        var found :- GetSourceFragmentOf(chain[1..], start, end);
        RootKeepsWitness(chain, chain[1..], found, start, end);
        Ok(RootFragmentOfElement(self, found))
    else if self.start <= start then
      if self.end >= end then
        if self.start == start && self.end == end then Ok(Some(self))
        else if self.children == [] then Ok(None)
        else
          var found :- GetSourceFragmentOf(self.children, start, end);
          RootKeepsWitness(chain, self.children, found, start, end);
          Ok(RootFragmentOfElement(self, found))
      else Err("Invalid start/end interval. It overlaps multiple fragments.")
    else Err("Invalid start/end interval. It is before this fragment")
  }

  /** A fragment found in a part of the chain is still a witness after RootFragmentOfElement. */
  lemma RootKeepsWitness(chain: seq<SourceFragment>, part: seq<SourceFragment>, found: Option<SourceFragment>,
                         start: int, end: int)
    requires chain != [] && (part == chain[1..] || part == chain[0].children)
    requires found.Some? ==>
               found.value in Nodes(part)
               && exists n :: n in Nodes(part) && n.start == start && n.end == end
                              && (n == found.value || (found.value.element.Some? && n.element == found.value.element))
    ensures var r := RootFragmentOfElement(chain[0], found);
            r.Some? ==>
              r.value in Nodes(chain)
              && exists n :: n in Nodes(chain) && n.start == start && n.end == end
                             && (n == r.value || (r.value.element.Some? && n.element == r.value.element))
  {
    assert Nodes(chain) == {chain[0]} + Nodes(chain[0].children) + Nodes(chain[1..]);
    if found.Some? {
      var n :| n in Nodes(part) && n.start == start && n.end == end
               && (n == found.value || (found.value.element.Some? && n.element == found.value.element));
      assert n in Nodes(chain);
    }
  }

  // The fragments of the same element.

  /** The children chain when the first child has the identical element, else the empty chain (null). */
  function ChildFragmentOfSameElement(f: SourceFragment): (r: seq<SourceFragment>)
    ensures r != [] <==> f.children != [] && f.children[0].element == f.element
    ensures r != [] ==> r == f.children
  {
    if f.children != [] && f.children[0].element == f.element then f.children else []
  }

  /** The rest of the chain when the next sibling has the identical element, else the empty chain (null). */
  function NextFragmentOfSameElement(chain: seq<SourceFragment>): (r: seq<SourceFragment>)
    requires chain != []
    ensures r != [] <==> |chain| > 1 && chain[1].element == chain[0].element
    ensures r != [] ==> r == chain[1..]
  {
    if |chain| > 1 && chain[1].element == chain[0].element then chain[1..] else []
  }

  /** The number of fragments reached from the head by NextFragmentOfSameElement, the head included. */
  function SameElementRun(chain: seq<SourceFragment>): (n: nat)
    ensures n <= |chain| && (chain != [] ==> n >= 1)
    ensures forall i :: 0 <= i < n ==> chain[i].element == chain[0].element
    ensures chain != [] && n < |chain| ==> chain[n].element != chain[0].element
    decreases |chain|
  {
    if chain == [] then 0
    else if NextFragmentOfSameElement(chain) != [] then 1 + SameElementRun(chain[1..])
    else 1
  }

  /** Following NextFragmentOfSameElement k times from the head reaches the fragment k of the run. */
  lemma {:induction false} NextWalksTheRun(chain: seq<SourceFragment>, k: nat)
    requires k < SameElementRun(chain)
    ensures k + 1 < SameElementRun(chain) <==> NextFragmentOfSameElement(chain[k..]) != []
    ensures NextFragmentOfSameElement(chain[k..]) != [] ==> NextFragmentOfSameElement(chain[k..]) == chain[k + 1..]
    decreases k
  {
    if k > 0 {
      NextWalksTheRun(chain[1..], k - 1);
      assert chain[1..][k - 1..] == chain[k..];
    }
  }

  // The original text of fragments.

  /** The text of the compilation unit of `f`, when both are known. */
  predicate HasText(f: SourceFragment) {
    f.position.cu.Some? && f.position.cu.value.originalSourceCode.Some?
  }

  function Text(f: SourceFragment): string
    requires HasText(f)
  {
    f.position.cu.value.originalSourceCode.value
  }

  /** The offsets are inside the text, when there is a text (substring would fail otherwise). */
  predicate Readable(f: SourceFragment, start: int, end: int) {
    HasText(f) ==> 0 <= start <= end <= |Text(f)|
  }

  /** The original text between two offsets; None (null) without a compilation unit or text. */
  function SourceCodeBetween(f: SourceFragment, start: int, end: int): (r: Option<string>)
    requires Readable(f, start, end)
    ensures r.Some? <==> HasText(f)
    ensures r.Some? ==> |r.value| == end - start
                        && forall i :: 0 <= i < |r.value| ==> r.value[i] == Text(f)[start + i]
  {
    if HasText(f) then Some(Text(f)[start..end]) else None
  }

  /** The original text of the fragment itself; None (null) without a compilation unit or text. */
  function SourceCode(f: SourceFragment): (r: Option<string>)
    requires Readable(f, f.start, f.end)
    ensures r.Some? <==> HasText(f)
    ensures r.Some? ==> |r.value| == f.end - f.start
                        && forall i :: 0 <= i < |r.value| ==> r.value[i] == Text(f)[f.start + i]
  {
    SourceCodeBetween(f, f.start, f.end)
  }

  /** Every text a printer may ask of `f` can be taken: its own, and the gaps around and between its children. */
  predicate NodeReadable(f: SourceFragment) {
    && Readable(f, f.start, f.end)
    && (f.children != [] ==>
          && Readable(f, f.start, f.children[0].start)
          && Readable(f, f.children[|f.children| - 1].end, f.end)
          && forall i :: 1 <= i < |f.children| ==> Readable(f, f.children[i - 1].end, f.children[i].start))
  }

  predicate AllReadable(chain: seq<SourceFragment>) {
    forall n :: n in Nodes(chain) ==> NodeReadable(n)
  }

  lemma {:induction false} NodesOfRest(chain: seq<SourceFragment>, k: nat)
    requires k <= |chain|
    ensures Nodes(chain[k..]) <= Nodes(chain)
    ensures chain != [] ==> Nodes(chain[0].children) <= Nodes(chain)
    decreases k
  {
    if k > 0 {
      NodesOfRest(chain[1..], k - 1);
      assert chain[1..][k - 1..] == chain[k..];
    }
  }

  /** The text before the first child; None (null) when there is no child. */
  function TextBeforeFirstChild(f: SourceFragment): (r: Option<string>)
    requires f.children != [] ==> Readable(f, f.start, f.children[0].start)
    ensures f.children == [] ==> r.None?
    ensures f.children != [] ==> r == SourceCodeBetween(f, f.start, f.children[0].start)
  {
    if f.children != [] then SourceCodeBetween(f, f.start, f.children[0].start) else None
  }

  /** The text after the last child, found by walking the children chain; None (null) when there is no child. */
  method TextAfterLastChild(f: SourceFragment) returns (r: Option<string>)
    requires f.children != [] ==> Readable(f, f.children[|f.children| - 1].end, f.end)
    ensures f.children == [] ==> r.None?
    ensures f.children != [] ==> r == SourceCodeBetween(f, f.children[|f.children| - 1].end, f.end)
  {
    var lastChild := f.children;
    while lastChild != []
      invariant lastChild == [] || lastChild == f.children[|f.children| - |lastChild|..]
      invariant f.children != [] ==> lastChild != []
      decreases |lastChild|
    {
      if |lastChild| == 1 {
        return SourceCodeBetween(f, lastChild[0].end, f.end);
      }
      lastChild := lastChild[1..];
    }
    return None;
  }

  // Building trees by insertion; fragments [start, end) of positions without declaration.

  function Interval(serial: nat, start: int, end: int): SourceFragment {
    NewFragment(serial, None, SourcePosition(serial, None, start, end - 1, None), MainFragment)
  }

  /** Which insertion Add performs, by the classification of the heads. */
  lemma AddDispatch(t: seq<SourceFragment>, o: seq<SourceFragment>)
    requires t != [] && o != [] && Compare(t[0], o[0]).Ok?
    ensures Compare(t[0], o[0]) == Ok(OtherIsAfter) ==> Add(t, o) == AddNextSibling(t, o)
    ensures Compare(t[0], o[0]) == Ok(OtherIsBefore) ==> Add(t, o) == AddNextSibling(o, t)
    ensures Compare(t[0], o[0]) == Ok(OtherIsChild) ==> Add(t, o) == AddIntoHead(t, o)
    ensures Compare(t[0], o[0]) == Ok(OtherIsParent) ==> Add(t, o) == AddAroundHead(t, o)
  {
  }

  /** The two cases of AddNextSibling: a last fragment, or recursion along the chain. */
  lemma AddNextSiblingCases(x: seq<SourceFragment>, sibling: seq<SourceFragment>)
    requires x != [] && sibling != []
    ensures |x| == 1 ==> AddNextSibling(x, sibling) == Ok(x + sibling)
    ensures |x| > 1 && Add(x[1..], sibling).Ok? ==> AddNextSibling(x, sibling) == Ok([x[0]] + Add(x[1..], sibling).value)
  {
  }

  lemma AddIntoHeadStep(t: seq<SourceFragment>, c: SourceFragment, h: SourceFragment)
    requires t != [] && Compare(t[0], c) == Ok(OtherIsChild) && AddChild(t[0], [c]) == Ok(h)
    ensures Add(t, [c]) == Ok([h] + t[1..])
    ensures |t| == 1 ==> Add(t, [c]) == Ok([h])
  {
    AddDispatch(t, [c]);
    assert |t| == 1 ==> [h] + t[1..] == [h];
  }

  lemma AddBeforeStep(t: seq<SourceFragment>, c: SourceFragment)
    requires t != [] && Compare(t[0], c) == Ok(OtherIsBefore)
    ensures Add(t, [c]) == Ok([c] + t)
  {
    AddDispatch(t, [c]);
  }

  lemma AddAfterLastStep(t: seq<SourceFragment>, c: SourceFragment)
    requires |t| == 1 && Compare(t[0], c) == Ok(OtherIsAfter)
    ensures Add(t, [c]) == Ok([t[0], c])
  {
    AddDispatch(t, [c]);
    AddNextSiblingCases(t, [c]);
    assert t + [c] == [t[0], c];
  }

  lemma AddAfterStep(t: seq<SourceFragment>, c: SourceFragment, rest: seq<SourceFragment>)
    requires |t| > 1 && Compare(t[0], c) == Ok(OtherIsAfter) && Add(t[1..], [c]) == Ok(rest)
    ensures Add(t, [c]) == Ok([t[0]] + rest)
  {
    AddDispatch(t, [c]);
    AddNextSiblingCases(t, [c]);
  }

  lemma AddChildStep(n: SourceFragment, c: SourceFragment, children: seq<SourceFragment>)
    requires n.children == [] ==> children == [c]
    requires n.children != [] ==> Add(n.children, [c]) == Ok(children)
    ensures AddChild(n, [c]) == Ok(n.(children := children))
  {
  }

  /** A first child of the root [10,20), then its next sibling. */
  lemma AddChildExample(a: nat, b: nat, c: nat)
    requires |{a, b, c}| == 3
    ensures var root := Interval(a, 10, 20);
            var f1 := Interval(b, 10, 15);
            var f2 := Interval(c, 15, 20);
            && Add([root], [f1]) == Ok([root.(children := [f1])])
            && Add([root.(children := [f1])], [f2]) == Ok([root.(children := [f1, f2])])
  {
    var root := Interval(a, 10, 20);
    var f1 := Interval(b, 10, 15);
    var f2 := Interval(c, 15, 20);
    assert a != b && a != c && b != c;
    AddChildStep(root, f1, [f1]);
    AddIntoHeadStep([root], f1, root.(children := [f1]));
    AddAfterLastStep([f1], f2);
    AddChildStep(root.(children := [f1]), f2, [f1, f2]);
    AddIntoHeadStep([root.(children := [f1])], f2, root.(children := [f1, f2]));
  }

  /** A twin of the second child [15,20) nests inside it, and a smaller one [16,20) inside the twin. */
  lemma NestedTwinExample(a: nat, b: nat, c: nat, d: nat, e: nat)
    requires |{a, b, c, d, e}| == 5
    ensures var root := Interval(a, 10, 20);
            var f1 := Interval(b, 10, 15);
            var f2 := Interval(c, 15, 20);
            var f3 := Interval(d, 15, 20);
            var f4 := Interval(e, 16, 20);
            && Add([root.(children := [f1, f2])], [f3]) == Ok([root.(children := [f1, f2.(children := [f3])])])
            && Add([root.(children := [f1, f2.(children := [f3])])], [f4])
               == Ok([root.(children := [f1, f2.(children := [f3.(children := [f4])])])])
  {
    var root := Interval(a, 10, 20);
    var f1 := Interval(b, 10, 15);
    var f2 := Interval(c, 15, 20);
    var f3 := Interval(d, 15, 20);
    var f4 := Interval(e, 16, 20);
    assert a != d && a != e && b != d && b != e && c != d && c != e && d != e;
    TwinNests(root, f1, f2, f3);
    SmallerNests(root, f1, f2.(children := [f3]), f4);
    AddChildStep(f3, f4, [f4]);
    AddIntoHeadStep([f3], f4, f3.(children := [f4]));
  }

  lemma TwinNests(root: SourceFragment, f1: SourceFragment, f2: SourceFragment, f3: SourceFragment)
    requires root.id != f3.id && f1.id != f3.id && f2.id != f3.id && f2.children == []
    requires Compare(root, f3) == Ok(OtherIsChild) && Compare(f1, f3) == Ok(OtherIsAfter)
    requires Compare(f2, f3) == Ok(OtherIsChild)
    ensures Add([root.(children := [f1, f2])], [f3]) == Ok([root.(children := [f1, f2.(children := [f3])])])
  {
    AddChildStep(f2, f3, [f3]);
    AddIntoHeadStep([f2], f3, f2.(children := [f3]));
    assert [f1, f2][1..] == [f2];
    AddAfterStep([f1, f2], f3, [f2.(children := [f3])]);
    assert [f1] + [f2.(children := [f3])] == [f1, f2.(children := [f3])];
    AddChildStep(root.(children := [f1, f2]), f3, [f1, f2.(children := [f3])]);
    AddIntoHeadStep([root.(children := [f1, f2])], f3, root.(children := [f1, f2.(children := [f3])]));
  }

  lemma SmallerNests(root: SourceFragment, f1: SourceFragment, f2: SourceFragment, f4: SourceFragment)
    requires |f2.children| == 1 && AddChild(f2.children[0], [f4]).Ok?
    requires Compare(root, f4) == Ok(OtherIsChild) && Compare(f1, f4) == Ok(OtherIsAfter)
    requires Compare(f2, f4) == Ok(OtherIsChild) && Compare(f2.children[0], f4) == Ok(OtherIsChild)
    ensures var f3' := AddChild(f2.children[0], [f4]).value;
            Add([root.(children := [f1, f2])], [f4]) == Ok([root.(children := [f1, f2.(children := [f3'])])])
  {
    var f3 := f2.children[0];
    var f3' := AddChild(f3, [f4]).value;
    AddIntoHeadStep([f3], f4, f3');
    assert f2.children == [f3];
    AddChildStep(f2, f4, [f3']);
    AddIntoHeadStep([f2], f4, f2.(children := [f3']));
    assert [f1, f2][1..] == [f2];
    AddAfterStep([f1, f2], f4, [f2.(children := [f3'])]);
    assert [f1] + [f2.(children := [f3'])] == [f1, f2.(children := [f3'])];
    AddChildStep(root.(children := [f1, f2]), f4, [f1, f2.(children := [f3'])]);
    AddIntoHeadStep([root.(children := [f1, f2])], f4, root.(children := [f1, f2.(children := [f3'])]));
  }

  /** A next and a previous sibling of a root [10,20). */
  lemma RootSiblingsExample(full: SourceFragment, g: nat, h: nat)
    requires full.start == 10 && full.end == 20 && full.id.serial !in {g, h} && g != h
    ensures var f5 := Interval(g, 20, 100);
            var f6 := Interval(h, 5, 10);
            && Add([full], [f5]) == Ok([full, f5])
            && Add([full, f5], [f6]) == Ok([f6, full, f5])
  {
    var f5 := Interval(g, 20, 100);
    var f6 := Interval(h, 5, 10);
    AddAfterLastStep([full], f5);
    AddBeforeStep([full, f5], f6);
    assert [f6] + [full, f5] == [f6, full, f5];
  }

  /** A new fragment around an existing child takes its place and adopts it. */
  lemma WrapChildExample(a: nat, b: nat, c: nat)
    requires |{a, b, c}| == 3
    ensures var root := Interval(a, 0, 100);
            var child := Interval(b, 50, 60);
            var wrapper := Interval(c, 40, 60);
            && Add([root], [child]) == Ok([root.(children := [child])])
            && Add([root.(children := [child])], [wrapper]) == Ok([root.(children := [wrapper.(children := [child])])])
  {
    var root := Interval(a, 0, 100);
    var child := Interval(b, 50, 60);
    var wrapper := Interval(c, 40, 60);
    assert a != b && a != c && b != c;
    AddChildStep(root, child, [child]);
    AddIntoHeadStep([root], child, root.(children := [child]));
    var p := wrapper.(children := [child]);
    AddChildStep(wrapper, child, [child]);
    assert [child][1..] == [] && [child] + [] == [child];
    assert AbsorbSiblings(p, []) == Ok(Split([], [], true));
    assert MergeSiblingsOfChild(p, p.children, child.id) == Ok(Split([child], [], true));
    assert [wrapper][1..] == [] && [p] + [] == [p];
    assert AddAroundHead([child], [wrapper]) == Ok([p]);
    assert Compare(child, wrapper) == Ok(OtherIsParent);
    assert Add([child], [wrapper]) == Ok([p]);
    AddChildStep(root.(children := [child]), wrapper, [p]);
    AddIntoHeadStep([root.(children := [child])], wrapper, root.(children := [p]));
  }

  /** Lookup by bounds in the tree [0,100) { [50,60) { [50,55) }, [60,70) }. */
  lemma LocalizationExample(a: nat, b: nat, c: nat, d: nat)
    requires |{a, b, c, d}| == 4
    ensures var root := Interval(a, 0, 100);
            var first := Interval(b, 50, 60);
            var second := Interval(c, 60, 70);
            var x := Interval(d, 50, 55);
            var tree := root.(children := [first.(children := [x]), second]);
            && Add([root], [first]) == Ok([root.(children := [first])])
            && Add([root.(children := [first])], [second]) == Ok([root.(children := [first, second])])
            && Add([root.(children := [first, second])], [x]) == Ok([tree])
            && GetSourceFragmentOf([tree], 50, 55) == Ok(Some(x))
            && GetSourceFragmentOf([tree], 0, 100) == Ok(Some(tree))
            && GetSourceFragmentOf([tree], 50, 60) == Ok(Some(tree.children[0]))
            && GetSourceFragmentOf([tree], 60, 70) == Ok(Some(tree.children[1]))
  {
    var root := Interval(a, 0, 100);
    var first := Interval(b, 50, 60);
    var second := Interval(c, 60, 70);
    var x := Interval(d, 50, 55);
    assert a != b && a != c && a != d && b != c && b != d && c != d;
    AddChildStep(root, first, [first]);
    AddIntoHeadStep([root], first, root.(children := [first]));
    AddAfterLastStep([first], second);
    AddChildStep(root.(children := [first]), second, [first, second]);
    AddIntoHeadStep([root.(children := [first])], second, root.(children := [first, second]));
    AddChildStep(first, x, [x]);
    AddIntoHeadStep([first, second], x, first.(children := [x]));
    var tree := root.(children := [first.(children := [x]), second]);
    assert [first, second][1..] == [second];
    assert [first.(children := [x])] + [second] == tree.children;
    AddChildStep(root.(children := [first, second]), x, tree.children);
    AddIntoHeadStep([root.(children := [first, second])], x, tree);
    // lookups
    assert GetSourceFragmentOf(tree.children[0].children, 50, 55) == Ok(Some(x));
    assert GetSourceFragmentOf(tree.children, 50, 55) == Ok(Some(x));
    assert GetSourceFragmentOf(tree.children[1..], 60, 70) == Ok(Some(second));
    assert GetSourceFragmentOf(tree.children, 60, 70) == Ok(Some(second));
    assert GetSourceFragmentOf(tree.children, 50, 60) == Ok(Some(tree.children[0]));
  }
}
