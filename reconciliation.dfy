/**
 * Reconciling the changes of an element with its original source fragments:
 * which sub-fragments hold a changed role (and so must be printed again), and
 * whether the table of fragment descriptors covers every changed role.
 */
module SourcePositionUtils {
  import opened Outcomes
  import opened FragmentTypes
  import FD = FragmentDescriptors
  import SF = SourceFragments

  /** The roles a descriptor covers; a descriptor without roles (null) covers none. */
  function RolesOf(d: FD.FragmentDescriptor): set<FD.Role> {
    if d.roles.Some? then d.roles.value else {}
  }

  /** The fragment after `applyTo`: modified when it was, or when one of its roles is in `changed`; the descriptor attached. */
  function Applied(d: FD.FragmentDescriptor, f: SF.SourceFragment, changed: set<FD.Role>): SF.SourceFragment {
    f.(modified := f.modified || RolesOf(d) * changed != {}, fragmentDescriptor := Some(d))
  }

  /**
   * applyTo: removes each role of the descriptor from the working set `changed`,
   * marks the fragment modified when a removal happened, and attaches the descriptor.
   */
  method ApplyTo(d: FD.FragmentDescriptor, f: SF.SourceFragment, changed: set<FD.Role>)
    returns (g: SF.SourceFragment, remaining: set<FD.Role>)
    ensures remaining == changed - RolesOf(d)
    ensures g.modified <==> f.modified || exists role :: role in RolesOf(d) && role in changed
    ensures g.fragmentDescriptor == Some(d)
    ensures g == f.(modified := g.modified, fragmentDescriptor := g.fragmentDescriptor)
    ensures g == Applied(d, f, changed)
  {
    remaining := changed;
    var modified := f.modified;
    if d.roles.Some? {
      var todo := d.roles.value;
      while todo != {}
        invariant todo <= d.roles.value
        invariant remaining == changed - (d.roles.value - todo)
        invariant modified <==> f.modified || (d.roles.value - todo) * changed != {}
        decreases |todo|
      {
        var role :| role in todo;
        if role in remaining {
          remaining := remaining - {role};
          modified := true;
        }
        todo := todo - {role};
      }
    }
    g := f.(modified := modified, fragmentDescriptor := Some(d));
  }

  /** The roles the row assigns to the fragment's type; none when the row has no descriptor for it. */
  function DescRoles(row: FD.TypeToFragmentDescriptor, f: SF.SourceFragment): set<FD.Role> {
    if f.fragmentType in row.fragmentToRoles then RolesOf(row.fragmentToRoles[f.fragmentType]) else {}
  }

  /** The roles covered by the fragments of a run. */
  function CoveredRoles(row: FD.TypeToFragmentDescriptor, fs: seq<SF.SourceFragment>): set<FD.Role>
  {
    if fs == [] then {} else CoveredRoles(row, fs[..|fs| - 1]) + DescRoles(row, fs[|fs| - 1])
  }

  /** A role is covered by a run exactly when some fragment of the run has it. */
  lemma {:induction false} CoveredRolesMeaning(row: FD.TypeToFragmentDescriptor, fs: seq<SF.SourceFragment>, role: FD.Role)
    ensures role in CoveredRoles(row, fs) <==> exists j :: 0 <= j < |fs| && role in DescRoles(row, fs[j])
    decreases |fs|
  {
    if fs != [] {
      var init := fs[..|fs| - 1];
      CoveredRolesMeaning(row, init, role);
      assert forall j :: 0 <= j < |init| ==> init[j] == fs[j];
    }
  }

  /** One step of the marking loop: apply the fragment type's descriptor, if the row has one. */
  function MarkOne(row: FD.TypeToFragmentDescriptor, f: SF.SourceFragment, remaining: set<FD.Role>): SF.SourceFragment {
    if f.fragmentType in row.fragmentToRoles then Applied(row.fragmentToRoles[f.fragmentType], f, remaining) else f
  }

  /**
   * The chain after marking the first `n` fragments: fragment i sees the changed
   * roles not yet covered by the fragments before it.
   */
  function MarkedRun(row: FD.TypeToFragmentDescriptor, chain: seq<SF.SourceFragment>, changed: set<FD.Role>, n: nat): seq<SF.SourceFragment>
    requires n <= |chain|
  {
    seq(|chain|, i requires 0 <= i < |chain| =>
      if i < n then MarkOne(row, chain[i], changed - CoveredRoles(row, chain[..i])) else chain[i])
  }

  /**
   * markChangedFragments: with the first table row matching the element, walk the
   * same-element run from `fragment`, marking each fragment, on a working copy of
   * the changed roles; succeed when that copy ends up empty. No matching row fails
   * and marks nothing.
   */
  method MarkChangedFragments(c: FD.ElementClass, fragment: seq<SF.SourceFragment>, changedRoles: set<FD.Role>)
    returns (ok: bool, marked: seq<SF.SourceFragment>)
    ensures FD.DescriptorsOf(c).None? ==> !ok && marked == fragment
    ensures FD.DescriptorsOf(c).Some? ==>
              var row := FD.DescriptorsOf(c).value;
              var n := SF.SameElementRun(fragment);
              && marked == MarkedRun(row, fragment, changedRoles, n)
              && (ok <==> changedRoles <= CoveredRoles(row, fragment[..n]))
  {
    var descriptor := FD.DescriptorsOf(c);
    if descriptor.None? {
      return false, fragment;
    }
    ok, marked := MarkWithRow(descriptor.value, fragment, changedRoles);
  }

  /** The loop of markChangedFragments, once the row is chosen. */
  method MarkWithRow(row: FD.TypeToFragmentDescriptor, fragment: seq<SF.SourceFragment>, changedRoles: set<FD.Role>)
    returns (ok: bool, marked: seq<SF.SourceFragment>)
    ensures marked == MarkedRun(row, fragment, changedRoles, SF.SameElementRun(fragment))
    ensures ok <==> changedRoles <= CoveredRoles(row, fragment[..SF.SameElementRun(fragment)])
  {
    ghost var n := SF.SameElementRun(fragment);
    var toBeAssignedRoles := changedRoles;
    marked := fragment;
    var cursor := fragment;
    var i := 0;
    while cursor != []
      invariant i <= n
      invariant cursor == [] <==> i == n
      invariant cursor != [] ==> cursor == fragment[i..]
      invariant toBeAssignedRoles == changedRoles - CoveredRoles(row, fragment[..i])
      invariant marked == MarkedRun(row, fragment, changedRoles, i)
      decreases n - i
    {
      var f := cursor[0];
      CoveredStep(row, fragment, i);
      MarkedRunStep(row, fragment, changedRoles, i);
      if f.fragmentType in row.fragmentToRoles {
        var g;
        g, toBeAssignedRoles := ApplyTo(row.fragmentToRoles[f.fragmentType], f, toBeAssignedRoles);
        marked := marked[i := g];
      }
      SF.NextWalksTheRun(fragment, i);
      cursor := SF.NextFragmentOfSameElement(cursor);
      i := i + 1;
    }
    ok := toBeAssignedRoles == {};
  }

  lemma CoveredStep(row: FD.TypeToFragmentDescriptor, fs: seq<SF.SourceFragment>, i: nat)
    requires i < |fs|
    ensures CoveredRoles(row, fs[..i + 1]) == CoveredRoles(row, fs[..i]) + DescRoles(row, fs[i])
  {
    assert fs[..i + 1][..i] == fs[..i];
  }

  /** Marking one more fragment changes exactly that fragment. */
  lemma MarkedRunStep(row: FD.TypeToFragmentDescriptor, chain: seq<SF.SourceFragment>, changed: set<FD.Role>, i: nat)
    requires i < |chain|
    ensures MarkedRun(row, chain, changed, i + 1)
            == MarkedRun(row, chain, changed, i)[i := MarkOne(row, chain[i], changed - CoveredRoles(row, chain[..i]))]
  {
  }

  /**
   * Marking changes only the `modified` flag and the descriptor of the fragments of
   * the run; it never resets a flag, and the fragments after the run are untouched.
   */
  lemma MarkingKeepsFragments(row: FD.TypeToFragmentDescriptor, chain: seq<SF.SourceFragment>, changed: set<FD.Role>, n: nat)
    requires n <= |chain|
    ensures var m := MarkedRun(row, chain, changed, n);
            && |m| == |chain|
            && (forall i :: 0 <= i < |chain| ==>
                  m[i] == chain[i].(modified := m[i].modified, fragmentDescriptor := m[i].fragmentDescriptor)
                  && (chain[i].modified ==> m[i].modified))
            && (forall i :: n <= i < |chain| ==> m[i] == chain[i])
            && (forall i :: 0 <= i < n ==>
                  (m[i].fragmentDescriptor != chain[i].fragmentDescriptor ==> chain[i].fragmentType in row.fragmentToRoles)
                  && (chain[i].fragmentType in row.fragmentToRoles ==>
                        m[i].fragmentDescriptor == Some(row.fragmentToRoles[chain[i].fragmentType])))
  {
  }

  /** Within one row, no role belongs to two fragment types. */
  predicate RolesDisjoint(row: FD.TypeToFragmentDescriptor) {
    forall t1, t2 :: t1 in row.fragmentToRoles && t2 in row.fragmentToRoles && t1 != t2 ==>
      RolesOf(row.fragmentToRoles[t1]) * RolesOf(row.fragmentToRoles[t2]) == {}
  }

  /** The fragments of the run have pairwise different types. */
  predicate DistinctTypes(chain: seq<SF.SourceFragment>, n: nat)
    requires n <= |chain|
  {
    forall i, j :: 0 <= i < j < n ==> chain[i].fragmentType != chain[j].fragmentType
  }

  /**
   * When the row's roles are disjoint and the run's types distinct, a fragment of the
   * run ends up modified exactly when it was, or when one of its own roles changed:
   * earlier fragments never take a role away from it.
   */
  lemma {:induction false} MarkedIffRoleChanged(row: FD.TypeToFragmentDescriptor, chain: seq<SF.SourceFragment>,
                                                 changed: set<FD.Role>, n: nat, i: nat)
    requires n <= |chain| && i < n
    requires RolesDisjoint(row) && DistinctTypes(chain, n)
    ensures MarkedRun(row, chain, changed, n)[i].modified
            <==> chain[i].modified || DescRoles(row, chain[i]) * changed != {}
  {
    var before := CoveredRoles(row, chain[..i]);
    forall role | role in DescRoles(row, chain[i])
      ensures role !in before
    {
      forall j | 0 <= j < i
        ensures role !in DescRoles(row, chain[..i][j])
      {
        assert chain[..i][j] == chain[j];
        var t1, t2 := chain[j].fragmentType, chain[i].fragmentType;
        assert t1 != t2;
        assert t2 in row.fragmentToRoles && role in RolesOf(row.fragmentToRoles[t2]);
        if t1 in row.fragmentToRoles {
          assert DescRoles(row, chain[j]) == RolesOf(row.fragmentToRoles[t1]);
          assert RolesOf(row.fragmentToRoles[t1]) * RolesOf(row.fragmentToRoles[t2]) == {};
          assert role !in RolesOf(row.fragmentToRoles[t1]) * RolesOf(row.fragmentToRoles[t2]);
        }
      }
      CoveredRolesMeaning(row, chain[..i], role);
    }
    assert DescRoles(row, chain[i]) * (changed - before) == DescRoles(row, chain[i]) * changed;
  }

  /** The three rows of the table assign every role to at most one fragment type. */
  lemma TableRolesDisjoint()
    ensures forall row | row in FD.AllDescriptors :: RolesDisjoint(row)
  {
    TypeRowRoles();
    ExecutableRowRoles();
    VariableRowRoles();
  }

  lemma TypeRowRoles()
    ensures RolesDisjoint(FD.TypeDescriptors)
  {
    TypeRowHasShape();
    TypeShapeDisjoint(FD.TypeDescriptors);
  }

  lemma TypeShapeDisjoint(row: FD.TypeToFragmentDescriptor)
    requires TypeRowShape(row)
    ensures RolesDisjoint(row)
  {
  }

  lemma ExecutableRowRoles()
    ensures RolesDisjoint(FD.ExecutableDescriptors)
  {
    ExecutableRowHasShape();
    ExecutableShapeDisjoint(FD.ExecutableDescriptors);
  }

  /** The role sets of the executable row. */
  predicate ExecutableRowShape(row: FD.TypeToFragmentDescriptor) {
    var m := row.fragmentToRoles;
    && m.Keys == {Modifiers, BeforeName, Name, AfterName, Body}
    && RolesOf(m[Modifiers]) == {FD.Annotation, FD.Modifier}
    && RolesOf(m[BeforeName]) == {FD.Type}
    && RolesOf(m[Name]) == {FD.Name}
    && RolesOf(m[AfterName]) == {FD.Parameter, FD.Thrown}
    && RolesOf(m[Body]) == {FD.Body}
  }

  lemma ExecutableRowHasShape()
    ensures ExecutableRowShape(FD.ExecutableDescriptors)
  {
  }

  lemma ExecutableShapeDisjoint(row: FD.TypeToFragmentDescriptor)
    requires ExecutableRowShape(row)
    ensures RolesDisjoint(row)
  {
  }

  lemma VariableRowRoles()
    ensures RolesDisjoint(FD.VariableDescriptors)
  {
    VariableRowHasShape();
    VariableShapeDisjoint(FD.VariableDescriptors);
  }

  /** The role sets of the variable row. */
  predicate VariableRowShape(row: FD.TypeToFragmentDescriptor) {
    var m := row.fragmentToRoles;
    && m.Keys == {Modifiers, BeforeName, Name, AfterName}
    && RolesOf(m[Modifiers]) == {FD.Annotation, FD.Modifier}
    && RolesOf(m[BeforeName]) == {FD.Type}
    && RolesOf(m[Name]) == {FD.Name}
    && RolesOf(m[AfterName]) == {FD.DefaultExpression}
  }

  lemma VariableRowHasShape()
    ensures VariableRowShape(FD.VariableDescriptors)
  {
  }

  lemma VariableShapeDisjoint(row: FD.TypeToFragmentDescriptor)
    requires VariableRowShape(row)
    ensures RolesDisjoint(row)
  {
  }

  /** The role sets of the type row. */
  predicate TypeRowShape(row: FD.TypeToFragmentDescriptor) {
    var m := row.fragmentToRoles;
    && m.Keys == {Modifiers, BeforeName, Name, AfterName, Body}
    && RolesOf(m[Modifiers]) == {FD.Annotation, FD.Modifier}
    && RolesOf(m[BeforeName]) == {}
    && RolesOf(m[Name]) == {FD.Name}
    && RolesOf(m[AfterName]) == {FD.SuperType, FD.Interface, FD.TypeParameter}
    && RolesOf(m[Body]) == {FD.TypeMember}
  }

  lemma TypeRowHasShape()
    ensures TypeRowShape(FD.TypeDescriptors)
  {
  }

  /**
   * A type whose only change is in its members: only the BODY fragment is marked,
   * and the marking succeeds, so the header keeps its original text. A change of a
   * role the type row does not know (TYPE) cannot be matched.
   */
  lemma TypeMembersChangedExample(chain: seq<SF.SourceFragment>)
    requires |chain| == 5 && forall i :: 0 <= i < 5 ==> !chain[i].modified && chain[i].element == chain[0].element
    requires chain[0].fragmentType == Modifiers && chain[1].fragmentType == BeforeName
    requires chain[2].fragmentType == Name && chain[3].fragmentType == AfterName && chain[4].fragmentType == Body
    ensures SF.SameElementRun(chain) == 5
    ensures forall i :: 0 <= i < 5 ==>
              (MarkedRun(FD.TypeDescriptors, chain, {FD.TypeMember}, 5)[i].modified <==> i == 4)
    ensures {FD.TypeMember} <= CoveredRoles(FD.TypeDescriptors, chain)
    ensures !({FD.Type} <= CoveredRoles(FD.TypeDescriptors, chain))
  {
    RunOfFive(chain);
    TypeRowHasShape();
    MembersChangeMarksBody(FD.TypeDescriptors, chain);
  }

  lemma MembersChangeMarksBody(row: FD.TypeToFragmentDescriptor, chain: seq<SF.SourceFragment>)
    requires TypeRowShape(row)
    requires |chain| == 5 && forall i :: 0 <= i < 5 ==> !chain[i].modified
    requires chain[0].fragmentType == Modifiers && chain[1].fragmentType == BeforeName
    requires chain[2].fragmentType == Name && chain[3].fragmentType == AfterName && chain[4].fragmentType == Body
    ensures forall i :: 0 <= i < 5 ==> (MarkedRun(row, chain, {FD.TypeMember}, 5)[i].modified <==> i == 4)
    ensures {FD.TypeMember} <= CoveredRoles(row, chain)
    ensures !({FD.Type} <= CoveredRoles(row, chain))
  {
    TypeShapeDisjoint(row);
    assert DistinctTypes(chain, 5);
    forall i | 0 <= i < 5
      ensures MarkedRun(row, chain, {FD.TypeMember}, 5)[i].modified <==> i == 4
    {
      MarkedIffRoleChanged(row, chain, {FD.TypeMember}, 5, i);
      OnlyBodyHasMembers(row, chain, i);
    }
    MembersCovered(row, chain);
  }

  lemma MembersCovered(row: FD.TypeToFragmentDescriptor, chain: seq<SF.SourceFragment>)
    requires TypeRowShape(row)
    requires |chain| == 5
    requires chain[0].fragmentType == Modifiers && chain[1].fragmentType == BeforeName
    requires chain[2].fragmentType == Name && chain[3].fragmentType == AfterName && chain[4].fragmentType == Body
    ensures FD.TypeMember in CoveredRoles(row, chain)
    ensures FD.Type !in CoveredRoles(row, chain)
  {
    CoveredRolesMeaning(row, chain, FD.TypeMember);
    assert FD.TypeMember in DescRoles(row, chain[4]);
    CoveredRolesMeaning(row, chain, FD.Type);
    forall j | 0 <= j < 5
      ensures FD.Type !in DescRoles(row, chain[j])
    {
    }
  }

  lemma OnlyBodyHasMembers(row: FD.TypeToFragmentDescriptor, chain: seq<SF.SourceFragment>, i: nat)
    requires TypeRowShape(row)
    requires |chain| == 5 && i < 5
    requires chain[0].fragmentType == Modifiers && chain[1].fragmentType == BeforeName
    requires chain[2].fragmentType == Name && chain[3].fragmentType == AfterName && chain[4].fragmentType == Body
    ensures DescRoles(row, chain[i]) * {FD.TypeMember} != {} <==> i == 4
  {
    if i == 4 {
      assert FD.TypeMember in DescRoles(row, chain[i]) * {FD.TypeMember};
    } else {
      assert FD.TypeMember !in DescRoles(row, chain[i]);
      assert DescRoles(row, chain[i]) * {FD.TypeMember} == {};
    }
  }

  lemma RunOfFive(chain: seq<SF.SourceFragment>)
    requires |chain| == 5 && forall i :: 0 <= i < 5 ==> chain[i].element == chain[0].element
    ensures SF.SameElementRun(chain) == 5
  {
    assert chain[1..][1..][1..][1..][1..] == [];
  }

  // Choosing the fragments an element is printed from.

  /**
   * getSourceFragmentOfElement: the fragment the compilation unit holds for the
   * element (`lookup`, a chain headed by it), or none (null) when the position has
   * no compilation unit.
   */
  function SourceFragmentOfElement(position: SF.SourcePosition, lookup: seq<SF.SourceFragment>): (r: seq<SF.SourceFragment>)
    ensures r != [] <==> position.cu.Some? && lookup != []
    ensures r != [] ==> r == lookup
  {
    if position.cu.Some? then lookup else []
  }

  /**
   * getSourceFragmentsOfElement. Returns the chain to print from ([] for null) and
   * the element's chain after marking, as the compilation unit then holds it.
   */
  method GetSourceFragmentsOfElement(position: SF.SourcePosition, lookup: seq<SF.SourceFragment>,
                                     c: FD.ElementClass, changedRoles: set<FD.Role>)
    returns (r: seq<SF.SourceFragment>, updated: seq<SF.SourceFragment>)
    // no original sources: nothing to reuse
    ensures SourceFragmentOfElement(position, lookup) == [] ==> r == [] && updated == lookup
    // unchanged element: its whole original fragment
    ensures var root := SourceFragmentOfElement(position, lookup);
            root != [] && changedRoles == {} ==> r == root && updated == root
    // changed element with fewer than two sub-fragments of its own: nothing to reuse
    ensures var root := SourceFragmentOfElement(position, lookup);
            root != [] && changedRoles != {} && SF.SameElementRun(SF.ChildFragmentOfSameElement(root[0])) < 2
            ==> r == [] && updated == root
    // otherwise the sub-fragments are marked, and returned when the table covers every changed role
    ensures var root := SourceFragmentOfElement(position, lookup);
            root != [] && changedRoles != {} && SF.SameElementRun(SF.ChildFragmentOfSameElement(root[0])) >= 2
            ==> var child := root[0].children;
                var row := FD.DescriptorsOf(c);
                var marked := if row.None? then child else MarkedRun(row.value, child, changedRoles, SF.SameElementRun(child));
                && updated == [root[0].(children := marked)] + root[1..]
                && (r == marked || r == [])
                && (r != [] <==> row.Some? && changedRoles <= CoveredRoles(row.value, child[..SF.SameElementRun(child)]))
  {
    var rootFragmentOfElement := SourceFragmentOfElement(position, lookup);
    if rootFragmentOfElement == [] {
      return [], lookup;
    }
    updated := rootFragmentOfElement;
    if changedRoles == {} {
      return rootFragmentOfElement, updated;
    }
    var childSourceFragmentsOfSameElement := SF.ChildFragmentOfSameElement(rootFragmentOfElement[0]);
    if childSourceFragmentsOfSameElement == [] || SF.NextFragmentOfSameElement(childSourceFragmentsOfSameElement) == [] {
      return [], updated;
    }
    var ok, marked := MarkChangedFragments(c, childSourceFragmentsOfSameElement, changedRoles);
    updated := [rootFragmentOfElement[0].(children := marked)] + rootFragmentOfElement[1..];
    if ok {
      return marked, updated;
    }
    return [], updated;
  }

  /**
   * When the printer may reuse the sub-fragments of a changed element, every changed
   * role lies in one of the fragments of its run, and the run holds at least two of them.
   */
  lemma ReusedFragmentsCoverChanges(c: FD.ElementClass, child: seq<SF.SourceFragment>, changedRoles: set<FD.Role>, role: FD.Role)
    requires FD.DescriptorsOf(c).Some? && role in changedRoles
    requires changedRoles <= CoveredRoles(FD.DescriptorsOf(c).value, child[..SF.SameElementRun(child)])
    ensures exists j :: 0 <= j < SF.SameElementRun(child) && role in DescRoles(FD.DescriptorsOf(c).value, child[j])
  {
    var n := SF.SameElementRun(child);
    var row := FD.DescriptorsOf(c).value;
    CoveredRolesMeaning(row, child[..n], role);
    var j :| 0 <= j < n && role in DescRoles(row, child[..n][j]);
    assert child[..n][j] == child[j];
  }

  // Finding a position up the parent chain.

  /** An element as seen from getMyOrParentsSourcePosition: its concrete position, if any. */
  datatype ElementNode = ElementNode(position: Option<SF.SourcePosition>, parentInitialized: bool)

  /**
   * The walk reaches ancestor k (ancestry[0] is the element itself, ancestry[k + 1]
   * the parent of ancestry[k]; the walk meets null after the last one) when every
   * element before it has no concrete position and an initialised parent.
   */
  predicate Reachable(ancestry: seq<ElementNode>, k: nat) {
    forall j :: 0 <= j < k && j < |ancestry| ==> ancestry[j].position.None? && ancestry[j].parentInitialized
  }

  /**
   * getMyOrParentsSourcePosition: the position of the nearest element up the parent
   * chain that has a concrete one; null at a null element or an uninitialised parent.
   */
  method GetMyOrParentsSourcePosition(ancestry: seq<ElementNode>) returns (r: Option<SF.SourcePosition>)
    ensures r.Some? ==> exists k :: 0 <= k < |ancestry| && Reachable(ancestry, k) && ancestry[k].position == r
    ensures r.None? ==> forall k :: 0 <= k < |ancestry| && Reachable(ancestry, k) ==> ancestry[k].position.None?
  {
    var i := 0;
    while true
      invariant i <= |ancestry| && Reachable(ancestry, i)
      decreases |ancestry| - i
    {
      if i == |ancestry| {
        return None;
      }
      var sp := ancestry[i].position;
      if sp.Some? {
        return sp;
      }
      if !ancestry[i].parentInitialized {
        return None;
      }
      i := i + 1;
    }
  }
}
