/**
 * The assignment element of the code model: its assigned expression, assigned value,
 * type and list of type casts, each set in place. Every change is reported to the
 * environment's model-change listener (the change collector of the sniper printer
 * is one), modelled here as the log of the notifications it receives.
 */
module Assignments {
  import opened Outcomes

  /** The roles of an assignment's attributes. */
  datatype AssignmentRole = Assigned | Assignment | Type | Cast

  /** A notification to the model-change listener; elements are given by identity, null as None. */
  datatype ChangeEvent =
    | ObjectUpdate(role: AssignmentRole, newValue: Option<nat>, oldValue: Option<nat>)
    | ListDeleteAll(role: AssignmentRole, removed: seq<nat>)
    | ListAdd(role: AssignmentRole, added: nat)

  class ModelChangeListener {
    var events: seq<ChangeEvent>

    constructor ()
      ensures events == []
    {
      events := [];
    }
  }

  /** An expression or a type reference: what an assignment's attributes hold. */
  class CtNode {
    const id: nat
    var parent: CtAssignmentImpl?

    constructor (id: nat)
      ensures this.id == id && parent == null
    {
      this.id := id;
      parent := null;
    }
  }

  function IdOf(n: CtNode?): Option<nat> {
    if n == null then None else Some(n.id)
  }

  function IdsOf(s: seq<CtNode>): (r: seq<nat>)
    ensures |r| == |s| && forall i :: 0 <= i < |s| ==> r[i] == s[i].id
  {
    if s == [] then [] else [s[0].id] + IdsOf(s[1..])
  }

  /** The elements of a list that are not null, in order. */
  function NonNull(s: seq<CtNode?>): (r: seq<CtNode>)
  {
    if s == [] then []
    else if s[|s| - 1] == null then NonNull(s[..|s| - 1])
    else NonNull(s[..|s| - 1]) + [s[|s| - 1]]
  }

  /** Filtering keeps exactly the non-null elements, and no more than there were. */
  lemma {:induction false} NonNullMembers(s: seq<CtNode?>)
    ensures |NonNull(s)| <= |s|
    ensures forall x: CtNode :: x in NonNull(s) <==> x in s
    decreases |s|
  {
    if s != [] {
      var init := s[..|s| - 1];
      NonNullMembers(init);
      assert s == init + [s[|s| - 1]];
    }
  }

  /** Filtering a list without null keeps it as it is: a fresh null-free list given as casts becomes the casts. */
  lemma {:induction false} NonNullOfNullFree(s: seq<CtNode>)
    ensures NonNull(s) == s
    decreases |s|
  {
    if s != [] {
      NonNullOfNullFree(s[..|s| - 1]);
      assert s[..|s| - 1] + [s[|s| - 1]] == s;
    }
  }

  /** The notifications of adding each cast, in order. */
  function AddEvents(casts: seq<CtNode>): (r: seq<ChangeEvent>)
    ensures |r| == |casts| && forall i :: 0 <= i < |casts| ==> r[i] == ListAdd(Cast, casts[i].id)
  {
    if casts == [] then [] else AddEvents(casts[..|casts| - 1]) + [ListAdd(Cast, casts[|casts| - 1].id)]
  }

  lemma NonNullStep(list: seq<CtNode?>, i: nat)
    requires i < |list|
    ensures NonNull(list[..i + 1]) == NonNull(list[..i]) + if list[i] == null then [] else [list[i]]
  {
    assert list[..i + 1][..i] == list[..i];
  }

  lemma AddEventsStep(casts: seq<CtNode>, cast: CtNode)
    ensures AddEvents(casts + [cast]) == AddEvents(casts) + [ListAdd(Cast, cast.id)]
  {
    assert (casts + [cast])[..|casts|] == casts;
  }

  class CtAssignmentImpl {
    /** The listener of the environment the assignment's factory belongs to. */
    const listener: ModelChangeListener
    var assignedExpr: CtNode?
    var assignmentExpr: CtNode?
    var typeRef: CtNode?
    var typeCasts: seq<CtNode>

    constructor (listener: ModelChangeListener)
      ensures this.listener == listener
      ensures assignedExpr == null && assignmentExpr == null && typeRef == null && typeCasts == []
    {
      this.listener := listener;
      assignedExpr := null;
      assignmentExpr := null;
      typeRef := null;
      typeCasts := [];
    }

    /** The assigned expression is replaced, adopted and reported; nothing else changes. */
    method SetAssigned(assignedExpr: CtNode?) returns (r: CtAssignmentImpl)
      modifies this, listener, assignedExpr
      ensures r == this && this.assignedExpr == assignedExpr
      ensures assignmentExpr == old(assignmentExpr) && typeRef == old(typeRef) && typeCasts == old(typeCasts)
      ensures assignedExpr != null ==> assignedExpr.parent == this
      ensures listener.events == old(listener.events) + [ObjectUpdate(Assigned, IdOf(assignedExpr), IdOf(old(this.assignedExpr)))]
    {
      if assignedExpr != null {
        assignedExpr.parent := this;
      }
      listener.events := listener.events + [ObjectUpdate(Assigned, IdOf(assignedExpr), IdOf(this.assignedExpr))];
      this.assignedExpr := assignedExpr;
      return this;
    }

    /** The assigned value is replaced, adopted and reported; nothing else changes. */
    method SetAssignment(assignmentExpr: CtNode?) returns (r: CtAssignmentImpl)
      modifies this, listener, assignmentExpr
      ensures r == this && this.assignmentExpr == assignmentExpr
      ensures assignedExpr == old(assignedExpr) && typeRef == old(typeRef) && typeCasts == old(typeCasts)
      ensures assignmentExpr != null ==> assignmentExpr.parent == this
      ensures listener.events == old(listener.events) + [ObjectUpdate(Assignment, IdOf(assignmentExpr), IdOf(old(this.assignmentExpr)))]
    {
      if assignmentExpr != null {
        assignmentExpr.parent := this;
      }
      listener.events := listener.events + [ObjectUpdate(Assignment, IdOf(assignmentExpr), IdOf(this.assignmentExpr))];
      this.assignmentExpr := assignmentExpr;
      return this;
    }

    /** The type is replaced, adopted and reported; nothing else changes. */
    method SetType(typeRef: CtNode?) returns (r: CtAssignmentImpl)
      modifies this, listener, typeRef
      ensures r == this && this.typeRef == typeRef
      ensures assignedExpr == old(assignedExpr) && assignmentExpr == old(assignmentExpr) && typeCasts == old(typeCasts)
      ensures typeRef != null ==> typeRef.parent == this
      ensures listener.events == old(listener.events) + [ObjectUpdate(Type, IdOf(typeRef), IdOf(old(this.typeRef)))]
    {
      if typeRef != null {
        typeRef.parent := this;
      }
      listener.events := listener.events + [ObjectUpdate(Type, IdOf(typeRef), IdOf(this.typeRef))];
      this.typeRef := typeRef;
      return this;
    }

    /** A null cast is ignored; any other is appended, adopted and reported. */
    method AddTypeCast(cast: CtNode?) returns (r: CtAssignmentImpl)
      modifies this, listener, cast
      ensures r == this
      ensures assignedExpr == old(assignedExpr) && assignmentExpr == old(assignmentExpr) && typeRef == old(typeRef)
      ensures cast == null ==> typeCasts == old(typeCasts) && listener.events == old(listener.events)
      ensures cast != null ==>
                && typeCasts == old(typeCasts) + [cast] && cast.parent == this
                && listener.events == old(listener.events) + [ListAdd(Cast, cast.id)]
    {
      if cast == null {
        return this;
      }
      cast.parent := this;
      listener.events := listener.events + [ListAdd(Cast, cast.id)];
      typeCasts := typeCasts + [cast];
      return this;
    }

    /** The loop of setting the casts: each given cast in turn, null ones ignored. */
    method AddEach(list: seq<CtNode?>)
      modifies this, listener, set c: CtNode | c in list
      ensures assignedExpr == old(assignedExpr) && assignmentExpr == old(assignmentExpr) && typeRef == old(typeRef)
      ensures typeCasts == old(typeCasts) + NonNull(list)
      ensures listener.events == old(listener.events) + AddEvents(NonNull(list))
      ensures forall c | c in NonNull(list) :: c.parent == this
    {
      ghost var casts0 := typeCasts;
      ghost var events0 := listener.events;
      ghost var added: seq<CtNode> := [];
      var i := 0;
      while i < |list|
        invariant 0 <= i <= |list|
        invariant assignedExpr == old(assignedExpr) && assignmentExpr == old(assignmentExpr) && typeRef == old(typeRef)
        invariant added == NonNull(list[..i])
        invariant typeCasts == casts0 + added
        invariant listener.events == events0 + AddEvents(added)
        invariant forall c | c in added :: c.parent == this
      {
        var cast := list[i];
        NonNullStep(list, i);
        var _ := AddTypeCast(cast);
        if cast != null {
          AddEventsStep(added, cast);
          added := added + [cast];
        }
        i := i + 1;
      }
      assert list[..i] == list;
    }

    /**
     * The casts become the given ones without null, each adopted. A missing or empty
     * list empties the casts without a notification; otherwise the removal of the old
     * casts and each addition are reported. The old list is cleared in place before
     * the given one is walked, so when the given list is the assignment's own list
     * (`aliased`, as in setting the casts read from it) nothing is added back.
     */
    method SetTypeCasts(casts: Option<seq<CtNode?>>, aliased: bool) returns (r: CtAssignmentImpl)
      requires aliased ==> casts.Some? && casts.value == typeCasts
      modifies this, listener, set c: CtNode | casts.Some? && c in casts.value
      ensures r == this
      ensures assignedExpr == old(assignedExpr) && assignmentExpr == old(assignmentExpr) && typeRef == old(typeRef)
      ensures casts.None? || casts.value == [] ==> typeCasts == [] && listener.events == old(listener.events)
      ensures casts.Some? && casts.value != [] && aliased ==>
                typeCasts == [] && listener.events == old(listener.events) + [ListDeleteAll(Cast, IdsOf(old(typeCasts)))]
      ensures casts.Some? && casts.value != [] && !aliased ==>
                && typeCasts == NonNull(casts.value)
                && listener.events == old(listener.events) + [ListDeleteAll(Cast, IdsOf(old(typeCasts)))] + AddEvents(typeCasts)
      ensures forall c | c in typeCasts :: c.parent == this
    {
      if casts.None? || casts.value == [] {
        typeCasts := [];
        return this;
      }
      listener.events := listener.events + [ListDeleteAll(Cast, IdsOf(typeCasts))];
      typeCasts := [];
      // the walk reads the given list after the clear: empty when it is the cleared list
      var list := if aliased then [] else casts.value;
      AddEach(list);
      return this;
    }
  }
}
