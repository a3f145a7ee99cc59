/**
 * The changes-aware printer: it runs the generic printer over an element, and
 * for the parts of the element whose original text can be reused it prints
 * that text and mutes the token writer, so that only the changed parts are
 * printed from the model.
 *
 * The generic printer itself is not part of this model. What it does when it
 * scans an element is given with the element, as the sequence of token-writer
 * calls and child scans it makes (`events`).
 */
module SniperPrinter {
  import opened Outcomes
  import FT = FragmentTypes
  import FD = FragmentDescriptors
  import SF = SourceFragments
  import SPU = SourcePositionUtils
  import TW = TokenWriters

  /**
   * A syntax element as the printer sees it: its role in its parent, its position,
   * the fragment chain its compilation unit holds for it, the roles the change
   * collector reports as changed, its kind, and the generic printer's events for it.
   */
  datatype Element = Element(
    id: nat,
    roleInParent: Option<FD.Role>,
    position: SF.SourcePosition,
    lookup: seq<SF.SourceFragment>,
    changes: set<FD.Role>,
    kind: FD.ElementClass,
    events: seq<Event>)

  datatype Event = Token(call: TW.WriterCall) | Scan(child: Element)

  /** All token-writer calls the generic printer makes for an element, its children's included, in order. */
  function Calls(e: Element): seq<TW.WriterCall>
    decreases e, 1
  {
    CallsUpTo(e, |e.events|)
  }

  function CallsUpTo(e: Element, i: nat): seq<TW.WriterCall>
    requires i <= |e.events|
    decreases e, 0, i
  {
    if i == 0 then []
    else CallsUpTo(e, i - 1) + match e.events[i - 1] case Token(call) => [call] case Scan(child) => Calls(child)
  }

  /** The children the generic printer scans in a role: the elements of that list attribute, in order. */
  function ScansInRole(events: seq<Event>, role: FD.Role): (r: seq<Element>)
    ensures forall x | x in r :: Scan(x) in events && x.roleInParent == Some(role)
  {
    if events == [] then []
    else
      var rest := ScansInRole(events[1..], role);
      if events[0].Scan? && events[0].child.roleInParent == Some(role) then [events[0].child] + rest else rest
  }

  // The token events the printer's proxy reports.

  /** The writer method name and the token a context is told about. */
  datatype TokenEvent = TokenEvent(methodName: string, token: Option<string>)

  function KindMethodName(kind: TW.TokenKind): string {
    match kind
    case Separator => "writeSeparator"
    case Operator => "writeOperator"
    case Literal => "writeLiteral"
    case Keyword => "writeKeyword"
    case Identifier => "writeIdentifier"
    case CodeSnippet => "writeCodeSnippet"
  }

  /**
   * How the proxy around the token writer reports a call: token writes with their
   * token, comments and tab changes without one, a space as " " and a newline as
   * "\n"; reset is invoked directly and reported to no context.
   */
  function ProxyEvent(call: TW.WriterCall): (r: Option<TokenEvent>)
    ensures r.None? <==> call.Reset?
    ensures call.WriteToken? ==> r == Some(TokenEvent(KindMethodName(call.kind), Some(call.token)))
    ensures call.WriteComment? || call.IncTab? || call.DecTab? ==> r.Some? && r.value.token.None?
  {
    match call
    case WriteToken(kind, token) => Some(TokenEvent(KindMethodName(kind), Some(token)))
    case WriteComment(_) => Some(TokenEvent("writeComment", None))
    case WriteSpace => Some(TokenEvent("writeSpace", Some(" ")))
    case Writeln => Some(TokenEvent("writeln", Some("\n")))
    case IncTab => Some(TokenEvent("incTab", None))
    case DecTab => Some(TokenEvent("decTab", None))
    case Reset => None
  }

  /**
   * The body of a type opens on the separator "{" and on nothing else: not on
   * another separator, and not on a "{" written by any other writer method.
   */
  lemma TypeBodyOpensOnBrace(call: TW.WriterCall)
    requires call.WriteToken?
    ensures var body := FD.TypeDescriptors.fragmentToRoles[FT.Body];
            var ev := ProxyEvent(call).value;
            FD.IsTriggeredByToken(body, true, ev.methodName, ev.token)
            <==> call.kind == TW.Separator && call.token == "{"
  {
    var body := FD.TypeDescriptors.fragmentToRoles[FT.Body];
    FD.TypeBodyFacts();
    assert body.startTokenDetector == [FD.TokenDetector("writeSeparator", ["{"])];
  }

  // Invariants of the fragments a context walks.

  /**
   * What printing from a fragment needs: its text and the gaps around its children
   * can be taken; a modified fragment has a descriptor; a LIST descriptor has a
   * list role. Marking establishes the last two (MarkingKeepsFragmentsOk).
   */
  predicate FragmentOk(f: SF.SourceFragment) {
    && SF.NodeReadable(f)
    && (f.modified ==> f.fragmentDescriptor.Some?)
    && (f.fragmentDescriptor.Some? && f.fragmentDescriptor.value.kind == FD.List ==>
          FD.GetListRole(f.fragmentDescriptor.value).Ok?)
  }

  predicate FragmentsOk(chain: seq<SF.SourceFragment>) {
    forall i :: 0 <= i < |chain| ==> FragmentOk(chain[i])
  }

  /** The fragments of the element, and the sub-fragments of its root, are fit for printing. */
  predicate SourcesOk(e: Element) {
    FragmentsOk(e.lookup) && (e.lookup != [] ==> FragmentsOk(e.lookup[0].children))
  }

  predicate ElementOk(e: Element)
    decreases e
  {
    SourcesOk(e) && forall ev | ev in e.events && ev.Scan? :: ElementOk(ev.child)
  }

  /** The text a direct print of the original source appends: Java appends "null" for a missing string. */
  function DirectText(s: Option<string>): string {
    if s.Some? then s.value else "null"
  }

  /** Only the helper's tab flag was touched since `before`. */
  ghost predicate SilentSince(before: seq<TW.Effect>, after: seq<TW.Effect>) {
    before <= after && TW.Silent(after[|before|..])
  }

  // The prefix spaces of list elements.

  /** The first position of a fragment identity in a chain. */
  function IndexOfId(chain: seq<SF.SourceFragment>, id: SF.FragId): (r: Option<nat>)
    ensures r.Some? ==> r.value < |chain| && chain[r.value].id == id
                        && forall j :: 0 <= j < r.value ==> chain[j].id != id
    ensures r.None? ==> forall j :: 0 <= j < |chain| ==> chain[j].id != id
  {
    if chain == [] then None
    else if chain[0].id == id then Some(0)
    else
      var r := IndexOfId(chain[1..], id);
      if r.Some? then Some(r.value + 1) else None
  }

  /**
   * The original text between a child of `root` and the child before it: none for
   * the first child, for a fragment that is not a child, and without original text.
   */
  function PrefixSpace(root: SF.SourceFragment, id: SF.FragId): Option<string>
    requires SF.NodeReadable(root)
  {
    var i := IndexOfId(root.children, id);
    if i.None? || i.value == 0 then None
    else SF.SourceCodeBetween(root, root.children[i.value - 1].end, root.children[i.value].start)
  }

  /** The prefix of each list element that has one; a later element with the same identity wins. */
  function PrefixSpaces(root: SF.SourceFragment, items: seq<Element>): map<nat, string>
    requires SF.NodeReadable(root)
  {
    if items == [] then map[]
    else
      var m := PrefixSpaces(root, items[..|items| - 1]);
      var x := items[|items| - 1];
      var fragment := SPU.SourceFragmentOfElement(x.position, x.lookup);
      if fragment != [] && PrefixSpace(root, fragment[0].id).Some? then m[x.id := PrefixSpace(root, fragment[0].id).value]
      else m
  }

  /** Only list elements have a prefix in the map. */
  lemma {:induction false} PrefixSpacesOnlyOfItems(root: SF.SourceFragment, items: seq<Element>, id: nat)
    requires SF.NodeReadable(root)
    requires forall i :: 0 <= i < |items| ==> items[i].id != id
    ensures id !in PrefixSpaces(root, items)
    decreases |items|
  {
    if items != [] {
      var init := items[..|items| - 1];
      assert forall i :: 0 <= i < |init| ==> init[i] == items[i];
      PrefixSpacesOnlyOfItems(root, init, id);
    }
  }

  /** The prefix of a list element's fragment, when it has one, under the element's identity. */
  function ElementPrefix(root: SF.SourceFragment, x: Element): Option<string>
    requires SF.NodeReadable(root)
  {
    var fragment := SPU.SourceFragmentOfElement(x.position, x.lookup);
    if fragment != [] then PrefixSpace(root, fragment[0].id) else None
  }

  /** With distinct identities, every list element is mapped to exactly its own prefix. */
  lemma {:induction false} PrefixSpacesOfDistinct(root: SF.SourceFragment, items: seq<Element>, k: nat)
    requires SF.NodeReadable(root)
    requires forall i, j :: 0 <= i < j < |items| ==> items[i].id != items[j].id
    requires k < |items|
    ensures items[k].id in PrefixSpaces(root, items) <==> ElementPrefix(root, items[k]).Some?
    ensures items[k].id in PrefixSpaces(root, items) ==> PrefixSpaces(root, items)[items[k].id] == ElementPrefix(root, items[k]).value
    decreases |items|
  {
    var init := items[..|items| - 1];
    if k < |items| - 1 {
      PrefixSpacesOfDistinct(root, init, k);
      assert init[k] == items[k];
      assert items[k].id != items[|items| - 1].id;
    } else {
      assert forall i :: 0 <= i < |init| ==> init[i] == items[i];
      PrefixSpacesOnlyOfItems(root, init, items[k].id);
    }
  }

  /**
   * getPrefixSpace: walks the children of `rootFragment` to the element's fragment,
   * remembering the child before it.
   */
  method GetPrefixSpace(rootFragment: SF.SourceFragment, elementFragment: SF.SourceFragment) returns (r: Option<string>)
    requires SF.NodeReadable(rootFragment)
    ensures r == PrefixSpace(rootFragment, elementFragment.id)
  {
    var children := rootFragment.children;
    var child := children;
    var lastChild: Option<SF.SourceFragment> := None;
    while child != []
      invariant |child| <= |children| && child == children[|children| - |child|..]
      invariant lastChild.None? <==> |child| == |children|
      invariant lastChild.Some? ==> lastChild.value == children[|children| - |child| - 1]
      invariant forall j :: 0 <= j < |children| - |child| ==> children[j].id != elementFragment.id
      decreases |child|
    {
      if child[0].id == elementFragment.id {
        ghost var i := |children| - |child|;
        assert IndexOfId(children, elementFragment.id) == Some(i) by {
          IndexOfFirst(children, elementFragment.id, i);
        }
        // `child` is the element's fragment itself, so its start is the element fragment's start
        if lastChild.None? {
          return None;
        }
        return SF.SourceCodeBetween(rootFragment, lastChild.value.end, child[0].start);
      }
      lastChild := Some(child[0]);
      child := child[1..];
    }
    assert IndexOfId(children, elementFragment.id).None? by {
      if IndexOfId(children, elementFragment.id).Some? {
        assert false;
      }
    }
    return None;
  }

  lemma IndexOfFirst(chain: seq<SF.SourceFragment>, id: SF.FragId, i: nat)
    requires i < |chain| && chain[i].id == id && forall j :: 0 <= j < i ==> chain[j].id != id
    ensures IndexOfId(chain, id) == Some(i)
  {
  }

  /**
   * The prefix spaces of a list's elements, as the list context's constructor collects
   * them: the loop over the elements of the list attribute.
   */
  method CollectPrefixSpaces(rootFragment: SF.SourceFragment, listElements: seq<Element>) returns (m: map<nat, string>)
    requires SF.NodeReadable(rootFragment)
    ensures m == PrefixSpaces(rootFragment, listElements)
  {
    m := map[];
    var i := 0;
    while i < |listElements|
      invariant 0 <= i <= |listElements|
      invariant m == PrefixSpaces(rootFragment, listElements[..i])
    {
      var x := listElements[i];
      assert listElements[..i + 1][..i] == listElements[..i];
      var elementFragment := SPU.SourceFragmentOfElement(x.position, x.lookup);
      if elementFragment != [] {
        var prefixSpace := GetPrefixSpace(rootFragment, elementFragment[0]);
        if prefixSpace.Some? {
          m := m[x.id := prefixSpace.value];
        }
      }
      i := i + 1;
    }
    assert listElements[..i] == listElements;
  }

  // The state of the token writer, and what the contexts do to it.

  /** The writer's mute flag and everything it has done so far. */
  datatype Out = Out(muted: bool, effects: seq<TW.Effect>)

  function OutOf(w: TW.MutableTokenWriter): Out
    reads w
  {
    Out(w.muted, w.effects)
  }

  /** Running a print action of the writer: the call's effect in the current mute state. */
  function Run(w: Out, call: TW.WriterCall): Out {
    Out(w.muted, w.effects + TW.EffectOf(w.muted, call))
  }

  function DirectPrint(w: Out, text: string): Out {
    Out(w.muted, w.effects + [TW.Direct(text)])
  }

  // The list context, as a value.

  /**
   * The list context: the fragment of the whole list, the original spaces before each
   * element, the postponed separator calls and the index of the last element scanned
   * (-1 while the list prefix is printed).
   */
  datatype ListState = ListState(root: SF.SourceFragment, prefixes: map<nat, string>,
                                 separators: seq<TW.WriterCall>, index: int)

  /** The original text after the last child of a fragment; none without a child. */
  function SuffixText(f: SF.SourceFragment): Option<string>
    requires SF.NodeReadable(f)
  {
    if f.children != [] then SF.SourceCodeBetween(f, f.children[|f.children| - 1].end, f.end) else None
  }

  /** printStandardSpaces: runs the postponed separators, then forgets them. */
  function StandardSpaces(ls: ListState, w: Out): (r: (ListState, Out))
    ensures r.0 == ls.(separators := []) && r.1.muted == w.muted && w.effects <= r.1.effects
  {
    (ls.(separators := []), Out(w.muted, w.effects + TW.EffectsOf(w.muted, ls.separators)))
  }

  /**
   * A token while the list prefix is printed: the original prefix replaces the
   * printed one (once, while the writer still prints); after the first element the
   * token is postponed, because what is printed depends on what follows.
   */
  function ListToken(ls: ListState, w: Out, call: TW.WriterCall): (r: (ListState, Out))
    requires SF.NodeReadable(ls.root)
    ensures r.0.root == ls.root && r.0.prefixes == ls.prefixes && r.0.index == ls.index && w.effects <= r.1.effects
    // a prefix token, when the original prefix is printed instead: the writer is muted from it on
    ensures ls.index == -1 && !w.muted && ls.root.children != [] && SF.HasText(ls.root) ==>
              r.1 == Out(true, w.effects + [TW.Direct(SF.TextBeforeFirstChild(ls.root).value)] + TW.MutedEffect(call))
    // a token after an element is held back, and nothing is printed
    ensures ls.index != -1 ==> r.0.separators == ls.separators + [call] && r.1 == w
  {
    if ls.index == -1 then
      var prefix := SF.TextBeforeFirstChild(ls.root);
      var w1 := if !w.muted && prefix.Some? then Out(true, w.effects + [TW.Direct(prefix.value)]) else w;
      (ls, Run(w1, call))
    else
      (ls.(separators := ls.separators + [call]), w)
  }

  /**
   * What the list context does before an element is scanned: unmute; from the second
   * element on, the original spaces before a known element replace the postponed
   * separators; then the remaining separators are printed.
   */
  function ListBeforeScan(ls: ListState, w: Out, id: nat): (r: (ListState, Out))
    ensures r.0 == ls.(separators := [], index := ls.index + 1) && !r.1.muted
    // the original spaces before a known element replace the held-back separators
    ensures ls.index >= 0 && id in ls.prefixes ==> r.1.effects == w.effects + [TW.Direct(ls.prefixes[id])]
    // otherwise the held-back separators are printed, unmuted
    ensures !(ls.index >= 0 && id in ls.prefixes) ==> r.1.effects == w.effects + TW.EffectsOf(false, ls.separators)
  {
    var index := ls.index + 1;
    var w1 := Out(false, w.effects);
    var (ls1, w2) :=
      if index > 0 && id in ls.prefixes then (ls.(separators := []), DirectPrint(w1, ls.prefixes[id]))
      else (ls, w1);
    StandardSpaces(ls1.(index := index), w2)
  }

  /** The end of the list: the original suffix when there is one, else the postponed separators. */
  function ListFinished(ls: ListState, w: Out): (r: (ListState, Out))
    requires SF.NodeReadable(ls.root)
    ensures r.0 == ls.(separators := []) && !r.1.muted
    // the original suffix replaces the held-back separators; without it they are printed
    ensures SuffixText(ls.root).Some? ==> r.1.effects == w.effects + [TW.Direct(SuffixText(ls.root).value)]
    ensures SuffixText(ls.root).None? ==> r.1.effects == w.effects + TW.EffectsOf(false, ls.separators)
  {
    var suffix := SuffixText(ls.root);
    if suffix.Some? then (ls.(separators := []), Out(false, w.effects + [TW.Direct(suffix.value)]))
    else StandardSpaces(ls, Out(false, w.effects))
  }

  /** The list context as it starts: before the prefix, nothing postponed. */
  function NewList(root: SF.SourceFragment, element: Element, listRole: FD.Role): ListState
    requires SF.NodeReadable(root)
  {
    ListState(root, PrefixSpaces(root, ScansInRole(element.events, listRole)), [], -1)
  }

  class ContextList {
    const writer: TW.MutableTokenWriter
    const rootFragment: SF.SourceFragment
    /** The original spaces before each element of the list, by element identity. */
    var listElementToPrefixSpace: map<nat, string>
    var separatorActions: seq<TW.WriterCall>
    var elementIndex: int

    function State(): ListState
      reads this
    {
      ListState(rootFragment, listElementToPrefixSpace, separatorActions, elementIndex)
    }

    ghost predicate Valid()
      reads this
    {
      SF.NodeReadable(rootFragment) && elementIndex >= -1
    }

    /** The context for the list attribute of `element` that `rootFragment` prints. */
    constructor (mutableTokenWriter: TW.MutableTokenWriter, element: Element, rootFragment: SF.SourceFragment)
      requires SF.NodeReadable(rootFragment)
      requires rootFragment.fragmentDescriptor.Some? && FD.GetListRole(rootFragment.fragmentDescriptor.value).Ok?
      ensures writer == mutableTokenWriter && Valid()
      ensures State() == NewList(rootFragment, element, FD.GetListRole(rootFragment.fragmentDescriptor.value).value)
    {
      var listRole := FD.GetListRole(rootFragment.fragmentDescriptor.value).value;
      var listElements := ScansInRole(element.events, listRole);
      var prefixes := CollectPrefixSpaces(rootFragment, listElements);
      writer := mutableTokenWriter;
      this.rootFragment := rootFragment;
      listElementToPrefixSpace := prefixes;
      separatorActions := [];
      elementIndex := -1;
    }

    method OnTokenWriterToken(call: TW.WriterCall)
      requires Valid()
      modifies this, writer
      ensures Valid()
      ensures (State(), OutOf(writer)) == ListToken(old(State()), old(OutOf(writer)), call)
    {
      if elementIndex == -1 {
        if !writer.IsMuted() {
          var prefix := SF.TextBeforeFirstChild(rootFragment);
          if prefix.Some? {
            writer.DirectPrint(prefix.value);
            writer.SetMuted(true);
          }
        }
        writer.Invoke(call);
      } else {
        separatorActions := separatorActions + [call];
      }
    }

    /** printStandardSpaces */
    method PrintStandardSpaces()
      modifies this, writer
      ensures Valid() == old(Valid())
      ensures (State(), OutOf(writer)) == StandardSpaces(old(State()), old(OutOf(writer)))
    {
      var i := 0;
      while i < |separatorActions|
        invariant 0 <= i <= |separatorActions|
        invariant writer.muted == old(writer.muted)
        invariant writer.effects == old(writer.effects) + TW.EffectsOf(writer.muted, separatorActions[..i])
        invariant unchanged(this)
      {
        TW.EffectsAppend(writer.muted, separatorActions[..i], [separatorActions[i]]);
        assert separatorActions[..i + 1] == separatorActions[..i] + [separatorActions[i]];
        writer.Invoke(separatorActions[i]);
        i := i + 1;
      }
      assert separatorActions[..i] == separatorActions;
      separatorActions := [];
    }

    /**
     * An element of the list is scanned: unmuted, after its original spaces or the
     * held-back separators; muted again once it is printed.
     */
    method OnScanElementOnRole(printer: ChangesAwarePrinter, element: Element)
      requires Valid() && printer.writer == writer && ElementOk(element)
      modifies this, writer, printer
      decreases element, 4
      ensures Valid() && printer.stack == old(printer.stack)
      ensures var (l, w) := ListBeforeScan(old(State()), old(OutOf(writer)), element.id);
              State() == l && writer.muted && ScannedInternally(element, w, Out(false, writer.effects))
    {
      writer.SetMuted(false);
      elementIndex := elementIndex + 1;
      if elementIndex > 0 {
        if element.id in listElementToPrefixSpace {
          writer.DirectPrint(listElementToPrefixSpace[element.id]);
          separatorActions := [];
        }
      }
      PrintStandardSpaces();
      printer.ScanInternal(element);
      writer.SetMuted(true);
    }

    method OnParentFinished()
      requires Valid()
      modifies this, writer
      ensures Valid()
      ensures (State(), OutOf(writer)) == ListFinished(old(State()), old(OutOf(writer)))
    {
      writer.SetMuted(false);
      var suffix := SF.TextAfterLastChild(rootFragment);
      if suffix.Some? {
        writer.DirectPrint(suffix.value);
        separatorActions := [];
      } else {
        PrintStandardSpaces();
      }
    }
  }

  // The context of an element printed from its fragments, as a value.

  /** The fragment being printed (a chain, [] for none) and the list context inside it, if any. */
  datatype NormalState = NormalState(current: seq<SF.SourceFragment>, child: Option<ListState>)

  predicate NormalOk(ns: NormalState) {
    FragmentsOk(ns.current) && (ns.child.Some? ==> SF.NodeReadable(ns.child.value.root))
  }

  /** getNextFragment: the next fragment of the same element; none without a current fragment. */
  function NextOf(current: seq<SF.SourceFragment>): (r: seq<SF.SourceFragment>)
    ensures r == [] || (|r| < |current| && r == current[|current| - |r|..])
  {
    if current == [] then [] else SF.NextFragmentOfSameElement(current)
  }

  lemma SuffixOk(chain: seq<SF.SourceFragment>, k: nat)
    requires FragmentsOk(chain) && k <= |chain|
    ensures FragmentsOk(chain[k..])
  {
    assert forall i :: 0 <= i < |chain| - k ==> chain[k..][i] == chain[k + i];
  }

  // testFagmentDescriptor with each of the three tests the context makes.

  /** The fragment has a descriptor that the token starts. */
  predicate StartsOnToken(f: seq<SF.SourceFragment>, ev: TokenEvent) {
    f != [] && f[0].fragmentDescriptor.Some?
    && FD.IsTriggeredByToken(f[0].fragmentDescriptor.value, true, ev.methodName, ev.token)
  }

  /** The fragment has a descriptor that the token ends. */
  predicate EndsOnToken(f: seq<SF.SourceFragment>, ev: TokenEvent) {
    f != [] && f[0].fragmentDescriptor.Some?
    && FD.IsTriggeredByToken(f[0].fragmentDescriptor.value, false, ev.methodName, ev.token)
  }

  /** The fragment has a descriptor that starts when an element is scanned in `role`. */
  predicate StartsOnScan(f: seq<SF.SourceFragment>, role: FD.Role) {
    f != [] && f[0].fragmentDescriptor.Some? && FD.IsStartedByScanRole(f[0].fragmentDescriptor.value, role)
  }

  /**
   * handlePrinting: an unmodified fragment is printed from the original source and the
   * writer muted; a modified one unmutes the writer, and a LIST one starts a list
   * context. Without a fragment nothing happens.
   */
  function Handle(current: seq<SF.SourceFragment>, child: Option<ListState>, w: Out, element: Element): (r: (Option<ListState>, Out))
    requires FragmentsOk(current)
    ensures r.0.Some? ==> r.0 == child || (current != [] && r.0.value.root == current[0])
    ensures w.effects <= r.1.effects
    // an unmodified fragment is printed from the original source, and the writer muted
    ensures current != [] && !current[0].modified ==>
              r == (child, Out(true, w.effects + [TW.Direct(DirectText(SF.SourceCode(current[0])))]))
    // a modified one unmutes the writer and prints nothing itself
    ensures current != [] && current[0].modified ==> r.1 == Out(false, w.effects)
  {
    if current == [] then (child, w)
    else if !current[0].modified then (child, Out(true, w.effects + [TW.Direct(DirectText(SF.SourceCode(current[0])))]))
    else
      var d := current[0].fragmentDescriptor.value;
      if d.kind == FD.List then (Some(NewList(current[0], element, FD.GetListRole(d).value)), Out(false, w.effects))
      else (child, Out(false, w.effects))
  }

  /** nextFragment: move to the next fragment of the element and handle it. */
  function NextFragmentOf(ns: NormalState, w: Out, element: Element): (r: (NormalState, Out))
    requires NormalOk(ns)
    ensures NormalOk(r.0) && w.effects <= r.1.effects
  {
    var next := NextOf(ns.current);
    SuffixOk(ns.current, |ns.current| - |next|);
    var (child, w1) := Handle(next, ns.child, w, element);
    (NormalState(next, child), w1)
  }

  /**
   * A token in the element's context: the next fragment starts before the token when
   * the token starts it; the token goes to the list context or is printed; a token
   * that ends the current fragment finishes the list context and moves on.
   */
  function NormalToken(ns: NormalState, w: Out, element: Element, ev: TokenEvent, call: TW.WriterCall): (r: (NormalState, Out))
    requires NormalOk(ns)
    ensures NormalOk(r.0) && w.effects <= r.1.effects
  {
    var (ns1, w1) := if StartsOnToken(NextOf(ns.current), ev) then NextFragmentOf(ns, w, element) else (ns, w);
    var (ns2, w2) := RunToken(ns1, w1, call);
    FinishOnToken(ns2, w2, element, ev)
  }

  /** The token goes to the list context, or is printed. */
  function RunToken(ns: NormalState, w: Out, call: TW.WriterCall): (r: (NormalState, Out))
    requires NormalOk(ns)
    ensures NormalOk(r.0) && r.0.current == ns.current && r.0.child.Some? == ns.child.Some? && w.effects <= r.1.effects
  {
    if ns.child.Some? then
      var (l, o) := ListToken(ns.child.value, w, call);
      (ns.(child := Some(l)), o)
    else (ns, Run(w, call))
  }

  /** A token that ends the current fragment finishes the list context and moves to the next fragment. */
  function FinishOnToken(ns: NormalState, w: Out, element: Element, ev: TokenEvent): (r: (NormalState, Out))
    requires NormalOk(ns)
    ensures NormalOk(r.0) && w.effects <= r.1.effects
    ensures !EndsOnToken(ns.current, ev) ==> r == (ns, w)
    // an ending token: the list context finishes (and is dropped), then the next fragment is handled
    ensures EndsOnToken(ns.current, ev) ==>
              var next := NextOf(ns.current);
              var w1 := if ns.child.Some? then ListFinished(ns.child.value, w).1 else w;
              && r.0.current == next
              && (next == [] ==> r == (NormalState([], None), w1))
              && (next != [] && !next[0].modified ==>
                    r == (NormalState(next, None), Out(true, w1.effects + [TW.Direct(DirectText(SF.SourceCode(next[0])))])))
              && (next != [] && next[0].modified ==>
                    && r.1 == Out(false, w1.effects)
                    && (r.0.child.Some? <==> next[0].fragmentDescriptor.value.kind == FD.List))
              && (r.0.child.Some? ==> r.0.child.value.root == next[0])
  {
    if EndsOnToken(ns.current, ev) then
      var w1 := if ns.child.Some? then ListFinished(ns.child.value, w).1 else w;
      NextFragmentOf(NormalState(ns.current, None), w1, element)
    else (ns, w)
  }

  /** Before an element is scanned: the next fragment starts when the scan role starts it. */
  function NormalBeforeScan(ns: NormalState, w: Out, element: Element, role: FD.Role): (r: (NormalState, Out))
    requires NormalOk(ns)
    ensures NormalOk(r.0) && w.effects <= r.1.effects
    ensures !StartsOnScan(NextOf(ns.current), role) ==> r == (ns, w)
    // a scan in a starting role: the next fragment is handled before the child is scanned
    ensures StartsOnScan(NextOf(ns.current), role) ==>
              var next := NextOf(ns.current);
              && r.0.current == next
              && (!next[0].modified ==>
                    r == (NormalState(next, ns.child), Out(true, w.effects + [TW.Direct(DirectText(SF.SourceCode(next[0])))])))
              && (next[0].modified && next[0].fragmentDescriptor.value.kind != FD.List ==>
                    r == (NormalState(next, ns.child), Out(false, w.effects)))
              && (next[0].modified && next[0].fragmentDescriptor.value.kind == FD.List ==>
                    && r.1 == Out(false, w.effects) && r.0.child.Some? && r.0.child.value.root == next[0])
  {
    if StartsOnScan(NextOf(ns.current), role) then NextFragmentOf(ns, w, element) else (ns, w)
  }

  /**
   * A token that starts the next fragment, without ending it, runs after that fragment
   * is handled: an unmodified fragment's original text comes first and the token runs
   * muted; a modified NORMAL fragment lets the token run unmuted.
   */
  lemma StartedFragmentPrintsFirst(ns: NormalState, w: Out, element: Element, ev: TokenEvent, call: TW.WriterCall)
    requires NormalOk(ns) && ns.child.None?
    requires StartsOnToken(NextOf(ns.current), ev) && !EndsOnToken(NextOf(ns.current), ev)
    ensures var next := NextOf(ns.current);
            !next[0].modified ==>
              NormalToken(ns, w, element, ev, call)
              == (NormalState(next, None), Run(Out(true, w.effects + [TW.Direct(DirectText(SF.SourceCode(next[0])))]), call))
    ensures var next := NextOf(ns.current);
            next[0].modified && next[0].fragmentDescriptor.value.kind != FD.List ==>
              NormalToken(ns, w, element, ev, call) == (NormalState(next, None), Run(Out(false, w.effects), call))
  {
  }

  /**
   * A token that ends the current fragment, in a list context and without starting the
   * next fragment: the list context takes the token, then finishes, and is dropped; only
   * then does the cursor move to the next fragment, whose original text follows when it
   * is unmodified.
   */
  lemma EndingTokenFinishesList(ns: NormalState, w: Out, element: Element, ev: TokenEvent, call: TW.WriterCall)
    requires NormalOk(ns) && ns.child.Some?
    requires EndsOnToken(ns.current, ev) && !StartsOnToken(NextOf(ns.current), ev)
    ensures var r := NormalToken(ns, w, element, ev, call);
            var l1 := ListToken(ns.child.value, w, call);
            var w2 := ListFinished(l1.0, l1.1).1;
            var next := NextOf(ns.current);
            && r.0.current == next
            && (next == [] ==> r == (NormalState([], None), w2))
            && (next != [] && !next[0].modified ==>
                  r == (NormalState(next, None), Out(true, w2.effects + [TW.Direct(DirectText(SF.SourceCode(next[0])))])))
            && (next != [] && next[0].modified ==> r.1 == Out(false, w2.effects))
            && (r.0.child.Some? ==> next != [] && r.0.child.value.root == next[0])
  {
    var (ns2, w1) := RunToken(ns, w, call);
    assert (ns2, w1) == (ns.(child := Some(ListToken(ns.child.value, w, call).0)), ListToken(ns.child.value, w, call).1);
    assert NormalToken(ns, w, element, ev, call) == FinishOnToken(ns2, w1, element, ev);
  }

  /** Nothing is left to switch: no list context, no next fragment, no descriptor on the current one. */
  predicate QuietState(ns: NormalState) {
    ns.child.None? && NextOf(ns.current) == [] && (ns.current == [] || ns.current[0].fragmentDescriptor.None?)
  }

  /** A quiet context passes every token on to the writer and stays quiet. */
  lemma QuietPassesTokens(ns: NormalState, w: Out, element: Element, ev: TokenEvent, call: TW.WriterCall)
    requires NormalOk(ns) && QuietState(ns)
    ensures NormalToken(ns, w, element, ev, call) == (ns, Run(w, call))
  {
  }

  class ContextNormal {
    const writer: TW.MutableTokenWriter
    const element: Element
    var currentFragment: seq<SF.SourceFragment>
    /** The context of the list being printed, or null. */
    var childContext: ContextList?

    function State(): NormalState
      reads this, childContext
    {
      NormalState(currentFragment, if childContext == null then None else Some(childContext.State()))
    }

    ghost predicate Valid()
      reads this, childContext
    {
      && FragmentsOk(currentFragment)
      && (childContext != null ==> childContext.writer == writer && childContext.Valid())
    }

    /** The context of `element`, printed from `rootFragment`; handles that fragment at once. */
    constructor (mutableTokenWriter: TW.MutableTokenWriter, element: Element, rootFragment: seq<SF.SourceFragment>)
      requires FragmentsOk(rootFragment)
      modifies mutableTokenWriter
      ensures writer == mutableTokenWriter && this.element == element && Valid()
      ensures childContext == null || fresh(childContext)
      ensures var (child, w) := Handle(rootFragment, None, old(OutOf(mutableTokenWriter)), element);
              State() == NormalState(rootFragment, child) && OutOf(writer) == w
    {
      writer := mutableTokenWriter;
      this.element := element;
      currentFragment := rootFragment;
      childContext := null;
      new;
      HandlePrinting();
    }

    /** The fragment after the current one: a proper suffix of the current chain, or none. */
    function GetNextFragment(): (r: seq<SF.SourceFragment>)
      reads this
      ensures r == [] || (|r| < |currentFragment| && r == currentFragment[|currentFragment| - |r|..])
    {
      NextOf(currentFragment)
    }

    method HandlePrinting()
      requires Valid()
      modifies this, writer
      ensures Valid() && currentFragment == old(currentFragment)
      ensures childContext == old(childContext) || fresh(childContext)
      ensures var (child, w) := Handle(old(currentFragment), old(State()).child, old(OutOf(writer)), element);
              State() == NormalState(currentFragment, child) && OutOf(writer) == w
    {
      if currentFragment != [] {
        if !currentFragment[0].modified {
          writer.DirectPrint(DirectText(SF.SourceCode(currentFragment[0])));
          writer.SetMuted(true);
        } else {
          writer.SetMuted(false);
          var d := currentFragment[0].fragmentDescriptor.value;
          if d.kind == FD.List {
            childContext := new ContextList(writer, element, currentFragment[0]);
          }
        }
      }
    }

    method NextFragment()
      requires Valid()
      modifies this, writer
      ensures Valid()
      ensures childContext == old(childContext) || fresh(childContext)
      ensures (State(), OutOf(writer)) == NextFragmentOf(old(State()), old(OutOf(writer)), element)
    {
      var next := GetNextFragment();
      SuffixOk(currentFragment, |currentFragment| - |next|);
      currentFragment := next;
      HandlePrinting();
    }

    method OnTokenWriterToken(ev: TokenEvent, call: TW.WriterCall)
      requires Valid()
      modifies this, writer, childContext
      ensures Valid()
      ensures childContext == null || childContext == old(childContext) || fresh(childContext)
      ensures (State(), OutOf(writer)) == NormalToken(old(State()), old(OutOf(writer)), element, ev, call)
    {
      if StartsOnToken(GetNextFragment(), ev) {
        NextFragment();
      }
      RunPrintAction(call);
      FinishIfEnded(ev);
    }

    /** The token goes to the list context, or its print action runs. */
    method RunPrintAction(call: TW.WriterCall)
      requires Valid()
      modifies writer, childContext
      ensures Valid() && unchanged(this)
      ensures (State(), OutOf(writer)) == RunToken(old(State()), old(OutOf(writer)), call)
    {
      if childContext != null {
        childContext.OnTokenWriterToken(call);
      } else {
        writer.Invoke(call);
      }
    }

    /**
     * A child element is scanned in `role`: the next fragment starts first when the
     * role starts it; then the list context or the printer scans the child.
     */
    method OnScanElementOnRole(printer: ChangesAwarePrinter, child: Element, role: FD.Role)
      requires Valid() && printer.writer == writer && ElementOk(child)
      modifies this, writer, printer, childContext
      decreases child, 6
      ensures Valid() && printer.stack == old(printer.stack)
      ensures childContext == null || childContext == old(childContext) || fresh(childContext)
      ensures ScannedInContext(old(State()), old(OutOf(writer)), element, child, role, State(), OutOf(writer))
    {
      if StartsOnScan(GetNextFragment(), role) {
        NextFragment();
      }
      RunScanAction(printer, child);
    }

    /** The list context, when there is one, or else the printer scans the child. */
    method RunScanAction(printer: ChangesAwarePrinter, child: Element)
      requires Valid() && printer.writer == writer && ElementOk(child)
      modifies writer, printer, childContext
      decreases child, 5
      ensures Valid() && unchanged(this) && printer.stack == old(printer.stack)
      ensures ScanRan(old(State()), old(OutOf(writer)), child, State(), OutOf(writer))
    {
      if childContext != null {
        childContext.OnScanElementOnRole(printer, child);
      } else {
        printer.ScanInternal(child);
      }
    }

    /** When the token ends the current fragment: finish the list context, move to the next fragment. */
    method FinishIfEnded(ev: TokenEvent)
      requires Valid()
      modifies this, writer, childContext
      ensures Valid()
      ensures childContext == null || childContext == old(childContext) || fresh(childContext)
      ensures (State(), OutOf(writer)) == FinishOnToken(old(State()), old(OutOf(writer)), element, ev)
    {
      if EndsOnToken(currentFragment, ev) {
        if childContext != null {
          childContext.OnParentFinished();
          childContext := null;
        }
        NextFragment();
      }
    }
  }

  // Scanning elements.

  /** Neither the element nor anything inside it has original sources. */
  predicate NoSources(e: Element)
    decreases e
  {
    SPU.SourceFragmentOfElement(e.position, e.lookup) == []
    && forall ev | ev in e.events && ev.Scan? :: NoSources(ev.child)
  }

  /**
   * The element has an original fragment, which is printable, and no change: nothing
   * is reported changed, the fragment is not marked and has no next part.
   */
  predicate Unchanged(e: Element) {
    && e.position.cu.Some? && e.lookup != [] && FragmentOk(e.lookup[0])
    && e.changes == {}
    && !e.lookup[0].modified && e.lookup[0].fragmentDescriptor.None?
    && SF.NextFragmentOfSameElement(e.lookup) == []
  }

  /**
   * What scanning an element leaves behind, whatever context it is in: the mute state
   * is back, output only grows, nothing is printed while muted, and an element without
   * sources is printed exactly as the generic printer prints it.
   */
  ghost predicate PassedThrough(calls: seq<TW.WriterCall>, noSources: bool, before: Out, after: Out) {
    && after.muted == before.muted
    && before.effects <= after.effects
    && (before.muted ==> TW.Silent(after.effects[|before.effects|..]))
    && (!before.muted && noSources ==> after.effects == before.effects + TW.EffectsOf(false, calls))
  }

  /** scanInternal's outcome; besides, an unchanged element prints its original text and nothing else. */
  ghost predicate ScannedInternally(e: Element, before: Out, after: Out) {
    && PassedThrough(Calls(e), NoSources(e), before, after)
    && (!before.muted && Unchanged(e) ==>
          SilentSince(before.effects + [TW.Direct(DirectText(SF.SourceCode(e.lookup[0])))], after.effects))
  }

  /** A child scanned in the context of its parent's fragments. */
  ghost predicate ScannedInContext(ns0: NormalState, w0: Out, element: Element, child: Element, role: FD.Role,
                                   ns: NormalState, w: Out)
  {
    NormalOk(ns0) &&
    var (ns1, w1) := NormalBeforeScan(ns0, w0, element, role);
    ScanRan(ns1, w1, child, ns, w)
  }

  /** The child scanned by the list context, when there is one, or by the printer. */
  ghost predicate ScanRan(ns1: NormalState, w1: Out, child: Element, ns: NormalState, w: Out) {
    && ns.current == ns1.current
    && (ns1.child.Some? ==>
          var (l, w2) := ListBeforeScan(ns1.child.value, w1, child.id);
          ns.child == Some(l) && w.muted && ScannedInternally(child, w2, Out(false, w.effects)))
    && (ns1.child.None? ==> ns.child.None? && ScannedInternally(child, w1, w))
  }

  /** Marking with a row of the table keeps fragments fit for printing. */
  lemma MarkingKeepsFragmentsOk(row: FD.TypeToFragmentDescriptor, chain: seq<SF.SourceFragment>, changed: set<FD.Role>, n: nat)
    requires row in FD.AllDescriptors && FragmentsOk(chain) && n <= |chain|
    ensures FragmentsOk(SPU.MarkedRun(row, chain, changed, n))
  {
    FD.ListDescriptorsHaveListRole();
    SPU.MarkingKeepsFragments(row, chain, changed, n);
    var m := SPU.MarkedRun(row, chain, changed, n);
    forall i | 0 <= i < |m| ensures FragmentOk(m[i]) {
      assert FragmentOk(chain[i]);
      if i < n && chain[i].fragmentType in row.fragmentToRoles {
        assert m[i].fragmentDescriptor == Some(row.fragmentToRoles[chain[i].fragmentType]);
      }
    }
  }

  /** The fragments the printer is given for an element are fit for printing. */
  lemma FragmentsOfElementOk(e: Element, r: seq<SF.SourceFragment>)
    requires SourcesOk(e)
    requires var root := SPU.SourceFragmentOfElement(e.position, e.lookup);
             var row := FD.DescriptorsOf(e.kind);
             || r == root
             || (root != [] && row.Some? && SF.SameElementRun(root[0].children) <= |root[0].children| &&
                 r == SPU.MarkedRun(row.value, root[0].children, e.changes, SF.SameElementRun(root[0].children)))
    ensures FragmentsOk(r)
  {
    var root := SPU.SourceFragmentOfElement(e.position, e.lookup);
    var row := FD.DescriptorsOf(e.kind);
    if r != root {
      assert row.value in FD.AllDescriptors;
      MarkingKeepsFragmentsOk(row.value, root[0].children, e.changes, SF.SameElementRun(root[0].children));
    }
  }

  /** An entry of the printer's stack of contexts; EmptyContext lets everything through. */
  datatype Frame = EmptyContext | NormalContext(ctx: ContextNormal)

  /** The objects a context on the stack may change. */
  ghost function Objects(f: Frame): set<object?>
    reads if f.NormalContext? then {f.ctx} else {}
  {
    if f.NormalContext? then {f.ctx, f.ctx.childContext} else {}
  }

  ghost predicate FrameValid(f: Frame, w: TW.MutableTokenWriter)
    reads if f.NormalContext? then {f.ctx, f.ctx.childContext} else {}
  {
    f.NormalContext? ==> f.ctx.writer == w && f.ctx.Valid()
  }

  /** The state of the context in a frame; the empty context has none. */
  function FrameState(f: Frame): NormalState
    reads if f.NormalContext? then {f.ctx, f.ctx.childContext} else {}
  {
    if f.NormalContext? then f.ctx.State() else NormalState([], None)
  }

  /**
   * What any part of a scan leaves behind: output only grows; under the empty context it
   * passes through; a quiet context under a muted writer stays as it is and prints nothing.
   */
  ghost predicate Progressed(isEmpty: bool, calls: seq<TW.WriterCall>, noSources: bool,
                             ns0: NormalState, w0: Out, ns: NormalState, w: Out)
  {
    && w0.effects <= w.effects
    && (isEmpty ==> PassedThrough(calls, noSources, w0, w))
    && (!isEmpty && QuietState(ns0) && w0.muted ==> ns == ns0 && w.muted && SilentSince(w0.effects, w.effects))
  }

  lemma ProgressedWeaken(isEmpty: bool, calls: seq<TW.WriterCall>, b1: bool, b2: bool,
                         ns0: NormalState, w0: Out, ns: NormalState, w: Out)
    requires Progressed(isEmpty, calls, b1, ns0, w0, ns, w) && (b2 ==> b1)
    ensures Progressed(isEmpty, calls, b2, ns0, w0, ns, w)
  {
  }

  lemma SilentSlices(a: seq<TW.Effect>, b: seq<TW.Effect>, c: seq<TW.Effect>)
    requires a <= b <= c && TW.Silent(b[|a|..]) && TW.Silent(c[|b|..])
    ensures TW.Silent(c[|a|..])
  {
    assert c[|a|..] == b[|a|..] + c[|b|..];
    TW.SilentAppend(b[|a|..], c[|b|..]);
  }

  /** Two consecutive parts of a scan make one. */
  lemma ProgressedTrans(isEmpty: bool, c1: seq<TW.WriterCall>, c2: seq<TW.WriterCall>, noSources: bool,
                        ns0: NormalState, w0: Out, ns1: NormalState, w1: Out, ns2: NormalState, w2: Out)
    requires Progressed(isEmpty, c1, noSources, ns0, w0, ns1, w1)
    requires Progressed(isEmpty, c2, noSources, ns1, w1, ns2, w2)
    ensures Progressed(isEmpty, c1 + c2, noSources, ns0, w0, ns2, w2)
  {
    if isEmpty {
      if w0.muted {
        SilentSlices(w0.effects, w1.effects, w2.effects);
      }
      if !w0.muted && noSources {
        TW.EffectsAppend(false, c1, c2);
      }
    }
    if !isEmpty && QuietState(ns0) && w0.muted {
      SilentSlices(w0.effects, w1.effects, w2.effects);
    }
  }

  /** A muted writer's call prints nothing. */
  lemma RunMuted(w: Out, call: TW.WriterCall)
    requires w.muted
    ensures SilentSince(w.effects, Run(w, call).effects)
  {
    assert Run(w, call).effects[|w.effects|..] == TW.MutedEffect(call);
  }

  /** A token handled by the context on top, or passed to the writer, is a part of a scan. */
  lemma TokenProgressed(isEmpty: bool, call: TW.WriterCall, ev: TokenEvent, top: Frame,
                        ns0: NormalState, w0: Out, ns: NormalState, w: Out)
    requires isEmpty ==> w == Run(w0, call)
    requires !isEmpty ==> top.NormalContext? && NormalOk(ns0)
    requires !isEmpty ==> (ns, w) == NormalToken(ns0, w0, top.ctx.element, ev, call) || (ns == ns0 && w == Run(w0, call))
    ensures Progressed(isEmpty, [call], true, ns0, w0, ns, w)
  {
    if w0.muted {
      RunMuted(w0, call);
    }
    TW.EffectsAppend(false, [], [call]);
    if !isEmpty && QuietState(ns0) {
      QuietPassesTokens(ns0, w0, top.ctx.element, ev, call);
    }
  }

  /** A child scanned alone, or in the context on top, is a part of a scan. */
  lemma ScanProgressed(isEmpty: bool, role: Option<FD.Role>, top: Frame, child: Element,
                       ns0: NormalState, w0: Out, ns: NormalState, w: Out)
    requires isEmpty ==> ScannedInternally(child, w0, w)
    requires !isEmpty ==> top.NormalContext? && NormalOk(ns0)
    requires !isEmpty && role.None? ==> ns == ns0 && ScannedInternally(child, w0, w)
    requires !isEmpty && role.Some? ==> ScannedInContext(ns0, w0, top.ctx.element, child, role.value, ns, w)
    ensures Progressed(isEmpty, Calls(child), NoSources(child), ns0, w0, ns, w)
  {
    if !isEmpty && role.Some? {
      var (ns1, w1) := NormalBeforeScan(ns0, w0, top.ctx.element, role.value);
      if ns1.child.Some? {
        var (l, w2) := ListBeforeScan(ns1.child.value, w1, child.id);
        assert w1.effects <= w2.effects;
      }
    }
  }

  /** One more event of the element's scan extends the part scanned so far. */
  lemma EventProgressed(isEmpty: bool, element: Element, i: nat,
                        ns0: NormalState, w0: Out, ns1: NormalState, w1: Out, ns2: NormalState, w2: Out)
    requires i < |element.events|
    requires Progressed(isEmpty, CallsUpTo(element, i), NoSources(element), ns0, w0, ns1, w1)
    requires element.events[i].Token? ==> Progressed(isEmpty, [element.events[i].call], true, ns1, w1, ns2, w2)
    requires element.events[i].Scan? ==>
               Progressed(isEmpty, Calls(element.events[i].child), NoSources(element.events[i].child), ns1, w1, ns2, w2)
    ensures Progressed(isEmpty, CallsUpTo(element, i + 1), NoSources(element), ns0, w0, ns2, w2)
  {
    var ev := element.events[i];
    assert ev in element.events;
    var calls := if ev.Token? then [ev.call] else Calls(ev.child);
    ProgressedWeaken(isEmpty, calls, if ev.Token? then true else NoSources(ev.child), NoSources(element), ns1, w1, ns2, w2);
    ProgressedTrans(isEmpty, CallsUpTo(element, i), calls, NoSources(element), ns0, w0, ns1, w1, ns2, w2);
  }

  /**
   * The printer: the generic printer, with its token writer wrapped by a proxy that
   * reports each call to the context on top of the stack, and its scan of each element
   * routed through the contexts.
   */
  class ChangesAwarePrinter {
    const writer: TW.MutableTokenWriter
    /** The contexts of the elements being printed; the last one is the top. */
    var stack: seq<Frame>

    constructor (mutableTokenWriter: TW.MutableTokenWriter)
      ensures writer == mutableTokenWriter && stack == []
    {
      writer := mutableTokenWriter;
      stack := [];
    }

    /** The context on top of the stack; none behaves as the empty context. */
    function Top(): Frame
      reads this
    {
      if stack == [] then EmptyContext else stack[|stack| - 1]
    }

    /** onTokenWriterWrite: the context on top is told about the token, or the token is printed. */
    method OnTokenWriterWrite(ev: TokenEvent, call: TW.WriterCall)
      requires FrameValid(Top(), writer)
      modifies writer, Objects(Top())
      ensures FrameValid(Top(), writer)
      ensures Top().EmptyContext? ==> OutOf(writer) == Run(old(OutOf(writer)), call)
      ensures Top().NormalContext? ==>
                var ctx := Top().ctx;
                && (ctx.childContext == null || ctx.childContext == old(ctx.childContext) || fresh(ctx.childContext))
                && (ctx.State(), OutOf(writer)) == NormalToken(old(ctx.State()), old(OutOf(writer)), ctx.element, ev, call)
    {
      var sfc := Top();
      if sfc.NormalContext? {
        sfc.ctx.OnTokenWriterToken(ev, call);
        return;
      }
      writer.Invoke(call);
    }

    /** The proxy's handling of a token-writer call: reset goes straight to the writer. */
    method ProxyCall(call: TW.WriterCall)
      requires FrameValid(Top(), writer)
      modifies writer, Objects(Top())
      ensures FrameValid(Top(), writer)
      ensures Top().EmptyContext? || call.Reset? ==> OutOf(writer) == Run(old(OutOf(writer)), call)
      ensures Top().NormalContext? ==>
                var ctx := Top().ctx;
                && (ctx.childContext == null || ctx.childContext == old(ctx.childContext) || fresh(ctx.childContext))
                && (call.Reset? ==> ctx.State() == old(ctx.State()))
                && (!call.Reset? ==>
                      (ctx.State(), OutOf(writer)) == NormalToken(old(ctx.State()), old(OutOf(writer)), ctx.element, ProxyEvent(call).value, call))
      ensures Progressed(Top().EmptyContext?, [call], true, old(FrameState(Top())), old(OutOf(writer)), FrameState(Top()), OutOf(writer))
    {
      ghost var ns0 := FrameState(Top());
      ghost var w0 := OutOf(writer);
      var ev := ProxyEvent(call);
      if ev.None? {
        writer.Invoke(call);
        TokenProgressed(Top().EmptyContext?, call, TokenEvent("reset", None), Top(), ns0, w0, FrameState(Top()), OutOf(writer));
        return;
      }
      OnTokenWriterWrite(ev.value, call);
      ghost var ns1, w1 := FrameState(Top()), OutOf(writer);
      TokenProgressed(Top().EmptyContext?, call, ev.value, Top(), ns0, w0, ns1, w1);
    }

    /** scan: a child with a role is announced to the context on top, which then lets it be scanned. */
    method Scan(element: Element)
      requires ElementOk(element) && FrameValid(Top(), writer)
      modifies this, writer, Objects(Top())
      decreases element, 7
      ensures stack == old(stack) && FrameValid(Top(), writer)
      ensures Top().EmptyContext? ==> ScannedInternally(element, old(OutOf(writer)), OutOf(writer))
      ensures Top().NormalContext? ==>
                var ctx := Top().ctx;
                && (ctx.childContext == null || ctx.childContext == old(ctx.childContext) || fresh(ctx.childContext))
                && (element.roleInParent.None? ==>
                      ctx.State() == old(ctx.State()) && ScannedInternally(element, old(OutOf(writer)), OutOf(writer)))
                && (element.roleInParent.Some? ==>
                      ScannedInContext(old(ctx.State()), old(OutOf(writer)), ctx.element, element,
                                       element.roleInParent.value, ctx.State(), OutOf(writer)))
      ensures Progressed(Top().EmptyContext?, Calls(element), NoSources(element),
                         old(FrameState(Top())), old(OutOf(writer)), FrameState(Top()), OutOf(writer))
    {
      ghost var ns0 := FrameState(Top());
      ghost var w0 := OutOf(writer);
      var sfc := Top();
      if sfc.NormalContext? {
        var role := element.roleInParent;
        if role.Some? {
          sfc.ctx.OnScanElementOnRole(this, element, role.value);
          ScanProgressed(false, role, sfc, element, ns0, w0, FrameState(Top()), OutOf(writer));
          return;
        }
      }
      ScanInternal(element);
      ScanProgressed(sfc.EmptyContext?, None, sfc, element, ns0, w0, FrameState(Top()), OutOf(writer));
    }

    /**
     * scanInternal: under a muted writer, or without original sources, the element is
     * scanned with the empty context; otherwise with a context over its fragments, and
     * the writer is unmuted at the end.
     */
    method ScanInternal(element: Element)
      requires ElementOk(element)
      modifies this, writer
      decreases element, 3
      ensures stack == old(stack)
      ensures ScannedInternally(element, old(OutOf(writer)), OutOf(writer))
    {
      if writer.IsMuted() {
        ScanInEmptyContext(element);
        return;
      }
      var rootFragmentOfElement, _ := SPU.GetSourceFragmentsOfElement(element.position, element.lookup, element.kind, element.changes);
      if rootFragmentOfElement == [] {
        ScanInEmptyContext(element);
        return;
      }
      FragmentsOfElementOk(element, rootFragmentOfElement);
      ScanInNewContext(element, rootFragmentOfElement);
    }

    /** The element scanned with the empty context pushed. */
    method ScanInEmptyContext(element: Element)
      requires ElementOk(element)
      modifies this, writer
      decreases element, 2
      ensures stack == old(stack)
      ensures PassedThrough(Calls(element), NoSources(element), old(OutOf(writer)), OutOf(writer))
    {
      stack := stack + [EmptyContext];
      SuperScan(element);
      stack := stack[..|stack| - 1];
    }

    /** The element scanned with a new context over its fragments pushed; unmuted at the end, whatever happened. */
    method ScanInNewContext(element: Element, rootFragmentOfElement: seq<SF.SourceFragment>)
      requires ElementOk(element) && FragmentsOk(rootFragmentOfElement)
      modifies this, writer
      decreases element, 2
      ensures stack == old(stack) && !writer.muted && old(writer.effects) <= writer.effects
      // an unchanged element: its original text, then only the tab flag
      ensures rootFragmentOfElement == element.lookup && Unchanged(element) ==>
                SilentSince(old(writer.effects) + [TW.Direct(DirectText(SF.SourceCode(element.lookup[0])))], writer.effects)
    {
      var sfx := new ContextNormal(writer, element, rootFragmentOfElement);
      stack := stack + [NormalContext(sfx)];
      SuperScan(element);
      writer.SetMuted(false);
      stack := stack[..|stack| - 1];
    }

    /** One event of the generic printer's scan: a token-writer call through the proxy, or a child scan. */
    method ScanEvent(ev: Event)
      requires ev.Scan? ==> ElementOk(ev.child)
      requires FrameValid(Top(), writer)
      modifies this, writer, Objects(Top())
      decreases ev, 0
      ensures stack == old(stack) && FrameValid(Top(), writer)
      ensures Top().NormalContext? ==>
                var ctx := Top().ctx;
                ctx.childContext == null || ctx.childContext == old(ctx.childContext) || fresh(ctx.childContext)
      ensures ev.Token? ==>
                Progressed(Top().EmptyContext?, [ev.call], true, old(FrameState(Top())), old(OutOf(writer)), FrameState(Top()), OutOf(writer))
      ensures ev.Scan? ==>
                Progressed(Top().EmptyContext?, Calls(ev.child), NoSources(ev.child),
                           old(FrameState(Top())), old(OutOf(writer)), FrameState(Top()), OutOf(writer))
    {
      if ev.Token? {
        ProxyCall(ev.call);
      } else {
        Scan(ev.child);
      }
    }

    /** The generic printer's scan of an element: its token-writer calls and child scans, in order. */
    method SuperScan(element: Element)
      requires ElementOk(element) && FrameValid(Top(), writer)
      modifies this, writer, Objects(Top())
      decreases element, 1
      ensures stack == old(stack) && FrameValid(Top(), writer)
      ensures Top().NormalContext? ==>
                var ctx := Top().ctx;
                ctx.childContext == null || ctx.childContext == old(ctx.childContext) || fresh(ctx.childContext)
      ensures Progressed(Top().EmptyContext?, Calls(element), NoSources(element),
                         old(FrameState(Top())), old(OutOf(writer)), FrameState(Top()), OutOf(writer))
    {
      ghost var top := Top();
      ghost var ns0 := FrameState(top);
      ghost var w0 := OutOf(writer);
      var i := 0;
      while i < |element.events|
        invariant 0 <= i <= |element.events|
        invariant stack == old(stack) && Top() == top && FrameValid(top, writer)
        invariant top.NormalContext? ==>
                    top.ctx.childContext == null || top.ctx.childContext == old(top.ctx.childContext) || fresh(top.ctx.childContext)
        invariant Progressed(top.EmptyContext?, CallsUpTo(element, i), NoSources(element), ns0, w0, FrameState(top), OutOf(writer))
      {
        var ev := element.events[i];
        assert ev in element.events;
        ghost var ns1 := FrameState(top);
        ghost var w1 := OutOf(writer);
        ScanEvent(ev);
        EventProgressed(top.EmptyContext?, element, i, ns0, w0, ns1, w1, FrameState(top), OutOf(writer));
        i := i + 1;
      }
    }
  }

  /** The printer can only be created when a change collector is attached to the environment. */
  method NewChangesAwarePrinter(changeCollectorAttached: bool) returns (r: Result<ChangesAwarePrinter>)
    ensures r.Ok? <==> changeCollectorAttached
    ensures r.Ok? ==> fresh(r.value) && fresh(r.value.writer) && r.value.stack == []
                      && OutOf(r.value.writer) == Out(false, [])
  {
    if !changeCollectorAttached {
      return Err("ChangeCollector was not attached to the Environment");
    }
    var mutableTokenWriter := new TW.MutableTokenWriter();
    var printer := new ChangesAwarePrinter(mutableTokenWriter);
    return Ok(printer);
  }
}
