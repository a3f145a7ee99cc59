/** The kinds of fragment a declaration's source text is split into. */
module FragmentTypes {
  datatype FragmentType = MainFragment | Modifiers | BeforeName | Name | AfterName | Body
}

/**
 * The fixed table that says, for each kind of declaration, which roles live in
 * which fragment and which printer events start or end that fragment.
 */
module FragmentDescriptors {
  import opened Outcomes
  import FT = FragmentTypes

  /** The structural attributes of a syntax node that the table mentions. */
  datatype Role =
    | Annotation | Modifier | Name | SuperType | Interface | TypeParameter | TypeMember
    | Type | Parameter | Thrown | Body | DefaultExpression
    | Other(roleName: string)

  datatype FragmentKind = Normal | List

  /**
   * A token trigger: it fires for tokens written by the writer method `methodName`;
   * with no literals for any token, with one literal for that token, with several
   * for any of them.
   */
  datatype TokenDetector = TokenDetector(methodName: string, literals: seq<string>)

  function DetectorMatches(d: TokenDetector, methodName: string, token: Option<string>): (r: bool)
    ensures r <==> methodName == d.methodName
                   && (d.literals == [] || (token.Some? && token.value in d.literals))
  {
    if |d.literals| == 0 then
      methodName == d.methodName
    else if |d.literals| == 1 then
      methodName == d.methodName && token == Some(d.literals[0])
    else
      methodName == d.methodName && token.Some? && token.value in (set s | s in d.literals)
  }

  /** How the printer handles one fragment of one kind of declaration. */
  datatype FragmentDescriptor = FragmentDescriptor(
    kind: FragmentKind,
    roles: Option<set<Role>>,
    startTokenDetector: seq<TokenDetector>,
    endTokenDetector: seq<TokenDetector>,
    startScanRole: set<Role>)

  /** A freshly created descriptor: NORMAL, no roles, no triggers. */
  const NewDescriptor := FragmentDescriptor(Normal, None, [], [], {})

  function AnyDetectorMatches(ds: seq<TokenDetector>, methodName: string, token: Option<string>): (r: bool)
    ensures r <==> exists i :: 0 <= i < |ds| && DetectorMatches(ds[i], methodName, token)
  {
    if ds == [] then false
    else DetectorMatches(ds[0], methodName, token) || AnyDetectorMatches(ds[1..], methodName, token)
  }

  /** The start (isStart) or end (!isStart) trigger list of a descriptor. */
  function Detectors(d: FragmentDescriptor, isStart: bool): seq<TokenDetector> {
    if isStart then d.startTokenDetector else d.endTokenDetector
  }

  /** Does the token start (isStart) or end (!isStart) the fragment this descriptor drives? */
  function IsTriggeredByToken(d: FragmentDescriptor, isStart: bool, methodName: string, token: Option<string>): (r: bool)
    ensures r <==> exists i :: 0 <= i < |Detectors(d, isStart)| && DetectorMatches(Detectors(d, isStart)[i], methodName, token)
  {
    AnyDetectorMatches(Detectors(d, isStart), methodName, token)
  }

  lemma AppendDetector(ds: seq<TokenDetector>, det: TokenDetector, methodName: string, token: Option<string>)
    ensures AnyDetectorMatches(ds + [det], methodName, token)
            <==> AnyDetectorMatches(ds, methodName, token) || DetectorMatches(det, methodName, token)
  {
    var all := ds + [det];
    if AnyDetectorMatches(all, methodName, token) {
      var i :| 0 <= i < |all| && DetectorMatches(all[i], methodName, token);
      if i < |ds| { assert all[i] == ds[i]; }
    }
    if AnyDetectorMatches(ds, methodName, token) {
      var i :| 0 <= i < |ds| && DetectorMatches(ds[i], methodName, token);
      assert all[i] == ds[i];
    }
    assert all[|ds|] == det;
  }

  /** Whether scanning a child in `role` starts the fragment. */
  function IsStartedByScanRole(d: FragmentDescriptor, role: Role): (r: bool)
    ensures r <==> role in d.startScanRole
  {
    role in d.startScanRole
  }

  lemma SingletonHasOne<T>(s: set<T>)
    requires |s| == 1
    ensures exists x :: s == {x}
  {
    var x :| x in s;
    assert |s - {x}| == 0;
    assert s == {x};
  }

  /** The role of the collection a LIST fragment prints; an error for every other descriptor. */
  function GetListRole(d: FragmentDescriptor): (r: Result<Role>)
    ensures r.Ok? <==> d.kind == List && d.roles.Some? && |d.roles.value| == 1
    ensures r.Ok? ==> d.roles == Some({r.value})
  {
    if d.kind != List || d.roles.None? || |d.roles.value| != 1 then
      Err("This fragment does not have list role")
    else
      SingletonHasOne(d.roles.value);
      var x :| d.roles.value == {x};
      Ok(x)
  }

  // The builder steps used to fill the table.

  function SetRoles(d: FragmentDescriptor, roles: seq<Role>): (r: FragmentDescriptor)
    ensures r.roles == Some(set x | x in roles)
    ensures r.kind == d.kind && r.startTokenDetector == d.startTokenDetector
    ensures r.endTokenDetector == d.endTokenDetector && r.startScanRole == d.startScanRole
  {
    d.(roles := Some(set x | x in roles))
  }

  function SetList(d: FragmentDescriptor, role: Role): (r: Result<FragmentDescriptor>)
    ensures r.Ok? <==> d.roles.None?
    ensures r.Ok? ==> r.value.kind == List && r.value.roles == Some({role})
                      && GetListRole(r.value) == Ok(role)
  {
    if d.roles.Some? then Err("Cannot combine #role and #list")
    else Ok(d.(roles := Some({role}), kind := List))
  }

  function StartWhen(d: FragmentDescriptor, methodName: string, literals: seq<string>): (r: FragmentDescriptor)
    ensures forall m, t :: IsTriggeredByToken(r, true, m, t)
                           <==> (m == methodName && (literals == [] || (t.Some? && t.value in literals)))
                                || IsTriggeredByToken(d, true, m, t)
    ensures r.endTokenDetector == d.endTokenDetector && r.roles == d.roles && r.kind == d.kind
    ensures r.startScanRole == d.startScanRole
  {
    var det := TokenDetector(methodName, literals);
    var r := d.(startTokenDetector := d.startTokenDetector + [det]);
    forall m, t ensures IsTriggeredByToken(r, true, m, t) <==> DetectorMatches(det, m, t) || IsTriggeredByToken(d, true, m, t) {
      AppendDetector(d.startTokenDetector, det, m, t);
    }
    r
  }

  function EndWhen(d: FragmentDescriptor, methodName: string, literals: seq<string>): (r: FragmentDescriptor)
    ensures forall m, t :: IsTriggeredByToken(r, false, m, t)
                           <==> (m == methodName && (literals == [] || (t.Some? && t.value in literals)))
                                || IsTriggeredByToken(d, false, m, t)
    ensures r.startTokenDetector == d.startTokenDetector && r.roles == d.roles && r.kind == d.kind
    ensures r.startScanRole == d.startScanRole
  {
    var det := TokenDetector(methodName, literals);
    var r := d.(endTokenDetector := d.endTokenDetector + [det]);
    forall m, t ensures IsTriggeredByToken(r, false, m, t) <==> DetectorMatches(det, m, t) || IsTriggeredByToken(d, false, m, t) {
      AppendDetector(d.endTokenDetector, det, m, t);
    }
    r
  }

  function StartWhenScan(d: FragmentDescriptor, roles: seq<Role>): (r: FragmentDescriptor)
    ensures forall role :: IsStartedByScanRole(r, role) <==> role in roles || IsStartedByScanRole(d, role)
    ensures r.startTokenDetector == d.startTokenDetector && r.endTokenDetector == d.endTokenDetector
    ensures r.roles == d.roles && r.kind == d.kind
  {
    d.(startScanRole := d.startScanRole + set x | x in roles)
  }

  /** The three kinds of declaration the table knows (CtType, CtExecutable, CtVariable). */
  datatype ElementKind = TypeElement | ExecutableElement | VariableElement

  /** Which of the three kinds an element belongs to (it may belong to several or none). */
  datatype ElementClass = ElementClass(isType: bool, isExecutable: bool, isVariable: bool)

  predicate MatchesElement(k: ElementKind, c: ElementClass) {
    match k
    case TypeElement => c.isType
    case ExecutableElement => c.isExecutable
    case VariableElement => c.isVariable
  }

  /** One row of the table: the descriptor of each fragment of one kind of declaration. */
  datatype TypeToFragmentDescriptor = TypeToFragmentDescriptor(
    elementKind: ElementKind,
    fragmentToRoles: map<FT.FragmentType, FragmentDescriptor>)

  const ModifiersDescriptor := SetRoles(NewDescriptor, [Annotation, Modifier])
  const NameDescriptor := EndWhen(StartWhen(SetRoles(NewDescriptor, [Name]), "writeIdentifier", []), "writeIdentifier", [])

  const TypeDescriptors := TypeToFragmentDescriptor(TypeElement, map[
    FT.Modifiers := ModifiersDescriptor,
    FT.BeforeName := StartWhen(StartWhen(NewDescriptor, "writeKeyword", ["class", "enum", "interface", ""]), "writeSeparator", ["@"]),
    FT.Name := NameDescriptor,
    FT.AfterName := SetRoles(NewDescriptor, [SuperType, Interface, TypeParameter]),
    FT.Body := EndWhen(StartWhen(SetList(NewDescriptor, TypeMember).value, "writeSeparator", ["{"]), "writeSeparator", ["}"])
  ])

  const ExecutableDescriptors := TypeToFragmentDescriptor(ExecutableElement, map[
    FT.Modifiers := ModifiersDescriptor,
    FT.BeforeName := StartWhenScan(SetRoles(NewDescriptor, [Type]), [TypeParameter, Type]),
    FT.Name := NameDescriptor,
    FT.AfterName := StartWhen(SetRoles(NewDescriptor, [Parameter, Thrown]), "writeSeparator", ["("]),
    FT.Body := EndWhen(StartWhen(SetRoles(NewDescriptor, [Body]), "writeSeparator", ["{"]), "writeSeparator", ["}"])
  ])

  const VariableDescriptors := TypeToFragmentDescriptor(VariableElement, map[
    FT.Modifiers := ModifiersDescriptor,
    FT.BeforeName := StartWhenScan(SetRoles(NewDescriptor, [Type]), [Type]),
    FT.Name := NameDescriptor,
    FT.AfterName := SetRoles(NewDescriptor, [DefaultExpression])
  ])

  /** The table, in the order in which it is searched. */
  const AllDescriptors: seq<TypeToFragmentDescriptor> := [TypeDescriptors, ExecutableDescriptors, VariableDescriptors]

  /** The first row of `rows` whose kind the element has, if any. */
  function FirstMatching(rows: seq<TypeToFragmentDescriptor>, c: ElementClass): (r: Option<TypeToFragmentDescriptor>)
    ensures r.None? <==> forall i :: 0 <= i < |rows| ==> !MatchesElement(rows[i].elementKind, c)
    ensures r.Some? ==> r.value in rows && MatchesElement(r.value.elementKind, c)
    ensures r.Some? ==> exists k :: 0 <= k < |rows| && r.value == rows[k]
                                    && forall j :: 0 <= j < k ==> !MatchesElement(rows[j].elementKind, c)
  {
    if rows == [] then None
    else if MatchesElement(rows[0].elementKind, c) then Some(rows[0])
    else
      assert forall i :: 1 <= i < |rows| ==> rows[i] == rows[1..][i - 1];
      FirstMatching(rows[1..], c)
  }

  /** The row used for an element: type first, then executable, then variable. */
  function DescriptorsOf(c: ElementClass): (r: Option<TypeToFragmentDescriptor>)
    ensures r.None? <==> !c.isType && !c.isExecutable && !c.isVariable
    ensures c.isType ==> r == Some(TypeDescriptors)
    ensures !c.isType && c.isExecutable ==> r == Some(ExecutableDescriptors)
    ensures !c.isType && !c.isExecutable && c.isVariable ==> r == Some(VariableDescriptors)
  {
    var rows := AllDescriptors;
    assert rows[0].elementKind == TypeElement && rows[1].elementKind == ExecutableElement;
    assert rows[2].elementKind == VariableElement && |rows| == 3;
    assert rows[1..][1..] == [VariableDescriptors];
    FirstMatching(rows, c)
  }

  /** The body of a type is a LIST of type members, opened by "{" and closed by "}". */
  lemma TypeBodyFacts()
    ensures var body := TypeDescriptors.fragmentToRoles[FT.Body];
            && body.kind == List && GetListRole(body) == Ok(TypeMember)
            && IsTriggeredByToken(body, true, "writeSeparator", Some("{"))
            && IsTriggeredByToken(body, false, "writeSeparator", Some("}"))
            && !IsTriggeredByToken(body, true, "writeSeparator", Some("}"))
  {
    var body := TypeDescriptors.fragmentToRoles[FT.Body];
    assert !DetectorMatches(body.startTokenDetector[0], "writeSeparator", Some("}"));
  }

  /** For all three kinds, NAME holds the role NAME and is started and ended by any identifier. */
  lemma NameFacts()
    ensures forall row | row in AllDescriptors ::
              var name := row.fragmentToRoles[FT.Name];
              && name.roles == Some({Name}) && name.kind == Normal
              && forall t :: IsTriggeredByToken(name, true, "writeIdentifier", t)
                            && IsTriggeredByToken(name, false, "writeIdentifier", t)
  {
    assert (set x | x in [Name]) == {Name};
    assert forall row | row in AllDescriptors :: row.fragmentToRoles[FT.Name] == NameDescriptor;
  }

  /** The body of an executable is a NORMAL fragment for the role BODY; variables have no body. */
  lemma ExecutableBodyFacts()
    ensures var body := ExecutableDescriptors.fragmentToRoles[FT.Body];
            body.kind == Normal && body.roles == Some({Body})
    ensures FT.Body !in VariableDescriptors.fragmentToRoles
    ensures forall row | row in AllDescriptors :: FT.MainFragment !in row.fragmentToRoles
  {
    assert (set x | x in [Body]) == {Body};
  }

  /** Every LIST descriptor of the table handles exactly one role. */
  lemma ListDescriptorsHaveListRole()
    ensures forall row, ft | row in AllDescriptors && ft in row.fragmentToRoles && row.fragmentToRoles[ft].kind == List ::
              GetListRole(row.fragmentToRoles[ft]).Ok?
  {
    TypeRowLists();
    NormalRow(ExecutableDescriptors);
    NormalRow(VariableDescriptors);
  }

  lemma TypeRowLists()
    ensures forall ft | ft in TypeDescriptors.fragmentToRoles && TypeDescriptors.fragmentToRoles[ft].kind == List ::
              GetListRole(TypeDescriptors.fragmentToRoles[ft]).Ok?
  {
    TypeBodyFacts();
    var types := TypeDescriptors.fragmentToRoles;
    assert forall ft | ft in types && types[ft].kind == List :: ft == FT.Body;
  }

  lemma NormalRow(row: TypeToFragmentDescriptor)
    requires row == ExecutableDescriptors || row == VariableDescriptors
    ensures forall ft | ft in row.fragmentToRoles :: row.fragmentToRoles[ft].kind == Normal
  {
  }
}
