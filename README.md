# Sniper printing of changed Java models

This project models, in Dafny, the "sniper" printer of Spoon. When a model read from source
code is changed and printed again, this printer reuses the original text of every part
that did not change, and prints only the changed parts from the model. It also models
`CtAssignmentImpl`, one element of the code model whose setters report their changes to
the model-change listener. The printer learns of changes through that listener.

The model has eight modules:

- `FragmentTypes` and `FragmentDescriptors` (`fragment_descriptors.dfy`) hold the kinds
  of fragment, the fragment descriptors, and the table of descriptors for types,
  executables and variables. The table and its builder live in `SourcePositionUtils.java`.
- `SourceFragments` (`source_fragment.dfy`) models `SourceFragment`, the tree of
  half-open intervals of the original text. A first-child / next-sibling chain is a
  sequence: `[]` stands for null, the head is the fragment, and the rest are its next
  siblings. The identity of a fragment object is `FragId`. A thrown `SpoonException` is
  an `Err` result.
- `FragmentTrees` (`fragment_tree.dfy`) states the nesting of the fragment tree
  (`WellNested`), proves what insertion does to it, and places the fragment of a
  scanned element in the tree. It also holds a corrected insertion, `Insert` (see
  Findings).
- `SourcePositionUtils` (`reconciliation.dfy`) models the choice of the fragments an
  element is printed from, and the marking of the fragments whose roles changed.
- `TokenWriters` (`token_writer.dfy`) models `MutableTokenWriter` as a class. Its
  observable behaviour is the list of effects it has on the standard writer and on the
  printer helper.
- `SniperPrinter` (`printer.dfy`) models:
  - the two fragment contexts as classes: `ContextNormal` and `ContextList`;
  - the printer as the class `ChangesAwarePrinter`, with its stack of contexts;
  - the token-writer proxy, as the method `ProxyCall`.

  The generic Java printer is not part of this model. What it does for an element is
  given with the element, as the sequence of token-writer calls and child scans it
  makes (`Element.events`). Each context operation is proved against a specification
  function on its state and on the writer's state (`ListToken`, `NormalToken`, ...).
- `Assignments` (`assignment.dfy`) models `CtAssignmentImpl` as a class. The listener is
  modelled as the log of the notifications it receives.

All source paths below are relative to the repository root. `change/` abbreviates
`src/main/java/spoon/reflect/visitor/printer/change/`.

## Model

| member | source | states |
|---|---|---|
| FragmentDescriptors.DetectorMatches | src/main/java/spoon/reflect/visitor/printer/change/SourcePositionUtils.java:291-309 | A trigger built with no token matches every call of its writer method. One built with one token matches that token only. One built with several tokens matches any of them. |
| FragmentDescriptors.AnyDetectorMatches | src/main/java/spoon/reflect/visitor/printer/change/SourcePositionUtils.java:206-213 | A list of triggers fires exactly when one of its triggers matches. |
| FragmentDescriptors.IsTriggeredByToken | src/main/java/spoon/reflect/visitor/printer/change/SourcePositionUtils.java:206-213 | The start list (isStart) or the end list is consulted. The result is true iff a trigger in that list matches the method name and token. |
| FragmentDescriptors.AppendDetector | src/main/java/spoon/reflect/visitor/printer/change/SourcePositionUtils.java:308 | Adding a trigger makes the list fire exactly when it fired before or the new trigger matches. |
| FragmentDescriptors.GetListRole | src/main/java/spoon/reflect/visitor/printer/change/SourcePositionUtils.java:229-234 | The result is Ok iff the descriptor is LIST with exactly one role, and then it is that role. Otherwise it is the "does not have list role" error. |
| FragmentDescriptors.SetRoles | src/main/java/spoon/reflect/visitor/printer/change/SourcePositionUtils.java:248-251 | The roles become the given ones. Nothing else changes. |
| FragmentDescriptors.SetList | src/main/java/spoon/reflect/visitor/printer/change/SourcePositionUtils.java:253-260 | This fails iff roles were already set ("cannot combine"). Otherwise the descriptor becomes LIST with the single role. |
| FragmentDescriptors.StartWhen | src/main/java/spoon/reflect/visitor/printer/change/SourcePositionUtils.java:262-285 | The descriptor now starts on exactly the calls it started on before plus those the new trigger matches. Its other parts are kept. |
| FragmentDescriptors.EndWhen | src/main/java/spoon/reflect/visitor/printer/change/SourcePositionUtils.java:262-285 | The same as StartWhen, for the end triggers. |
| FragmentDescriptors.StartWhenScan | src/main/java/spoon/reflect/visitor/printer/change/SourcePositionUtils.java:286-289 | A scan in a role starts the fragment iff the role is added or already started it. |
| FragmentDescriptors.IsStartedByScanRole | src/main/java/spoon/reflect/visitor/printer/change/SourcePositionUtils.java:222-224 | A scan starts the fragment iff its role is among the descriptor's start roles. |
| FragmentDescriptors.FirstMatching | src/main/java/spoon/reflect/visitor/printer/change/SourcePositionUtils.java:377-378 | It is None iff no row matches. Otherwise it is some row k of the table that matches, and no row before k matches. |
| FragmentDescriptors.DescriptorsOf | src/main/java/spoon/reflect/visitor/printer/change/SourcePositionUtils.java:316-366 | Rows are searched in table order: type, then executable, then variable. It is None iff the element is none of the three. |
| FragmentDescriptors.TypeBodyFacts | src/main/java/spoon/reflect/visitor/printer/change/SourcePositionUtils.java:338-342 | The body of a type is a LIST of role TYPE_MEMBER. It starts on separator "{" and ends on separator "}". |
| FragmentDescriptors.NameFacts | src/main/java/spoon/reflect/visitor/printer/change/SourcePositionUtils.java:328-332 | In every row, NAME holds role NAME and is started and ended by any identifier. |
| FragmentDescriptors.ExecutableBodyFacts | src/main/java/spoon/reflect/visitor/printer/change/SourcePositionUtils.java:343-365 | An executable's body is NORMAL with role BODY. Variables have no BODY entry. No row has a MAIN entry. |
| FragmentDescriptors.ListDescriptorsHaveListRole | src/main/java/spoon/reflect/visitor/printer/change/SourcePositionUtils.java:316-366 | Every LIST descriptor of the table has a list role, so getListRole never throws on the table. |
| SourceFragments.GetStart | src/main/java/spoon/reflect/visitor/printer/change/SourceFragment.java:91-131 | A MAIN fragment starts at sourceStart. Each later sub-fragment kind starts where the previous kind ends. |
| SourceFragments.GetEnd | src/main/java/spoon/reflect/visitor/printer/change/SourceFragment.java:91-131 | A MAIN fragment ends after sourceEnd. AFTER_NAME ends there too when there is no body. BODY ends after bodyEnd. |
| SourceFragments.SubFragmentsAbut | src/main/java/spoon/reflect/visitor/printer/change/SourceFragment.java:91-131 | The sub-fragments of a declaration abut. The last one ends where the declaration ends. |
| SourceFragments.NewFragment | src/main/java/spoon/reflect/visitor/printer/change/SourceFragment.java:71-79 | A new fragment has the bounds of its kind. It is unmodified, without descriptor and without children. |
| SourceFragments.Compare | src/main/java/spoon/reflect/visitor/printer/change/SourceFragment.java:367-389 | The result is Ok iff the two fragments are distinct and laminar. Each result holds iff its interval relation holds: AFTER iff the other starts at or after this end; BEFORE iff it overlaps this start from the left and ends by it; CHILD iff it overlaps this and lies within it; PARENT iff it overlaps this, is not within it and encloses it. A non-empty interval within this one is CHILD. An empty interval at this start is BEFORE. |
| SourceFragments.CompareSwap | src/main/java/spoon/reflect/visitor/printer/change/SourceFragment.java:367-389 | For non-empty intervals, AFTER and BEFORE swap. CHILD and PARENT swap for different bounds. Equal bounds are CHILD both ways. |
| SourceFragments.Add | src/main/java/spoon/reflect/visitor/printer/change/SourceFragment.java:287-314 | On success the chain grows by exactly the inserted fragments. The head is the earlier or enclosing one of the two heads. |
| SourceFragments.AddIntoHead | src/main/java/spoon/reflect/visitor/printer/change/SourceFragment.java:302-305 | The other chain goes below the head. The head keeps its identity and the size adds up. |
| SourceFragments.AddAroundHead | src/main/java/spoon/reflect/visitor/printer/change/SourceFragment.java:306-311 | The enclosing fragment becomes the head. The size adds up. |
| SourceFragments.AddNextSibling | src/main/java/spoon/reflect/visitor/printer/change/SourceFragment.java:346-352 | The head is kept. The sibling chain is merged into the following siblings and the size adds up. |
| SourceFragments.AddChild | src/main/java/spoon/reflect/visitor/printer/change/SourceFragment.java:338-344 | Only the children change. They gain exactly the inserted fragments. |
| SourceFragments.MergeSiblingsOfChild | src/main/java/spoon/reflect/visitor/printer/change/SourceFragment.java:316-336 | Splitting keeps every fragment. When the adopted fragment is not found, nothing is cut. |
| SourceFragments.AbsorbSiblings | src/main/java/spoon/reflect/visitor/printer/change/SourceFragment.java:319-335 | The siblings are split into a kept prefix and a cut suffix. |
| SourceFragments.AbsorbSiblingsClassifies | src/main/java/spoon/reflect/visitor/printer/change/SourceFragment.java:319-333 | Kept siblings lie inside the new parent. The first cut sibling lies after it. |
| SourceFragments.AbsorbSiblingsFails | src/main/java/spoon/reflect/visitor/printer/change/SourceFragment.java:334 | The walk fails iff a sibling before the first one after the parent is neither inside nor after it. |
| SourceFragments.AddKeepsIds | src/main/java/spoon/reflect/visitor/printer/change/SourceFragment.java:287-314 | Insertion neither loses nor duplicates a fragment. The identities of the result are those of the two chains. |
| SourceFragments.AddIntoHeadKeepsIds | src/main/java/spoon/reflect/visitor/printer/change/SourceFragment.java:302-305 | The same identity preservation, for insertion into the head. |
| SourceFragments.AddAroundHeadKeepsIds | src/main/java/spoon/reflect/visitor/printer/change/SourceFragment.java:306-311 | The same, for wrapping the head, including the siblings merged below the new parent. |
| SourceFragments.AddNextSiblingKeepsIds | src/main/java/spoon/reflect/visitor/printer/change/SourceFragment.java:346-352 | The same, for sibling insertion. |
| SourceFragments.AddChildKeepsIds | src/main/java/spoon/reflect/visitor/printer/change/SourceFragment.java:338-344 | The same, for child insertion. |
| SourceFragments.MergeKeepsIds | src/main/java/spoon/reflect/visitor/printer/change/SourceFragment.java:316-336 | The kept and cut parts together hold exactly the chain's identities. |
| SourceFragments.AppendAfterAll | src/main/java/spoon/reflect/visitor/printer/change/SourceFragment.java:346-352 | A fragment after every fragment of a chain is appended at its end. |
| SourceFragments.AddChildAppends | src/main/java/spoon/reflect/visitor/printer/change/SourceFragment.java:338-344 | A child after every existing child becomes the last child. |
| SourceFragments.NewMainFragment | src/main/java/spoon/reflect/visitor/printer/change/SourceFragment.java:394-422 | A position without declaration gives a childless MAIN fragment. A declaration whose sourceStart is before modifierSourceStart is an error. |
| SourceFragments.MainFragmentChildren | src/main/java/spoon/reflect/visitor/printer/change/SourceFragment.java:394-422 | For ordered offsets, creation succeeds. The children are the sub-fragments of the kinds the constructor creates, in order. |
| SourceFragments.PartsInSourceOrder | src/main/java/spoon/reflect/visitor/printer/change/SourceFragment.java:394-422 | The created sub-fragments are non-empty-ordered and follow each other in the text. |
| SourceFragments.KindsAscend | src/main/java/spoon/reflect/visitor/printer/change/SourceFragment.java:401-419 | The created kinds are applicable and appear in increasing order. |
| SourceFragments.KindsInOrder | src/main/java/spoon/reflect/visitor/printer/change/SourceFragment.java:91-131 | A sub-fragment kind of lower rank ends no later than one of higher rank starts. |
| SourceFragments.DeclarationFragmentsExample | src/test/java/spoon/test/position/SourceFragmentTest.java:31-61 | The declaration 90..130 gives MODIFIERS, BEFORE_NAME, NAME and AFTER_NAME with the test's bounds. |
| SourceFragments.BodyHolderFragmentsExample | src/test/java/spoon/test/position/SourceFragmentTest.java:64-99 | The body holder gives the same parts plus BODY 120..131. |
| SourceFragments.RootFragmentOfElement | src/main/java/spoon/reflect/visitor/printer/change/SourceFragment.java:474-481 | A found fragment of the same element is replaced by this one. Otherwise the result is unchanged. |
| SourceFragments.GetSourceFragmentOf | src/main/java/spoon/reflect/visitor/printer/change/SourceFragment.java:446-472 | An exact match of the head is returned. An interval before the head is an error. A found fragment is in the tree, and it is the exact match or that match's element root. |
| SourceFragments.RootKeepsWitness | src/main/java/spoon/reflect/visitor/printer/change/SourceFragment.java:453-466 | A witness found in the siblings or children survives the element-root replacement. |
| SourceFragments.ChildFragmentOfSameElement | src/main/java/spoon/reflect/visitor/printer/change/SourceFragment.java:497-502 | The result is the children iff the first child has the same element. Otherwise it is none. |
| SourceFragments.NextFragmentOfSameElement | src/main/java/spoon/reflect/visitor/printer/change/SourceFragment.java:509-514 | The result is the rest of the chain iff the next sibling has the same element. Otherwise it is none. |
| SourceFragments.SameElementRun | src/main/java/spoon/reflect/visitor/printer/change/SourceFragment.java:509-514 | This is the length of the maximal run of fragments of the head's element. |
| SourceFragments.NextWalksTheRun | src/main/java/spoon/reflect/visitor/printer/change/SourceFragment.java:509-514 | Repeated getNextFragmentOfSameElement visits exactly the run. |
| SourceFragments.SourceCodeBetween | src/main/java/spoon/reflect/visitor/printer/change/SourceFragment.java:157-166 | There is text iff the unit and its text are known. It has the length of the interval. |
| SourceFragments.SourceCode | src/main/java/spoon/reflect/visitor/printer/change/SourceFragment.java:148-150 | There is text iff the unit and its text are known. The text has the fragment's length, and each character is the original text's character at the same offset. |
| SourceFragments.TextBeforeFirstChild | src/main/java/spoon/reflect/visitor/printer/change/SourceFragment.java:519-524 | The result is none without a child. Otherwise it is the text from the start to the first child. |
| SourceFragments.TextAfterLastChild | src/main/java/spoon/reflect/visitor/printer/change/SourceFragment.java:529-538 | The loop finds the last child. The result is the text from its end to the fragment's end, or none without a child. |
| SourceFragments.AddChildExample | src/test/java/spoon/test/position/SourceFragmentTest.java:102-112 | The first child, then its next sibling, as the test builds them. |
| SourceFragments.NestedTwinExample | src/test/java/spoon/test/position/SourceFragmentTest.java:111-120 | A twin nests inside the equal child, and a smaller fragment nests inside the twin. |
| SourceFragments.RootSiblingsExample | src/test/java/spoon/test/position/SourceFragmentTest.java:123-129 | A later fragment becomes the next sibling. An earlier one becomes the new head. |
| SourceFragments.WrapChildExample | src/test/java/spoon/test/position/SourceFragmentTest.java:133-143 | A new enclosing fragment takes the child's place and adopts it. |
| SourceFragments.LocalizationExample | src/test/java/spoon/test/position/SourceFragmentTest.java:146-157 | Lookups by bounds return the test's fragments. |
| FragmentTrees.TopSpan | src/main/java/spoon/reflect/visitor/printer/change/SourceFragment.java:287-352 | In a well-nested chain, every fragment has a non-negative width and lies between the start of the first and the end of the last. |
| FragmentTrees.NodesSpan | src/main/java/spoon/reflect/visitor/printer/change/SourceFragment.java:287-352 | Every fragment of a well-nested tree, descendants included, lies within the span of its top chain. |
| FragmentTrees.LookupFindsNested | src/main/java/spoon/reflect/visitor/printer/change/SourceFragment.java:446-472 | On a well-nested tree, the lookup by the bounds of any non-empty fragment of the tree succeeds and finds a fragment. |
| FragmentTrees.AddNests | src/main/java/spoon/reflect/visitor/printer/change/SourceFragment.java:287-352 | Insertion as written keeps a well-nested tree well nested, within the span of the two inputs, when the new fragment has no children or encloses no fragment of the tree. |
| FragmentTrees.AddMisnestsExample | src/main/java/spoon/reflect/visitor/printer/change/SourceFragment.java:306-311 | A new fragment with children that encloses the chain's head gets the whole chain added to its children. A fragment lands under a child that does not contain it, the tree is no longer well nested, and the lookup of that fragment finds nothing. |
| FragmentTrees.InsertNests | src/main/java/spoon/reflect/visitor/printer/change/SourceFragment.java:287-352 | The corrected insertion keeps every well-nested tree well nested, within the span of the two inputs, with no condition on the new fragment. |
| FragmentTrees.InsertAllNests | src/main/java/spoon/reflect/visitor/printer/change/SourceFragment.java:306-344 | Inserting fragments that lie inside a parent, one by one, among well-nested children inside it leaves them well nested and inside it. |
| FragmentTrees.InsertKeepsIds | src/main/java/spoon/reflect/visitor/printer/change/SourceFragment.java:287-352 | The corrected insertion loses and duplicates no fragment. The identities of the result are those of the chain and the new fragment. |
| FragmentTrees.InsertAllKeepsIds | src/main/java/spoon/reflect/visitor/printer/change/SourceFragment.java:306-344 | Inserting fragments one by one keeps exactly the identities of the children and of the inserted fragments. |
| FragmentTrees.InsertRepairsExample | src/main/java/spoon/reflect/visitor/printer/change/SourceFragment.java:306-311 | On the same input as AddMisnestsExample, the corrected insertion puts each enclosed fragment under the child that contains it. The tree stays well nested and the lookup finds the fragment. |
| FragmentTrees.PlaceElement | src/main/java/spoon/reflect/visitor/printer/change/SourceFragment.java:224-279 | There is no fragment iff the position is missing, has no unit, or is the parent's. Another unit is an error. A new MAIN fragment of the element goes below the parent when inside it, and below the root when before or after it. It is added with the source's own insertion: the new parent or root is AddChild's result, and the identities add up. |
| FragmentTrees.EnclosingElementRejected | src/main/java/spoon/reflect/visitor/printer/change/SourceFragment.java:266-267 | A fragment enclosing its parent is rejected as inconsistent. |
| FragmentTrees.PlaceElementNests | src/main/java/spoon/reflect/visitor/printer/change/SourceFragment.java:224-279 | Placing a well-nested fragment as the source does keeps the parent, or the root's children, well nested, when the fragment has no sub-fragments or encloses no fragment below the node it is added to. |
| FragmentTrees.PlaceElementCorrected | src/main/java/spoon/reflect/visitor/printer/change/SourceFragment.java:224-279 | The same decisions and errors as PlaceElement, with the fragment inserted by the corrected insertion: the new children are InsertChild's result, and the identities add up. |
| FragmentTrees.PlaceElementCorrectedNests | src/main/java/spoon/reflect/visitor/printer/change/SourceFragment.java:224-279 | Placing a well-nested fragment with the corrected insertion keeps the parent, or the root's children, well nested, with no further condition. |
| SourcePositionUtils.ApplyTo | src/main/java/spoon/reflect/visitor/printer/change/SourcePositionUtils.java:181-195 | The descriptor's roles are removed from the remaining set. The fragment is marked iff it was marked or one of its roles changed. The descriptor is attached and nothing else changes. |
| SourcePositionUtils.CoveredRolesMeaning | src/main/java/spoon/reflect/visitor/printer/change/SourcePositionUtils.java:380-392 | A role is covered iff some fragment of the run has it. |
| SourcePositionUtils.MarkChangedFragments | src/main/java/spoon/reflect/visitor/printer/change/SourcePositionUtils.java:376-398 | Without a matching row, the result is false and nothing is marked. Otherwise the run is marked, and the result is true iff the run covers every changed role. |
| SourcePositionUtils.MarkWithRow | src/main/java/spoon/reflect/visitor/printer/change/SourcePositionUtils.java:379-395 | The loop marks the run of the element's fragments, as MarkedRun states, and reports coverage. |
| SourcePositionUtils.MarkingKeepsFragments | src/main/java/spoon/reflect/visitor/printer/change/SourcePositionUtils.java:380-388 | Marking changes only the modified flag and descriptor of the first n fragments. |
| SourcePositionUtils.MarkedIffRoleChanged | src/main/java/spoon/reflect/visitor/printer/change/SourcePositionUtils.java:181-195 | For disjoint roles and distinct types, a fragment ends up marked iff it was, or one of its roles changed. |
| SourcePositionUtils.TableRolesDisjoint | src/main/java/spoon/reflect/visitor/printer/change/SourcePositionUtils.java:316-366 | No row gives a role to two fragment types. |
| SourcePositionUtils.TypeMembersChangedExample | src/main/java/spoon/reflect/visitor/printer/change/SourcePositionUtils.java:338-342 | A change of type members marks only the BODY of a type and is covered. A change of TYPE is not covered. |
| SourcePositionUtils.SourceFragmentOfElement | src/main/java/spoon/reflect/visitor/printer/change/SourcePositionUtils.java:49-56 | The compilation unit's fragment is returned when the position has a unit. Otherwise it is none. |
| SourcePositionUtils.GetSourceFragmentsOfElement | src/main/java/spoon/reflect/visitor/printer/change/SourcePositionUtils.java:63-96 | Without sources the result is none. An unchanged element gets its whole fragment. A changed element with fewer than two own sub-fragments gets none. Otherwise the marked sub-fragments are returned iff every changed role is covered. |
| SourcePositionUtils.ReusedFragmentsCoverChanges | src/main/java/spoon/reflect/visitor/printer/change/SourcePositionUtils.java:389-392 | When the sub-fragments are reused, every changed role belongs to one of them. |
| SourcePositionUtils.GetMyOrParentsSourcePosition | src/main/java/spoon/reflect/visitor/printer/change/SourcePositionUtils.java:404-418 | The result is the first concrete position reachable up the initialized parents, or none when there is none. |
| TokenWriters.MutedEffect | src/main/java/spoon/reflect/visitor/printer/change/MutableTokenWriter.java:46-140 | Muted, tab changes and reset do nothing. A newline sets the tab flag. Every other call clears it. |
| TokenWriters.MutedIsSilent | src/main/java/spoon/reflect/visitor/printer/change/MutableTokenWriter.java:46-140 | A muted writer prints nothing, whatever it is asked. |
| TokenWriters.UnmutedIsTransparent | src/main/java/spoon/reflect/visitor/printer/change/MutableTokenWriter.java:46-140 | An unmuted writer passes on exactly the calls it gets, in order. |
| TokenWriters.MutableTokenWriter.constructor | src/main/java/spoon/reflect/visitor/printer/change/MutableTokenWriter.java:31-36 | It starts unmuted, having done nothing. |
| TokenWriters.MutableTokenWriter.IsMuted | src/main/java/spoon/reflect/visitor/printer/change/MutableTokenWriter.java:38-40 | The result is true iff the writer is muted. |
| TokenWriters.MutableTokenWriter.SetMuted | src/main/java/spoon/reflect/visitor/printer/change/MutableTokenWriter.java:42-44 | The flag is set and nothing is printed. |
| TokenWriters.MutableTokenWriter.DirectPrint | src/main/java/spoon/reflect/visitor/printer/change/DirectPrinterHelper.java:35-38 | The text is appended, muted or not. |
| TokenWriters.MutableTokenWriter.WriteSeparator | src/main/java/spoon/reflect/visitor/printer/change/MutableTokenWriter.java:46-53 | When muted, the tab flag is cleared. Otherwise the call is delegated. |
| TokenWriters.MutableTokenWriter.WriteOperator | src/main/java/spoon/reflect/visitor/printer/change/MutableTokenWriter.java:54-61 | The same, for operators. |
| TokenWriters.MutableTokenWriter.WriteLiteral | src/main/java/spoon/reflect/visitor/printer/change/MutableTokenWriter.java:62-69 | The same, for literals. |
| TokenWriters.MutableTokenWriter.WriteKeyword | src/main/java/spoon/reflect/visitor/printer/change/MutableTokenWriter.java:70-77 | The same, for keywords. |
| TokenWriters.MutableTokenWriter.WriteIdentifier | src/main/java/spoon/reflect/visitor/printer/change/MutableTokenWriter.java:78-85 | The same, for identifiers. |
| TokenWriters.MutableTokenWriter.WriteCodeSnippet | src/main/java/spoon/reflect/visitor/printer/change/MutableTokenWriter.java:86-93 | The same, for code snippets. |
| TokenWriters.MutableTokenWriter.WriteComment | src/main/java/spoon/reflect/visitor/printer/change/MutableTokenWriter.java:94-101 | The same, for comments. |
| TokenWriters.MutableTokenWriter.Writeln | src/main/java/spoon/reflect/visitor/printer/change/MutableTokenWriter.java:102-109 | When muted, the tab flag is set. Otherwise the call is delegated. |
| TokenWriters.MutableTokenWriter.IncTab | src/main/java/spoon/reflect/visitor/printer/change/MutableTokenWriter.java:110-116 | When muted, nothing happens. Otherwise the call is delegated. |
| TokenWriters.MutableTokenWriter.DecTab | src/main/java/spoon/reflect/visitor/printer/change/MutableTokenWriter.java:117-123 | The same, for decTab. |
| TokenWriters.MutableTokenWriter.Reset | src/main/java/spoon/reflect/visitor/printer/change/MutableTokenWriter.java:127-132 | The same, for reset. |
| TokenWriters.MutableTokenWriter.WriteSpace | src/main/java/spoon/reflect/visitor/printer/change/MutableTokenWriter.java:133-140 | When muted, the tab flag is cleared. Otherwise the call is delegated. |
| TokenWriters.MutableTokenWriter.Invoke | src/main/java/spoon/reflect/visitor/printer/change/ChangesAwareDefaultJavaPrettyPrinter.java:69-80 | The print action runs the named writer method, with that method's effect. |
| SniperPrinter.ScansInRole | src/main/java/spoon/reflect/visitor/printer/change/SourceFragmentContextList.java:35 | The list elements are children scanned in the list role. |
| SniperPrinter.ProxyEvent | src/main/java/spoon/reflect/visitor/printer/change/ChangesAwareDefaultJavaPrettyPrinter.java:81-103 | Reset reaches no context. Token writes report their method and token. Comments and tab changes report no token. A space reports " " and a newline "\n". |
| SniperPrinter.TypeBodyOpensOnBrace | src/main/java/spoon/reflect/visitor/printer/change/SourcePositionUtils.java:338-342 | A type's body starts on a token write iff it is the separator "{". |
| SniperPrinter.IndexOfId | src/main/java/spoon/reflect/visitor/printer/change/SourceFragmentContextList.java:55-61 | This is the first position of the identity in the chain, or none. |
| SniperPrinter.PrefixSpacesOnlyOfItems | src/main/java/spoon/reflect/visitor/printer/change/SourceFragmentContextList.java:36-44 | Only list elements are keys of the prefix map. |
| SniperPrinter.PrefixSpacesOfDistinct | src/main/java/spoon/reflect/visitor/printer/change/SourceFragmentContextList.java:36-44 | Each list element is in the map iff its fragment has a prefix, and then it maps to that prefix. |
| SniperPrinter.GetPrefixSpace | src/main/java/spoon/reflect/visitor/printer/change/SourceFragmentContextList.java:52-63 | The walk of the children returns the text between the previous child and the element's fragment. The first child, or a fragment that is not a child, gets none. |
| SniperPrinter.CollectPrefixSpaces | src/main/java/spoon/reflect/visitor/printer/change/SourceFragmentContextList.java:36-44 | The loop builds exactly the prefix map of the list elements. |
| SniperPrinter.StandardSpaces | src/main/java/spoon/reflect/visitor/printer/change/SourceFragmentContextList.java:140-145 | The postponed separators are forgotten. The mute state is kept and output only grows. |
| SniperPrinter.ListToken | src/main/java/spoon/reflect/visitor/printer/change/SourceFragmentContextList.java:66-86 | Before the first element, an unmuted writer with original text prints the list prefix and is muted before the token runs. After it, tokens are postponed and nothing is printed. |
| SniperPrinter.ListBeforeScan | src/main/java/spoon/reflect/visitor/printer/change/SourceFragmentContextList.java:89-118 | The index advances and the writer is unmuted. A later element with a known prefix gets that original prefix instead of the separators. Otherwise the separators run. |
| SniperPrinter.ListFinished | src/main/java/spoon/reflect/visitor/printer/change/SourceFragmentContextList.java:121-134 | The original suffix, when there is one, replaces the postponed separators. Otherwise they run. The writer ends unmuted. |
| SniperPrinter.ContextList.constructor | src/main/java/spoon/reflect/visitor/printer/change/SourceFragmentContextList.java:30-45 | The context starts before the prefix, with the prefix map of the elements in the list role. |
| SniperPrinter.ContextList.OnTokenWriterToken | src/main/java/spoon/reflect/visitor/printer/change/SourceFragmentContextList.java:66-86 | The new context and writer state are exactly ListToken of the old. |
| SniperPrinter.ContextList.PrintStandardSpaces | src/main/java/spoon/reflect/visitor/printer/change/SourceFragmentContextList.java:140-145 | The loop leaves exactly StandardSpaces of the old state. |
| SniperPrinter.ContextList.OnScanElementOnRole | src/main/java/spoon/reflect/visitor/printer/change/SourceFragmentContextList.java:89-118 | It applies ListBeforeScan, then the element is scanned internally from the unmuted writer. The writer is muted again at the end. |
| SniperPrinter.ContextList.OnParentFinished | src/main/java/spoon/reflect/visitor/printer/change/SourceFragmentContextList.java:121-134 | The new state is exactly ListFinished of the old. |
| SniperPrinter.NextOf | src/main/java/spoon/reflect/visitor/printer/change/SourceFragmentContextNormal.java:47-52 | The next fragment is a proper suffix of the current chain, or none. |
| SniperPrinter.Handle | src/main/java/spoon/reflect/visitor/printer/change/SourceFragmentContextNormal.java:67-90 | An unmodified fragment prints its original text, then the writer is muted. A modified one unmutes the writer, and a LIST one gets a list context over it. |
| SniperPrinter.NextFragmentOf | src/main/java/spoon/reflect/visitor/printer/change/SourceFragmentContextNormal.java:57-60 | The context stays well-formed and output only grows. |
| SniperPrinter.NormalToken | src/main/java/spoon/reflect/visitor/printer/change/SourceFragmentContextNormal.java:94-114 | The context stays well-formed and output only grows. The order of its three steps is stated by StartedFragmentPrintsFirst (start), EndingTokenFinishesList (end) and QuietPassesTokens (neither). |
| SniperPrinter.RunToken | src/main/java/spoon/reflect/visitor/printer/change/SourceFragmentContextNormal.java:99-104 | The current fragment and the presence of a list context are kept. |
| SniperPrinter.FinishOnToken | src/main/java/spoon/reflect/visitor/printer/change/SourceFragmentContextNormal.java:105-113 | A token that does not end the current fragment changes nothing. An ending token first finishes the list context, when there is one, and drops it. Only then does the cursor move to the next fragment, which is handled: its original text is printed and the writer muted when it is unmodified, the writer is unmuted when it is modified, and a LIST fragment opens a new list context over it. |
| SniperPrinter.NormalBeforeScan | src/main/java/spoon/reflect/visitor/printer/change/SourceFragmentContextNormal.java:118-121 | A scan in a role that does not start the next fragment changes nothing. A scan in a starting role moves the cursor to the next fragment and handles it before the child is scanned: its original text is printed and the writer muted when it is unmodified; the writer is unmuted when it is modified, and a LIST fragment opens a list context over it. |
| SniperPrinter.StartedFragmentPrintsFirst | src/main/java/spoon/reflect/visitor/printer/change/SourceFragmentContextNormal.java:94-114 | A token that starts the next fragment runs after that fragment is handled. For an unmodified fragment, its original text is printed first and the token then runs muted. For a modified NORMAL fragment, the token runs unmuted. |
| SniperPrinter.EndingTokenFinishesList | src/main/java/spoon/reflect/visitor/printer/change/SourceFragmentContextNormal.java:94-114 | A token that ends the current fragment, inside a list context: the list context takes the token, then finishes (its suffix or postponed separators), and is dropped. Only then does the cursor move to the next fragment, whose original text follows when it is unmodified. |
| SniperPrinter.QuietPassesTokens | src/main/java/spoon/reflect/visitor/printer/change/SourceFragmentContextNormal.java:94-114 | A context with nothing left to switch passes every token to the writer unchanged. |
| SniperPrinter.ContextNormal.constructor | src/main/java/spoon/reflect/visitor/printer/change/SourceFragmentContextNormal.java:31-37 | The context is created over the root fragment, which it handles at once (Handle). |
| SniperPrinter.ContextNormal.GetNextFragment | src/main/java/spoon/reflect/visitor/printer/change/SourceFragmentContextNormal.java:47-52 | The next fragment is none, or a proper suffix of the current chain. |
| SniperPrinter.ContextNormal.HandlePrinting | src/main/java/spoon/reflect/visitor/printer/change/SourceFragmentContextNormal.java:67-90 | The new state is exactly Handle of the old. |
| SniperPrinter.ContextNormal.NextFragment | src/main/java/spoon/reflect/visitor/printer/change/SourceFragmentContextNormal.java:57-60 | The new state is exactly NextFragmentOf of the old. |
| SniperPrinter.ContextNormal.OnTokenWriterToken | src/main/java/spoon/reflect/visitor/printer/change/SourceFragmentContextNormal.java:94-114 | The new state is exactly NormalToken of the old. |
| SniperPrinter.ContextNormal.RunPrintAction | src/main/java/spoon/reflect/visitor/printer/change/SourceFragmentContextNormal.java:99-104 | The new state is exactly RunToken of the old. |
| SniperPrinter.ContextNormal.FinishIfEnded | src/main/java/spoon/reflect/visitor/printer/change/SourceFragmentContextNormal.java:105-113 | The new state is exactly FinishOnToken of the old. |
| SniperPrinter.ContextNormal.OnScanElementOnRole | src/main/java/spoon/reflect/visitor/printer/change/SourceFragmentContextNormal.java:117-134 | The next fragment starts when the role starts it. Then the list context, or the printer, scans the child. |
| SniperPrinter.ContextNormal.RunScanAction | src/main/java/spoon/reflect/visitor/printer/change/SourceFragmentContextNormal.java:123-127 | The child is scanned by the list context when there is one, or else internally. |
| SniperPrinter.MarkingKeepsFragmentsOk | src/main/java/spoon/reflect/visitor/printer/change/SourcePositionUtils.java:380-388 | The fragments the table marks remain fit for printing: every modified fragment has a descriptor, and every LIST one a list role. |
| SniperPrinter.FragmentsOfElementOk | src/main/java/spoon/reflect/visitor/printer/change/SourcePositionUtils.java:63-96 | The fragments chosen for an element are fit for printing, so no context throws on them. |
| SniperPrinter.ChangesAwarePrinter.constructor | src/main/java/spoon/reflect/visitor/printer/change/ChangesAwareDefaultJavaPrettyPrinter.java:44-54 | The printer starts with an empty stack of contexts over its writer. |
| SniperPrinter.ChangesAwarePrinter.OnTokenWriterWrite | src/main/java/spoon/reflect/visitor/printer/change/ChangesAwareDefaultJavaPrettyPrinter.java:126-133 | Without a context the call runs. Otherwise the top context handles it (NormalToken). |
| SniperPrinter.ChangesAwarePrinter.ProxyCall | src/main/java/spoon/reflect/visitor/printer/change/ChangesAwareDefaultJavaPrettyPrinter.java:66-114 | Reset runs directly. Every other call reaches the top context, and the scan makes progress. |
| SniperPrinter.ChangesAwarePrinter.Scan | src/main/java/spoon/reflect/visitor/printer/change/ChangesAwareDefaultJavaPrettyPrinter.java:138-149 | A child with a role is handed to the top context (ScannedInContext). Otherwise it is scanned internally. The stack is restored. |
| SniperPrinter.ChangesAwarePrinter.ScanInternal | src/main/java/spoon/reflect/visitor/printer/change/ChangesAwareDefaultJavaPrettyPrinter.java:151-179 | The mute state is restored and a muted scan prints nothing. Without sources, output is exactly the generic printer's. An unchanged element prints its original text and then nothing but tab flags. |
| SniperPrinter.ChangesAwarePrinter.ScanInEmptyContext | src/main/java/spoon/reflect/visitor/printer/change/ChangesAwareDefaultJavaPrettyPrinter.java:152-168 | The element passes through the empty context. |
| SniperPrinter.ChangesAwarePrinter.ScanInNewContext | src/main/java/spoon/reflect/visitor/printer/change/ChangesAwareDefaultJavaPrettyPrinter.java:170-178 | The writer is unmuted at the end and output only grows. An unchanged element's original text is its whole visible output. |
| SniperPrinter.ChangesAwarePrinter.ScanEvent | src/main/java/spoon/reflect/visitor/printer/change/ChangesAwareDefaultJavaPrettyPrinter.java:138-149 | A token call goes through the proxy, a child through scan. Either way it is one step of progress. |
| SniperPrinter.ChangesAwarePrinter.SuperScan | src/main/java/spoon/reflect/visitor/printer/change/ChangesAwareDefaultJavaPrettyPrinter.java:173 | The loop over the generic printer's events keeps the stack and makes progress over all the element's calls. |
| SniperPrinter.NewChangesAwarePrinter | src/main/java/spoon/reflect/visitor/printer/change/ChangesAwareDefaultJavaPrettyPrinter.java:44-54 | Creation fails iff no change collector is attached. Otherwise the printer is fresh with an unmuted, empty writer. |
| Assignments.NonNullMembers | src/main/java/spoon/support/reflect/code/CtAssignmentImpl.java:119-121 | The casts kept are exactly the non-null given ones, and no more of them. |
| Assignments.NonNullOfNullFree | src/main/java/spoon/support/reflect/code/CtAssignmentImpl.java:109-123 | Filtering a list without null keeps it as it is: a fresh null-free list given as casts becomes the casts. |
| Assignments.CtAssignmentImpl.constructor | src/main/java/spoon/support/reflect/code/CtAssignmentImpl.java:41-51 | Every attribute starts null, and the casts start empty. |
| Assignments.CtAssignmentImpl.SetAssigned | src/main/java/spoon/support/reflect/code/CtAssignmentImpl.java:79-86 | Only the assigned expression is replaced. A non-null one gets this as parent. The update is reported with the new and old values. The method returns this. |
| Assignments.CtAssignmentImpl.SetAssignment | src/main/java/spoon/support/reflect/code/CtAssignmentImpl.java:89-96 | The same, for the assigned value. |
| Assignments.CtAssignmentImpl.SetType | src/main/java/spoon/support/reflect/code/CtAssignmentImpl.java:99-106 | The same, for the type. |
| Assignments.CtAssignmentImpl.AddTypeCast | src/main/java/spoon/support/reflect/code/CtAssignmentImpl.java:126-137 | A null cast changes nothing. Any other is appended after the earlier casts, gets this as parent and is reported. The method returns this. |
| Assignments.CtAssignmentImpl.AddEach | src/main/java/spoon/support/reflect/code/CtAssignmentImpl.java:119-121 | The loop appends exactly the non-null casts, in order. Each is adopted and reported. |
| Assignments.CtAssignmentImpl.SetTypeCasts | src/main/java/spoon/support/reflect/code/CtAssignmentImpl.java:109-123 | A missing or empty list empties the casts with no notification. Otherwise the removal of the old casts is reported. When the list given is the object's own cast list, clearing it empties it too, so the casts end empty and no addition is reported. Otherwise the casts become the given ones without null and each addition is reported. Every cast has this as parent. |

## Left out

- The generic Java printer (`DefaultJavaPrettyPrinter`) and the standard token writer are not part of this model. The printer's scan of an element is an input: the element's events. The writer's output is the list of effects on it.
- The change collector is not part of this model. Its changed roles per element are an input (`Element.changes`). The same holds for the compilation unit's fragment lookup (`Element.lookup`).
- `RoleHandlerHelper` is not part of this model. The elements of a list attribute are the children the generic printer scans in that role (`ScansInRole`).
- `getNonEmptySourcePosition` (`SourcePositionUtils.java:102-110`) has no caller in the core and is not modelled.
- `SourceFragment.addTreeOfSourceFragmentsOfElement` (`SourceFragment.java:193-218`): the scanner walk over the model with its `noSource` counter is left out. Only the step it takes per element is modelled (`FragmentTrees.PlaceElement`). The model of elements has no parent/child walk.
- `SourceFragment.toString`, `getSourcePosition` and the getters: plain field reads, not modelled.
- `CtAssignmentImpl` getters, `accept`, `S` and `clone` are not modelled. The setters' contracts state the field values directly.
- SniperPrinter.ChangesAwarePrinter.ScanInternal: the marking `GetSourceFragmentsOfElement` makes is not stored back into the compilation unit's fragments. The fragments are values here, while in the source they are shared objects.
- SniperPrinter.ContextNormal.OnScanElementOnRole, SniperPrinter.ChangesAwarePrinter.Scan: what a changed element prints is stated only as progress (the mute state is restored, output grows, nothing is printed while muted). The exact interleaving of original and generated text for changed elements is left to the specification functions.
- SniperPrinter.ChangesAwarePrinter.ProxyCall: the proxy's exception for an unknown writer method (`ChangesAwareDefaultJavaPrettyPrinter.java:113`) cannot happen, because every call of `WriterCall` is a known method. `getPrinterHelper` (line 104) is a query, and is reached through `DirectPrint` instead.
- `SourceFragmentContextNormal.onParentFinished` throws unconditionally (`SourceFragmentContextNormal.java:137-140`). A normal context is never a child context, so the model has no such operation.
- The `default` branch of `handlePrinting` (`SourceFragmentContextNormal.java:85-86`) cannot be reached with the two fragment kinds.
- The exceptions of `getListRole` and of null descriptors on modified fragments are excluded by `FragmentOk`. `FragmentsOfElementOk` proves that the fragments the printer is given satisfy it. The `StringIndexOutOfBoundsException` of `getSourceCode`'s `substring` (`SourceFragment.java:162`) is excluded too: `FragmentOk` demands, through `Readable`, that every offset the printer reads lies within the original text (`0 <= start <= end <= |text|`). This bound is assumed of the compilation unit's fragments (`SourcesOk`), not proved.
- The printer constructs its contexts as `new SourceFragmentContextNormal(this, ...)` and `new SourceFragmentContextNormal(this)` (`ChangesAwareDefaultJavaPrettyPrinter.java:135`, `171`). No such constructors exist in `SourceFragmentContextNormal.java` (lines 31-42 take a token writer). The model passes the printer's token writer, as the constructors that exist require.
- `DirectPrinterHelper.directPrint` first writes pending indentation (`autoWriteTabs`). The model records only the appended text (`Direct`), not the indentation.
- Exceptions thrown by the delegated token-writer calls, and the `finally` of `scanInternal` on an exception, are not modelled. The model has no exceptions there.
- `CtAssignmentImpl` keeps the shared immutable empty list until the first cast is added. The model has no list identity: the casts are a sequence value.
- Assignments.CtAssignmentImpl.SetTypeCasts: the notification `onListDeleteAll` carries the old list. It is modelled by the identities of the old casts.
- `SourcePositionUtils.markChangedFragments` logs the roles it cannot map through `debugMessage` (`SourcePositionUtils.java:393`). Logging has no effect on the result and is not modelled.
- Assignments.CtAssignmentImpl.SetTypeCasts: a list given as casts is either the object's own cast list (`aliased`) or a list that shares nothing with it. Other partial sharing, such as a view of the cast list, is not modelled.
- FragmentTrees.AddNests: nesting is proved for the insertion as written only when the new fragment has no children or encloses no fragment of the tree. Otherwise the source can misnest fragments (see Findings), and the proof is for the corrected `Insert` (`InsertNests`).
- SourceFragments.Add, SourceFragments.AddIntoHead, SourceFragments.AddAroundHead: where each fragment lands is stated by `FragmentTrees.AddNests` and the examples, not by their own contracts.
- FragmentTrees.PlaceElementNests: nesting is proved only when the element's fragment has no sub-fragments or encloses no fragment below the node it is added to, because the source's insertion misnests otherwise (see Findings). The element's own fragment is also assumed to be well nested: the constructor accepts a modifierSourceStart before sourceStart and a bodyEnd after sourceEnd, and then its sub-fragments stick out of it.
- FragmentTrees.PlaceElementCorrectedNests: the element's own fragment is assumed to be well nested, for the same reason.
- Integer widths: offsets are unbounded integers. The source's `int` offsets never approach overflow for real files.

## Findings

| source | as written | input that shows it | evidently intended | confidence | as-written member | corrected member |
|---|---|---|---|---|---|---|
| src/main/java/spoon/reflect/visitor/printer/change/SourceFragment.java:306-311 | When the new fragment encloses the head of the chain, `other.addChild(this)` inserts the head together with all its next siblings among the new fragment's existing children, placed by comparing the head alone. `mergeSiblingsOfChild` then moves out only the siblings after the new fragment. | Chain [14,16), [25,30), [60,70); new fragment [10,50) with children [10,12), [12,20), [20,50). [25,30) lands under [12,20), and the lookup of [25,30) returns null. | Each enclosed fragment is inserted among the new fragment's children by its position, so the tree stays nested. The same holds when an element's declaration fragment is placed (PlaceElementCorrected). | medium; not executed | FragmentTrees.AddMisnestsExample | FragmentTrees.InsertNests |
