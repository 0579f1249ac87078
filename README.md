# IntelliJ IDEA core pieces, modelled in Dafny

This project models a set of classes from the IntelliJ IDEA community code base
(Java) and proves properties of the model. Each core class gets one module:

- **MapIndexStorage** (file-based index storage). Value containers are sets of
  (value, input id) pairs, cached per key in front of a persistent map of
  record streams. It covers the value-container externalizer (`saveImpl`,
  `read`), the cache's write-back on eviction, and `flush`, `close`, `clear`,
  `processKeys`, `read`, `addValue`, `removeValue` and `remove`.
- **CopyHandler** covers `canCopy`, `doCopy` and `doClone`: the first copy
  delegate that accepts the elements wins.
- **AttributesDefaults** covers the file-template dialog defaults: the default
  file name, its selection range, and per-attribute values and ranges.
- **FileColorConfiguration** covers the (scope, color) pair of the file-colors
  settings: its validity, XML `save`/`load`, `equals`, `hashCode` and `clone`.
- **ExplicitlyImportedWeigher** is the completion proximity weigher that
  prefers same-file, explicitly imported and same-package elements.
- **EnumConstantElement** covers the child roles of an enum constant's syntax
  node and its text offset.
- **PsiCodeFragment** covers a code fragment's pseudo-imports: an
  insertion-ordered table from short name to qualified name, its string form,
  `importClass` with undo/redo, `clone`, validity, and the resolve scope.
- **CanonicalTypes** covers the type wrappers that survive PSI changes: how
  each wrapper renders, what it imports, and the `Creator` that wraps PSI types.
- **TypeParameterList** covers the `<T, U>` list of a declaration: child
  roles, and the comma and bracket fix-ups of `addInternal` and
  `deleteChildInternal`, on children that may include white space and
  comments.
- **LeafPatcher** covers the visitor that rebuilds injected-language leaves from
  their host text, shred by shred, through the host's escapers.
- **LanguageConsole** covers the console's input editor and history viewer:
  printing to the history, moving input into the history with its
  highlighting, the prompt, full-editor mode and queued UI updates.
- **ShowIntentions** covers collecting the intentions, quick fixes and gutter
  actions at the caret, filtering them, and deciding whether to show the
  light bulb.
- **VisibleTreeState** covers the remembered expanded and selected nodes of the
  inspection tree. It includes the `State` key type, its `compareTo` and
  `hashCode`, and the save and restore walks.
- **IntroduceVariable** covers the parts of the Introduce Variable refactoring
  that decide what to extract:
  - the caret-offset correction and the expression collection;
  - the quote fix-ups of a selection inside a string literal;
  - the replacement text;
  - the settings;
  - the loop-condition conflicts.
- **MoveInstanceMethod** covers the checks of the Move Instance Method
  handler, its choice of target variables, and its parameter-name
  suggestions.
- **JavaChainLookup** covers a chained completion item (`qualifier.main`): its
  lookup strings, presentation, equality and hash, the parenthesization
  decision and its insertion into the document.
- **IntentionSettings** covers the search filter of the intentions settings
  page.
- **SwitchManagerModel** covers the switcher's modifier-key session
  life cycle.

Two support modules sit beside them:

- **Wrappers** holds `Option` and `Result`.
- **JavaLang** holds Java `int` wrap-around and `String.hashCode`.

Callbacks into code outside the model are function-typed parameters. These
include `Character.isJavaIdentifierPart`, the short-class-name helper, the
escapers' host offsets, the copy delegates and the availability answers.
Mutable objects of the source are classes with `modifies` clauses.

## Model

| member | source | states |
|---|---|---|
| MapIndexStorage.ReadContainer | platform/lang-impl/src/com/intellij/util/indexing/MapIndexStorage.java:274-293 | Decoding a record stream yields exactly the pairs the stream adds minus those it removes, or the reason it cannot be decoded |
| MapIndexStorage.DecodeIdsNonNegative | platform/lang-impl/src/com/intellij/util/indexing/MapIndexStorage.java:274-293 | A successfully decoded container never holds a negative input id |
| MapIndexStorage.ReplayAppend | platform/lang-impl/src/com/intellij/util/indexing/MapIndexStorage.java:274-293 | Reading two complete streams one after the other is reading their concatenation, which is what appending deltas relies on |
| MapIndexStorage.RunIdsSaved | platform/lang-impl/src/com/intellij/util/indexing/MapIndexStorage.java:263-266 | A run of ids of one value, negated or not, adds or removes exactly that value's pairs |
| MapIndexStorage.RecordReplays | platform/lang-impl/src/com/intellij/util/indexing/MapIndexStorage.java:256-267 | Reading back a record of one value (value, count, ids) applies exactly that value's save |
| MapIndexStorage.SaveValue | platform/lang-impl/src/com/intellij/util/indexing/MapIndexStorage.java:256-267 | One value's record, read back onto any container, adds (or, saved as removed, removes) exactly that value's pairs |
| MapIndexStorage.WriteIds | platform/lang-impl/src/com/intellij/util/indexing/MapIndexStorage.java:262-266 | The id run holds each of the value's ids once and nothing else, negated for removed data |
| MapIndexStorage.SaveImpl | platform/lang-impl/src/com/intellij/util/indexing/MapIndexStorage.java:255-272 | Round trip: whatever order values and ids come in, reading the output back adds (or removes) exactly the container's pairs |
| MapIndexStorage.SaveDeltas | platform/lang-impl/src/com/intellij/util/indexing/MapIndexStorage.java:76-96 | The bytes appended for a dirty container first remove its removed pairs and then add its added pairs |
| MapIndexStorage.ReportFailure | platform/lang-impl/src/com/intellij/util/indexing/MapIndexStorage.java:127-136 | An I/O failure, directly or as the cause of an unchecked exception, becomes a StorageException; a storage cause is rethrown; anything else passes through |
| MapIndexStorage.TrackAdd | platform/lang-impl/src/com/intellij/util/indexing/MapIndexStorage.java:208-210 | Adding a pair makes it part of the merged contents and leaves every other pair as it was |
| MapIndexStorage.TrackRemove | platform/lang-impl/src/com/intellij/util/indexing/MapIndexStorage.java:212-214 | Removing a pair takes it out of the merged contents and leaves every other pair as it was |
| MapIndexStorage.MapIndexStorage.constructor | platform/lang-impl/src/com/intellij/util/indexing/MapIndexStorage.java:34-42 | A new storage has an empty cache over the existing map, and each key reads as the decoded map entry |
| MapIndexStorage.MapIndexStorage.OnDropFromCache | platform/lang-impl/src/com/intellij/util/indexing/MapIndexStorage.java:71-106 | Dropping a container removes it from the cache. Only a dirty container whose key is not being removed is written back, and what every key reads stays the same |
| MapIndexStorage.MapIndexStorage.Evict | platform/lang-impl/src/com/intellij/util/indexing/MapIndexStorage.java:71-106 | Eviction by the cache changes what no key reads |
| MapIndexStorage.MapIndexStorage.ClearCache | platform/lang-impl/src/com/intellij/util/indexing/MapIndexStorage.java:112-117 | Emptying the cache writes back the dirty containers and changes what no key reads |
| MapIndexStorage.MapIndexStorage.Flush | platform/lang-impl/src/com/intellij/util/indexing/MapIndexStorage.java:112-117 | Flushing an open storage empties the cache without changing any key's contents; a closed one is left alone |
| MapIndexStorage.MapIndexStorage.Close | platform/lang-impl/src/com/intellij/util/indexing/MapIndexStorage.java:119-137 | Closing keeps every key's contents and leaves the map closed |
| MapIndexStorage.MapIndexStorage.Clear | platform/lang-impl/src/com/intellij/util/indexing/MapIndexStorage.java:139-163 | After clear the map and the cache are empty and every key reads as the empty container |
| MapIndexStorage.MapIndexStorage.ProcessKeys | platform/lang-impl/src/com/intellij/util/indexing/MapIndexStorage.java:165-183 | The keys reported are the map's keys after the cache is written back, and they include every key holding a pair |
| MapIndexStorage.MapIndexStorage.Read | platform/lang-impl/src/com/intellij/util/indexing/MapIndexStorage.java:192-206 | Read returns the key's current contents (loading it into the cache on a miss) and changes what no key reads |
| MapIndexStorage.MapIndexStorage.AddValue | platform/lang-impl/src/com/intellij/util/indexing/MapIndexStorage.java:208-210 | The key's contents gain exactly the pair; other keys are unchanged; a decoding failure is reported and changes nothing |
| MapIndexStorage.MapIndexStorage.RemoveValue | platform/lang-impl/src/com/intellij/util/indexing/MapIndexStorage.java:212-214 | The key's contents lose exactly the pair; other keys are unchanged; a decoding failure is reported and changes nothing |
| MapIndexStorage.MapIndexStorage.Remove | platform/lang-impl/src/com/intellij/util/indexing/MapIndexStorage.java:216-238 | The key leaves both the cache and the map and reads as empty; the cached container is not written back; other keys are unchanged |
| CopyHandler.FirstAccepting | platform/lang-impl/src/com/intellij/refactoring/copy/CopyHandler.java:24-31 | The index found is of a delegate that accepts, and every delegate before it refuses; with none found, all refuse |
| CopyHandler.DoCopy | platform/lang-impl/src/com/intellij/refactoring/copy/CopyHandler.java:34-42 | The delegate invoked is the first one that accepts the non-empty array; none is invoked for an empty array or when all refuse |
| CopyHandler.DoClone | platform/lang-impl/src/com/intellij/refactoring/copy/CopyHandler.java:44-52 | The delegate invoked is the first one that accepts the singleton array of the element |
| CopyHandler.CanCopyIffSomeDelegateAccepts | platform/lang-impl/src/com/intellij/refactoring/copy/CopyHandler.java:24-31 | canCopy holds exactly when the array is non-empty and some delegate accepts it |
| AttributesDefaults.AttributesDefaults.constructor | platform/lang-impl/src/com/intellij/ide/fileTemplates/actions/AttributesDefaults.java:20-24 | The defaults hold exactly the given name and range, with no attributes |
| AttributesDefaults.AttributesDefaults.WithName | platform/lang-impl/src/com/intellij/ide/fileTemplates/actions/AttributesDefaults.java:26-28 | Only a default name, with no range |
| AttributesDefaults.AttributesDefaults.NoDefaults | platform/lang-impl/src/com/intellij/ide/fileTemplates/actions/AttributesDefaults.java:30-32 | Neither a name nor a range |
| AttributesDefaults.AttributesDefaults.GetDefaultFileName | platform/lang-impl/src/com/intellij/ide/fileTemplates/actions/AttributesDefaults.java:34-37 | The name given at construction |
| AttributesDefaults.AttributesDefaults.GetDefaultFileNameSelection | platform/lang-impl/src/com/intellij/ide/fileTemplates/actions/AttributesDefaults.java:38-41 | The range given at construction |
| AttributesDefaults.AttributesDefaults.Add | platform/lang-impl/src/com/intellij/ide/fileTemplates/actions/AttributesDefaults.java:43-47 | The key now maps to the value and range; a later add replaces an earlier one; other keys are untouched |
| AttributesDefaults.AttributesDefaults.AddValue | platform/lang-impl/src/com/intellij/ide/fileTemplates/actions/AttributesDefaults.java:49-52 | The key now maps to the value with no range |
| AttributesDefaults.AttributesDefaults.GetRangeFor | platform/lang-impl/src/com/intellij/ide/fileTemplates/actions/AttributesDefaults.java:54-58 | The range stored with the key; None for an unknown key or one added without a range |
| AttributesDefaults.AttributesDefaults.GetDefaultValueFor | platform/lang-impl/src/com/intellij/ide/fileTemplates/actions/AttributesDefaults.java:60-64 | The value stored with the key; None exactly for an unknown key |
| FileColorConfiguration.SavedChild | lang-impl/src/com/intellij/ui/tabs/FileColorConfiguration.java:53-64 | The child element saved is a "fileColor" tag carrying the scope and color attributes |
| FileColorConfiguration.LoadedFields | lang-impl/src/com/intellij/ui/tabs/FileColorConfiguration.java:95-108 | Loading reads both attributes, and gives nothing when either is missing |
| FileColorConfiguration.LoadSavedChild | lang-impl/src/com/intellij/ui/tabs/FileColorConfiguration.java:95-108 | Round trip: loading the saved child gives back exactly the scope and color |
| FileColorConfiguration.FileColorConfiguration.constructor | lang-impl/src/com/intellij/ui/tabs/FileColorConfiguration.java:17-18 | A new configuration has no scope and no color |
| FileColorConfiguration.FileColorConfiguration.WithNames | lang-impl/src/com/intellij/ui/tabs/FileColorConfiguration.java:20-23 | A configuration with the given scope and color |
| FileColorConfiguration.FileColorConfiguration.SetScopeName | lang-impl/src/com/intellij/ui/tabs/FileColorConfiguration.java:29-31 | Only the scope name changes |
| FileColorConfiguration.FileColorConfiguration.SetColorName | lang-impl/src/com/intellij/ui/tabs/FileColorConfiguration.java:37-39 | Only the color name changes |
| FileColorConfiguration.FileColorConfiguration.Save | lang-impl/src/com/intellij/ui/tabs/FileColorConfiguration.java:53-64 | A valid configuration appends exactly its one child to the element; an invalid one leaves the element unchanged |
| FileColorConfiguration.FileColorConfiguration.Equals | lang-impl/src/com/intellij/ui/tabs/FileColorConfiguration.java:66-77 | The same object, or a configuration with the same color and scope names; a null field dereferenced on the receiver's side throws |
| FileColorConfiguration.FileColorConfiguration.HashCode | lang-impl/src/com/intellij/ui/tabs/FileColorConfiguration.java:79-84 | 31 times the scope's string hash plus the color's, in int arithmetic; a null field throws |
| FileColorConfiguration.FileColorConfiguration.Clone | lang-impl/src/com/intellij/ui/tabs/FileColorConfiguration.java:86-93 | A fresh configuration with the same two names |
| FileColorConfiguration.EqualsImpliesSameHashCode | lang-impl/src/com/intellij/ui/tabs/FileColorConfiguration.java:66-84 | Equal configurations whose hash codes are defined hash alike |
| FileColorConfiguration.CloneEqualsOriginal | lang-impl/src/com/intellij/ui/tabs/FileColorConfiguration.java:86-93 | A clone of a configuration with both names set equals the original |
| FileColorConfiguration.Load | lang-impl/src/com/intellij/ui/tabs/FileColorConfiguration.java:95-108 | A configuration with the element's scope and color, or null when either attribute is missing |
| FileColorConfiguration.ReloadEqualsOriginal | lang-impl/src/com/intellij/ui/tabs/FileColorConfiguration.java:53-108 | Round trip: loading what a valid configuration saved gives a configuration equal to it |
| ExplicitlyImportedWeigher.ImportedFrom | java/java-impl/src/com/intellij/psi/util/proximity/ExplicitlyImportedWeigher.java:51-67 | The import loop answers true exactly when some import statement from the start point matches the qualified name |
| ExplicitlyImportedWeigher.Weigh | java/java-impl/src/com/intellij/psi/util/proximity/ExplicitlyImportedWeigher.java:39-81 | Null without a position; otherwise true exactly for an element of the same original file, an explicitly imported class, or a member of the position's package in the same module |
| ExplicitlyImportedWeigher.OnDemandImportMatchesSubpackage | java/java-impl/src/com/intellij/psi/util/proximity/ExplicitlyImportedWeigher.java:61 | For every package and every rest, an on-demand import of the package matches `package.rest`, so classes of its subpackages match too, because the test is a string prefix |
| ExplicitlyImportedWeigher.OnDemandImportMatchesOnlyItsPackage | java/java-impl/src/com/intellij/psi/util/proximity/ExplicitlyImportedWeigher.java:61 | An on-demand import matches exactly the names that start with its package and a dot |
| ExplicitlyImportedWeigher.NullOnDemandImportMatchesNullPackage | java/java-impl/src/com/intellij/psi/util/proximity/ExplicitlyImportedWeigher.java:60-61 | An unresolved on-demand import reads as the package "null" and matches every name under it; an unresolved single-type import matches no name |
| EnumConstantElement.FirstOfType | java/java-impl/src/com/intellij/psi/impl/source/tree/java/EnumConstantElement.java:25-46 | The first child of the wanted type at or after the start; None when there is none |
| EnumConstantElement.FindChildByRole | java/java-impl/src/com/intellij/psi/impl/source/tree/java/EnumConstantElement.java:25-46 | The first child of the role's type; None for a role the element does not know |
| EnumConstantElement.GetChildRole | java/java-impl/src/com/intellij/psi/impl/source/tree/java/EnumConstantElement.java:48-74 | Every initializer, expression-list and modifier-list child, a second one included, gets ANONYMOUS_CLASS, ARGUMENT_LIST and MODIFIER_LIST; a child has a role only if it is of that role's type; comments and other types have none |
| EnumConstantElement.FoundChildHasRole | java/java-impl/src/com/intellij/psi/impl/source/tree/java/EnumConstantElement.java:25-74 | The child a role finds has that role |
| EnumConstantElement.UniqueRolesBothWays | java/java-impl/src/com/intellij/psi/impl/source/tree/java/EnumConstantElement.java:48-74 | A child has the doc-comment or name role exactly when that role finds it |
| EnumConstantElement.SecondIdentifierHasNoRole | java/java-impl/src/com/intellij/psi/impl/source/tree/java/EnumConstantElement.java:48-74 | In every child list, an identifier after the first identifier has no role: only the first one is the name |
| EnumConstantElement.GetTextOffset | java/java-impl/src/com/intellij/psi/impl/source/tree/java/EnumConstantElement.java:21-23 | The start offset of the name child; a constant without a name throws |
| EnumConstantElement.TextAtOffsetIsName | java/java-impl/src/com/intellij/psi/impl/source/tree/java/EnumConstantElement.java:21-23 | The node's text, read from the text offset, starts with the name |
| PsiCodeFragment.TablePut | java/java-impl/src/com/intellij/psi/impl/source/PsiCodeFragmentImpl.java:143 | A new key goes last; an existing key keeps its place and gets the new value; the table stays well formed |
| PsiCodeFragment.TableRemove | java/java-impl/src/com/intellij/psi/impl/source/PsiCodeFragmentImpl.java:254 | The key and its entry disappear and the other entries keep their values; with distinct keys the new order is the old one with the key's place cut out |
| PsiCodeFragment.RemoveKeyAt | java/java-impl/src/com/intellij/psi/impl/source/PsiCodeFragmentImpl.java:254 | With distinct keys, removing the key at a place cuts exactly that place out of the order |
| PsiCodeFragment.TableValues | java/java-impl/src/com/intellij/psi/impl/source/PsiCodeFragmentImpl.java:135 | The values in key order, one per key |
| PsiCodeFragment.Tokens | java/java-impl/src/com/intellij/psi/impl/source/PsiCodeFragmentImpl.java:139-141 | The tokens are the maximal runs of non-comma characters: non-empty and without commas |
| PsiCodeFragment.NextToken | java/java-impl/src/com/intellij/psi/impl/source/PsiCodeFragmentImpl.java:141 | The first token, and the input left after it |
| PsiCodeFragment.TokensOfJoin | java/java-impl/src/com/intellij/psi/impl/source/PsiCodeFragmentImpl.java:134-141 | Splitting the joined names gives back the names when none is empty or holds a comma |
| PsiCodeFragment.ImportsRoundTrip | java/java-impl/src/com/intellij/psi/impl/source/PsiCodeFragmentImpl.java:134-145 | Round trip: reading importsToString back into an empty table rebuilds the table, order included, for a table keyed by short names |
| PsiCodeFragment.PutAllKeepsOthers | java/java-impl/src/com/intellij/psi/impl/source/PsiCodeFragmentImpl.java:138-145 | A name that no token is filed under keeps its entry, or its absence, through the puts |
| PsiCodeFragment.LaterTokenOverwrites | java/java-impl/src/com/intellij/psi/impl/source/PsiCodeFragmentImpl.java:138-145 | For any table and any tokens, a short name maps afterwards to the last token filed under it |
| PsiCodeFragment.PseudoImports.constructor | java/java-impl/src/com/intellij/psi/impl/source/PsiCodeFragmentImpl.java:76-89 | An empty table |
| PsiCodeFragment.PseudoImports.Copy | java/java-impl/src/com/intellij/psi/impl/source/PsiCodeFragmentImpl.java:80 | A copy with the same entries in the same order |
| PsiCodeFragment.PseudoImports.Put | java/java-impl/src/com/intellij/psi/impl/source/PsiCodeFragmentImpl.java:143 | The table becomes the table with the pair put |
| PsiCodeFragment.PseudoImports.Remove | java/java-impl/src/com/intellij/psi/impl/source/PsiCodeFragmentImpl.java:254 | The table becomes the table without the key |
| PsiCodeFragment.PseudoImports.Get | java/java-impl/src/com/intellij/psi/impl/source/PsiCodeFragmentImpl.java:178 | The value under the key, or None exactly when the key is absent |
| PsiCodeFragment.ImportClassUndoableAction.constructor | java/java-impl/src/com/intellij/psi/impl/source/PsiCodeFragmentImpl.java:243-251 | The action holds the pair and the very table it was put into |
| PsiCodeFragment.ImportClassUndoableAction.Undo | java/java-impl/src/com/intellij/psi/impl/source/PsiCodeFragmentImpl.java:253-255 | Undo removes the class name from the shared table |
| PsiCodeFragment.ImportClassUndoableAction.Redo | java/java-impl/src/com/intellij/psi/impl/source/PsiCodeFragmentImpl.java:257-259 | Redo puts the pair back into the shared table |
| PsiCodeFragment.UndoRestoresNewImport | java/java-impl/src/com/intellij/psi/impl/source/PsiCodeFragmentImpl.java:219-255 | Undoing the import of a name not imported before restores the table exactly |
| PsiCodeFragment.RedoAfterUndoOfOverwrite | java/java-impl/src/com/intellij/psi/impl/source/PsiCodeFragmentImpl.java:219-259 | For every well-formed table and import: redo after undo gives back the imported entries. A new name comes back at its place, so the table is exactly as imported; an overwritten name kept its place on import but moves to the end of the order |
| PsiCodeFragment.ProcessAllStopsAtFirstRejection | java/java-impl/src/com/intellij/psi/impl/source/PsiCodeFragmentImpl.java:187-192 | The walk executes a prefix of the found classes: all of them, each accepted, or up to the first the processor rejects |
| PsiCodeFragment.ProcessAllPrefix | java/java-impl/src/com/intellij/psi/impl/source/PsiCodeFragmentImpl.java:187-192 | The classes executed are the found ones in order, cut off at some point |
| PsiCodeFragment.ProcessAllAccepted | java/java-impl/src/com/intellij/psi/impl/source/PsiCodeFragmentImpl.java:187-192 | When the walk goes on, every found class was executed and accepted |
| PsiCodeFragment.ProcessAllRejection | java/java-impl/src/com/intellij/psi/impl/source/PsiCodeFragmentImpl.java:187-192 | When the walk stops, the last class executed was rejected and every earlier one accepted |
| PsiCodeFragment.PsiCodeFragment.constructor | java/java-impl/src/com/intellij/psi/impl/source/PsiCodeFragmentImpl.java:76-89 | A fragment with no imports, no context and no forced scope |
| PsiCodeFragment.PsiCodeFragment.SetContext | java/java-impl/src/com/intellij/psi/impl/source/PsiCodeFragmentImpl.java:114-116 | Only the context changes |
| PsiCodeFragment.PsiCodeFragment.ForceResolveScope | java/java-impl/src/com/intellij/psi/impl/source/PsiCodeFragmentImpl.java:274-276 | Only the forced scope changes |
| PsiCodeFragment.PsiCodeFragment.IsValid | java/java-impl/src/com/intellij/psi/impl/source/PsiCodeFragmentImpl.java:99-103 | Valid exactly when the file is valid and the context, if any, is too |
| PsiCodeFragment.PsiCodeFragment.GetResolveScope | java/java-impl/src/com/intellij/psi/impl/source/PsiCodeFragmentImpl.java:282-286 | A forced scope wins over the inherited one |
| PsiCodeFragment.PsiCodeFragment.ImportsToString | java/java-impl/src/com/intellij/psi/impl/source/PsiCodeFragmentImpl.java:134-136 | The imported qualified names joined by commas in insertion order |
| PsiCodeFragment.PsiCodeFragment.AddImportsFromString | java/java-impl/src/com/intellij/psi/impl/source/PsiCodeFragmentImpl.java:138-145 | Each token, left to right, is put under its short name |
| PsiCodeFragment.PsiCodeFragment.ImportClass | java/java-impl/src/com/intellij/psi/impl/source/PsiCodeFragmentImpl.java:219-236 | A class without a qualified name is refused and nothing changes. Otherwise its name maps to its qualified name, and a physical fragment gets an undo action on the shared table |
| PsiCodeFragment.PsiCodeFragment.Clone | java/java-impl/src/com/intellij/psi/impl/source/PsiCodeFragmentImpl.java:76-89 | A non-physical fragment with its own copy of the table, pointing back at the original |
| PsiCodeFragment.PsiCodeFragment.ProcessPseudoImports | java/java-impl/src/com/intellij/psi/impl/source/PsiCodeFragmentImpl.java:172-193 | A processor whose class hint refuses classes is offered nothing. Otherwise, with a name hint only the class imported under that name is offered; without one every imported class in order, stopping at the first rejection |
| CanonicalTypes.WrappedTextIsPresentableText | java/java-impl/src/com/intellij/refactoring/util/CanonicalTypes.java:194-240 | A wrapper renders the same text as the PSI type it was made from |
| CanonicalTypes.AnonymousClassWrapsAsBase | java/java-impl/src/com/intellij/refactoring/util/CanonicalTypes.java:194-240 | An anonymous class's type is wrapped as its base class type |
| CanonicalTypes.WrapNamedClass | java/java-impl/src/com/intellij/refactoring/util/CanonicalTypes.java:215-237 | A named class becomes a class type with its qualified name (its short name when it has none). Its substitutor has exactly one entry per distinct type parameter name, and a name maps to the wrapped substitute of the last parameter of that name, or to null when that one has none |
| CanonicalTypes.SubstPut | java/java-impl/src/com/intellij/refactoring/util/CanonicalTypes.java:229-232 | HashMap.put: the name maps to the new type, every other name keeps its lookup, and names stay distinct |
| CanonicalTypes.SubstPutAllKeepsOthers | java/java-impl/src/com/intellij/refactoring/util/CanonicalTypes.java:226-233 | A name no put carries keeps its lookup through the loop |
| CanonicalTypes.SubstPutAllLastWins | java/java-impl/src/com/intellij/refactoring/util/CanonicalTypes.java:226-233 | After the loop, a name maps to the type of the last put that carries it |
| CanonicalTypes.SubstPutAllNames | java/java-impl/src/com/intellij/refactoring/util/CanonicalTypes.java:226-233 | After the loop, exactly the names already present or carried by some put have an entry |
| CanonicalTypes.WrapUnresolved | java/java-impl/src/com/intellij/refactoring/util/CanonicalTypes.java:194-240 | An unresolved class type becomes a WrongType carrying its text |
| CanonicalTypes.ImportsAreMentionedNames | java/java-impl/src/com/intellij/refactoring/util/CanonicalTypes.java:147-192 | A wrapper imports exactly the class names it mentions; primitives and wrong types import nothing |
| CanonicalTypes.ClassTypeImportsItselfFirst | java/java-impl/src/com/intellij/refactoring/util/CanonicalTypes.java:147-192 | The first import of a class type is its own qualified name |
| CanonicalTypes.WildcardTextAndImports | java/java-impl/src/com/intellij/refactoring/util/CanonicalTypes.java:118-125 | A bounded wildcard renders as `? extends B` or `? super B` and imports what its bound imports; the unbounded one renders as `?` and imports nothing |
| TypeParameterList.ChildRole | java/java-impl/src/com/intellij/psi/impl/source/tree/java/TypeParameterListElement.java:37-55 | Type parameters, commas and the two brackets get their roles; anything else has none |
| TypeParameterList.FirstOfKind | java/java-impl/src/com/intellij/psi/impl/source/tree/java/TypeParameterListElement.java:37-55 | The first child of the kind, or None when there is none |
| TypeParameterList.ScanForward | java/java-impl/src/com/intellij/psi/impl/source/tree/java/TypeParameterListElement.java:85-92 | The first comma or type parameter at or after the position |
| TypeParameterList.ScanBack | java/java-impl/src/com/intellij/psi/impl/source/tree/java/TypeParameterListElement.java:93-100 | The last comma or type parameter before the position |
| TypeParameterList.SkipForward | java/java-impl/src/com/intellij/psi/impl/source/tree/java/TypeParameterListElement.java:107 | The first child from the position that is neither white space nor a comment |
| TypeParameterList.SkipBack | java/java-impl/src/com/intellij/psi/impl/source/tree/java/TypeParameterListElement.java:112 | The last child before the position that is neither white space nor a comment |
| TypeParameterList.WithBrackets | java/java-impl/src/com/intellij/psi/impl/source/tree/java/TypeParameterListElement.java:58-69 | Missing brackets are added, `<` first and `>` last, around the children |
| TypeParameterList.InsertPosition | java/java-impl/src/com/intellij/psi/impl/source/tree/java/TypeParameterListElement.java:71-82 | The added children go before or after the anchor, or inside the brackets without one |
| TypeParameterList.AddResult | java/java-impl/src/com/intellij/psi/impl/source/tree/java/TypeParameterListElement.java:57-103 | The new children and the index of the first added node |
| TypeParameterList.InsertAndFix | java/java-impl/src/com/intellij/psi/impl/source/tree/java/TypeParameterListElement.java:82-101 | After the raw insertion the comma fix-ups add at most two commas, and the returned index lies within the new children |
| TypeParameterList.BracketsOfWellFormed | java/java-impl/src/com/intellij/psi/impl/source/tree/java/TypeParameterListElement.java:57-127 | In a well-formed non-empty list of significant children `<` is first and `>` is last |
| TypeParameterList.FirstOfKindSignificant | java/java-impl/src/com/intellij/psi/impl/source/tree/java/TypeParameterListElement.java:37-55 | findChildByRole for a bracket finds the node that is that bracket among the children without white space and comments |
| TypeParameterList.ScanForwardSignificant | java/java-impl/src/com/intellij/psi/impl/source/tree/java/TypeParameterListElement.java:85-92 | The forward scan for a comma or type parameter finds the same node with or without white space and comments |
| TypeParameterList.ScanBackSignificant | java/java-impl/src/com/intellij/psi/impl/source/tree/java/TypeParameterListElement.java:93-100 | The backward scan for a comma or type parameter finds the same node with or without white space and comments |
| TypeParameterList.InsertBeforeParameter | java/java-impl/src/com/intellij/psi/impl/source/tree/java/TypeParameterListElement.java:84-92 | A parameter inserted just before another gets a comma after it |
| TypeParameterList.InsertAfterParameter | java/java-impl/src/com/intellij/psi/impl/source/tree/java/TypeParameterListElement.java:93-100 | A parameter inserted after another, before a comma or `>`, gets a comma before it |
| TypeParameterList.AddToEmptyList | java/java-impl/src/com/intellij/psi/impl/source/tree/java/TypeParameterListElement.java:57-103 | Adding one parameter to a list without children gives `< p >` |
| TypeParameterList.AddInsideKeepsWellFormed | java/java-impl/src/com/intellij/psi/impl/source/tree/java/TypeParameterListElement.java:84-101 | On a list of significant children only: the comma fix-ups of one type parameter added inside the brackets keep the list well formed, put it at the returned index and add exactly it to the parameters |
| TypeParameterList.SignificantOfInsertAndFix | java/java-impl/src/com/intellij/psi/impl/source/tree/java/TypeParameterListElement.java:82-101 | White space and comments do not change the fix-ups: adding one type parameter and then dropping them gives what adding it to the significant children at the matching index gives |
| TypeParameterList.AddToLayoutOnly | java/java-impl/src/com/intellij/psi/impl/source/tree/java/TypeParameterListElement.java:57-103 | Adding one type parameter to children that are only white space and comments gives `< p >` once those are dropped |
| TypeParameterList.AddToBracketed | java/java-impl/src/com/intellij/psi/impl/source/tree/java/TypeParameterListElement.java:57-103 | Adding one type parameter inside the brackets of a list that is well formed up to white space and comments keeps it so |
| TypeParameterList.AddKeepsWellFormed | java/java-impl/src/com/intellij/psi/impl/source/tree/java/TypeParameterListElement.java:57-103 | For any children that are well formed once white space and comments are dropped, adding one type parameter without an anchor or next to one between the brackets keeps them so, puts the parameter at the returned index, and makes the parameters those before the insertion point, the new one, then those after |
| TypeParameterList.DeleteBeforeComma | java/java-impl/src/com/intellij/psi/impl/source/tree/java/TypeParameterListElement.java:106-110 | On a list of significant children only: deleting a parameter followed by a comma deletes both |
| TypeParameterList.DeleteLastOfSeveral | java/java-impl/src/com/intellij/psi/impl/source/tree/java/TypeParameterListElement.java:111-116 | On a list of significant children only: deleting the last of several parameters deletes the comma before it |
| TypeParameterList.DeleteOnlyParameter | java/java-impl/src/com/intellij/psi/impl/source/tree/java/TypeParameterListElement.java:119-126 | Deleting the only parameter of `< T >` leaves no children |
| TypeParameterList.DeleteInSignificantList | java/java-impl/src/com/intellij/psi/impl/source/tree/java/TypeParameterListElement.java:105-127 | On a list of significant children only: deleting a type parameter keeps the list well formed, never throws and removes exactly that parameter; deleting the only one leaves no children |
| TypeParameterList.SignificantOfDeleteWithSeparator | java/java-impl/src/com/intellij/psi/impl/source/tree/java/TypeParameterListElement.java:105-118 | White space and comments do not change which comma goes with a deleted type parameter: deleting and then dropping them is deleting among the significant children |
| TypeParameterList.SignificantOfDeleteResult | java/java-impl/src/com/intellij/psi/impl/source/tree/java/TypeParameterListElement.java:105-127 | White space and comments do not change deleteChildInternal on a type parameter, the bracket clean-up and the missing-`<` failure included |
| TypeParameterList.DeleteRemovesExactlyParameter | java/java-impl/src/com/intellij/psi/impl/source/tree/java/TypeParameterListElement.java:105-127 | For any children, deleting a type parameter removes exactly it from the parameters |
| TypeParameterList.DeleteKeepsWellFormed | java/java-impl/src/com/intellij/psi/impl/source/tree/java/TypeParameterListElement.java:105-127 | For any children that are well formed once white space and comments are dropped, deleting a type parameter keeps them so, never throws and removes exactly that parameter; deleting the only parameter leaves no significant children |
| TypeParameterList.TypeParameterListElement.constructor | java/java-impl/src/com/intellij/psi/impl/source/tree/java/TypeParameterListElement.java:57-127 | A list without children |
| TypeParameterList.TypeParameterListElement.RawInsert | java/java-impl/src/com/intellij/psi/impl/source/tree/java/TypeParameterListElement.java:57-103 | The children with the nodes inserted at the position |
| TypeParameterList.TypeParameterListElement.RawDelete | java/java-impl/src/com/intellij/psi/impl/source/tree/java/TypeParameterListElement.java:105-127 | The children without the one at the index |
| TypeParameterList.TypeParameterListElement.AddBrackets | java/java-impl/src/com/intellij/psi/impl/source/tree/java/TypeParameterListElement.java:58-69 | The children with missing brackets added, with the positions of both brackets |
| TypeParameterList.TypeParameterListElement.AddCommaAfter | java/java-impl/src/com/intellij/psi/impl/source/tree/java/TypeParameterListElement.java:85-92 | The forward scan puts a comma after the added node when a parameter follows it |
| TypeParameterList.TypeParameterListElement.AddCommaBefore | java/java-impl/src/com/intellij/psi/impl/source/tree/java/TypeParameterListElement.java:93-100 | The backward scan puts a comma before the added node when a parameter precedes it |
| TypeParameterList.TypeParameterListElement.AddInternal | java/java-impl/src/com/intellij/psi/impl/source/tree/java/TypeParameterListElement.java:57-103 | The children become the result of adding, in place |
| TypeParameterList.TypeParameterListElement.InsertAndFixCommas | java/java-impl/src/com/intellij/psi/impl/source/tree/java/TypeParameterListElement.java:82-101 | The raw insertion, then for one added type parameter the comma after it and the comma before it, and the index of the added node |
| TypeParameterList.TypeParameterListElement.DeleteParameter | java/java-impl/src/com/intellij/psi/impl/source/tree/java/TypeParameterListElement.java:105-118 | A type parameter is removed together with the comma next to it |
| TypeParameterList.TypeParameterListElement.DeleteEmptyBrackets | java/java-impl/src/com/intellij/psi/impl/source/tree/java/TypeParameterListElement.java:119-126 | An emptied `<>` is removed; a missing `<` is reported as a null dereference |
| TypeParameterList.TypeParameterListElement.DeleteChildInternal | java/java-impl/src/com/intellij/psi/impl/source/tree/java/TypeParameterListElement.java:105-127 | The children after deletion, with the comma and an emptied `<>` removed |
| LeafPatcher.Slice | platform/lang-impl/src/com/intellij/psi/impl/source/tree/injected/LeafPatcher.java:71-95 | The characters of the range, or None when the range leaves the string |
| LeafPatcher.Step | platform/lang-impl/src/com/intellij/psi/impl/source/tree/injected/LeafPatcher.java:58-99 | One turn of the loop copies part of the shred's text or moves to the next shred |
| LeafPatcher.Reconstruct | platform/lang-impl/src/com/intellij/psi/impl/source/tree/injected/LeafPatcher.java:58-99 | The whole loop: the text appended, the shred and host text left behind, and whether an index went out of bounds |
| LeafPatcher.ReconstructStep | platform/lang-impl/src/com/intellij/psi/impl/source/tree/injected/LeafPatcher.java:58-99 | The loop takes one step at a time |
| LeafPatcher.LiteralStep | platform/lang-impl/src/com/intellij/psi/impl/source/tree/injected/LeafPatcher.java:63-95 | With a literal escaper, a step copies exactly the next part of the shred's text and never passes the shred's end |
| LeafPatcher.LiteralShredsRebuildDocument | platform/lang-impl/src/com/intellij/psi/impl/source/tree/injected/LeafPatcher.java:58-99 | With contiguous shreds and escapers that unescape nothing, rebuilding a range of the injected document gives exactly that range |
| LeafPatcher.RebuildAcrossShreds | platform/lang-impl/src/com/intellij/psi/impl/source/tree/injected/LeafPatcher.java:58-99 | A range starting past the current shred is rebuilt exactly from the next shred on |
| LeafPatcher.RebuildWithinShred | platform/lang-impl/src/com/intellij/psi/impl/source/tree/injected/LeafPatcher.java:58-99 | A range starting inside the current shred is rebuilt exactly: the copied piece, then the rest |
| LeafPatcher.Tail | platform/lang-impl/src/com/intellij/psi/impl/source/tree/injected/LeafPatcher.java:53-54 | The tail carried to the next leaf is what the encoded text has beyond the leaf text |
| LeafPatcher.TailCompletesLeafText | platform/lang-impl/src/com/intellij/psi/impl/source/tree/injected/LeafPatcher.java:53-54 | A tail is non-empty and completes the leaf text to the encoded text |
| LeafPatcher.TailOfExtension | platform/lang-impl/src/com/intellij/psi/impl/source/tree/injected/LeafPatcher.java:53-54 | A leaf text followed by a non-empty tail gives back exactly that tail |
| LeafPatcher.StoreUnescaped | platform/lang-impl/src/com/intellij/psi/impl/source/tree/injected/LeafPatcher.java:101-106 | The unescaped text is stored only on a leaf with a PSI element |
| LeafPatcher.LeafStepRecordsOnlyChanges | platform/lang-impl/src/com/intellij/psi/impl/source/tree/injected/LeafPatcher.java:49-52 | Only leaves whose rebuilt text differs from their own text are recorded |
| LeafPatcher.LeafStepRecordsDifference | platform/lang-impl/src/com/intellij/psi/impl/source/tree/injected/LeafPatcher.java:43-52 | A leaf that is not white space after a tail gets an entry exactly when its encoded text differs, and the entry is that text |
| LeafPatcher.WhiteSpaceTakesTail | platform/lang-impl/src/com/intellij/psi/impl/source/tree/injected/LeafPatcher.java:43-48 | A white-space leaf after a pending tail takes that tail in front of its own text |
| LeafPatcher.LeafStepTail | platform/lang-impl/src/com/intellij/psi/impl/source/tree/injected/LeafPatcher.java:53-55 | The tail left for the next leaf is what the encoded text has beyond the leaf |
| LeafPatcher.LeafPatcher.constructor | platform/lang-impl/src/com/intellij/psi/impl/source/tree/injected/LeafPatcher.java:30-33 | A fresh visitor over the shreds and escapers, at the first shred |
| LeafPatcher.LeafPatcher.CopyInShred | platform/lang-impl/src/com/intellij/psi/impl/source/tree/injected/LeafPatcher.java:63-95 | The piece copied from the current shred and the offset to go on from, as Step says |
| LeafPatcher.LeafPatcher.ConstructText | platform/lang-impl/src/com/intellij/psi/impl/source/tree/injected/LeafPatcher.java:58-99 | The text, shred number and host text the loop leaves are those of Reconstruct |
| LeafPatcher.LeafPatcher.ReconstructLoop | platform/lang-impl/src/com/intellij/psi/impl/source/tree/injected/LeafPatcher.java:62-96 | The text appended, the failure flag, and the shred number and host text the loop ends with are those of Reconstruct |
| LeafPatcher.LeafPatcher.VisitLeaf | platform/lang-impl/src/com/intellij/psi/impl/source/tree/injected/LeafPatcher.java:36-56 | The leaf text is appended and its rebuilt text recorded; an out-of-bounds index is reported |
| LeafPatcher.LeafPatcher.Record | platform/lang-impl/src/com/intellij/psi/impl/source/tree/injected/LeafPatcher.java:43-55 | The bookkeeping of a rebuilt leaf: its entry, the stored unescaped text and the tail |
| LanguageConsole.ConvertedHasNoCarriageReturn | platform/lang-impl/src/com/intellij/execution/console/LanguageConsoleImpl.java:327 | The converted text has no carriage return |
| LanguageConsole.ConvertIsIdempotent | platform/lang-impl/src/com/intellij/execution/console/LanguageConsoleImpl.java:327 | Converting twice is converting once |
| LanguageConsole.EntryLayout | platform/lang-impl/src/com/intellij/execution/console/LanguageConsoleImpl.java:367-402 | After an entry the history keeps what it had, then holds the prompt and the text, and ends with a line break |
| LanguageConsole.TokenHighlightsInsideText | platform/lang-impl/src/com/intellij/execution/console/LanguageConsoleImpl.java:379-390 | Every token highlighter lies within where the text landed in the history |
| LanguageConsole.TokenHighlightsSkipAndStop | platform/lang-impl/src/com/intellij/execution/console/LanguageConsoleImpl.java:379-390 | Tokens ending before the range add nothing; the first token starting after it ends the loop |
| LanguageConsole.DuplicateClipsToRange | platform/lang-impl/src/com/intellij/execution/console/LanguageConsoleImpl.java:408-418 | A highlighter is copied exactly when it overlaps or touches the range, clipped to it and shifted |
| LanguageConsole.DuplicateInsideRangeShifts | platform/lang-impl/src/com/intellij/execution/console/LanguageConsoleImpl.java:408-418 | A highlighter inside the range keeps its extent, shifted by the offset |
| LanguageConsole.DuplicatesInsideText | platform/lang-impl/src/com/intellij/execution/console/LanguageConsoleImpl.java:408-418 | Every copy lies within where the text landed, and there are no more copies than highlighters |
| LanguageConsole.LanguageConsole.constructor | platform/lang-impl/src/com/intellij/execution/console/LanguageConsoleImpl.java:92 | Empty documents and markup, the "> " prompt, and no full editor |
| LanguageConsole.LanguageConsole.SetPrompt | platform/lang-impl/src/com/intellij/execution/console/LanguageConsoleImpl.java:285-288 | The prompt and the input editor's prefix both become the new prompt |
| LanguageConsole.LanguageConsole.SetUiUpdateRunnable | platform/lang-impl/src/com/intellij/execution/console/LanguageConsoleImpl.java:268-271 | The runnable can be set once; a second call fails its assertion and changes nothing |
| LanguageConsole.LanguageConsole.SetFullEditorMode | platform/lang-impl/src/com/intellij/execution/console/LanguageConsoleImpl.java:149-172 | Nothing happens in the requested mode; leaving closes the full editor and hides the scroll bar, entering opens it and shows the scroll bar |
| LanguageConsole.LanguageConsole.QueueUiUpdate | platform/lang-impl/src/com/intellij/execution/console/LanguageConsoleImpl.java:424-435 | A forced scroll stays requested until the queued update consumes it |
| LanguageConsole.LanguageConsole.RunQueuedUpdate | platform/lang-impl/src/com/intellij/execution/console/LanguageConsoleImpl.java:427-433 | Nothing once disposed; otherwise the forced-scroll flag is taken and cleared, and the runnable runs when set |
| LanguageConsole.LanguageConsole.PrintToHistory | platform/lang-impl/src/com/intellij/execution/console/LanguageConsoleImpl.java:326-339 | The converted text is appended to the history and exactly the appended span is highlighted |
| LanguageConsole.LanguageConsole.AddTokenHighlights | platform/lang-impl/src/com/intellij/execution/console/LanguageConsoleImpl.java:379-390 | The lexer loop adds one clipped, shifted highlighter per token overlapping the range |
| LanguageConsole.LanguageConsole.DuplicateHighlighters | platform/lang-impl/src/com/intellij/execution/console/LanguageConsoleImpl.java:408-418 | The overlapping highlighters are copied, clipped and shifted, into the history markup |
| LanguageConsole.LanguageConsole.AddTextRangeToHistory | platform/lang-impl/src/com/intellij/execution/console/LanguageConsoleImpl.java:367-402 | The prompt (highlighted as user input), the range's text, its highlighting and a closing line break are appended, and the text is returned |
| LanguageConsole.LanguageConsole.AddCurrentToHistory | platform/lang-impl/src/com/intellij/execution/console/LanguageConsoleImpl.java:341-354 | The range's text moves into the history; with erase exactly that range is deleted from the input |
| LanguageConsole.EraseRemovesExactlyTheRange | platform/lang-impl/src/com/intellij/execution/console/LanguageConsoleImpl.java:341-354 | Input before the range, moved text and input after the range put back together give the original input |
| ShowIntentions.FilteredMembers | platform/lang-impl/src/com/intellij/codeInsight/daemon/impl/ShowIntentionsPass.java:71-77 | A descriptor survives the filter exactly when it was there and its action is accepted |
| ShowIntentions.FilteredIsIdempotent | platform/lang-impl/src/com/intellij/codeInsight/daemon/impl/ShowIntentionsPass.java:71-77 | Filtering twice is filtering once |
| ShowIntentions.FilteredAppend | platform/lang-impl/src/com/intellij/codeInsight/daemon/impl/ShowIntentionsPass.java:71-77 | Filtering distributes over concatenation, keeping order |
| ShowIntentions.ListedIntentionsMembers | platform/lang-impl/src/com/intellij/codeInsight/daemon/impl/ShowIntentionsPass.java:182-197 | Exactly the listed actions get a descriptor, each with the enable/disable option and no display name |
| ShowIntentions.GutterEntriesExist | platform/lang-impl/src/com/intellij/codeInsight/daemon/impl/ShowIntentionsPass.java:209-236 | There are gutter entries exactly when a highlight of the line has a clickable gutter icon with a tooltip |
| ShowIntentions.GutterEntriesAreAdapters | platform/lang-impl/src/com/intellij/codeInsight/daemon/impl/ShowIntentionsPass.java:209-236 | Each gutter entry is named by its tooltip and runs the click action |
| ShowIntentions.ScanIntentionsFinds | platform/lang-impl/src/com/intellij/codeInsight/daemon/impl/ShowIntentionsPass.java:150-158 | The scan finds a reason exactly when a bulb-enabled intention is available before any of them throws |
| ShowIntentions.ScanIntentionsWithoutIndexing | platform/lang-impl/src/com/intellij/codeInsight/daemon/impl/ShowIntentionsPass.java:150-158 | When none can throw, the scan finds a reason exactly when a bulb-enabled intention is available |
| ShowIntentions.IntentionsInfo.constructor | platform/lang-impl/src/com/intellij/codeInsight/daemon/impl/ShowIntentionsPass.java:58-62 | Four empty lists |
| ShowIntentions.IntentionsInfo.FilterActions | platform/lang-impl/src/com/intellij/codeInsight/daemon/impl/ShowIntentionsPass.java:64-69 | Each list keeps, in order, exactly the descriptors whose action the filter accepts |
| ShowIntentions.Filter | platform/lang-impl/src/com/intellij/codeInsight/daemon/impl/ShowIntentionsPass.java:71-77 | The loop removes exactly the rejected descriptors and keeps the order |
| ShowIntentions.GetActionsToShow | platform/lang-impl/src/com/intellij/codeInsight/daemon/impl/ShowIntentionsPass.java:175-238 | Appends the listed intentions, the fixes (to the error or inspection list by the severity at the caret) and the gutter entries; nothing else changes |
| ShowIntentions.AnyFixShowsBulb | platform/lang-impl/src/com/intellij/codeInsight/daemon/impl/ShowIntentionsPass.java:141-148 | True exactly when some error or inspection fix is bulb-enabled |
| ShowIntentions.AnyIntentionShowsBulb | platform/lang-impl/src/com/intellij/codeInsight/daemon/impl/ShowIntentionsPass.java:150-158 | True exactly when the scan finds an available bulb-enabled intention; an index-not-ready failure escapes |
| ShowIntentions.ShowIntentionsPass.constructor | platform/lang-impl/src/com/intellij/codeInsight/daemon/impl/ShowIntentionsPass.java:85-93 | No bulb and nothing to recreate |
| ShowIntentions.ShowIntentionsPass.DecideBulb | platform/lang-impl/src/com/intellij/codeInsight/daemon/impl/ShowIntentionsPass.java:140-172 | The bulb is shown when there is a reason and the last hint does not refuse; a hint that cannot update asks to recreate |
| ShowIntentions.ShowIntentionsPass.GetIntentionActionsToShow | platform/lang-impl/src/com/intellij/codeInsight/daemon/impl/ShowIntentionsPass.java:124-173 | Nothing changes while a lookup is active. Otherwise each of the four lists gains what is collected for it and is filtered by the file's filter, and the bulb is decided on the new lists unless they are all empty or the filter is null |
| ShowIntentions.BulbNeedsAReason | platform/lang-impl/src/com/intellij/codeInsight/daemon/impl/ShowIntentionsPass.java:140-158 | With no gutter entry and no bulb-enabled fix, only an available bulb-enabled intention shows the bulb |
| VisibleTreeState.CompareToOrdersByKey | platform/lang-impl/src/com/intellij/codeInspection/ex/VisibleTreeState.java:165-178 | compareTo orders by key, and states with equal keys compare equal unless both have scopes |
| VisibleTreeState.SameStatesAreEqual | platform/lang-impl/src/com/intellij/codeInspection/ex/VisibleTreeState.java:147-178 | States compareTo calls equal are equal by equals |
| VisibleTreeState.CompareToIsNotTransitive | platform/lang-impl/src/com/intellij/codeInspection/ex/VisibleTreeState.java:165-178 | Comparing equal is not transitive: a scope-less state equals two states whose scopes differ |
| VisibleTreeState.CompareToFixedIsAnOrder | platform/lang-impl/src/com/intellij/codeInspection/ex/VisibleTreeState.java:165-178 | The corrected comparison is zero exactly on equal (key, scope) pairs, antisymmetric and transitive |
| VisibleTreeState.CompareToFixedAgreesWithEquals | platform/lang-impl/src/com/intellij/codeInspection/ex/VisibleTreeState.java:147-178 | The corrected comparison never calls equal what equals calls distinct |
| VisibleTreeState.HashCodeAsWrittenBreaksEquals | platform/lang-impl/src/com/intellij/codeInspection/ex/VisibleTreeState.java:147-163 | A state and its descriptor-less twin are equal but hash differently |
| VisibleTreeState.HashCodeFixedAgreesWithEquals | platform/lang-impl/src/com/intellij/codeInspection/ex/VisibleTreeState.java:147-163 | Equal states get the same corrected hash |
| VisibleTreeState.AddContains | platform/lang-impl/src/com/intellij/codeInspection/ex/VisibleTreeState.java:40-42 | After adding, the state is contained and nothing else was added |
| VisibleTreeState.RemoveExcludes | platform/lang-impl/src/com/intellij/codeInspection/ex/VisibleTreeState.java:40-46 | After removing, nothing comparing equal is left and everything else stays |
| VisibleTreeState.AddAllContainsAll | platform/lang-impl/src/com/intellij/codeInspection/ex/VisibleTreeState.java:32-35 | After adding all, every added state is contained and nothing but old and added states is held |
| VisibleTreeState.VisitFindsNodes | platform/lang-impl/src/com/intellij/codeInspection/ex/VisibleTreeState.java:63-87 | Every visited path extends the start path and leads to a node carrying the visited state |
| VisibleTreeState.VisitStartsAtRoot | platform/lang-impl/src/com/intellij/codeInspection/ex/VisibleTreeState.java:63-87 | The walk visits the node itself first |
| VisibleTreeState.MatchingMembers | platform/lang-impl/src/com/intellij/codeInspection/ex/VisibleTreeState.java:63-87 | A path is collected exactly when some visit at it has a remembered state |
| VisibleTreeState.CollectedPathsAreRemembered | platform/lang-impl/src/com/intellij/codeInspection/ex/VisibleTreeState.java:48-87 | Every collected path leads to a tree node whose state is remembered |
| VisibleTreeState.MatchingVisit | platform/lang-impl/src/com/intellij/codeInspection/ex/VisibleTreeState.java:63-87 | At a node the walk collects its own path if remembered, then its children's |
| VisibleTreeState.RootCollectedIffRemembered | platform/lang-impl/src/com/intellij/codeInspection/ex/VisibleTreeState.java:48-87 | The root's path is collected exactly when its state is remembered, and then first |
| VisibleTreeState.VisibleTreeState.constructor | platform/lang-impl/src/com/intellij/codeInspection/ex/VisibleTreeState.java:26-38 | Both sets empty |
| VisibleTreeState.VisibleTreeState.Copy | platform/lang-impl/src/com/intellij/codeInspection/ex/VisibleTreeState.java:32-35 | Copies both sets of the source into sets of its own |
| VisibleTreeState.VisibleTreeState.ExpandNode | platform/lang-impl/src/com/intellij/codeInspection/ex/VisibleTreeState.java:40-42 | The title is remembered as expanded; the selection is untouched |
| VisibleTreeState.VisibleTreeState.CollapseNode | platform/lang-impl/src/com/intellij/codeInspection/ex/VisibleTreeState.java:44-46 | The title is forgotten; the selection is untouched |
| VisibleTreeState.VisibleTreeState.TraverseNodes | platform/lang-impl/src/com/intellij/codeInspection/ex/VisibleTreeState.java:63-87 | The preorder walk appends the paths of remembered nodes to the expand and select lists |
| VisibleTreeState.VisibleTreeState.TraverseChild | platform/lang-impl/src/com/intellij/codeInspection/ex/VisibleTreeState.java:84-86 | One turn of the loop over the children moves the paths of child i's subtree from the pending part to the lists, keeping the total |
| VisibleTreeState.VisibleTreeState.RestoreVisibleState | platform/lang-impl/src/com/intellij/codeInspection/ex/VisibleTreeState.java:48-61 | Paths to expand and select are the remembered nodes in preorder; with nothing to select, the first node is selected |
| VisibleTreeState.VisibleTreeState.SetSelectionPaths | platform/lang-impl/src/com/intellij/codeInspection/ex/VisibleTreeState.java:116-125 | The selection is cleared and refilled with the selected nodes' states; null leaves it empty |
| VisibleTreeState.VisibleTreeState.SaveVisibleState | platform/lang-impl/src/com/intellij/codeInspection/ex/VisibleTreeState.java:89-103 | The expanded set is refilled from the expanded nodes (none without an enumeration), then the selection |
| VisibleTreeState.AddStates | platform/lang-impl/src/com/intellij/codeInspection/ex/VisibleTreeState.java:89-125 | The loop adds each node's state in turn |
| IntroduceVariable.CorrectOffsetAsWrittenFailsAfterLeadingSemicolon | java/java-impl/src/com/intellij/refactoring/introduceVariable/IntroduceVariableBase.java:147-151 | For ";" with the caret at its end, the ';' step reads the character at -1 |
| IntroduceVariable.CorrectOffset | java/java-impl/src/com/intellij/refactoring/introduceVariable/IntroduceVariableBase.java:136-154 | The corrected offset is the original offset or lies within the text |
| IntroduceVariable.CorrectOffsetAgreesWhereDefined | java/java-impl/src/com/intellij/refactoring/introduceVariable/IntroduceVariableBase.java:136-154 | The corrected definition agrees with the code as written wherever that stays within the text |
| IntroduceVariable.CorrectOffsetSteps | java/java-impl/src/com/intellij/refactoring/introduceVariable/IntroduceVariableBase.java:141-154 | A caret after an identifier, or after `)` and ';', lands on that character |
| IntroduceVariable.CollectedMembers | java/java-impl/src/com/intellij/refactoring/introduceVariable/IntroduceVariableBase.java:165-175 | Exactly the offered ancestors are collected, none twice |
| IntroduceVariable.CollectedInChainOrder | java/java-impl/src/com/intellij/refactoring/introduceVariable/IntroduceVariableBase.java:165-175 | Inner expressions come before the expressions around them |
| IntroduceVariable.CollectExpressions | java/java-impl/src/com/intellij/refactoring/introduceVariable/IntroduceVariableBase.java:133-177 | The offset is corrected as CorrectOffset says, the corrected form of the source's correction, and the expressions collected are those offered along the ancestor chain of the element there |
| IntroduceVariable.SelectedText | java/java-impl/src/com/intellij/refactoring/introduceVariable/IntroduceVariableBase.java:248-292 | The quote fix-ups and prefix/suffix of a selection touching string literals, and the primitive check |
| IntroduceVariable.ReplacementText | java/java-impl/src/com/intellij/refactoring/introduceVariable/IntroduceVariableBase.java:640-660 | The parent's text before and after the range surrounds the reference, which starts right after the prefix |
| IntroduceVariable.CreateReplacement | java/java-impl/src/com/intellij/refactoring/introduceVariable/IntroduceVariableBase.java:640-660 | With a parent the text around the range is kept and the reference's start recorded; without one the reference text alone |
| IntroduceVariable.SplitLiteralReplacement | java/java-impl/src/com/intellij/refactoring/introduceVariable/IntroduceVariableBase.java:640-660 | A selection strictly inside a literal becomes the literal before it, the reference and the literal after it, joined with + |
| IntroduceVariable.SplitLiteralSelection | java/java-impl/src/com/intellij/refactoring/introduceVariable/IntroduceVariableBase.java:248-287 | That selection gets the prefix `" + ` and the suffix ` + "` |
| IntroduceVariable.SettingsAreConsistent | java/java-impl/src/com/intellij/refactoring/introduceVariable/IntroduceVariableBase.java:751-798 | The variable is never final when writes are replaced; replacing all means all or no-write occurrences |
| IntroduceVariable.Conflicts.constructor | java/java-impl/src/com/intellij/refactoring/introduceVariable/IntroduceVariableBase.java:829-847 | An empty conflict map |
| IntroduceVariable.Conflicts.PutValue | java/java-impl/src/com/intellij/refactoring/introduceVariable/IntroduceVariableBase.java:829-847 | The conflict is appended to the key's list; other keys untouched |
| IntroduceVariable.PutAllAppends | java/java-impl/src/com/intellij/refactoring/introduceVariable/IntroduceVariableBase.java:829-847 | Putting pairs appends to each key exactly its own conflicts in order |
| IntroduceVariable.OccurrenceConflicts | java/java-impl/src/com/intellij/refactoring/introduceVariable/IntroduceVariableBase.java:829-847 | The occurrence gets exactly one conflict when some referenced variable is modified in the loop, none otherwise |
| IntroduceVariable.UnmodifiedVariableNoConflict | java/java-impl/src/com/intellij/refactoring/introduceVariable/IntroduceVariableBase.java:829-847 | A variable the loop does not modify gets no conflict |
| IntroduceVariable.CheckInLoopCondition | java/java-impl/src/com/intellij/refactoring/introduceVariable/IntroduceVariableBase.java:829-847 | Nothing outside a loop condition; otherwise each modified variable gets a conflict, then the occurrence one if any did |
| MoveInstanceMethod.SuitableVariablesMembers | java/java-impl/src/com/intellij/refactoring/move/moveInstanceMethod/MoveInstanceMethodHandler.java:88-102 | The suitable variables are exactly the suitable candidates, in candidate order |
| MoveInstanceMethod.EmptySuitableAlwaysHasMessage | java/java-impl/src/com/intellij/refactoring/move/moveInstanceMethod/MoveInstanceMethodHandler.java:104-114 | There is a message exactly when no candidate is suitable, naming the first stage all of them failed |
| MoveInstanceMethod.ParametersComeFirst | java/java-impl/src/com/intellij/refactoring/move/moveInstanceMethod/MoveInstanceMethodHandler.java:82-84 | A suitable parameter is offered before any field |
| MoveInstanceMethod.DialogOnlyWithoutMessage | java/java-impl/src/com/intellij/refactoring/move/moveInstanceMethod/MoveInstanceMethodHandler.java:104-125 | The dialog opens only with suitable variables and when no stage refused |
| MoveInstanceMethod.ConstructorRefusedFirst | java/java-impl/src/com/intellij/refactoring/move/moveInstanceMethod/MoveInstanceMethodHandler.java:58-59 | A constructor is refused as a constructor, whatever else holds |
| MoveInstanceMethod.FindJspClass | java/java-impl/src/com/intellij/refactoring/move/moveInstanceMethod/MoveInstanceMethodHandler.java:69-77 | True exactly when some class reached through `this` is a JSP class |
| MoveInstanceMethod.CollectSuitable | java/java-impl/src/com/intellij/refactoring/move/moveInstanceMethod/MoveInstanceMethodHandler.java:88-102 | The suitable candidates in order, and for each stage whether some candidate passed it |
| MoveInstanceMethod.Invoke | java/java-impl/src/com/intellij/refactoring/move/moveInstanceMethod/MoveInstanceMethodHandler.java:54-126 | Nothing unless exactly one method is given; then the checks in order, the hints for a refusal, or the dialog with the suitable variables |
| MoveInstanceMethod.SuggestParameterNameForThisClass | java/java-impl/src/com/intellij/refactoring/move/moveInstanceMethod/MoveInstanceMethodHandler.java:128-134 | The first suggested name, or "" when there is none |
| MoveInstanceMethod.PutNewKeyAppends | java/java-impl/src/com/intellij/refactoring/move/moveInstanceMethod/MoveInstanceMethodHandler.java:136-146 | Putting a new key into the ordered map appends it |
| MoveInstanceMethod.KeptMembers | java/java-impl/src/com/intellij/refactoring/move/moveInstanceMethod/MoveInstanceMethodHandler.java:136-146 | Kept entries are exactly the classes not reached only through the target, each with its first suggestion |
| MoveInstanceMethod.SuggestedNamesAreKept | java/java-impl/src/com/intellij/refactoring/move/moveInstanceMethod/MoveInstanceMethodHandler.java:136-146 | With distinct keys the ordered map built is the reference list of kept entries |
| MoveInstanceMethod.SuggestParameterNames | java/java-impl/src/com/intellij/refactoring/move/moveInstanceMethod/MoveInstanceMethodHandler.java:136-146 | The loop with `continue` builds exactly the suggested names |
| JavaChainLookup.MaybeAddParentheses | java/java-impl/src/com/intellij/codeInsight/completion/JavaChainLookupElement.java:64-66 | "()" is appended exactly after a method qualifier's text |
| JavaChainLookup.LookupStringParts | java/java-impl/src/com/intellij/codeInsight/completion/JavaChainLookupElement.java:41-43 | The lookup string is the qualifier part, a dot, and the main string |
| JavaChainLookup.LookupStringDeterminesQualifier | java/java-impl/src/com/intellij/codeInsight/completion/JavaChainLookupElement.java:41-43 | With the same kind of qualifier and main string, lookup strings differ exactly when the qualifiers' strings do |
| JavaChainLookup.AllLookupStrings | java/java-impl/src/com/intellij/codeInsight/completion/JavaChainLookupElement.java:50-56 | The main element's strings plus the chain's own lookup string |
| JavaChainLookup.PresentedItemTextParts | java/java-impl/src/com/intellij/codeInsight/completion/JavaChainLookupElement.java:23-32 | The presentation ends with the base text after a dot, and a casting qualifier is parenthesized |
| JavaChainLookup.ComparableQualifier | java/java-impl/src/com/intellij/codeInsight/completion/JavaChainLookupElement.java:113-116 | The qualifier with a casting decorator stripped |
| JavaChainLookup.EqualsIsAnEquivalence | java/java-impl/src/com/intellij/codeInsight/completion/JavaChainLookupElement.java:119-130 | equals is an equivalence and hashCode agrees with it |
| JavaChainLookup.CastingIsIgnoredByEquals | java/java-impl/src/com/intellij/codeInsight/completion/JavaChainLookupElement.java:113-125 | A chain with a cast qualifier equals the chain without the cast |
| JavaChainLookup.FittingCount | java/java-impl/src/com/intellij/codeInsight/completion/JavaChainLookupElement.java:89-110 | How many elements from the start upward lie inside the range |
| JavaChainLookup.FirstExpressionFrom | java/java-impl/src/com/intellij/codeInsight/completion/JavaChainLookupElement.java:89-110 | The first expression from the index upward, or None |
| JavaChainLookup.ParenthesizeDecisionCases | java/java-impl/src/com/intellij/codeInsight/completion/JavaChainLookupElement.java:89-110 | No parentheses exactly when there is no element, or the expression around the qualifier lies in the range and is a reference or call |
| JavaChainLookup.FittingReferenceNeedsNoParentheses | java/java-impl/src/com/intellij/codeInsight/completion/JavaChainLookupElement.java:89-110 | A qualifier that is a whole reference or call in the range needs no parentheses |
| JavaChainLookup.ShouldParenthesizeQualifier | java/java-impl/src/com/intellij/codeInsight/completion/JavaChainLookupElement.java:89-110 | The climb and expression test decide as ParenthesizeDecision says |
| JavaChainLookup.Document.constructor | java/java-impl/src/com/intellij/codeInsight/completion/JavaChainLookupElement.java:69-87 | A document holding the text |
| JavaChainLookup.Document.ReplaceString | java/java-impl/src/com/intellij/codeInsight/completion/JavaChainLookupElement.java:73 | The range is replaced by the string |
| JavaChainLookup.Document.InsertString | java/java-impl/src/com/intellij/codeInsight/completion/JavaChainLookupElement.java:76-84 | The string is inserted at the offset |
| JavaChainLookup.InsertQualifier | java/java-impl/src/com/intellij/codeInsight/completion/JavaChainLookupElement.java:74-80 | The qualifier text, parenthesized with the optional spaces when needed, is inserted at the start |
| JavaChainLookup.Parenthesize | java/java-impl/src/com/intellij/codeInsight/completion/JavaChainLookupElement.java:76-80 | "(" and ")" (with the optional spaces) enclose the text between the offsets |
| JavaChainLookup.HandleInsert | java/java-impl/src/com/intellij/codeInsight/completion/JavaChainLookupElement.java:69-87 | The final document is the text before the start, the qualifier insertion, a dot, the main text, and the text from the tail on |
| IntentionSettings.ContainsIgnoreCaseIsContainsOfLower | platform/lang-impl/src/com/intellij/codeInsight/intention/impl/config/IntentionSettingsPanel.java:136-143 | containsIgnoreCase holds exactly when the lower-cased word occurs in the lower-cased string |
| IntentionSettings.CaseIsIgnored | platform/lang-impl/src/com/intellij/codeInsight/intention/impl/config/IntentionSettingsPanel.java:136-143 | Lower-casing the string or the word never changes whether the word is contained, ignoring case |
| IntentionSettings.IsIntentionAccepted | platform/lang-impl/src/com/intellij/codeInsight/intention/impl/config/IntentionSettingsPanel.java:134-178 | An intention whose family or a category contains the filter is accepted |
| IntentionSettings.QuotedDecisionUnforced | platform/lang-impl/src/com/intellij/codeInsight/intention/impl/config/IntentionSettingsPanel.java:144-163 | An unforced quoted-word search accepts as soon as one word occurs in names or description, and never rejects |
| IntentionSettings.ForcedDescriptionNeverAccepts | platform/lang-impl/src/com/intellij/codeInsight/intention/impl/config/IntentionSettingsPanel.java:144-163 | A forced quoted-word search accepts only through a name |
| IntentionSettings.ForcedDescriptionMissRejects | platform/lang-impl/src/com/intellij/codeInsight/intention/impl/config/IntentionSettingsPanel.java:153-163 | A forced search rejects at a text description lacking any quoted word, when neither it nor an earlier word occurs in the names |
| IntentionSettings.QuotedDecisionForced | platform/lang-impl/src/com/intellij/codeInsight/intention/impl/config/IntentionSettingsPanel.java:144-163 | With no quoted word in the names, a forced search rejects exactly when the description is text and lacks some quoted word, and falls through otherwise |
| IntentionSettings.KeySetDecisionUnforced | platform/lang-impl/src/com/intellij/codeInsight/intention/impl/config/IntentionSettingsPanel.java:165-176 | An unforced key-set search accepts when some key set holds the family, and never rejects |
| IntentionSettings.KeySetDecisionForced | platform/lang-impl/src/com/intellij/codeInsight/intention/impl/config/IntentionSettingsPanel.java:165-176 | A forced key-set search rejects when some key set lacks the family, and falls through otherwise |
| IntentionSettings.UnforcedAcceptance | platform/lang-impl/src/com/intellij/codeInsight/intention/impl/config/IntentionSettingsPanel.java:134-178 | An unforced search accepts exactly when the filter, a quoted word or a key set matches |
| IntentionSettings.ForcedKeySetAcceptance | platform/lang-impl/src/com/intellij/codeInsight/intention/impl/config/IntentionSettingsPanel.java:165-177 | Past the quoted words, a forced search accepts exactly when every key set holds the family |
| IntentionSettings.AcceptedOfMembers | platform/lang-impl/src/com/intellij/codeInsight/intention/impl/config/IntentionSettingsPanel.java:56-60 | One pass keeps exactly the accepted intentions |
| IntentionSettings.AcceptedOfAppend | platform/lang-impl/src/com/intellij/codeInsight/intention/impl/config/IntentionSettingsPanel.java:56-60 | One pass keeps list order |
| IntentionSettings.FilterModelIsASublist | platform/lang-impl/src/com/intellij/codeInsight/intention/impl/config/IntentionSettingsPanel.java:50-68 | No filter keeps the whole list; otherwise the result keeps order and holds exactly the accepted intentions, retried unforced when forced finds none |
| IntentionSettings.FilterModel | platform/lang-impl/src/com/intellij/codeInsight/intention/impl/config/IntentionSettingsPanel.java:50-68 | The loop and the retry return FilterModelResult |
| SwitchManagerModel.OtherCodesContributeNothing | platform/platform-api/src/com/intellij/ui/switcher/SwitchManager.java:146-167 | Codes other than the four modifier keys contribute nothing to the mask |
| SwitchManagerModel.MaskBitsAreTheConfiguredKeys | platform/platform-api/src/com/intellij/ui/switcher/SwitchManager.java:146-167 | Each configured modifier key sets its own bit and only configured ones do |
| SwitchManagerModel.AddModifierBit | platform/platform-api/src/com/intellij/ui/switcher/SwitchManager.java:149-163 | One pass of the loop body ors in the bit of the visited key code, or nothing for any other code |
| SwitchManagerModel.AreAllModifiersPressed | platform/platform-api/src/com/intellij/ui/switcher/SwitchManager.java:146-167 | True exactly when the modifiers equal the mask of the configured keys |
| SwitchManagerModel.DispatchIgnoredWhenDisabledOrActive | platform/platform-api/src/com/intellij/ui/switcher/SwitchManager.java:79-125 | Disabled, or with a session under way, nothing happens |
| SwitchManagerModel.DispatchCancels | platform/platform-api/src/com/intellij/ui/switcher/SwitchManager.java:79-125 | A release, a typed key, or a press of a non-modifier cancels a pending start |
| SwitchManagerModel.DispatchArms | platform/platform-api/src/com/intellij/ui/switcher/SwitchManager.java:79-125 | Pressing a configured modifier with exactly the configured modifiers held arms the start and schedules it once |
| SwitchManagerModel.DispatchKeepsSession | platform/platform-api/src/com/intellij/ui/switcher/SwitchManager.java:79-125 | The key dispatcher never starts, ends or disposes a session itself |
| SwitchManagerModel.InitSessionReplaces | platform/platform-api/src/com/intellij/ui/switcher/SwitchManager.java:188-194 | Starting a session stops waiting, disposes the previous one without fading, and installs the new one |
| SwitchManagerModel.DisposeLeavesNoSession | platform/platform-api/src/com/intellij/ui/switcher/SwitchManager.java:196-202 | Disposing leaves no session, and does nothing when there is none |
| SwitchManagerModel.AutoInitStartsOnlyWhenArmed | platform/platform-api/src/com/intellij/ui/switcher/SwitchManager.java:104-138 | An automatic start happens exactly while waiting, with no session under way and a provider at the focus. It starts a session for that provider from the recorded key event, with no spots and not finished, and stops waiting; otherwise nothing changes |
| SwitchManagerModel.SwitchManager.constructor | platform/platform-api/src/com/intellij/ui/switcher/SwitchManager.java:54-65 | No session, not waiting, nothing fading away |
| SwitchManagerModel.SwitchManager.IsSessionActive | platform/platform-api/src/com/intellij/ui/switcher/SwitchManager.java:215-217 | A session exists and is not finished |
| SwitchManagerModel.SwitchManager.CanApplySwitch | platform/platform-api/src/com/intellij/ui/switcher/SwitchManager.java:244-246 | An active session whose selection was moved |
| SwitchManagerModel.SwitchManager.CancelWaitingForAutoInit | platform/platform-api/src/com/intellij/ui/switcher/SwitchManager.java:140-143 | Stops waiting and cancels the pending alarm requests; the recorded key event stays |
| SwitchManagerModel.SwitchManager.DisposeCurrentSession | platform/platform-api/src/com/intellij/ui/switcher/SwitchManager.java:196-202 | The state becomes DisposeCurrent of the old state |
| SwitchManagerModel.SwitchManager.InitSession | platform/platform-api/src/com/intellij/ui/switcher/SwitchManager.java:188-194 | The state becomes SessionStarted of the old state |
| SwitchManagerModel.SwitchManager.BeforeActionPerformed | platform/platform-api/src/com/intellij/ui/switcher/SwitchManager.java:67-71 | An action other than a switch action disposes the session; a switch action changes nothing |
| SwitchManagerModel.SwitchManager.DispatchKeyEvent | platform/platform-api/src/com/intellij/ui/switcher/SwitchManager.java:79-125 | The event is never consumed and the state becomes KeyEventEffect of the old state |
| SwitchManagerModel.SwitchManager.FocusSettled | platform/platform-api/src/com/intellij/ui/switcher/SwitchManager.java:104-138 | The state becomes AutoInit of the old state: while waiting, with no active session and a provider at the focus, that provider's session starts from the recorded key event with no spots shown; otherwise nothing changes |
| SwitchManagerModel.SwitchManager.ApplySwitch | platform/platform-api/src/com/intellij/ui/switcher/SwitchManager.java:219-242 | Done at once exactly when no session is active |
| SwitchManagerModel.SwitchManager.AddFadingAway | platform/platform-api/src/com/intellij/ui/switcher/SwitchManager.java:253-255 | The session joins the fading set |
| SwitchManagerModel.SwitchManager.RemoveFadingAway | platform/platform-api/src/com/intellij/ui/switcher/SwitchManager.java:257-259 | The session leaves the fading set |

## Left out

- MapIndexStorage: the SLRU cache's own eviction policy is not modelled. Eviction is an explicit `Evict`, and `clear` of the cache drops every entry through `onDropFromCache`.
- MapIndexStorage: the byte encoding (SINT integers and the value externalizer) is abstracted into value and integer tokens.
- MapIndexStorage: the change-tracking container is a value with initial, added and removed pairs. Its lazy loading is not modelled.
- MapIndexStorage: I/O failures of the persistent map are not modelled; only their translation (`ReportFailure`) is.
- MapIndexStorage.ReportFailure: a message is a token carried over from the cause; the class-name prefix that the cause's toString adds is not modelled.
- MapIndexStorage: the null id-iterator branch of `saveImpl` is left out, because a container always has ids for its values.
- MapIndexStorage.MapIndexStorage.AddValue: requires a positive input id. A removed id 0 cannot be told apart from an added one in the stream, since -0 == 0.
- MapIndexStorage.MapIndexStorage.RemoveValue: requires a positive input id as well, for the same reason.
- MapIndexStorage.MapIndexStorage.ProcessKeys: does not model the processor stopping early; all keys are enumerated.
- MapIndexStorage: a closed map is still readable in the model.
- CopyHandler: `updateSelectionInActiveProjectView` is a UI call and is left out.
- FileColorConfiguration: the XML element is a value with attributes and children; element ordering beyond appending is not modelled.
- CanonicalTypes: `getType` needs the PSI element factory and is left out.
- CanonicalTypes: a substitutor is a list of (name, type) entries with distinct names standing for the HashMap. The list keeps the order of first puts, where the HashMap's iteration order is unspecified; that order only decides the order in which imports are added.
- CanonicalTypes: the short-class-name helper is a parameter.
- PsiCodeFragment: `nonPhysicalChange` and the undo manager's registration are left out; the undo action is returned.
- PsiCodeFragment: `processImplicitlyImportedPackages` and `walkChildrenScopes` are not modelled.
- PsiCodeFragment.PsiCodeFragment.ProcessPseudoImports: the processor's ElementClassHint is reduced to one flag saying whether it accepts classes.
- EnumConstantElement: the doc comment is the first doc-comment child.
- TypeParameterList.AddInsideKeepsWellFormed: stated on lists of significant children only; AddKeepsWellFormed carries it to lists with white space and comments through SignificantOfInsertAndFix.
- TypeParameterList.DeleteBeforeComma: stated on lists of significant children only, where the comma is the next child; with white space or comments between them the comma is the next significant child, which SignificantOfDeleteWithSeparator covers.
- TypeParameterList.DeleteLastOfSeveral: stated on lists of significant children only; SignificantOfDeleteWithSeparator covers lists with white space and comments.
- TypeParameterList.DeleteInSignificantList: stated on lists of significant children only; DeleteKeepsWellFormed is the statement for lists with white space and comments.
- TypeParameterList.AddKeepsWellFormed: an anchor outside the brackets is not covered, because adding there does not keep the list well formed.
- TypeParameterList.TypeParameterListElement.AddInternal: an anchor needs an explicit direction, because the superclass's choice for a null direction is not part of this model.
- LeafPatcher: escapers are given as functions, one per shred. The tree walk over all leaves is not modelled: `VisitLeaf` is called per leaf. Leaves are identified by number, and the unescaped text of a leaf without PSI is not stored.
- LanguageConsole: trimming of the cyclic history buffer is not modelled. Range markers do not move after an erase.
- LanguageConsole: panel layout, sizes and scrolling are left out.
- LanguageConsole: the lexer's tokens and the iterator's start token are parameters.
- LanguageConsole: assertions are taken as enabled in `setUiUpdateRunnable`.
- ShowIntentions: `doCollectInformation` and `doApplyInformationToEditor` (showing the hint) are left out. The availability answers and the light-bulb setting are parameters. The gutter adapter's `invoke` and icon are not modelled.
- VisibleTreeState: the TreeSet is a sequence whose membership is "compares equal". Remove drops every element comparing equal to the argument.
- VisibleTreeState: keys are never null, and the tree UI is left out.
- VisibleTreeState.JavaCompare: compares Dafny chars, which are Unicode scalar values, where Java compares UTF-16 code units; strings with characters outside the Basic Multilingual Plane can order differently.
- JavaLang.StringHashCode: hashes Dafny chars, which are Unicode scalar values, where Java hashes UTF-16 code units; a string with characters outside the Basic Multilingual Plane hashes differently. The same holds for the state hash codes of VisibleTreeState, which use it.
- IntroduceVariable: the PSI search of `getSelectedExpression` is left out (element lookup, common parent, parsing the text). `createExpressionFromText` is taken to give its text.
- IntroduceVariable: `invokeImpl`, `introduce` and `putStatementInLoopBody` are not modelled.
- IntroduceVariable: the library predicates are parameters.
- IntroduceVariable.CollectExpressions: uses the corrected offset (CorrectOffset). For ";" with the caret at its end the source reads `charAt(-1)` and throws StringIndexOutOfBoundsException (IntroduceVariableBase.java:147-151, see "## Findings"); the method goes on collecting instead.
- MoveInstanceMethod: the type-parameter search of a method body is the `usesTypeParameters` flag. The class-resolution and inheritance queries are inputs. The dialog and error-hint UI are left out.
- JavaChainLookup: `toString`, `getType` and the feature-usage tracker are left out.
- JavaChainLookup: the casting decorator's own rendering is taken as given, and the decorator's `super.equals` is taken as equality of the decorated element.
- JavaChainLookup: inserting the qualifier and main elements is taken as inserting their text. Range-marker offsets are computed explicitly, and the PSI ancestors are a sequence.
- IntentionSettings: `containsIgnoreCase` folds ASCII letters only.
- IntentionSettings: the key sets found for the filter, the processed-word count and the quoted words (in the hash set's iteration order) are parameters. The tree and UI are left out.
- SwitchManagerModel: the asynchronous branch of `applySwitch` (the session's finish and its continuation) is left out.
- SwitchManagerModel: alarm and focus requests are only counted. The focus callback's effect is the separate `FocusSettled`.
- SwitchManagerModel: `isSelectionWasMoved` is identical to `canApplySwitch` and is not modelled separately.
- SwitchManagerModel: the session's dispose and fading are recorded in a list.
- SwitchManagerModel: the focus owner's switch provider is a parameter.
- SwitchManagerModel: `initComponent`, `disposeComponent` and `getInstance` are left out.

## Findings

| source | as written | input that shows it | evidently intended | confidence | as-written member | corrected member |
|---|---|---|---|---|---|---|
| java/java-impl/src/com/intellij/refactoring/introduceVariable/IntroduceVariableBase.java:147-151 | after stepping back over a ';', the code reads `text.charAt(correctedOffset)` with no bounds check | document ";" with the caret at offset 1: the offset becomes 0, the ';' step makes it -1, and `charAt(-1)` throws | fall back to the original offset when the step leaves the text | not executed | IntroduceVariable.CorrectOffsetAsWrittenFailsAfterLeadingSemicolon | IntroduceVariable.CorrectOffsetAgreesWhereDefined |
| platform/lang-impl/src/com/intellij/codeInspection/ex/VisibleTreeState.java:158-163 | hashCode mixes in the descriptor's hash, but equals compares keys only | a state with a descriptor and a state with the same key and none are equal, yet hash differently | hash the key only | not executed | VisibleTreeState.HashCodeAsWrittenBreaksEquals | VisibleTreeState.HashCodeFixedAgreesWithEquals |
| platform/lang-impl/src/com/intellij/codeInspection/ex/VisibleTreeState.java:165-178 | compareTo consults scope names only when both states have scopes | a scope-less state with key k compares equal to two states with key k and scopes "a" and "b", which compare unequal to each other | a total order on (key, scope name) with a missing scope first | not executed | VisibleTreeState.CompareToIsNotTransitive | VisibleTreeState.CompareToFixedIsAnOrder |
