# portage-utils, modelled in Dafny

A model of the parts of portage-utils that everything else rests on, with proofs of what they are for.

- **Atoms** (`CStrings`, `Atom`, `AtomExplode`, `AtomWidth`, `AtomRoundTrip`, `AtomFiles`): the parser that cuts an
  atom out of a buffer stage by stage, the printer, the round trip between them, and package file names.
- **Version order** (`AtomCompare`, `AtomOrder`, `AtomPms`, `AtomPadded`, `AtomMatch`, `AtomQuery`): the comparison of
  two atoms, the classes of versions on which it is an order, its relation to section 3.3 of the Package Manager
  Specification, what operators, slots, globs and blockers match, and the inputs on which it is not an order.
- **Dependency strings** (`Dep`, `DepGrow`, `DepNodes`, `DepRoundTrip`, `DepMeaning`, `DepResolved`, `DepAccepts`): the
  tokeniser and stack parser that build a tree on the heap, what they accept, printing, USE pruning, flattening and
  resolving, and how they fit together.
- **Package tree cache** (`Arrays`, `TreeQuery`, `TreeMeaning`, `TreeCache`, `TreeMatch`): the growable array with its
  sorted flag, the lazily filled cache of a VDB, and the lookup built on it.
- **Hash set and map, USE stacking** (`HashTable`, `Stacking`): the chained table and the variables stacked with it.
- **Binary packages** (`Bytes`, `Xpak`, `XpakRead`, `Tbz2`): writing and reading the xpak container, and joining and
  splitting tbz2 files.
- **CONTENTS** (`Contents`, `Qcheck`, `QcheckRepair`): reading and writing the lines, the check of installed files, and
  the convergence of repair.
- **Context lines** (`Grep`, `GrepRing`): the ring of line buffers behind `qgrep -A` and `-B`.

Each part has the program's own form (loops, heap nodes, fields changed in place) proved against a function on values,
and theorems about that function. A C string is the sequence of its characters before the terminator; a position past a
cut is modelled by reassigning the shorter string. Directories, files and the results of searches and digests are
parameters: fixed maps, byte sequences and functions.

Where the program does not do what one would expect, the model follows the program, and a lemma says so:

- A USE dependency with `(-)` is stored as `(+)`, and a letter of a version-like stretch inside the name is kept for a
  version without a letter (`AtomRoundTrip.RoundTripIff`, `AtomRoundTrip.VersionFound`).
- A text that holds a file extension anywhere is cut off there, also in a slot `1.tbz2` or a category `dev.ebuild`
  (`AtomRoundTrip.ExplodeOfPrinted`).
- The single number that is the version of a binary package without build-id is taken for the build-id when the name
  holds a hyphen before a digit, as in `font-100dpi-1.xpak` (`AtomFiles.InstanceWithoutId`).
- A blocked query without a version matches everything (`AtomMatch.BlockedNameMatches`), and the sort callback is not
  antisymmetric between atoms with and without a category (`AtomOrder.NoCategory`).
- Components after the first of which one is zero-led are compared one character short: 1.0 equals 1.100, so the order is
  not transitive (`AtomPadded.HundredNotTransitive`, `AtomOrder.PaddedNotTransitive`), and a letter or an underscore
  counts as larger than a digit. `AtomPadded` says exactly when a component, the numbers and the whole version still
  compare as the specification says, and when three versions are still in order.
- Build-ids count only where both atoms have one (`AtomOrder.CompareChainedIff`).
- The stored number of `_p` is the terminator's (`AtomPms.SuffixesAgreeIff`, `AtomPms.PatchMissed`).
- A package whose name holds a version to the parser (`foo-1-2`, or `foo-2-bar`, which the specification allows) is
  reported by a query for it until its category is cached, and never in a sorted answer (`TreeQuery.FoundByNameIff`,
  `TreeCache.Transparent`).
- `qgrep -B 127` gets one line buffer instead of 128 where char is signed (`GrepRing.LimitRing`, `Grep.LimitFails`).
- Words that start with `$` are ignored when stacking, and a flag whose name starts with a hyphen can only be taken out
  (`Stacking.SetincrVar`).
- Update mode of the check does not write entries that are missing or whose digest is of no known length, nor lines that
  are no entries (`Qcheck.QcheckCb`). It writes `(null)` for a digest that an entry does not have, and the next update
  drops the line for it (`QcheckRepair.DigestLost`).

## Model

| member | source | states |
|---|---|---|
| AtomExplode.ExplodeCat | libq/atom.c:74-492 | The in-place parser computes `Atom.Explode`: blocker, operator, file extension, repository, USE list, slot, glob, category, build-id, name, version, letter, revision and suffixes |
| AtomExplode.ParseUse | libq/atom.c:208-279 | The loop over the bracketed USE list fills in the entries in order, splitting at the commas |
| AtomExplode.ParseUseOne | libq/atom.c:215-275 | One USE dependency: prefix, name up to the first suffix mark, and the last suffix mark seen |
| AtomExplode.StripExtension | libq/atom.c:160-196 | Cutting a file extension, and the build-id before an .xpak or .gpkg.tar when a version stands before it |
| AtomExplode.FindVersion | libq/atom.c:384-414 | The walk over the hyphens ends at the last one that starts a version, with the letter it leaves |
| AtomExplode.FindRevision | libq/atom.c:428-445 | The backward walk finds `-r` and digits at the end of the version, and nothing else |
| AtomExplode.CollectSuffixes | libq/atom.c:453-481 | The walk over PV from the back collects its suffixes in reverse order |
| AtomExplode.ReverseSuffixes | libq/atom.c:482-489 | The in-place swap loop reverses the collected suffixes |
| AtomExplode.FillFromPf | libq/atom.c:384-491 | PN, PV, P, PVR, revision, letter and suffixes from PF |
| AtomWidth.ExplodedWidth | libq/atom.c:74-492 | No atom prints longer than the text it was parsed from, and one whose text held a file extension prints shorter |
| AtomRoundTrip.ExplodeOfPrinted | libq/atom.c:74-492 | The parser on the printed string of any well-formed record gives every part back, and for name and version what the scan makes of PF; with a file extension anywhere in it the result prints shorter |
| AtomRoundTrip.ExplodeOfToString | libq/atom.c:74-492 | The record comes back, `(-)` read as `(+)`, if and only if nothing in it looks like a package file name and the name does not mislead the scan: a name alone holds no version-like stretch, and a name before a version leaves no letter to a version without one |
| AtomRoundTrip.RoundTripIff | libq/atom.c:248-260 | The round trip is exact if and only if moreover no USE dependency carries `(-)` |
| AtomRoundTrip.UseListRead | libq/atom.c:1351-1392 | A printed USE list is split back into its entries, for any number of entries |
| AtomRoundTrip.SlotTextRead | libq/atom.c:281-316 | A printed slot, sub-slot and slot operator are read back |
| AtomRoundTrip.VersionFound | libq/atom.c:384-414 | In name-version-revision the version starts after the name, whatever hyphens the name has; its letter is its own, or else the one that the last candidate inside the name has left |
| AtomRoundTrip.NameScanned | libq/atom.c:384-414 | The scan of NAME-REST is the scan of NAME continued at the hyphen |
| AtomRoundTrip.FillNameOnly | libq/atom.c:384-425 | A name alone is read as a name if and only if the scan finds no version in it; otherwise the name read is shorter |
| AtomRoundTrip.RevisionRead | libq/atom.c:428-451 | A printed revision is read back with its number, and the version is what stands before it |
| AtomRoundTrip.BuildIdRead | libq/atom.c:366-374 | A printed build-id is read back and cut off |
| AtomRoundTrip.CategoryRead | libq/atom.c:326-346 | Category and package text are split at the last slash |
| AtomRoundTrip.OperatorTable | libq/atom.c:112-153 | The operators and blockers as they are written; `~=` is none of them and is stored as a star |
| AtomFiles.InstanceRead | libq/atom.c:160-196 | name-version-revision-id.xpak and .gpkg.tar, in any category, read as the record with that build-id |
| AtomFiles.InstanceWithoutId | libq/atom.c:160-196 | Without a build-id they read as the record with none, if and only if not both the version is a single number without revision and the name holds a hyphen before a digit; then the version is taken for the build-id and what stands before it is read |
| AtomFiles.PlainFileRead | libq/atom.c:160-168 | name-version-revision.ebuild and .tbz2 read as the record of the text in front |
| AtomCompare.AtomCompareFlg | libq/atom.c:675-1320 | The pointer walk over two atoms computes `AtomCompare.Compare` for every operator, glob, blocker, slot, repository and flag, ATOM_COMP_EXACT included |
| AtomCompare.CompareNumbers | libq/atom.c:1045-1174 | The loop over the dotted components gives the verdict of the first pair that differs, of the shorter version, or of an open glob |
| AtomCompare.CompareComponent | libq/atom.c:1057-1129 | One pair of components, as integers or as strings without trailing zeros |
| AtomCompare.CompareVersion | libq/atom.c:964-1278 | Numbers, letter and suffixes with the bits that say how much of the version a glob fixes |
| AtomCompare.FindSuffixStop | libq/atom.c:1241-1255 | Where the walk over two suffix lists stops |
| AtomOrder.NumbersAreLex | libq/atom.c:1045-1174 | Inside a version class the walk is the lexicographic order of the component values |
| AtomOrder.CompareAsSigns | libq/atom.c:1045-1319 | Inside a package `atom_compare` is decided by the walk over the numbers, then letter, suffixes, revision, and the build-ids where both atoms have one |
| AtomOrder.CompareIsVersionSign | libq/atom.c:980-1319 | For atoms of a version class `atom_compare` is NOT_EQUAL across packages, and inside one the order by numbers, letter, suffixes, revision and build-id |
| AtomOrder.CompareSwap | libq/atom.c:775-1320 | Antisymmetry, and totality per category and name, for any two versions |
| AtomOrder.CompareTransitive | libq/atom.c:775-1320 | Transitivity per category and name, strict when one of the steps is strict |
| AtomOrder.CallbackIsSortSign | libq/atom.c:1648-1690 | `atom_compar_cb` sorts by category, then name, then newest version first, whatever the versions |
| AtomOrder.CallbackConsistent | libq/atom.c:1648-1690 | The callback is a consistent total preorder, as qsort and the binary search need it, if and only if the verdicts inside each package are transitive; packages of different names need nothing in common |
| AtomOrder.TransitiveInClass | libq/atom.c:775-1320 | Within a package that keeps to one version class they are, unless two of three build-ids of a release differ and the third atom has none |
| AtomOrder.NoCategory | libq/atom.c:1648-1690 | Atoms without a category sort before all others, but the others compare with them by name and version, so that the callback is not antisymmetric there |
| AtomOrder.LastPlaceIgnored | libq/atom.c:1095-1107 | Two zero-led components that differ only in their last place compare equal: the string comparison stops one character early |
| AtomOrder.PaddedNumbers | libq/atom.c:1095-1107 | 1.011 = 1.012 and 1.012 = 1.0121, but 1.011 < 1.0121 |
| AtomOrder.PaddedNotTransitive | libq/atom.c:1095-1107 | So `atom_compare` is not transitive outside the version classes |
| AtomOrder.MixedBuildIdsNotTransitive | libq/atom.c:1298-1318 | Nor when only some of the atoms carry a build-id |
| AtomOrder.CompareChainedIff | libq/atom.c:1298-1318 | On three atoms of one package and a version class the verdicts are transitive if and only if it is not the case that all three are of one release, exactly two have a build-id, and those two differ |
| AtomPadded.ComponentReads | libq/atom.c:1072-1128 | What the comparison of two later components comes to, on their digits and what follows them: another number, a letter, a suffix or the end |
| AtomPadded.ComponentAgreesIff | libq/atom.c:1072-1128 | It gives the verdict of Algorithm 3.3 if and only if the difference is not `Missed`, which is decided by the digits, the places compared and the character behind the shorter number |
| AtomPadded.LongAgreesIff | libq/atom.c:1095-1108 | The same for the branch that compares as strings |
| AtomPadded.ShortAgreesIff | libq/atom.c:1109-1118 | The same for components of at most two characters |
| AtomPadded.UnderscoreMisleads | libq/atom.c:1077-1108 | Before a suffix the comparison can be reversed: 1.0_alpha against 1.002 |
| AtomPadded.LetterMisleads | libq/atom.c:1077-1108 | Before a letter it can show a difference where there is none: 1.0a against 1.00b |
| AtomPadded.NumbersRead | libq/atom.c:1045-1174 | The walk over the text of two versions, on their numbers |
| AtomPadded.NumbersAgreeIff | libq/atom.c:1045-1174 | The walk gives the verdict of Algorithm 3.2, zero-led components included, if and only if the first numbers differ, or the first later pair that is decided is not missed, or what comes behind it makes up for it |
| AtomPadded.AllCompareIsPms | libq/atom.c:993-1319 | Any two versions, exploded from their strings, compare as Algorithm 3.1 says if and only if the numbers agree and so does the rest, or one hides the other's failure (`VersionsAgree`) |
| AtomPadded.PmsLaterChained | libq/atom.c:1045-1174 | Algorithm 3.2 itself is antisymmetric and transitive on all lists of components |
| AtomPadded.PairAgreesIff | libq/atom.c:1045-1319 | When the verdict on a pair of versions is that of the numbers as the specification compares them, then letter, stored suffixes and revision |
| AtomPadded.PaddedTransitiveIff | libq/atom.c:1045-1319 | Where the verdicts on two of three versions against the third are right, the three are compared transitively if and only if the verdict on these two is right, or the third is older than both or newer than both |
| AtomPadded.AgreeingTransitive | libq/atom.c:1045-1319 | In particular versions whose numbers agree with the specification pair by pair are, leading zeros or not |
| AtomPadded.HundredNotTransitive | libq/atom.c:1095-1107 | 1.0 is older than 1.1 and 1.1 older than 1.100, but 1.0 equals 1.100 |
| AtomQuery.OpenNumbers | libq/atom.c:1131-1136 | A glob right after the numbers matches when the query's numbers are a prefix |
| AtomQuery.GlobMatchesPrefixes | libq/atom.c:1049-1195 | `=PN-V*` matches exactly the versions of PN whose components start with those of V |
| AtomQuery.BlockedComplement | libq/atom.c:645-673 | For `<`, `<=`, `>`, `>=` a blocked query matches exactly the versions of the package that the plain query rejects |
| AtomQuery.BlockedComplementIff | libq/atom.c:892-962 | For any package the two are complementary if and only if it is the query's package or its version satisfies the inverted operator |
| AtomQuery.ExactIsEquality | libq/atom.c:675-768 | The exact comparison of two parsed atoms decides their equality in everything but the USE dependencies, a sub-slot that is the slot being the same whether written or not |
| AtomQuery.ImpliedSubslot | libq/atom.c:314-316 | a/b:0 and a/b:0/0 are two records that it takes as the same |
| AtomPms.AtomOfExploded | libq/atom.c:453-489 | Exploding the string of a PMS version gives the record with its components; the suffixes are collected from the back and reversed |
| AtomPms.StoredSuffixes | libq/atom.c:453-489 | The suffixes collected from PV are those of the version, in order, as stored |
| AtomPms.SuffixesAgreeIff | libq/atom.c:1201-1279 | Comparing stored suffix lists agrees with Algorithms 3.5 and 3.6 if and only if what the terminator hides of the two lists makes no difference |
| AtomPms.PatchMissed | libq/atom.h:14-21 | `_p` shares the terminator's number: `_p0` equals no suffix at all, and nothing after a shared `_p1` is compared |
| AtomPms.RecordsCompare | libq/atom.c:1045-1319 | Two versions without zero-led later components compare by numbers, letter, stored suffixes and revision |
| AtomPms.ExplodedCompareIsPms | libq/atom.c:993-1319 | Versions without zero-led later components, exploded from their strings, compare as Algorithm 3.1 of section 3.3 of the Package Manager Specification says if and only if numbers or letters decide, the suffixes are visible, or the revisions give the verdict that the suffixes should |
| AtomPms.ExplodedCompareWithoutPatch | libq/atom.c:993-1319 | In particular for all versions whose suffixes are among `_alpha`, `_beta`, `_pre`, `_rc` |
| AtomMatch.OperatorMatches | libq/atom.c:646-673 | Of one package, `>`, `>=`, `=`, `<=`, `<` and `~` match exactly the versions that are newer, not older, the same, not newer, older, and the same but for revision and build-id |
| AtomMatch.BlockedMatches | libq/atom.c:868-890 | A blocker turns the order operators round; `=` and `~` match nothing then |
| AtomMatch.SignInClass | libq/atom.c:980-1319 | The order is that of numbers, letter, suffixes, revision and build-id in a version class |
| AtomMatch.OperatorsArePms | libq/atom.c:646-1319 | and that of Algorithm 3.1 on versions which compare as the specification says |
| AtomMatch.SlotMatches | libq/atom.c:793-866 | A query :s matches the slot with any sub-slot, :s/u that sub-slot only, no slot any: the table of the source, for all slots and sub-slots |
| AtomMatch.AntiSlotMatches | libq/atom.c:819-841 | `^` matches whatever has a slot, `^:s` the other slots, `^:s/u` the other sub-slots of the slot |
| AtomMatch.SlotFlags | libq/atom.c:787-866 | Leaving out slots or sub-slots is comparing without them |
| AtomMatch.RepoMatches | libq/atom.c:892-900 | A query for a repository matches only there, blocked or not |
| AtomMatch.NameMatches | libq/atom.c:902-944 | A query without a version matches all versions of the package, name or category that it names |
| AtomMatch.BlockedNameMatches | libq/atom.c:902-944 | A blocked query without a version matches every package |
| AtomMatch.GlobMatches | libq/atom.c:946-1278 | A glob behind a letter matches the versions with these numbers and this letter, behind suffixes those whose suffixes go on from there, behind a revision that release |
| DepGrow.SkipBrackets | libq/dep.c:165-186 | The scan over a bracketed USE list stops at its closing bracket, nested ones skipped |
| DepGrow.Tokenise | libq/dep.c:122-195 | The character loop gives the token list of the string, or fails at a single `\|` |
| DepGrow.Grower.AddAtom | libq/dep.c:352-372 | An atom becomes the last member of the group that the counter `level` names; that group is never missing |
| DepGrow.Grower.OpenGroup | libq/dep.c:223-239 | A new group becomes the last member of the innermost group and the innermost group itself; the array holds `level` + 1 groups before and after, so the parent is never missing |
| DepGrow.Grower.CloseGroup | libq/dep.c:240-252 | The group at `level` leaves the array and stays a member of the one below |
| DepGrow.ParseToken | libq/dep.c:218-379 | One round of the token loop keeps the stack invariant and does what the value-level parser does |
| DepGrow.ParseTokens | libq/dep.c:210-404 | The whole loop: NULL exactly on a parse error, else a fresh tree of exactly the nodes created, each once below its recorded parent, as many as the parsed value has |
| DepGrow.GrowTree | libq/dep.c:79-405 | `dep_grow_tree` gives NULL exactly when the string does not parse, and else a fresh well-formed tree that stands for the parsed value, with one node for each of the value's |
| DepAccepts.GrowsIff | libq/dep.c:96-393 | A dependency string is accepted if and only if no `\|` stands alone and every token is in its place: a `)` closes a group, `\|\|` stands before a group, one or two `!` stand before a word, and at most one before a condition and its group |
| DepAccepts.LoneBar | libq/dep.c:122-147 | The tokeniser fails at a `\|` that stands alone outside brackets |
| DepAccepts.CloseAtEnd | libq/dep.c:240-394 | Groups may be left open: closing them at the end changes nothing |
| DepNodes.NodesCounted | libq/dep.c:210-404 | A well-formed tree on the heap has exactly one node for each node of the value it stands for |
| DepNodes.DepNode.PruneUse | libq/dep.c:603-636 | Pruning in place: inactive groups become null groups, active ones all-of groups, the nodes stay the same |
| DepNodes.DepNode.ResolveTree | libq/dep.c:647-812 | Resolving in place gives the status and the packages that `Dep.Resolve` gives |
| DepNodes.DepNode.ResolveAtom | libq/dep.c:738-780 | An atom gets the first matching package and the first installed one |
| DepResolved.LeavesResolved | libq/dep.c:647-812 | By the path of every node: the leaves that are visited, carry no blocker, have no package and have a match get the first match and the installed match of least index, also in any-of groups behind a member that is met; every other leaf and the form of the tree stay |
| DepResolved.GrowOfResolved | libq/dep.c:424-580 | The print of a resolved tree parses to the tree of the packages it was resolved to |
| DepResolved.PrintLayout | libq/dep.c:424-549 | A group of one atom is printed on one line, any other with each member on a line of its own, four blanks further in |
| DepNodes.DepNode.ResolveAllMembers | libq/dep.c:647-812 | An all-of group stops at its first failing member |
| DepNodes.DepNode.ResolveAnyMembers | libq/dep.c:647-812 | An any-of group resolves every member and succeeds when one does |
| DepNodes.DepNode.FlattenTree | libq/dep.c:847-859 | Flattening lists the atoms outside null groups in order |
| DepNodes.DepNode.PrintInto | libq/dep.c:424-549 | The recursive printer appends `Dep.PrintNode` to the output |
| DepNodes.DepNode.PrintTree | libq/dep.c:551-580 | Printing a tree gives `Dep.Print` |
| DepRoundTrip.LexPrinted | libq/dep.c:122-195 | Tokenising the print of a tree gives its tokens, whatever the indentation and the single-child layout |
| DepRoundTrip.BracketEnds | libq/dep.c:165-186 | The scan inside brackets ends at the bracket that closes them, whatever balanced brackets stand before |
| DepRoundTrip.GrowOfPrint | libq/dep.c:424-580 | Parsing the print of any printable tree gives the tree without its null groups |
| DepRoundTrip.RoundTrip | libq/dep.c:79-405 | Every tree of parsed shape comes back from its print, blockers, inverted USE groups and bracketed USE lists included |
| DepMeaning.EraseOfPrune | libq/dep.c:603-636 | What is left of a pruned tree is the tree with inactive groups deleted and active ones turned into all-of groups |
| DepMeaning.ActiveMeans | libq/dep.c:603-636 | `flag? ( ... )` counts with the flag set, `!flag? ( ... )` without it |
| DepMeaning.FlattenOfPrune | libq/dep.c:814-859 | Flattening the pruned tree lists exactly the atoms under active conditions, in order |
| DepMeaning.GrowOfPruned | libq/dep.c:465-548 | Printing the pruned tree and parsing the text gives the original with inactive groups deleted and active ones turned into all-of groups |
| DepMeaning.ResolvedIffSatisfied | libq/dep.c:647-812 | Without a blocker table the status is DEP_OK exactly when the and/or formula holds |
| DepMeaning.PruneCommutes | libq/dep.c:603-812 | Pruning first and resolving then gives the same status and assigns every atom the same package |
| Arrays.Array.Append | libq/array.c:73-94 | Appends and clears the sorted flag |
| Arrays.Array.Remove | libq/array.c:148-169 | Removes one element, keeps the others in order and the flag truthful |
| Arrays.Array.MoveFrom | libq/array.c:123-143 | All elements of the source go to the end, the flags stay truthful |
| Arrays.Array.Sort | libq/array.c:224-237 | A permutation in order; nothing happens when the flag is set |
| Arrays.Array.Search | libq/array.c:266-302 | The binary search ends at the first element equal to the needle, or finds none exactly when none is equal |
| Arrays.Array.BinSearch | libq/array.c:246-303 | The same on an array that is sorted first when its flag is not set |
| Arrays.SortSorted | libq/array.c:224-237 | Sorting under a consistent comparator gives an ordered list |
| Arrays.SortElements | libq/array.c:224-237 | with the same elements |
| TreeCache.FilterCat | libq/tree.c:1468-1508 | The character loop accepts exactly the names of section 3.1.1 of the Package Manager Specification that contain a hyphen, and `virtual` |
| TreeCache.TreeCat.Load | libq/tree.c:1949-2012 | Reading a category caches all its package directories and reports the matching ones on the way |
| TreeCache.TreeCat.Directed | libq/tree.c:1580-1616 | The directed query on the cache reports exactly what the plain filter finds, in order, when the name is only a name to the parser, and nothing when it is misread |
| TreeCache.TreeCat.Foreach | libq/tree.c:1557-2021 | A category query reports exactly the plain filter's packages, in order when asked to, unless the name is misread and the category was cached or the answer sorted; then it reports nothing |
| TreeCache.Tree.FindCat | libq/tree.c:2062-2071 | The category search finds the category of that name or there is none |
| TreeCache.Tree.Populate | libq/tree.c:2121-2166 | The directory walk makes every category known once, also when some were cached before, and answers an unsorted query on the way |
| TreeCache.Tree.FromCache | libq/tree.c:2078-2089 | The traversal of a complete cache answers from every category, and caches the packages of all |
| TreeCache.Tree.Foreach | libq/tree.c:2034-2178 | A query reports exactly `TreeQuery.Answer`: the packages of the plain filter on category, name and `atom_compare == EQUAL`, but for a misread name none from the categories cached before or when sorted; in order when asked to; and exactly the categories asked become cached |
| TreeCache.Transparent | libq/tree.c:2034-2178 | Cache transparency: after any history of queries the next one reports what a fresh tree reports if and only if it is sorted, its name can be found, or no category cached by the history holds a match |
| TreeQuery.PkgComparIsCallback | libq/tree.c:1420-1465 | Inside a category the cache's comparator is the sort callback of the atoms |
| TreeQuery.PkgComparChained | libq/tree.c:1420-1465 | Three packages of a category are compared consistently if and only if they are not of one name or their versions are compared transitively |
| TreeQuery.PkgConsistent | libq/tree.c:1420-1465 | It is a consistent order on a category in which each package's versions are compared transitively |
| TreeQuery.RankedIsOrdered | libq/tree.c:1420-1465 | which they are when each package keeps to a version class of its own and has build-ids throughout or not at all |
| TreeQuery.AgreeingIsOrdered | libq/tree.c:1420-1465 | or when the numbers of any two versions of a package are compared as the specification says |
| TreeQuery.NeedleCompares | libq/tree.c:1586-1596 | A needle whose name is only a name compares with a cached package by name; a misread one never compares equal |
| TreeQuery.FoundByNameIff | libq/tree.c:1580-1616 | The search for a cached package by its own name finds it if and only if the scan for a version finds none in the name |
| TreeQuery.NeedleFits | libq/tree.c:1586-1596 | so the binary search with it is sound |
| TreeQuery.NamesAreVersionless | libq/tree.c:1343-1353 | A package name is only a name to the parser if and only if the scan finds no version in it, and misread otherwise |
| TreeQuery.AnswerIsWantedIff | libq/tree.c:1580-2021 | What is reported is the plain filter's report if and only if the name can be found or no category that is searched in the cache holds a match |
| TreeQuery.AnswerPermuted | libq/tree.c:2034-2178 | What is reported does not depend on the order of the categories |
| TreeMeaning.VersionHits | libq/tree.c:1580-1616 | A query for a version hits exactly the packages of that name, in its category or in any, whose version stands to the query's as the operator says |
| TreeMeaning.NameHits | libq/tree.c:1580-1616 | A query without a version hits all versions of the name, one without a name all packages |
| TreeMeaning.LoadedAre | libq/tree.c:1949-2012 | The packages of a category are its directories, `.` and `..` apart, in order |
| TreeMeaning.WantedCounts | libq/tree.c:2034-2178 | The plain filter reports every package that is hit, of the categories asked, as often as the directory lists it |
| TreeMeaning.CategoryNames | libq/tree.c:1468-1508 | Words joined by a hyphen name a category, a single word does not unless it is `virtual`, nor what starts with a hyphen, plus or dot or holds any other character |
| TreeMatch.RemoveOthers | libq/tree.c:2518-2531 | The reverse removal loops leave exactly the packages outside the left-out categories |
| TreeMatch.RemoveOlder | libq/tree.c:2544-2560 | The reverse loop of LATEST keeps the first of each run of one category and name |
| TreeMatch.FirstsAreBest | libq/tree.c:2544-2560 | On an ordered list that is exactly one package per category and name, and none of that name is newer |
| TreeMatch.MatchAtom | libq/tree.c:2455-2563 | Of what the tree answers (all matches, for a name that can be found) the packages of `virtual` and of `acct-...` go unless asked for, all others stay as often as they are there; of these LATEST returns exactly one package for each category and name, no other of it being newer; FIRST at most the first; otherwise all |
| Bytes.ReadOfWrite | main.h:68-79 | Reading a written big-endian integer gives its low 32 bits |
| Bytes.WriteOfRead | main.h:68-79 | Writing a read one gives the bytes back |
| Xpak.Packer.AddFile | libq/xpak.c:228-290 | The index and data streams and their two counters stay those of the files packed so far |
| Xpak.Create | libq/xpak.c:292-404 | The output is the archive of the collected files, in order |
| XpakRead.WalkIndex | libq/xpak.c:56-94 | The cursor loop makes the callbacks of `XpakRead.Walk`, up to the first refused entry |
| XpakRead.OpenStream | libq/xpak.c:96-152 | The header is found at the start, or where the trailer points |
| XpakRead.ProcessFd | libq/xpak.c:159-204 | The whole reader computes `XpakRead.Process` |
| XpakRead.WalkOfIndex | libq/xpak.c:56-94 | Walking a written index calls back for the members in order, every bounds check passing, up to the first refused name, whatever follows in memory |
| XpakRead.RoundTrip | libq/xpak.c:159-404 | Reading a created archive gives its members, or the one limit that stops it |
| XpakRead.EmbeddedRoundTrip | libq/xpak.c:107-133 | The same behind any tarball that does not start with XPAKPACK, the reported start being the tarball's length |
| XpakRead.NoMarkBefore | libq/xpak.c:105-107 | A short tarball cannot make up the mark together with the archive behind it |
| XpakRead.UnpackedIsPacked | libq/xpak.c:56-404 | Unpacking a binary package succeeds if and only if the names, the index and the data are within the limits, and then gives exactly what was packed |
| XpakRead.WalkSafe | libq/xpak.c:56-94 | Whatever the bytes, a callback is made only for a short name without a path and a part of the data |
| XpakRead.HasPathIff | libq/xpak.c:66-72 | A name is refused for a slash or backslash before its first NUL |
| XpakRead.TruncatedFails | libq/xpak.c:159-204 | A file that ends before its index or its data is short, and nothing is called back |
| XpakRead.BasenameHasNoSlash | libq/xpak.c:245-255 | Stored names are last path components |
| Tbz2.Compose | qtbz2.c:67-132 | Joining writes tarball, xpak, length and mark, and warns exactly when the xpak lacks its mark |
| Tbz2.WriteFile | qtbz2.c:134-167 | The buffered copy loop writes exactly `len` bytes, or skips them |
| Tbz2.Decompose | qtbz2.c:169-232 | Splitting computes `Tbz2.Split` |
| Tbz2.SplitOfPackage | qtbz2.c:67-232 | Splitting undoes joining if and only if neither part is empty and the xpak's length fits 32 bits |
| Tbz2.PackageOfSplit | qtbz2.c:67-232 | Joining undoes splitting for every file that splits |
| Contents.ContentsParseLine | libq/contents.c:21-106 | The parser with its backward scans computes `Contents.ParseLine` |
| Contents.ScanObj | libq/contents.c:62-76 | The backward scan of an obj line uses its last two blanks |
| Contents.ScanSym | libq/contents.c:78-94 | The backward scan of a sym line uses its last blank and the last arrow before it |
| Contents.ParseOfText | libq/contents.c:21-106 | Reading undoes writing for every well-formed dir, obj and sym line, names with blanks and arrows included |
| Contents.EntryIff | libq/contents.c:21-60 | A line is an entry exactly when something follows one of the three keywords, the line end apart |
| Contents.PartsMissing | libq/contents.c:62-94 | Without a blank a line has no time, with one blank no digest, and without an arrow no target |
| Qcheck.CheckEntry | qcheck.c:148-373 | One round of the loop: verdict and written line, branch by branch |
| Qcheck.QcheckCb | qcheck.c:137-374 | Counted plus ignored files are the parsed entries, good and unknown ones are counted by verdict, and update mode writes the rewritten lines in order |
| Qcheck.VerdictMeans | qcheck.c:148-373 | Every verdict in terms of options, file and fields: good exactly when the entry is examined, its file has the recorded digest, as MD5 or SHA1 by length, and the recorded time, as far as they are recorded |
| Qcheck.WrittenMeans | qcheck.c:137-374 | Update mode drops a line exactly when it is no entry, its file is missing or its digest of no known length, as far as that is checked, and changes it only for a digest or time that is another |
| Qcheck.GoodAreIntact | qcheck.c:137-374 | The files counted as good are exactly the intact ones |
| QcheckRepair.MtimeOfPrinted | libq/contents.c:97-103 | A time that was written is read back, or counts as absent when it saturates |
| QcheckRepair.ReplacedOnce | qcheck.c:224-373 | Whatever the line, what is written in its place can be read, is kept by the next run and is good, ignored or of a file that cannot be hashed; only an obj line that had no digest is dropped by the next run |
| QcheckRepair.ReplacedEntry | qcheck.c:296-373 | What is written in place of a line is an entry for the same file, kind and target, with the file's digest where that was wrong and the file's time |
| QcheckRepair.RepairConverges | qcheck.c:137-374 | For every CONTENTS: after two updates nothing changes any more and every counted file is good unless it cannot be hashed; the second update changes nothing, either, if and only if no obj line without a digest has had its time corrected for a regular file |
| QcheckRepair.RepairTwiceAndCheck | qcheck.c:137-374 | Updating three times and then checking, on the loop itself: the third file is the second, and all counted files are good |
| QcheckRepair.DigestLost | qcheck.c:330-373 | `obj /x 5` becomes `obj /x (null) 6`, and then goes |
| Grep.RunIsWindows | qgrep.c:216-358 | The machine's output is the union of the windows around the matches with a separator exactly between shown lines that are not adjacent |
| Grep.ShownOnceInOrder | qgrep.c:216-358 | That union shows exactly the lines inside some window, each once and in increasing order |
| Grep.CleanOf | qgrep.c:257-261 | Either line ending is cut off and nothing else |
| Grep.CommentIff | qgrep.c:263-269 | A comment is a line whose first character that is no blank or tab is a # |
| Grep.SelectsMeans | qgrep.c:263-309 | Comments and skipped lines are never selected; of the others the matching lines are, or with inversion the others |
| Grep.WindowsHit | qgrep.c:310-341 | What a further match adds: a separator if lines were left out, the unshown leading context, the line |
| Grep.WindowsMiss | qgrep.c:343-357 | What a further line without a match adds |
| Grep.PrintBeforeIs | qgrep.c:180-192 | The walk over the ring prints the unshown part of the window with the right line numbers and leaves no buffer valid |
| Grep.LimitFails | qgrep.c:216-358 | With the one-buffer ring that 127 leading lines get, the output is right if and only if no line matches |
| GrepRing.AllocRing | qgrep.c:78-90 | The allocation links a circle of the requested length, one buffer at least |
| GrepRing.Invalidate | qgrep.c:106-115 | Every buffer of the circle becomes invalid |
| GrepRing.PrintBeforeContext | qgrep.c:180-192 | The pointer walk computes `Grep.PrintBefore` |
| GrepRing.GrepArgs.GrepAt | qgrep.c:216-358 | The reading loop over the heap ring computes `Grep.Run` from any invalidated ring |
| GrepRing.GrepFiles | qgrep.c:216-375 | For up to 126 leading and 127 trailing lines each file's output is the union of its windows, whatever earlier files left in the ring |
| GrepRing.LimitRing | qgrep.c:78-90 | The ring has a buffer more than the leading count up to 126; for 127 the char overflows and it has one |
| HashTable.Fnv1a32 | libq/set.c:36-43 | The loop computes the hash |
| HashTable.FnvVectors | libq/set.c:36-43 | It gives published values of the 32-bit FNV-1a hash |
| HashTable.Table.Find | libq/set.c:300-310 | The walk along a bucket finds the element exactly when the map has the key |
| HashTable.Table.Get | libq/set.c:448-476 | Lookup gives the value last added, or NULL |
| HashTable.Table.Contains | libq/set.c:225-258 | Membership |
| HashTable.Table.Add | libq/set.c:390-445 | The map gets the new value, the previous one is returned, nothing else changes |
| HashTable.Table.AddUnique | libq/set.c:87-144 | The name is added unless it is there; the flag says which |
| HashTable.Table.Delete | libq/set.c:265-321 | Exactly that key goes, its value is returned |
| HashTable.Table.Clear | libq/set.c:331-355 | The map is empty |
| HashTable.Table.Clone | libq/set.c:191-222 | A table of its own with the same names and no values |
| HashTable.Table.Keys | libq/set.c:488-508 | The names in bucket order |
| HashTable.Table.Values | libq/set.c:510-530 | The values in the order of the keys |
| HashTable.Table.KeyOrderIs | libq/set.c:488-508 | The key list has each key of the map once, and its length is the count |
| HashTable.Run | libq/set.c:36-554 | Over any run of additions, lookups, membership tests and removals the table refines a finite map: same values and flags on the way, the keys listed once each, their number as the count |
| Stacking.RemoveExtraSpace | libq/rmspace.c:42-71 | One blank for each run of white space, none at the ends |
| Stacking.Rmspace | libq/rmspace.c:19-40 | White space at both ends goes and nothing else |
| Stacking.MakeArgv | main.c:214-249 | The vector is the list of the words |
| Stacking.SetincrVar | main.c:318-368 | After stacking a flag is set exactly when the last word that mentions it sets it, or no word mentions it and it was set before |

## Left out

- Qcheck.QcheckCb: the counters and the written file are modelled, the progress messages are not.
- DepNodes.DepNode.ResolveTree: the blocker table (libq/dep.c:665-737) is not modelled; all callers pass NULL.
- DepNodes.DepNode.PrintTree: colours, highlighted atoms and the verbose forms are not modelled.
- DepGrow.GrowTree: atoms longer than the fixed path buffer are not cut off.
- AtomCompare.AtomCompareFlg: the pointer comparison of a data SUBSLOT with a query SLOT counts as false, the two atoms
  being different objects.
- Arrays.Array.Sort: qsort is represented by one stable sort; the order among equal elements is not part of any result.
  The capacity of an array and its doubling are not modelled.
- TreeCache.Tree.Foreach: the VDB case only; package atoms have a version, no slot and no repository loaded, and the
  versions of one package are compared transitively (`TreeQuery.Ordered`), without which qsort promises nothing. Queries
  have neither slot nor repository, their category is accepted by `tree_filter_cat` or is no directory, and their name is
  one that the parser reads as that name alone or as another name, which covers every package name.
- TreeMatch.MatchAtom: trees that are not merged; category names are compared as strings, which in one tree is the
  comparison of the pointers.
- HashTable.Table.Add: a NULL table, which the functions replace by a new one, is modelled where the caller passes it on
  (`Stacking.SetincrVar`); `set_add`, which may add duplicates, and `set_add_from_string` are not modelled.
- XpakRead.ProcessFd: what memory holds behind the index is a parameter; BUFSIZ is 8192.
- Xpak.Create: directory listings are given, and files do not change while they are packed.
- GrepRing.GrepFiles: line mode only, without listing or counting; a line is what one fgets delivers, and the searches
  are predicates of the caller.
- Integers of the program are unbounded except where a width decides the result (32-bit lengths, the char counts of
  qgrep, saturated times); strtoll does not saturate in versions.
- Trees of ebuilds, of binary packages, PACKAGES files and merged trees: other sources of the same cache.
- libarchive, gpg, compression, regular expressions and digests: opaque predicates and functions.
- make_human_readable_str: a rounding bound, easy beside the rest.
- Memory management, file descriptors, option parsing and terminal output.
