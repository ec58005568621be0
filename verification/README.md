# DuroDBMS in Dafny

A model of the parts of DuroDBMS, a relational database system with an interpreter for a dialect of Tutorial D,
whose correctness does not show from reading one function: the algebra of types, keys and tuples over an
open-addressing hash table, the rewriting of expressions in place, the record map with secondary indexes on an
ordered key-value store, and the interpreter with its scopes, loops and transactions. `dafny verify
dfyconfig.toml` checks all of it.

## What is modelled, and how

| files | part of the system |
|---|---|
| `ByteStrings`, `Options`, `Lists`, `Renaming` | names as byte strings in the order of `strcmp`, results, lists as sets, renamings |
| `Hashtable` | the hash table and its iterator, as classes over an array; a ghost map is what the table means |
| `Tuple` | tuple values, which add, copy and rename attributes in such a table |
| `Types`, `Subtyping`, `TupleTypes`, `Wrapping`, `Grouping`, `SortedAttrs` | types, their equality and order, and the operations on tuple and relation types |
| `Keys`, `ObjMatch`, `OpMap` | candidate keys, the match of a value with a type, chains of overloaded operators |
| `Expressions`, `Rewriting` | expressions as values, and what the rewritings mean |
| `ExpressionNodes` | expressions as linked nodes, which the rewritings relink; a ghost shape says which nodes belong to an expression |
| `FdbStore`, `FdbRecmap`, `FdbCursor` | records and index entries in one ordered store, separated by prefixes, and cursors |
| `TxStack`, `Statements`, `Interp` | transactions, what statements do, and the interpreter as an object that does it in place |
| `Variables`, `Calls`, `Isolation`, `Constants` | what names stand for, what operators get, give back and see, when constants keep their values |
| `Visiting`, `Leaving`, `Reaching`, `Catching` | what loops visit and which branch is taken, where LEAVE, RETURN and errors go |
| `Database`, `ImplicitTx`, `Calm`, `Discipline`, `Fuel` | updates, implicit and explicit transactions, which statements lose no writes, what all statements keep, independence of fuel |

Code that loops or updates fields is a method, proved against a function; the theorems are about that function.
Recursion that only reads is a function itself. A type is compared with its *meaning*, in which tuple types are
finite maps: two types have the same meaning iff the code takes them for equal, so equality of meanings is the
independent notion behind equality, subtyping and the enumeration in name order. An expression is evaluated in an
algebra that gives operators any meaning, also operators that evaluate some arguments for each tuple of another one
with its attributes bound. Substitution, the expansion by definitions and inverse renaming have exact conditions: an
algebra in which nothing is known about the operators tells the two sides apart in every other case. For WITH the
order of the intros is exact in the same sense, but under two assumptions that are not shown to be necessary: the
intros have distinct names, and no name of an attribute interferes. A machine gives the interpreter its expressions and its database
operations: they may depend on the visible variables, on the database as the current transaction sees it and on
the time, so that an operation may fail retryably now and succeed later.

Inputs that the system reads from outside are parameters: hash functions, the secondary key of a record and the
change of its fields, expression values, the tuples of a FOREACH loop, failures, interrupts and the presence of a
database.

## What the code requires, and where it surprises

- A secondary index stays exact only under conditions that the code does not check: a new record or key finds its
  secondary key unused (duro/fdbrec/fdbrecmap.c:237-239), a key update finds the new key unused
  (duro/fdbrec/fdbrecmap.c:347-352), and an update without the key changes no indexed field
  (duro/fdbrec/fdbrecmap.c:360-376, duro/fdbrec/fdbcursor.c:126-143). `FdbRecmaps.StepConsistent` shows that they are exact.
- Clearing a record map leaves the entries of its indexes (duro/fdbrec/fdbrecmap.c:87-112), and names must not contain a slash.
- A new index gets no entries for the records that are there (duro/fdbrec/fdbindex.c:72-106), also when it is created for
  a table in use (duro/rel/table.c:1048-1091), so with records it is not exact.
- Deleting by cursor takes the secondary keys from the value that the cursor has cached (duro/fdbrec/fdbcursor.c:146-152);
  the model keeps that value as a parameter of the operation.
- The name after a dot is stored as a variable (duro/obj/expression.c:417-436) and rewritten like one; so are the names of
  attributes in the arguments of WHERE, EXTEND and SUMMARIZE, where they hide variables (duro/rel/expressionx.c:28-60).
  With an attribute `x`, `WITH (x := 1) : t WHERE x = 2` compares 1 and 2. The theorems about rewriting state exactly
  which names this concerns.
- WRAP and UNWRAP reserve as many attributes as there would be if no name were given twice. With a repeated name they
  store behind the array (duro/obj/type.c:1303-1319, 1394-1429) before the counters are compared, or ask for a negative
  size; WRAP also does if a name is missing in a later wrapping and too few attributes are reserved.
- Renaming an attribute to an existing name is reported as a missing name (duro/obj/type.c:1110-1113).
- LEAVE without a target in a loop with a label, and a failure of TRY's body without an error, make the interpreter
  follow a null pointer (duro/dli/interp_stmt.c:166-171, 1859-1860); so does RETURN or LEAVE at top level without an implicit
  transaction (duro/dli/interp_stmt.c:2815-2816), which makes the treatment of these outcomes in `Duro_process_stmt` dead code.
- FOREACH ends at LEAVE with any target, fails without an error at RETURN, and takes every failure to fetch a tuple for
  the end of the table (duro/dli/interp_stmt.c:368-430), although the tutorial describes LEAVE with a label for all loops.
- FOR and FOREACH store in their variable without asking whether it is a constant (duro/dli/interp_stmt.c:194-225), so an
  operator can change an argument that is not an update argument; and one variable may be passed as an update argument
  and as another one.
- A deadlock rolls back all transactions, not only the current one (duro/rel/stable.c:896-902, duro/rel/transaction.c:168,
  236-249), and leaves them on the stack of the interpreter without running. So nothing protects an outer transaction
  from a deadlock inside, in a FOREACH loop as little as elsewhere; what was committed to the database stays.
- A retryable error takes the transaction back to its start. When CATCH handles it, or FOREACH takes it for the end of the
  table, the statement goes on and may commit, although what it wrote before is lost (duro/dli/interp_stmt.c:368-430,
  1791-1890). Without TRY and FOREACH that cannot happen.
- A statement that an implicit transaction repeats sees the variables as the attempt before left them; only the database
  starts afresh. A transaction that an operation has rolled back stays on the stack when the statement fails.

## Model

| member | source | states |
|---|---|---|
| Hashtables.Hashtable.Put | duro/gen/hashtable.c:57-110 | the table holds the map before, with the entry under its key; the capacity doubles exactly when the fill ratio is reached, and an enlarged table is at most four times its contents |
| Hashtables.Hashtable.Probe | duro/gen/hashtable.c:100-109 | linear probing ends, at the entry with the key or at a free slot, after passing only other entries |
| Hashtables.Hashtable.Rehash | duro/gen/hashtable.c:69-98 | a rehash doubles the capacity and keeps the map |
| Hashtables.Hashtable.Get | duro/gen/hashtable.c:115-133 | returns the entry of the key or none, also on a full table |
| Hashtables.Hashtable.Size | duro/gen/hashtable.c:138-141 | the entry count is the size of the map |
| Hashtables.Hashtable.Clear | duro/gen/hashtable.c:146-152 | leaves the empty map in a table of the same capacity |
| Hashtables.StoreAtStop | duro/gen/hashtable.c:100-109 | storing an entry where probing stopped keeps the probing invariant: no free slot between an entry and the home of its key |
| Hashtables.PassedAll | duro/gen/hashtable.c:115-133 | a key that no slot of the whole probe sequence holds is not in the map |
| Hashtables.FillRatio | duro/gen/hashtable.c:69-70 | the integer division by the capacity decides exactly whether ten sixteenths are used |
| Hashtables.SmallTableHasRoom | duro/gen/hashtable.c:69-76 | below a capacity of 2^27 neither the multiplication by 16 nor doubling exceeds an int |
| Hashtables.EntriesEnumerate | duro/gen/hashtabit.c:17-33 | the occupied slots list every entry of the map once |
| Hashtables.Hashtable.OrderEnumerates | duro/gen/hashtabit.c:17-33 | so does the order in which an iterator visits them |
| Hashtables.HashtableIter.Next | duro/gen/hashtabit.c:17-33 | returns the next entry of that order, and none at its end |
| Tuples.TupleObject.ProvideEntry | duro/obj/tuple.c:48-87 | binds the name to the value and leaves the other attributes alone |
| Tuples.TupleObject.Set | duro/obj/tuple.c:111-124 | the same, creating the table of the tuple on first use |
| Tuples.TupleObject.Get | duro/obj/tuple.c:243-257 | returns the attribute or none |
| Tuples.TupleObject.Project | duro/obj/tuple.c:380-406 | the result is the restriction to the names; at a missing name it fails and holds what came before |
| Tuples.TupleObject.Remove | duro/obj/tuple.c:408-441 | the result has the attributes that are not named |
| Tuples.TupleObject.Rename | duro/obj/tuple.c:458-491 | if the renaming keeps the names apart, the result is the tuple renamed, over what the result had before |
| Tuples.WrittenIsRenamed | duro/obj/tuple.c:458-491 | the order in which the table lists the attributes does not matter then |
| Renamings.FindRenameFrom | duro/obj/type.c:1077-1087 | the first renaming of a name decides, and -1 means that there is none |
| Renamings.RenamingInvertible | duro/obj/type.c:1093-1123 | an accepted renaming keeps names apart, is undone by its inverse, and its inverse is accepted |
| Types.TupleTypeAttr | duro/obj/type.c:988-999 | finds the attribute with the name, if there is one |
| Types.EqualsIsSameMeaning | duro/obj/type.c:588-633 | two types are equal iff they mean the same, that is the same finite map from names to types at every level: the one-sided search and the count suffice |
| Types.EqualsIsEquivalence | duro/obj/type.c:588-633 | reflexive, symmetric and transitive on types with distinct attribute names |
| Types.AttributeOrderIrrelevant | duro/obj/type.c:605-628 | permuting attributes gives an equal type |
| Types.EqualsSymmetricIffUnrepeated | duro/obj/type.c:605-628 | with repeated names, equality from a tuple type to any other is symmetric iff no attribute is there twice with an equal type |
| Subtyping.SubtypeIsSubMeaning | duro/obj/type.c:652-687 | the recursion through structure and up the supertypes, with its equality shortcut, decides the covariant order on meanings |
| Subtyping.ScalarSubtype | duro/obj/type.c:652-687 | on scalar types it is reachability in the supertype graph |
| Subtyping.SubtypingIsOrder | duro/obj/type.c:652-687 | reflexive, transitive, antisymmetric up to type equality, and compatible with it |
| Subtyping.ShareSubtypeMeans | duro/obj/type.c:692-709 | true iff some scalar type is a subtype of both, and symmetric |
| TupleTypes.UnionTupleTypes | duro/obj/type.c:882-972 | the loops with their counters compute the union of the attribute lists or its failure |
| TupleTypes.UnionMeans | duro/obj/type.c:882-972 | succeeds iff shared names have equal types, and then unites the headings |
| TupleTypes.UnionIdempotent | duro/obj/type.c:882-972 | the union of a type with itself is equal to it |
| TupleTypes.UnionCommutes | duro/obj/type.c:882-972 | both orders succeed with equal types or both fail |
| TupleTypes.UnionAssociates | duro/obj/type.c:882-972 | both groupings succeed with equal types or both fail |
| TupleTypes.ProjectTupleType | duro/obj/type.c:1001-1055 | the loops compute the projection or its failure |
| TupleTypes.ProjectMeans | duro/obj/type.c:1001-1055 | succeeds iff all names are attributes; the result has the attributes in the order of the names |
| TupleTypes.ProjectFails | duro/obj/type.c:1001-1055 | a failure reports the first name that is missing |
| TupleTypes.RenameTupleType | duro/obj/type.c:1093-1171 | the loops compute the renamed type or its failure |
| TupleTypes.CheckRenaming | duro/obj/type.c:1099-1123 | reports the first fault of the renaming |
| TupleTypes.FaultlessIsAccepted | duro/obj/type.c:1099-1123 | no fault is found iff sources exist, targets are new and both are distinct |
| TupleTypes.RenamingFails | duro/obj/type.c:1099-1123 | the first entry at fault decides the error: its missing source, its existing target, or a repetition |
| TupleTypes.RenameMeans | duro/obj/type.c:1093-1171 | succeeds iff the renaming is accepted, and then the heading is the renamed one |
| TupleTypes.RenameBack | duro/obj/type.c:1093-1171 | the inverse renaming restores the type |
| WrapTypes.WrapTupleType | duro/obj/type.c:1223-1338 | the loops fill the reserved array with the wrapped type, or fail, or store outside of it |
| WrapTypes.UnwrapTupleType | duro/obj/type.c:1351-1446 | the same for unwrapping |
| WrapTypes.WrapOutcome | duro/obj/type.c:1223-1338 | the outcome in all cases, by the number of reserved attributes, the first missing name and repetitions |
| WrapTypes.WrapSucceeds | duro/obj/type.c:1223-1338 | succeeds iff the wrapped names are attributes, none of them twice; if they are attributes, all stores are in the array iff none is there twice, and the final check never finds anything |
| WrapTypes.UnwrapSucceeds | duro/obj/type.c:1351-1446 | succeeds iff the names are distinct tuple-valued attributes; if they are tuple-valued, all stores are in the array iff they are distinct |
| WrapTypes.WrapMeans | duro/obj/type.c:1223-1338 | the first attributes are those of the wrappings, each one a tuple of exactly the attributes that its wrapping names; then come those that no wrapping names |
| WrapTypes.UnwrapMeans | duro/obj/type.c:1351-1446 | the attributes are those of the named tuples and the ones that are not named |
| WrapTypes.UnwrapFails | duro/obj/type.c:1351-1374 | a failure reports the first name that is missing or not that of a tuple |
| WrapTypes.WrapWellFormed | duro/obj/type.c:1223-1338 | the result has distinct names iff the new names are distinct and clash with no attribute that remains |
| WrapTypes.WrapThenUnwrap | duro/obj/type.c:1223-1446 | then unwrapping succeeds and gives a type equal to the original |
| WrapTypes.UnwrapThenWrap | duro/obj/type.c:1223-1446 | wrapping the components of an unwrapped attribute again gives a type equal to the original |
| GroupTypes.GroupType | duro/obj/type.c:1460-1575 | the loops compute the grouped type or its failure |
| GroupTypes.UngroupType | duro/obj/type.c:1577-1681 | the same for ungrouping |
| GroupTypes.GroupSucceeds | duro/obj/type.c:1460-1575 | succeeds iff the names are distinct attributes and the new one clashes with none that remains, and then fills the reserved array |
| GroupTypes.UngroupSucceeds | duro/obj/type.c:1577-1681 | succeeds iff the attribute is a relation and its attributes clash with no other, and then fills the reserved array |
| GroupTypes.GroupMeans | duro/obj/type.c:1460-1575 | the new heading is the old one without the grouped names and with the group, whose heading has exactly the grouped names with their types |
| GroupTypes.UngroupMeans | duro/obj/type.c:1577-1681 | the new heading is the old one without the group and with what the group has |
| GroupTypes.GroupFails | duro/obj/type.c:1477-1524 | a failure reports the first name that is missing, and if none is, an invalid argument |
| GroupTypes.GroupThenUngroup | duro/obj/type.c:1460-1681 | ungrouping what was grouped always succeeds and gives a type equal to the original |
| GroupTypes.UngroupThenGroup | duro/obj/type.c:1460-1681 | regrouping what was ungrouped always succeeds and gives a type equal to the original |
| SortedAttrs.NextAttrSorted | duro/obj/type.c:1688-1703 | returns the attribute with the least name after the given one, or -1 if there is none |
| SortedAttrs.VisitsEachOnce | duro/obj/type.c:1688-1703 | starting from none, every attribute is visited once, in strictly increasing order of the names |
| SortedAttrs.EqualIffVisitedAlike | duro/obj/type.c:605-628 | two tuple types are equal iff these visits agree in name and type at every step |
| CandidateKeys.FindStr | duro/gen/strfns.c:52-62 | returns the position of a string in the list, or -1 iff it is not there |
| CandidateKeys.StrvecIsSubset | duro/obj/key.c:16-26 | true iff the names of the first key are among those of the second |
| CandidateKeys.CheckKey | duro/obj/key.c:36-60 | true iff the key lists attributes of the type, none twice |
| CandidateKeys.CheckKeys | duro/obj/key.c:28-81 | accepts exactly the non-empty families of such keys in which no key is part of another |
| CandidateKeys.KeysEqual | duro/obj/key.c:120-140 | true iff the numbers agree and every key of the first list is found in the second |
| CandidateKeys.SearchedEqualIsSameFamily | duro/obj/key.c:102-140 | on accepted families that means the same set of sets of names, by two pigeonhole arguments |
| CandidateKeys.SearchSymmetricIffUnrepeated | duro/obj/key.c:102-140 | on other lists of keys without repeated names, the search from a list to any other is symmetric iff no key is there twice |
| ObjectTypes.MatchIsMeaning | duro/obj/objmatch.c:50-81 | the code decides at every level whether a value has the meaning of a type |
| ObjectTypes.MatchMeans | duro/obj/objmatch.c:50-81 | a value that carries its type matches iff that is a subtype; a tuple iff it has exactly the attributes of the type and each one matches; an array iff it is empty or its first element matches |
| ObjectTypes.MatchesSupertype | duro/obj/objmatch.c:50-81 | a value that matches a type matches every supertype |
| ObjectTypes.RenamedMatches | duro/obj/objmatch.c:50-81 | a renamed tuple matches the renamed type |
| ObjectTypes.ProjectedMatches | duro/obj/objmatch.c:50-81 | a tuple projected on distinct names matches the projected type |
| OperatorMap.OpMap.PutOp | duro/obj/opmap.c:69-101 | inserts the operator second in the chain of its name, or first in an empty one |
| OperatorMap.OpMap.GetOp | duro/obj/opmap.c:103-153 | returns the first operator of the chain that matches, else one with a variable number of arguments, else the error |
| OperatorMap.LookupMeans | duro/obj/opmap.c:103-153 | a lookup gives the first operator whose parameters are supertypes of the arguments, else the first for any number of arguments; else the error is a mismatch iff some operator has as many parameters, and not found otherwise |
| OperatorMap.OpMap.DelCmpOp | duro/obj/opmap.c:213-239 | removes the first comparison operator of the type from the chain and nothing else |
| OperatorMap.DeletesFirst | duro/obj/opmap.c:213-239 | what is removed is the first operator with two parameters of which the first has the type, and if there is none nothing |
| OperatorMap.OpMap.DelOps | duro/obj/opmap.c:241-256 | empties the chain of the name |
| OperatorMap.LookupMonotone | duro/obj/opmap.c:103-153 | if a lookup succeeds for some argument types, it succeeds for pointwise subtypes |
| OperatorMap.AddedOperator | duro/obj/opmap.c:69-153 | which operator or error every lookup finds after an operator was added, whether it takes fixed or variable arguments |
| OperatorMap.DeletedComparison | duro/obj/opmap.c:213-239 | a lookup that did not find a deleted comparison finds what it found before |
| Expressions.RefersIsUsesOrAttr | duro/obj/expression.c:865-887 | RDB_expr_refers_var is true iff the name is used as a variable or stands for an attribute, after a dot or where an operator binds it |
| Expressions.EvalAgrees | duro/obj/expression.c:865-887 | evaluation depends only on the variables used |
| Expressions.SubstMeans | duro/obj/expression.c:63-99 | substitution evaluates like binding, if it respects the names of attributes: none is rewritten, after a dot or where an operator binds it, and no replacement gets where a name that it uses is bound |
| Expressions.SubstExact | duro/obj/expression.c:63-99 | that condition is exact: it holds iff substitution means binding under every meaning of the operators, those that bind attributes included |
| Expressions.ConstRefersToNothing | duro/obj/expression.c:29-48 | a constant expression refers to no variable and no substitution changes it |
| Expressions.ConstEvaluatesAnywhere | duro/obj/expression.c:29-48 | its value does not depend on variables |
| Expressions.ConstIff | duro/obj/expression.c:29-48 | an expression is constant iff neither a table nor a name occurs in it |
| Rewriting.FirstDefMeans | duro/obj/expression.c:973-981 | of several definitions of a name the first one counts |
| Rewriting.ResolveIsSubst | duro/obj/expression.c:955-999 | RDB_resolve_exprnames is parallel substitution of the first definitions |
| Rewriting.ResolveNamesExact | duro/obj/expression.c:955-999 | it means binding all names to their values at once iff it respects the names of attributes |
| Rewriting.WithMeansLets | duro/dli/parse.c:592-651 | WITH evaluates as if its intros were bound in order, if their names are distinct, every intro that uses the name of a later one meets there only that name itself, and no name of an attribute interferes |
| Rewriting.WithExact | duro/dli/parse.c:592-651 | for intros with distinct names among which no name of an attribute interferes, that order is exact: it holds iff WITH means its intros bound in order for all such bodies and all operators |
| Rewriting.WithTakesFirst | duro/dli/parse.c:592-651 | of two intros with one name the first counts |
| Rewriting.InvRenameCommutes | duro/obj/expression.c:910-953 | evaluating over the renamed tuple is evaluating the inversely renamed expression over the tuple, if the expression is renamable |
| Rewriting.InvRenameExact | duro/obj/expression.c:910-953 | for an accepted renaming this holds under every meaning of the operators iff no renamed-away name is used, no new name follows a dot or is bound, and no old name gets where it is bound |
| ExpressionNodes.AddArg | duro/obj/expression.c:784-795 | appends a node to the linked arguments, whatever their number; the others keep their places |
| ExpressionNodes.DupExpr | duro/obj/expression.c:598-630 | the copy has the same value and only new nodes |
| ExpressionNodes.DupArgs | duro/obj/expression.c:533-543 | copies the arguments in order |
| ExpressionNodes.ResolveVarname | duro/obj/expression.c:63-99 | relinking in place yields the substitution; the result consists of nodes of the expression and new ones, shares none with the replacement, and keeps its place in an outer list |
| ExpressionNodes.ResolveExprnames | duro/obj/expression.c:955-999 | the same for parallel substitution by a list of definitions, which stays as it is |
| ExpressionNodes.FindDefNode | duro/obj/expression.c:973-981 | finds the first definition of the name |
| ExpressionNodes.FindOldName | duro/obj/expression.c:928-937 | finds the old name of the first pair with the new name |
| ExpressionNodes.InvRenameExpr | duro/obj/expression.c:910-953 | changes names in nodes only; the expression consists of the same nodes |
| ExpressionNodes.WithNodeExpr | duro/dli/parse.c:592-651 | rewriting the intros and a copy of the body in place yields the expansion, built of new nodes only |
| FdbStore.RangeIsPrefix | duro/fdbrec/fdbrecmap.c:87-112 | the range from a prefix that ends in a slash to the same with a zero digit is exactly the keys with the prefix |
| FdbStore.PrefixesDisjoint | duro/fdbrec/fdbrecmap.c:140-188 | names without a slash give disjoint parts to record maps and indexes |
| FdbStore.Transaction.GetRange | duro/fdbrec/fdbcursor.c:200-245 | returns the pair with the least key of the range |
| FdbRecmaps.Recmap.InsertIntoIndexes | duro/fdbrec/fdbrecmap.c:211-246 | sets the entry of the record in every index |
| FdbRecmaps.Recmap.DeleteFromIndexes | duro/fdbrec/fdbrecmap.c:462-490 | clears the entry of the record in every index |
| FdbRecmaps.Recmap.InsertRec | duro/fdbrec/fdbrecmap.c:248-314 | stores the record and its entries, or reports that the key exists and changes nothing |
| FdbRecmaps.Recmap.UpdateRec | duro/fdbrec/fdbrecmap.c:316-379 | replaces the record, and its entries if the key is updated, or reports that it does not exist |
| FdbRecmaps.Recmap.DeleteKv | duro/fdbrec/fdbrecmap.c:492-528 | removes the record and its entries |
| FdbRecmaps.Recmap.DeleteRec | duro/fdbrec/fdbrecmap.c:530-544 | the same, and succeeds if there is no such record |
| FdbRecmaps.Recmap.DeleteRecmap | duro/fdbrec/fdbrecmap.c:87-121 | clears the part of the record map |
| FdbRecmaps.Recmap.DeleteIndex | duro/fdbrec/fdbindex.c:141-171 | clears the part of the index |
| FdbRecmaps.Recmap.CreateIndex | duro/fdbrec/fdbindex.c:72-106 | links an index without entries to the record map: a consistent one stays consistent iff it has no records |
| FdbRecmaps.NewIndexConsistent | duro/fdbrec/fdbindex.c:72-106 | with a new index the record map is consistent iff it was before and has no records |
| FdbRecmaps.DeletedAlone | duro/fdbrec/fdbrecmap.c:87-121 | clearing a record map or an index leaves every other one untouched |
| FdbRecmaps.StepIndexOf | duro/fdbrec/fdbrecmap.c:316-379 | an operation keeps an index exact iff the secondary key is free and an update without the key changes no indexed field |
| FdbRecmaps.StepConsistent | duro/fdbrec/fdbrecmap.c:211-528 | the same for the store and all indexes of the record map |
| FdbRecmaps.RunConsistent | duro/fdbrec/fdbrecmap.c:211-528 | over every run of such operations each index has exactly one entry per record, the records are those of the run, and other record maps and indexes do not change |
| FdbRecmaps.IndexFinds | duro/fdbrec/fdbrecmap.c:211-246 | then an index finds exactly the records with a secondary key |
| FdbRecmaps.EmptyConsistent | duro/fdbrec/fdbrecmap.c:52-65 | a new record map is consistent |
| FdbCursors.Cursor.First | duro/fdbrec/fdbcursor.c:185-245 | moves to the record with the least key, or reports that there is none |
| FdbCursors.Cursor.Next | duro/fdbrec/fdbcursor.c:247-301 | moves to the least key after the current one, even if the current record is gone |
| FdbCursors.Cursor.Set | duro/fdbrec/fdbcursor.c:109-144 | writes the current record back without touching indexes; refuses to change the key |
| FdbCursors.Cursor.Delete | duro/fdbrec/fdbcursor.c:146-152 | removes the current record and the entries of the value that the cursor has cached |
| FdbCursors.ScanRecords | duro/fdbrec/fdbcursor.c:185-301 | moving first and then on until the end is the scan below |
| FdbCursors.ScanShowsAll | duro/fdbrec/fdbcursor.c:185-301 | a scan lists the records after a key once each in increasing order, also if it deletes each of them, and keeps the indexes exact |
| FdbCursors.FullScan | duro/fdbrec/fdbcursor.c:185-301 | from the first record on that is every record; a deleting scan empties the record map and its indexes |
| TxStack.RollbackRestores | duro/dli/interp_stmt.c:538-567 | rollback restores the transactions and the database of the begin it belongs to; after a deadlock inside, the transactions around have ended, and the database is restored all the same |
| TxStack.RollbackRestoresAll | duro/rel/transaction.c:236-249 | inside a running transaction rollback restores everything iff no deadlock occurred, and outside of all transactions always |
| TxStack.CommitAffectsParent | duro/dli/interp_stmt.c:495-524 | commit passes the version of the transaction to its parent and changes nothing else, but for deadlocks inside |
| TxStack.OuterAfter | duro/rel/transaction.c:236-249 | what happens above depth n leaves the database alone and the n outermost transactions too, unless a deadlock ends all of them |
| TxStack.OuterUnaffected | duro/rel/transaction.c:236-249 | if one of the n outermost transactions was running, they are unaffected iff no deadlock occurred |
| TxStack.RollbackAllRestores | duro/dli/iinterp.c:56-72 | rolling everything back restores the database of the outermost begin |
| TxStack.NothingEnded | duro/dli/interp_stmt.c:506-552 | without commits and rollbacks the database stays as it is, and the outer transactions do unless a deadlock ends them |
| Interpreter.Interp.LookupTransientVar | duro/dli/interp_core.c:75-102 | finds the variable of the innermost scope that has it, else the global one |
| ImplicitTx.BeginMeans | duro/dli/interp_stmt.c:441-478 | BEGIN TRANSACTION succeeds iff there is a database, the current transaction, if there is one, runs and the new one can begin; then it is one more running transaction that sees what its parent sees and everything else stays; otherwise nothing changes and an error is raised |
| ImplicitTx.CommitMeans | duro/dli/interp_stmt.c:495-524 | COMMIT lets the parent, or the database, see what the transaction sees; a failure never changes the database: a retryable one leaves the transaction at its start, any other takes it away, and a deadlock ends the ones around |
| ImplicitTx.RollbackMeans | duro/dli/interp_stmt.c:538-567 | ROLLBACK takes away exactly the current transaction, running or not; within FOREACH, without a transaction or if it fails, nothing changes and an error is raised |
| ImplicitTx.EmptyTransaction | duro/dli/interp_stmt.c:441-567 | BEGIN TRANSACTION followed by COMMIT or ROLLBACK leaves all transactions and the database as they were |
| Interpreter.Interp.RollbackAll | duro/dli/iinterp.c:56-72 | rolls back the transactions from the innermost outwards up to the first that does not run or cannot be rolled back, and raises its error; no transaction is left, and the database is the one outside of all of them |
| Interpreter.Interp.RollbackEach | duro/rel/transaction.c:236-249 | the loop up to that transaction |
| Interpreter.Interp.ExecStmts | duro/dli/interp_stmt.c:49-61 | executes a list up to the first statement that does not end normally |
| Interpreter.Interp.ExecIf | duro/dli/interp_stmt.c:63-92 | evaluates the condition outside of the scope of the branch |
| Interpreter.Interp.ExecCaseStmt | duro/dli/interp_stmt.c:94-139 | executes the first branch whose condition holds |
| Interpreter.Interp.ExecWhileStmt | duro/dli/interp_stmt.c:141-192 | executes the loop as specified, each iteration in a scope of its own |
| Interpreter.Interp.ExecForStmt | duro/dli/interp_stmt.c:194-234 | evaluates the bounds into the variable and executes the loop |
| Interpreter.Interp.ExecForLoop | duro/dli/interp_stmt.c:235-287 | looks the variable up again after each iteration and increments it |
| Interpreter.Interp.ExecForeachStmt | duro/dli/interp_stmt.c:289-439 | pushes the loop on the chain and takes it off however it ends |
| Interpreter.Interp.ExecForeachLoop | duro/dli/interp_stmt.c:368-430 | executes the body for each tuple, as specified |
| Visiting.ForeachVisits | duro/dli/interp_stmt.c:289-439 | FOREACH goes through the tuples that its table yields in rounds, as the next two rows say, and ends as the last round or the end of the table tells; without a variable or a table it fails |
| Visiting.RoundsInTurn | duro/dli/interp_stmt.c:368-430 | the k-th round starts with the k-th tuple in the loop variable, and those after it are still to come |
| Visiting.RoundsVisitAll | duro/dli/interp_stmt.c:368-430 | a loop that ends normally, but neither by LEAVE nor because a tuple could not be fetched, has had one round for each tuple |
| Visiting.ForVisits | duro/dli/interp_stmt.c:194-287 | FOR starts with the value of its first expression in the variable, counts from round to round, and ends after that of its last |
| Visiting.CountsInOrder | duro/dli/interp_stmt.c:235-287 | if the body leaves the variable alone, the rounds have the numbers from first to last, each one once |
| Visiting.WhileTests | duro/dli/interp_stmt.c:141-192 | every round of WHILE starts because the condition is true |
| Visiting.TestsEnd | duro/dli/interp_stmt.c:141-192 | a WHILE loop that ends normally, but not by LEAVE, ends because the condition is false |
| Visiting.IfMeans | duro/dli/interp_stmt.c:63-92 | IF runs the first branch iff the condition is true and the second iff it is false |
| Visiting.CaseMeans | duro/dli/interp_stmt.c:94-139 | CASE runs the branch of the first condition that is true, after all before it were false, or the last branch if all are |
| Interpreter.Interp.ExecTry | duro/dli/interp_stmt.c:1840-1890 | the first CATCH for the type of the error handles it |
| Interpreter.Interp.ExecCatchClause | duro/dli/interp_stmt.c:1791-1838 | binds the error in a new scope, keeps whether it was retryable and clears it |
| Catching.TryMeans | duro/dli/interp_stmt.c:1840-1890 | TRY ends like its body, or as the first CATCH for the type of its error does, which starts with that error in its variable; without such a clause it fails with the error |
| Catching.RaiseIsCaught | duro/dli/interp_stmt.c:1762-1838 | so the clause for its type handles a raised error |
| Variables.VarMeans | duro/dli/interp_vardef.c:14-135 | VAR succeeds iff the name is not in the innermost scope and its value can be computed; the name then stands for a new variable, other names and values stay; DROP (duro/dli/interp_core.c:165-244) restores what every name stood for, except that it refuses a constant |
| Variables.SeenIsFound | duro/dli/interp_core.c:75-102 | expressions see under a name the value that the lookup from the innermost scope outwards finds |
| Variables.FoundInnermost | duro/dli/interp_core.c:75-102 | the innermost scope that has the name decides, else the global variables |
| Variables.EvaluateMeans | duro/dli/interp_core.c:75-102 | an expression is evaluated over exactly what is visible and over what the current transaction sees; a failure leaves all variables alone |
| Variables.AssignMeans | duro/dli/interp_assign.c:361-393 | an assignment succeeds iff its value can be computed and the name is that of a variable of the same type, not a constant; then expressions see the value under every name of the variable and nothing else changes |
| Interpreter.Interp.EvaluateArgs | duro/dli/interp_stmt.c:2346-2391 | variables are passed by reference, other arguments by value |
| Interpreter.Interp.ExecCallStmt | duro/dli/interp_stmt.c:2317-2479 | finds the operator for the number of arguments, else one of the package of the running operator; an update argument must be a variable and not a constant |
| Interpreter.Interp.ExecBody | duro/dli/interp_stmt.c:1516-1594 | replaces the scope chain by that of the parameters, and restores chain and operator however the body ends |
| Calls.ArgsMean | duro/dli/interp_stmt.c:2346-2391 | the arguments can be evaluated iff every variable is there and every expression has a value after those before it; variables are passed as themselves, expressions as new locations with their values |
| Calls.ParamsStand | duro/dli/interp_stmt.c:1516-1525 | in the scope of an operator every parameter stands for its own argument, as a constant unless it is for update, and there is no other name |
| Calls.ParametersHold | duro/dli/interp_stmt.c:1516-1525 | at the start of the body a parameter stands for the variable that was passed, or has the value of the expression that was passed |
| Calls.CallMeans | duro/dli/interp_stmt.c:2317-2479 | a call runs the body of the operator that its name and the number of arguments choose, from a state in which its parameters stand for their arguments, restores the caller, and otherwise fails with the error for the first thing that is wrong |
| Calls.AssignOpMeans | duro/dli/interp_stmt.c:1451-1619 | an assignment from a read-only operator does the same and stores what it returns |
| Calls.AssignedIsReturned | duro/dli/interp_stmt.c:1387-1431 | the value stored is that of the expression of the RETURN that the body reached, in the state at that RETURN |
| Interpreter.Interp.ExecStmt | duro/dli/interp_stmt.c:2559-2769 | executes any statement as specified and keeps the depth of the scope chain |
| Interpreter.Interp.RepeatAttempts | duro/dli/interp_stmt.c:2796-2832 | repeats the statement as long as it fails retryably in an implicit transaction |
| Interpreter.Interp.ExecStmtImplTx | duro/dli/interp_stmt.c:2771-2833 | a statement outside of a transaction gets one of its own, unless it controls transactions |
| Interpreter.Interp.ProcessStatement | duro/dli/interp_stmt.c:2840-2888 | between statements no local scope, loop or operator is left |
| Discipline.ExecSound | duro/dli/interp_stmt.c:49-439 | every statement, however it ends, leaves the scope chain but for names of the innermost scope, the FOREACH chain and the current operator as they were; transactions change only by logged events; after a retryable error the transaction is where it started |
| Discipline.ForeachSound | duro/dli/interp_stmt.c:289-439 | the same for FOREACH, and no transaction is ended in it |
| Discipline.InvokeSound | duro/dli/interp_stmt.c:1516-1594 | the same for operators |
| Isolation.OperatorSeesNoLocals | duro/dli/interp_stmt.c:1516-1594 | what an operator does is the same whatever scopes the caller has and whatever value a local variable that is not an argument has, and that value stays |
| Isolation.ExecBlind | duro/dli/interp_core.c:75-94 | the same for any statement and a location that no visible variable has |
| Leaving.ExecContained | duro/dli/interp_stmt.c:141-439 | LEAVE gets out of a statement only for a target of a LEAVE in it without a loop of that label and without FOREACH around; without a bare LEAVE in a labelled loop and a RETURN in FOREACH no null pointer is followed and every failure has an error |
| Reaching.LeavePasses | duro/dli/interp_stmt.c:49-287 | a LEAVE that execution reaches gets through blocks, IF, CASE, TRY, CATCH and every WHILE and FOR loop with another label, and ends the statement; so does a RETURN, through every WHILE and FOR loop |
| Reaching.LeaveStops | duro/dli/interp_stmt.c:141-287 | at a WHILE or FOR loop whose label is the target it ends the loop normally, at one with another label it ends that too; without a target a label makes the code follow a null pointer |
| Reaching.EndsWithLeave | duro/dli/interp_stmt.c:49-439 | a statement ends with LEAVE iff its execution reaches that LEAVE, not inside FOREACH, and no WHILE or FOR loop between has the label |
| Reaching.EndsWithReturn | duro/dli/interp_stmt.c:1387-1431 | a statement of a read-only operator ends with RETURN iff its execution reaches a RETURN, not inside FOREACH, whose expression has a value; that is the value returned |
| Reaching.ReturnValue | duro/dli/interp_stmt.c:1387-1431 | RETURN in a read-only operator returns the value of its expression, and fails without one |
| Leaving.InvokeContained | duro/dli/interp_stmt.c:1451-1759 | an operator never ends with LEAVE or RETURN |
| Leaving.BareLeaveInLabelledLoop | duro/dli/interp_stmt.c:166-171 | a LEAVE without a target in a labelled loop compares a null pointer |
| Reaching.ForeachSwallows | duro/dli/interp_stmt.c:368-430 | a FOREACH loop stops any LEAVE of its body in any iteration and turns RETURN into a failure without an error; with LEAVE a WHILE or FOR loop would end otherwise iff the target is not the label of the loop |
| Reaching.ForeachStopsLeave | duro/dli/interp_stmt.c:368-430 | so it stops every LEAVE that execution reaches in it |
| Leaving.FetchErrorLosesUpdates | duro/dli/interp_stmt.c:368-430 | a retryable error while fetching takes the transaction back to what its parent sees and is then forgotten |
| Calm.CatchLosesUpdates | duro/dli/interp_stmt.c:1791-1890 | so does a CATCH of a retryable error, whatever came before it |
| Calm.ExecLossless | duro/dli/interp_stmt.c:49-439 | a statement without TRY and FOREACH, in it or in operators, that does not fail has reset and aborted no transaction |
| Calm.CommitsAllWrites | duro/dli/interp_stmt.c:2796-2832 | an attempt of such a statement that succeeds commits its last write |
| Calm.LossForgets | duro/dli/interp_stmt.c:2796-2832 | after a reset or abort the only transaction sees what it would see if nothing had happened in it before |
| Calm.CommitsAfterLoss | duro/dli/interp_stmt.c:2796-2832 | after a reset or abort an attempt that succeeds commits what only the events after it lead to |
| Calm.ImplicitTxKeepsWrites | duro/dli/interp_stmt.c:2771-2833 | under an implicit transaction the database is then as the last write of the successful attempt has left it |
| Constants.ConstantsKept | duro/dli/interp_stmt.c:194-439 | the value at a location that only constants have never changes, whatever a statement does, if no FOR or FOREACH in it takes such a constant as its variable, and none in an operator a global one or a parameter that is not for update |
| Constants.ForOverwritesConstant | duro/dli/interp_stmt.c:194-234 | FOR over a constant that no assignment may change overwrites it |
| Constants.ForSetsConstant | duro/dli/interp_stmt.c:194-234 | for every FOR over a constant and every state: some machine makes it store any given int there iff the constant is an int; otherwise no machine changes anything |
| Constants.ForeachSetsConstant | duro/dli/interp_stmt.c:289-439 | for every FOREACH over a constant and every state, whatever the body: some machine makes it leave any given value there |
| Constants.AliasedParameter | duro/dli/interp_stmt.c:2317-2479 | a variable passed as an update argument and as another one changes under its constant name |
| ImplicitTx.ImplicitTxOnce | duro/dli/interp_stmt.c:2771-2833 | a statement without transaction control that succeeds does so in one attempt, the first or one after retryable failures only, that starts in the state left by the one before, finds the database as it was and commits what it sees at its end; one that fails does so in an attempt that cannot be repeated, and has no effect on the database |
| ImplicitTx.AttemptsOnce | duro/dli/interp_stmt.c:2796-2832 | the same for the loop, from any state in which the transaction has just started |
| ImplicitTx.ExecutedOnce | duro/dli/interp_stmt.c:2771-2833 | inside a transaction, without implicit transactions or without a database, and if it controls transactions, a statement is executed once, and nothing is committed or rolled back |
| Database.UpdateMeans | duro/dli/interp_assign.c:1027-1046 | an update succeeds iff a transaction runs and the database can compute it from the visible variables and what the transaction sees; the transaction then sees what was computed and nothing else changes |
| Database.DropTableMeans | duro/dli/interp_core.c:165-244 | the same for DROP of a table |
| Database.FailureMeans | duro/rel/stable.c:896-902 | what a failing operation does to the transactions: a deadlock ends all of them, other errors the current one, take it back to its start or leave it alone |
| Database.ImplicitUpdate | duro/dli/interp_stmt.c:2771-2833 | an update that succeeds under an implicit transaction leaves in the database what it makes of the variables and the database as they were |
| Database.UpdateTakesEffect | duro/dli/interp_stmt.c:2840-2888 | an update between statements that can be computed, in a transaction that can begin and be committed, succeeds, and is in the database afterwards |
| ImplicitTx.RollbackUndoes | duro/dli/interp_stmt.c:441-567 | in the interpreter too, ROLLBACK restores all transactions and the database of its BEGIN iff it began outside of all transactions or no deadlock occurred |
| ImplicitTx.ForeachEndsNothing | duro/dli/interp_stmt.c:506-552 | a FOREACH loop, whatever it calls, leaves the database alone and the transactions around the innermost too, unless a deadlock ends them |
| ImplicitTx.SessionKeepsTopLevel | duro/dli/interp_stmt.c:2840-2888 | over every sequence of statements no scope, loop or operator is left behind, and every failure has an error |
| Fuel.ExecSettled | duro/dli/interp_stmt.c:49-439 | a result that does not lack fuel is the same with more fuel |

## Left out

- Generic tuple types, which have any attributes besides those given, and `RDB_type_matches` on them: types here are closed.
- `RDB_extend_tuple_type` and `RDB_get_op_by_args`: they add only cases of what is there.
- Memory allocation that fails, and freeing; a node that a rewriting drops is simply no longer part of the expression.
- The shortcut by which type equality compares pointers first: types are values, equal values are equal.
- Writing the value of a tuple attribute through the entry that was found: modelled as replacing the entry in its slot.
- The hash map behind the operator map: a map from names to chains.
- The types that expression nodes cache, and the results that the optimizer attaches to them.
- Arrays of attributes that are always filled exactly are sequences; those of WRAP and UNWRAP are arrays. Reserving an array of no elements is taken to succeed.
- `RDB_fdb_index_get_fields`: it does not build a key of the fields of the index (duro/fdbrec/fdbindex.c:194-201); lookups are stated on the store.
- The encoding of fields and of secondary keys: records and keys are byte strings, secondary keys a function of the record.
- Futures and error codes of the FoundationDB client. An error of a commit is taken to mean that it had no effect, which the client does not promise for an unknown result.
- The Berkeley DB and PostgreSQL layers, the grammar and the lexer, un-parsing, the optimizer, evaluation and multiple assignment.
- Definitions of types, operators, constraints, tables and packages, LOAD, EXPLAIN and assignments to parts of variables.
- Tables as arguments of operators and as loop sources by name; a name that is no variable is a name error.
- The temporary change of the types of arguments while an operator runs, and the line and operator that are kept for error messages.
- Type checks of expressions before their evaluation: their failure is a failure of the evaluation.
- Read-only operators are called as the whole right side of an assignment only; RAISE has the type of its error given.
- A FOREACH loop has its tuples fixed at its start; changes of the table while it runs are not seen.
- The result of the last iteration decides nothing for an empty table, although the code then reads a variable without a value.
- Calls.CallMeans: for operators whose parameters have distinct names; with a repeated name the last parameter counts.
- Rewriting.WithExact: assumes intros with distinct names and that no name of an attribute interferes; for two intros of one name there is only Rewriting.WithTakesFirst, because a later intro may hide that an earlier one was out of order.
- Which attributes an operator binds is part of the expression, although it follows from the type of an argument, which a rewriting may change; `expr_resolve_varnames` and the transformation of UPDATE are not part of this model.
- Constants.ConstantsKept: the condition is sufficient; for a single loop that is executed Constants.ForSetsConstant and Constants.ForeachSetsConstant show that it is needed, but a loop that names a constant and is never reached changes nothing.
- Constants.ForeachSetsConstant: the loop variable may get a value of any type; the code checks that its type is that of the tuples.
- ImplicitTx.CommitMeans: `RDB_commit` also reports an error if deleting dropped storage fails after the record transaction was committed (duro/rel/transaction.c:171-177); here a failed commit has no effect.
- The flag that an error is retryable stays in the execution context until `RDB_clear_err`, so a later error that replaces a retryable one passes for retryable (duro/obj/excontext.c:63-103); here the flag belongs to each error.
- FOREACH fetches with the transaction that was current when the loop started; here with the innermost one, which a BEGIN TRANSACTION in the body changes.
- `Duro_get_db` may fail for other reasons than that there is no database or connection (duro/dli/interp_core.c:323-343); here there is a database or not.
- Errors of BEGIN and ROLLBACK themselves roll nothing back: a deadlock there is an error like any other.
- Interpreter.Interp.ExecForLoop: a variable at the largest int is undefined behaviour instead of wrapping around.
