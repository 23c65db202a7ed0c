# Verification of the MongoDB wire protocol layer for SAP HANA

This project models the parts of the layer that carry its meaning, and proves what they promise:

* the **filter compiler** (`Spelling`, `Where`, `WhereCompiler`, `Like`, `Sql`, `Filter`, `FilterMeaning`, `Rows`,
  `ClauseTexts`): a MongoDB filter becomes the tokens of a SQL condition. The condition has a grammar (NOT before AND
  before OR) and a three-valued meaning (truth tables of section 8.12, LIKE of section 8.5 of ISO/IEC 9075:1992);
* the **text of values and conditions** (`Rendering`, `RenderingLoops`, `WrittenValues`, `WrittenText`, `Statements`,
  `PercentFreeFilters`, `FormattedFilters`): templates and arguments, what `fmt.Sprintf` makes of them, and what
  formatting a finished text once more does to it;
* the **update command's plan and guard** (`Update`, `UpdateCompiler`, `UpdateMeaning`, `RowUpdate`): the second
  condition that keeps an update away from documents it would not change;
* the **write commands** as steps over a collection (`Sending`, `Commands`, `CommandSafety`, `CommandMeaning`,
  `PercentSigns`, `WrongIds`, `CommandHandlers`);
* the **BSON codec** and **OP_MSG framing** (`LittleEndian`, `Numerals`, `Utf8`, `Bson`, `BsonCodec`, `BsonFormat`,
  `Wire`, `WireCodec`, `WireFormat`, `WireMeaning`): the document grammar of BSON version 1.1 and the OP_MSG section of
  the MongoDB Wire Protocol, and the document that a message stands for;
* **documents in memory and exclusion projection** (`HeapDocument`, `DocumentTree`, `Projection`, `Exclusion`,
  `ProjectionMeaning`): documents that are copied by value while sharing their map and key storage;
* the **storage format** (`JsonKeys`, `Storage`, `StoredForms`, `ReadBack`, `ReadClean`): the key-order scanner over
  JSON tokens, the storage round trip, and exactly which values read back as themselves.

Code that computes a value by recursion is modelled by functions. Code that changes something step by step is
modelled by methods and classes with the source's own variables (`Compiler.isNor` and `norCounter`, `Document.m` and
`keys`, `Message.sections`, the cursor variables and `arrayCount` of `ExcludePath`), each proved against the function
that says what it computes; the theorems are about those functions. What both sides of such a proof take from one
table or constant (operator names, type bytes, texts of tokens, reserved names) is stated once more in literals, in
`FilterMeaning`, `ClauseTexts`, `BsonFormat`, `WireFormat` and `StoredForms`.

## What is assumed about the database

Nothing is executed here, so what HANA does with a statement is an assumption:

* a field is unset, null or a value; a comparison, LIKE or IS NULL on an unset field, and a comparison or LIKE on a
  null field, is unknown; IS SET and IS UNSET are two-valued; LIKE on a value that is not a string is false;
* how two values compare is a parameter (`compare`); where a theorem needs it to be symmetric, reflexive, or able to
  tell two given values apart, it says so;
* `UPDATE ... SET` creates missing documents on the way to a path, `UNSET` removes a field (`RowUpdate`);
* `SELECT ... LIMIT 1` returns any one of the selected documents; the id that is selected from it comes as the JSON
  text that storing the id would write;
* how number tokens print, and which doubles print as integers, are parameters (`Storage.Numbers`);
* the formatted text is known as long as formatting meets nothing but `%%` and the placeholders that have arguments.
  Where it leaves an error mark (or where a flag or a width makes it something else), what the database makes of the
  text is left open: it may read any condition or value in it, or refuse it (`Sending.Database`).

## Where the code differs from what one would expect

These are results: each is a lemma with a concrete input or an exact condition.

* `$ne` and `$exists: false` below `$nor` are wrong on exactly the documents without the field (`NeUnderNor`,
  `NotExistsUnderNor`). Outside `$nor`, `$not` over several operators negates only the first (`NotOverSeveral`); below
  `$nor` the operators form one group, and it is right (`NotMeaning`).
* An error inside `$nor` leaves the compiler in nor mode, and the next filter is compiled differently
  (`ErrorInsideNorLeaks`).
* Regular expressions of one character, and `..`, are translated wrongly (`TranslationIsRightExactly`).
* Names of operators are found in any case, and a capital I with a dot above counts as an i
  (`SpelledInAnyCase`). Every comparison with null, `$lt` too, asks whether the field is null (`NullTokens`).
* A numeric part of a dotted key is always an array position, never a field name (`PathFindsWhatKeyFinds`).
* The update guard leaves out a document in which a null is to be replaced, unless another target shows a change
  (`GuardIsExact`, `NullIsNotOverwritten`).
* With the empty filter the guard makes the statement unreadable: `updateOne` does nothing and reports every document
  as matched, `updateMany` fails (`EmptyFilterUpdatesNothing`).
* Only `_id` itself is protected from updates, not what lies below it (`PlanKeepsId`, `BelowIdIsNotProtected`).
* An operator document as `_id` is checked by its meaning: it is accepted again exactly while no stored `_id` matches it
  (`OperatorIdCheck`, `OperatorIdIsNotUnique`). A document `_id` whose text is altered by formatting is compared with
  the altered one (`UniqueIdIsExact`, `AlteredIdTwice`).
* The id of the document that deleteOne or updateOne has selected is read back from JSON before it is used. The
  statement reaches the selected document exactly when `{"_id": id}` reads back as itself (`ReachesSelectedExactly`,
  `DeleteOneReachesExactly`, `UpdateOneReachesExactly`), and that is decided by the id and the keys that the scanner
  finds in its JSON tree (`ReadBackExactly`). Otherwise another document is removed (`DeleteOneTakesTheWrongOne`), or
  the command fails (`DeleteOneFails`); updateOne reports a modified document even where none has changed.
* updateMany and deleteMany format the finished condition once more. It is sent as it was compiled exactly when it has
  no percent sign (`SentAsCompiledExactly`), and that can be seen on the filter (`PercentFreeExactly`); otherwise they
  reach what the formatted filter matches (`FormattedClause`, `DeleteManyTakesFormatted`, `UpdateManyTakesFormatted`,
  `DeleteManyTakesTheWrongOne`) or send a broken statement, as for `{f: /^ab/}`
  (`PatternBreaksStatement`).
* A document's text is its own exactly when percent signs stand only in strings below no array
  (`TwoPhasesAreDirectExactly`, `LiteralDocuments`).
* `whereDocument` forgets the error of an array that is not the last field; `updateDocument` does not
  (`WhereForgetsArrays`).
* The key scanner loses or invents keys behind nested empty containers and behind texts that are brackets; it is right
  exactly on the objects that a walk with its counters goes through in order (`KeysInOrderExactly`,
  `EmptyInsideLosesKey`, `BracketTextShiftsTurns`).
* A field of a message's body whose name is not valid, and a document sequence whose identifier is not, are left out of
  the message's document without an error (`MergeMeaning`).
* A projection's fields are taken in the order in which its map is ranged over. Two exclusions give the same in either
  order exactly under the condition `OrderFree` (`CommuteExactly`); for two elements of one array, exactly when the
  later position is past the end or holds the same as the position behind it (`ElementsCommuteExactly`,
  `OrderOfElementsMatters`).

## Model

| member | source | states |
|---|---|---|
| FilterMeaning.ClauseMeansFilter | internal/handlers/common/where.go:36-101 | compiler correctness: for every supported filter the SQL is produced, parses, and is True on exactly the documents the filter matches |
| Rows.QueryReturnsMatches | internal/handlers/common/where.go:36-141 | the same for real documents, with dotted keys and shifted array positions resolved on both sides |
| FilterMeaning.PairMeaning | internal/handlers/common/where.go:62-101 | every supported pair agrees with its meaning, two-valued below $nor |
| FilterMeaning.NoneMeaning | internal/handlers/common/where.go:330-427 | below $nor every member condition is True or False, so NOT is the opposite of matching |
| FilterMeaning.OpsMeaning | internal/handlers/common/where.go:431-551 | a conjunction of plain operators agrees with its meaning, guarded or not |
| FilterMeaning.NotMeaning | internal/handlers/common/where.go:503-514 | $not over one plain operator, and below $nor over any number of them, is right on every document, without the field too |
| FilterMeaning.NeUnderNor | internal/handlers/common/where.go:515-542 | $ne below $nor is right exactly on documents that have the field |
| FilterMeaning.NotExistsUnderNor | internal/handlers/common/where.go:478-542 | $exists: false below $nor is right exactly on documents that have the field |
| FilterMeaning.NotOverSeveral | internal/handlers/common/where.go:503-514 | $not over several operators outside $nor: the tree it parses to, and exactly when that is right |
| FilterMeaning.LogicMeaning | internal/handlers/common/where.go:330-427 | $and holds where all members match, $or where some does, $nor where none does, named in any case |
| FilterMeaning.FieldOpTable | internal/handlers/common/where.go:432-467 | each of the twelve names of field operators, in any case, has its own operator; no other key has one |
| FilterMeaning.LogicOpTable | internal/handlers/common/where.go:331-341 | the same for $and, $or and $nor |
| Spelling.SpelledInAnyCase | internal/handlers/common/where.go:465-467 | strings.ToLower gives a name exactly when the key spells it letter by letter in either case, with the dotted capital I for an i |
| ClauseTexts.ComparisonTokens | internal/handlers/common/where.go:432-543 | in any spelling: the tokens of $eq, $gt, $gte, $lt, $lte, $ne and $size with a literal, for every field and value |
| ClauseTexts.NullTokens | internal/handlers/common/where.go:515-539 | every comparison with null becomes IS NULL, and $ne the opposite or unset |
| ClauseTexts.ExistsTokens | internal/handlers/common/where.go:478-490 | $exists asks for SET or UNSET, and refuses everything that is no boolean |
| ClauseTexts.RegexTokens | internal/handlers/common/where.go:649-665 | $regex becomes LIKE exactly for strings and regular expressions without options that hold neither (?i) nor (?-i) anywhere |
| ClauseTexts.ValueRefused | internal/handlers/common/where.go:187-190 | arrays and dates are refused under every comparison |
| ClauseTexts.OtherNamesRefused | internal/handlers/common/where.go:467-471 | every other operator name is refused as not implemented |
| ClauseTexts.AllTokens | internal/handlers/common/where.go:554-646 | $all: one FOR ANY for every listed value, in order, joined by AND |
| ClauseTexts.KeyExactly | internal/handlers/common/where.go:104-141 | a key is accepted exactly when no two numbers follow each other and none is negative; then its path has one step for each part, numbers shifted by one |
| ClauseTexts.UpdateKeyExactly | internal/handlers/crud/msg_update.go:295-327 | the same for the keys of an update, where negative numbers pass |
| ClauseTexts.LiteralsExactly | internal/handlers/common/where.go:144-196 | exactly which values stand in a condition as themselves |
| ClauseTexts.TokenTexts | internal/handlers/common/where.go:432-447 | the text of every token |
| ClauseTexts.ScalarTexts | internal/handlers/common/where.go:144-196 | the text of every scalar, null inside and outside a document |
| ClauseTexts.NestedTexts | internal/handlers/common/where.go:198-322 | the texts of [null, null] and {a: 1, b: [null, null]} |
| ClauseTexts.PathWithPosition | internal/handlers/common/where.go:104-141 | the text of the path of "a.0.b" |
| ClauseTexts.WholeText | internal/handlers/common/where.go:36-59 | the whole clause of {a: {$lt: 5}} |
| Numerals.AtoiOfDigits | internal/handlers/common/where.go:109-121 | a part of a key is a number exactly as far as 64 bits go, with either sign |
| Filter.PairText | internal/handlers/common/where.go:62-101 | precedence safety: the text of a pair is factors joined by AND, with no bare OR |
| Filter.LogicText | internal/handlers/common/where.go:356-418 | joining members inside $and, $or and $nor gives the text of the intended group |
| Filter.OpsText | internal/handlers/common/where.go:431-551 | the operator loop writes the text of the guarded factors |
| Filter.LoneText | internal/handlers/common/where.go:478-543 | $not, $ne and $exists: false write the text of one self-contained factor |
| Filter.ClauseParses | internal/handlers/common/where.go:36-59 | the WHERE clause of a supported filter parses to exactly the factors of its pairs |
| Sql.TermsParse | internal/handlers/common/where.go:356-418 | the printed text of a condition tree parses back to that tree, NOT before AND before OR |
| Rows.PathFindsWhatKeyFinds | internal/handlers/common/where.go:104-141 | SQL path and filter key find the same value, exactly unless a number names a document field that exists |
| WhereCompiler.WhereKeyLoop | internal/handlers/common/where.go:104-141 | the loop over the parts of a key computes the path: numbers shifted by one, two in a row and negative ones refused |
| WhereCompiler.AllLoop | internal/handlers/common/where.go:554-646 | the $all loop computes one FOR ANY per listed value |
| WhereCompiler.FieldExpressionLoop | internal/handlers/common/where.go:431-551 | the operator loop of one field, with the error a later operator forgets and the early return of $not |
| WhereCompiler.Compiler.WherePair | internal/handlers/common/where.go:62-101 | tokens of a pair under the current mode; the counter grows by the $nor expressions left open by an error |
| WhereCompiler.Compiler.WherePairs | internal/handlers/common/where.go:382-401 | the pairs of one member, joined by AND |
| WhereCompiler.Compiler.LogicMembers | internal/handlers/common/where.go:365-410 | the members of a logic expression, with their joiners |
| WhereCompiler.Compiler.LogicExpression | internal/handlers/common/where.go:330-427 | isNor holds exactly when norCounter is positive; success restores both |
| WhereCompiler.Compiler.CreateWhereClause | internal/handlers/common/where.go:36-59 | the SQL depends only on the filter and the mode; without an error the mode is restored |
| WhereCompiler.Run | internal/handlers/common/where.go:324-427 | over every run of calls without errors each filter gets the SQL it would get alone |
| WhereCompiler.ErrorInsideNorLeaks | internal/handlers/common/where.go:349-425 | an error inside $nor leaves the mode on, and the next filter is compiled differently |
| Like.TranslateLoop | internal/handlers/common/where.go:649-760 | the character loop with its pending-dot and escape flags computes the LIKE pattern |
| Like.TranslationPreservesMatching | internal/handlers/common/where.go:649-760 | the LIKE pattern matches exactly the one-line texts in which the expression is found |
| Like.TranslationIsRightExactly | internal/handlers/common/where.go:649-760 | among simple expressions the translation is right exactly when the expression is long enough (or a lone newline) |
| WrittenText.DocumentIsWritten | internal/handlers/common/where.go:198-269 | the text that whereDocument and updateDocument give for a document is the direct text of the document its keys and arrays are formatted to; where formatting fails there is no such text |
| WrittenText.TwoPhasesAreDirectExactly | internal/handlers/common/where.go:198-322 | the two phases give the direct text of a document exactly when percent signs stand only in strings below no array |
| WrittenText.ArrayIsDirectExactly | internal/handlers/common/where.go:272-322 | the same for an array on its own: exactly when its percent signs stand only inside documents, in strings below no array of theirs |
| Rendering.SurvivesFormatting | internal/handlers/common/where.go:266-266 | a finished text survives being formatted again exactly when it has no percent sign |
| Rendering.DocumentFails | internal/handlers/crud/msg_update.go:383-452 | whereDocument and updateDocument return an error exactly on these documents |
| Rendering.WhereForgetsArrays | internal/handlers/common/where.go:241-253 | updateDocument succeeds exactly where whereDocument does without having forgotten the error of an array |
| Rendering.WhereAndUpdateAgree | internal/handlers/crud/msg_update.go:383-452 | where updateDocument succeeds, both give the same text |
| RenderingLoops.WhereDocument | internal/handlers/common/where.go:198-269 | the loop over keys, template and argument list, with the array error that the next field overwrites |
| RenderingLoops.UpdateDocument | internal/handlers/crud/msg_update.go:383-452 | the loop of updateDocument, which stops at an array error |
| RenderingLoops.PrepareArrayForSQL | internal/handlers/common/where.go:272-322 | the loop over elements, template and argument list, and the rest it returns beside an error |
| Statements.LiteralDocuments | internal/handlers/common/where.go:144-196 | a document stands in a condition as itself exactly when it is supported and its percent signs stand only in strings below no array |
| Statements.LiteralIsWritten | internal/handlers/common/where.go:144-196 | the text that whereValue writes is the direct text of the literal token |
| Statements.ConditionFormats | internal/handlers/crud/msg_update.go:128-132 | what fmt.Sprintf makes of a condition is the text of the formatted condition, name by name and value by value |
| Statements.SentAsCompiledExactly | internal/handlers/crud/msg_update.go:128-132 | the condition that is sent is the compiled one, as tokens and as text, exactly when it has no percent sign |
| PercentFreeFilters.PercentFreeExactly | internal/handlers/crud/msg_update.go:128-132 | the condition of a supported filter has no percent sign exactly when the filter has none in a key, a string or the LIKE pattern of a regular expression |
| FormattedFilters.FormattedClause | internal/handlers/crud/msg_update.go:128-132 | the formatted condition of a supported filter is the condition of the filter with its keys and strings formatted |
| FormattedFilters.KeyFormats | internal/handlers/common/where.go:104-141 | formatting a dotted key formats the names of its path and keeps its positions |
| UpdateCompiler.UpdateKeyLoop | internal/handlers/crud/msg_update.go:295-327 | the loop over the parts of a key computes the assigned path, negative positions let through |
| UpdateCompiler.CreateSetAndUnset | internal/handlers/crud/msg_update.go:249-292 | the loop over $set or $unset: the targets in order and the "IS UNSET OR ..." text, or the first error |
| UpdateCompiler.CreatePlan | internal/handlers/crud/msg_update.go:165-247 | the plan of an update document: unimplemented operators, the three guard forms, replaceOne refused |
| ClauseTexts.UnimplementedRefused | internal/handlers/crud/msg_update.go:166-195 | an update that names any of the 24 unimplemented operators is refused as a whole |
| ClauseTexts.PlanFollowsUpdate | internal/handlers/crud/msg_update.go:165-292 | the plan assigns the fields of $set and removes those of $unset, path by path and value by value, in order |
| ClauseTexts.IdKeys | internal/handlers/crud/msg_update.go:263-266 | the keys that are taken for "_id" are its four spellings |
| Update.SameKey | internal/handlers/crud/msg_update.go:295-327 | wherever the filter accepts a key, the update writes the path that the guard reads |
| Update.GuardText | internal/handlers/crud/msg_update.go:216-240 | the guard is AND and the text of one self-contained factor |
| Update.GuardedClauseParses | internal/handlers/crud/msg_update.go:128-130 | filter and guard parse to the filter's factors and one more, exactly when the filter is not empty |
| UpdateMeaning.GuardTrue | internal/handlers/crud/msg_update.go:216-240 | the guard is True exactly on rows where some target shows a change |
| UpdateMeaning.GuardIsExact | internal/handlers/crud/msg_update.go:165-247 | guard True iff the update changes a target; this holds exactly unless only a null is to be replaced |
| UpdateMeaning.GuardSelectsChangedDocuments | internal/handlers/crud/msg_update.go:80-84 | the guard is True on exactly the documents the update changes at all |
| UpdateMeaning.UpdatingTwiceSelectsNothing | internal/handlers/crud/msg_update.go:80-134 | after an update the same command selects that document no more |
| UpdateMeaning.NullIsNotOverwritten | internal/handlers/crud/msg_update.go:228-237 | {a: null} is not selected by {$set: {a: 1}} |
| RowUpdate.ApplyTargets | internal/handlers/crud/msg_update.go:249-292 | after an update with separate targets every target holds what it was given, or is gone |
| RowUpdate.ApplyElsewhere | internal/handlers/crud/msg_update.go:249-292 | a path that overlaps no target finds what it found before |
| Commands.UniqueIdIsExact | internal/handlers/common/unique.go:19-41 | the check says unique exactly when no document has an id equal to the one that is written, in either mode of the compiler |
| Commands.InsertOneExactly | internal/handlers/crud/msg_insert.go:55-85 | a document is inserted exactly when no stored id equals the one that is written and the document can be stored; then its stored form is appended, and nothing changes otherwise |
| Commands.InsertOneKeepsIds | internal/handlers/crud/msg_insert.go:62-84 | the stored form of an accepted document has a new id, unless its id is an operator document or a document whose text is altered |
| Commands.InsertAllKeepsIds | internal/handlers/crud/msg_insert.go:55-85 | inserting any list of documents keeps ids present and distinct |
| Commands.InsertAllCounts | internal/handlers/crud/msg_insert.go:55-92 | the count is the growth; the stored forms of the documents before a failing one stay, earlier ones are untouched |
| Commands.OperatorIdCheck | internal/handlers/common/unique.go:22-36 | for every supported operator document as "_id" the check says unique exactly when no stored id matches the expression |
| Commands.OperatorIdIsNotUnique | internal/handlers/crud/msg_insert.go:62-84 | so the same document is accepted again exactly while no stored id matches its "_id" |
| Commands.OperatorIdTwice | internal/handlers/crud/msg_insert.go:62-84 | {_id: {$gt: 5}} is inserted twice |
| Commands.AlteredIdTwice | internal/handlers/crud/msg_insert.go:62-84 | {_id: {a: ["50%%%%"]}} is inserted twice |
| CommandSafety.PlanKeepsId | internal/handlers/crud/msg_update.go:263-266 | an accepted update leaves "_id" alone exactly when no key begins with "_id." |
| CommandSafety.BelowIdIsNotProtected | internal/handlers/crud/msg_update.go:263-266 | {$set: {"_id.x": 1}} is accepted and makes two ids equal |
| CommandSafety.UpdateRowKeepsId | internal/handlers/crud/msg_update.go:128-132 | an update outside "_id" keeps the id of the document |
| CommandSafety.UpdateStepKeepsIds | internal/handlers/crud/msg_update.go:68-147 | every update entry keeps ids present and distinct and the number of documents, over the condition and the values that are actually sent |
| CommandSafety.ReachesSelectedExactly | internal/handlers/crud/msg_delete.go:85-102 | the id that was selected, read back and written again belongs to the selected document exactly when it reads back as itself |
| CommandSafety.UpdateOneTouchesOne | internal/handlers/crud/msg_update.go:96-126 | an entry without multi changes exactly one document that filter and guard selected, when there is one, no value is refused, and the ids of the selected documents read back as themselves |
| CommandSafety.UpdateOneTouchesAtMostOne | internal/handlers/crud/msg_update.go:96-126 | whatever the ids read back as, at most one document changes |
| CommandSafety.UpdateOneReachesExactly | internal/handlers/crud/msg_update.go:96-140 | where one document is selected, it is the one that changes if its id reads back as itself, and stays as it is otherwise; the reported count is the same |
| CommandSafety.DeleteStepKeepsIds | internal/handlers/crud/msg_delete.go:54-127 | every delete entry keeps ids present and distinct, over the condition that is actually sent |
| CommandSafety.DeleteStepCounts | internal/handlers/crud/msg_delete.go:115-126 | the count of an entry is what the collection loses; an error loses nothing |
| CommandSafety.DeleteOneTouchesOne | internal/handlers/crud/msg_delete.go:73-104 | an entry with a limit removes exactly one document that its filter selected, when there is one and the ids of the selected documents read back as themselves |
| CommandSafety.DeleteOneTouchesAtMostOne | internal/handlers/crud/msg_delete.go:73-104 | whatever the ids read back as, at most one document goes, and the count says so |
| CommandSafety.DeleteOneReachesExactly | internal/handlers/crud/msg_delete.go:73-126 | where one document is selected, it is the one that goes if its id reads back as itself, and stays otherwise |
| CommandSafety.UnwritableIdsFail | internal/handlers/crud/msg_delete.go:92-102 | where the selected ids come back as values that cannot be written, the entry is an error and nothing goes |
| CommandMeaning.DeleteManyRemovesMatches | internal/handlers/crud/msg_delete.go:105-126 | for a filter without percent signs, an entry whose limit is the Int32 0 or no Int32 removes the documents the filter matches and no others, and counts them |
| CommandMeaning.DeleteOneRemovesAMatch | internal/handlers/crud/msg_delete.go:73-126 | an entry whose limit is an Int32 other than 0 removes exactly one matching document when there is one, if the ids of the matching documents read back as themselves |
| CommandMeaning.UpdateManyUpdatesMatches | internal/handlers/crud/msg_update.go:128-146 | for a filter without percent signs, an entry whose multi is true updates exactly the matching documents; the guard is invisible but for the exact modified count |
| CommandMeaning.UpdateOneUpdatesAMatch | internal/handlers/crud/msg_update.go:95-140 | an entry whose multi is not true changes one matching document that needs it, if there is one, and nothing else, if the ids of these documents read back as themselves |
| CommandMeaning.EmptyFilterUpdatesNothing | internal/handlers/crud/msg_update.go:99-135 | with the empty filter nothing is updated, silently without multi and with an error with it |
| CommandMeaning.ModifiedAtMostMatched | internal/handlers/crud/msg_update.go:63-147 | over a whole message of supported filters and plain updates, no more documents are reported modified than matched |
| PercentSigns.DeleteManyTakesFormatted | internal/handlers/crud/msg_delete.go:105-115 | an entry whose limit is the Int32 0 or no Int32 removes and counts the documents that the formatted filter matches |
| PercentSigns.UpdateManyTakesFormatted | internal/handlers/crud/msg_update.go:128-146 | updateMany updates the documents that the formatted filter matches, and reports as matched those that the filter matches |
| PercentSigns.DeleteManyTakesTheWrongOne | internal/handlers/crud/msg_delete.go:105-115 | {f: "a%%b"} keeps the document that matches and removes {f: "a%b"} |
| PercentSigns.PatternBreaksStatement | internal/handlers/crud/msg_delete.go:105-115 | the supported filter {f: /^ab/} cannot be formatted |
| WrongIds.DeleteOneTakesTheWrongOne | internal/handlers/crud/msg_delete.go:85-115 | deleteOne {f: 1} keeps the match {_id: {a: [[]], b: ["x"]}, f: 1} and removes {_id: {a: [[]]}, f: 2} |
| WrongIds.DeleteOneFails | internal/handlers/crud/msg_delete.go:92-95 | deleteOne of a document with the id {oid: 5} is an error |
| CommandHandlers.Collection.IsIdUnique | internal/handlers/common/unique.go:19-57 | the check as it runs, with the compiler's mode kept |
| CommandHandlers.Collection.Insert | internal/handlers/crud/msg_insert.go:35-99 | the loop over documents computes the collection and the reply |
| CommandHandlers.Collection.DeleteEntry | internal/handlers/crud/msg_delete.go:56-126 | one entry does what a delete step may do |
| CommandHandlers.Collection.Delete | internal/handlers/crud/msg_delete.go:35-141 | a whole message is its entries one after the other; it keeps the invariant, and its count is what the collection loses |
| CommandHandlers.Collection.UpdateEntry | internal/handlers/crud/msg_update.go:69-147 | one entry does what an update step may do |
| CommandHandlers.Collection.UpdateWith | internal/handlers/crud/msg_update.go:86-147 | the statements of an entry: count, pick, change |
| CommandHandlers.Collection.Update | internal/handlers/crud/msg_update.go:40-162 | a whole message is its entries one after the other, with the sums of matched and modified documents; it keeps the invariant and the number of documents |
| CommandHandlers.Collection.Run | internal/handlers/crud/msg_insert.go:55-85 | every sequential run of commands keeps ids present and distinct; reported inserts minus deletes is the growth |
| Bson.DocumentCanonical | internal/bson/document.go:99-255 | whatever ReadFrom accepts is, byte for byte, what MarshalBinary writes for the result |
| Bson.DocumentLossless | internal/bson/document.go:273-423 | an encoded document followed by anything decodes to itself and leaves exactly what follows |
| Bson.DecodesExactly | internal/bson/document.go:99-423 | both directions as one equivalence, nested documents and arrays included |
| Bson.ArrayLossless | internal/bson/array.go:36-100 | an array survives the trip through its index keys |
| Bson.StringCanonical | internal/bson/string.go:37-83 | an accepted string is its length, its bytes (NULs included) and one NUL |
| Bson.RegexCanonical | internal/bson/regex.go:36-82 | an accepted regular expression is two NUL-terminated texts |
| Bson.DepthBound | internal/bson/document.go:99-165 | input of length l has nesting depth at most (l - 5) / 8 + 1 |
| BsonFormat.ElementFormat | internal/bson/tag.go:25-47 | an element is the literal byte of its type, its name, a zero, and its value |
| BsonFormat.ValueFormat | internal/bson/document.go:273-423 | the bytes of a value of every type: lengths with their terminating zero, truth as one byte, dates in milliseconds, identifiers as they are |
| BsonFormat.DocumentFormat | internal/bson/document.go:273-423 | a document is its own length, its elements one after the other, and a zero |
| BsonFormat.Int32Format | internal/bson/int32.go:60-66 | four bytes, two's complement, least significant first, as base-256 digits |
| BsonFormat.Int64Format | internal/bson/int64.go:60-66 | eight bytes in the same order |
| BsonFormat.ReadsInt32 | internal/bson/document.go:119-248 | 0C 00 00 00 10 61 00 01 00 00 00 00 is read as {a: 1} |
| BsonFormat.ReadsInt64 | internal/bson/document.go:119-248 | the bytes of {a: 2^32 + 2} as a 64-bit number |
| BsonFormat.ReadsDouble | internal/bson/document.go:119-248 | the bytes of {a: 1.5} |
| BsonFormat.ReadsDateTime | internal/bson/document.go:119-248 | the bytes of one millisecond after the epoch |
| BsonFormat.ReadsString | internal/bson/document.go:119-248 | the bytes of {a: "hi"} |
| BsonFormat.ReadsRegex | internal/bson/document.go:119-248 | the bytes of {a: /x/i} |
| BsonFormat.ReadsTrue | internal/bson/document.go:119-248 | the bytes of {a: true} |
| BsonFormat.ReadsFalse | internal/bson/document.go:119-248 | the bytes of {a: false} |
| BsonFormat.ReadsNull | internal/bson/document.go:119-248 | the bytes of {a: null} |
| BsonFormat.ReadsObjectID | internal/bson/document.go:119-248 | the bytes of an identifier |
| BsonFormat.ReadsDocument | internal/bson/document.go:119-248 | the bytes of {a: {}} |
| BsonFormat.ReadsArray | internal/bson/document.go:119-248 | the bytes of {a: [null]} |
| Utf8.ValidExactly | internal/types/document.go:38-38 | a text is valid exactly when it is the encoding of a sequence of Unicode characters |
| Utf8.KeysExactly | internal/types/document.go:28-39 | a key is valid exactly when it is such a text, not empty, not "$", and not "$" with one more byte |
| LittleEndian.PutOfValue | internal/bson/datetime.go:41-75 | the bytes of a fixed-width number are determined by its value |
| BsonCodec.Reader.ReadCString | internal/bson/cstring.go:34-42 | reads up to the first NUL and consumes exactly that |
| BsonCodec.ReadString | internal/bson/string.go:37-57 | the length-prefixed string reader computes its grammar rule |
| BsonCodec.Document.ReadFrom | internal/bson/document.go:99-255 | accepts and consumes exactly what the grammar says; afterwards map and keys agree |
| BsonCodec.Document.ReadElements | internal/bson/document.go:119-248 | the element loop fills map and keys with the fields of the input, and ends exactly at its end |
| BsonCodec.Document.Validate | internal/types/document.go:134-161 | succeeds exactly when the keys are valid and distinct and the map has no others |
| BsonCodec.ReadArray | internal/bson/array.go:36-59 | accepts exactly the documents whose keys are 0, 1, 2, ... |
| BsonCodec.MarshalDocument | internal/bson/document.go:273-423 | writes the encoding, and fails exactly when a nested document is invalid |
| BsonCodec.MarshalArray | internal/bson/array.go:76-100 | writes the elements as a document with index keys |
| BsonCodec.ReadThenWrite | internal/bson/document.go:99-423 | reading and writing back gives the consumed bytes |
| Wire.MessageCanonical | internal/wire/op_msg.go:112-295 | every accepted body is re-encoded to the same bytes |
| Wire.MessageLossless | internal/wire/op_msg.go:112-295 | every well-formed message decodes back from its encoding |
| Wire.DecodesExactlyMessage | internal/wire/op_msg.go:112-295 | both directions as one equivalence |
| Wire.SectionsLossless | internal/wire/op_msg.go:117-195 | the lookahead of 5 or 1 bytes never takes a trailing checksum for a section, nor a section for a checksum |
| Wire.HeaderLossless | internal/wire/msg_header.go:65-109 | a header within the bounds survives the trip |
| Wire.ReadsWhatWasWritten | internal/wire/msg_body.go:42-123 | an OP_MSG (2013) of at most 48000000 bytes is read exactly when it was written: the announced length is 16 more than the body |
| WireFormat.HeaderFormat | internal/wire/msg_header.go:98-109 | the four fields of a header stand in their places |
| WireFormat.HeaderSample | internal/wire/msg_header.go:98-109 | the bytes of a header |
| WireFormat.SectionFormat | internal/wire/op_msg.go:231-281 | a body is a zero and its document; a sequence is a one, the number of bytes behind it, its identifier with a zero, and its documents |
| WireFormat.MessageFormat | internal/wire/op_msg.go:223-295 | four bytes of flags, the sections, and four bytes of checksum exactly if the lowest flag is set |
| WireMeaning.MergeMeaning | internal/wire/op_msg.go:60-108 | an equivalence on the sections for when a message is accepted; then every sequence is found under its identifier as the array of its documents, every body field with its value, the names stand in the order of the sections, and there are no others |
| WireCodec.Message.ReadSections | internal/wire/op_msg.go:112-204 | the section loop with its lookahead computes the list of sections |
| WireCodec.Message.UnmarshalBinary | internal/wire/op_msg.go:207-220 | accepts exactly the bodies that decode, with nothing left over and a merge that succeeds |
| WireCodec.Message.MarshalBinary | internal/wire/op_msg.go:223-295 | writes the encoding of the message, or refuses a malformed one |
| WireCodec.Message.Document | internal/wire/op_msg.go:60-108 | accepts exactly the sections that follow each other well, and gives the document they stand for: body fields, then every sequence as an array |
| HeapDocument.Remove | internal/types/document.go:231-247 | removes key and entry, keeps the order of the rest in the shared key store; the panic is unreachable |
| HeapDocument.Set | internal/types/document.go:212-228 | refuses exactly invalid keys; an existing key keeps its position, a new one is appended; map and keys agree |
| HeapDocument.Add | internal/types/document.go:178-195 | refuses exactly existing and invalid keys; map and keys agree |
| HeapDocument.PerformAll | internal/types/document.go:178-247 | after any sequence of add, Set and Remove on one handle map and keys agree, and the keys stand where each operation put or left them |
| HeapDocument.CloseGap | internal/types/array.go:160-160 | the in-place shift of what lies behind the removed key or element |
| HeapDocument.ArrayCell.Set | internal/types/array.go:111-122 | changes one element of the store, or nothing when out of bounds |
| HeapDocument.ArrayCell.Delete | internal/types/array.go:153-163 | the later elements move down in the store and the array is one shorter; nothing when out of bounds |
| DocumentTree.Open | internal/types/document.go:50-53 | a tree of documents that share nothing can be opened at any part |
| DocumentTree.Close | internal/types/document.go:50-53 | and closed with another part made of the same objects; everything else still holds |
| Projection.ExcludePath | internal/handlers/common/projection.go:221-290 | the walk and write-back turn the tree into the tree without what the path leads to; map and keys agree everywhere |
| Projection.ThroughDocument | internal/handlers/common/projection.go:242-254 | the cursor variables and the countdown after a step through a document |
| Projection.ThroughArray | internal/handlers/common/projection.go:255-271 | the cursor variables and the countdown after a step through an array |
| Projection.WriteBackToDocument | internal/handlers/common/projection.go:280-282 | arrayCount 0: the shrunk document replaces its longer copy in the parent document |
| Projection.WriteBackToArray | internal/handlers/common/projection.go:283-286 | arrayCount 1: the shrunk document replaces its longer copy in the array |
| Projection.DeleteFromArray | internal/handlers/common/projection.go:287-290 | arrayCount 2: the array loses the element the path leads to |
| Projection.NotFoundNoChange | internal/handlers/common/projection.go:228-279 | a path that leads nowhere, or through a null field, excludes nothing |
| Projection.RemoveTop | internal/handlers/common/projection.go:292-311 | a top-level field goes, null or not |
| Projection.ProjectField | internal/handlers/common/projection.go:220-312 | one field of the projection: "_id" goes with false and every zero and stays with true and other numbers, any other undotted name goes whatever its value, a dotted one excludes its path; what it does not cover is found as before, in order |
| Projection.ProjectDocument | internal/handlers/common/projection.go:218-315 | for every order of the map the hidden fields are gone and what no field of the projection covers is found as before, in order; the result is that order's exclusion, and when no array element is deleted, the order does not show |
| Projection.ProjectDocuments | internal/handlers/common/projection.go:197-215 | every retrieved document is projected, until something else turns up |
| ProjectionMeaning.ExclusionMeaning | internal/handlers/common/projection.go:218-315 | for every order: the names that are left are those no field of the projection takes away, in order, and the fields that none leads into keep their values |
| ProjectionMeaning.RemovalMeaning | internal/handlers/common/projection.go:292-311 | which fields of a projection take a field away and which lead into it, said of name and value |
| ProjectionMeaning.SplitsAtDots | internal/handlers/common/projection.go:232-232 | a name is split at its dots and nowhere else |
| Exclusion.CommuteExactly | internal/handlers/common/projection.go:220-291 | for every value and two paths, the order of two exclusions does not matter exactly under a condition on the value |
| Exclusion.ElementsCommuteExactly | internal/handlers/common/projection.go:287-290 | two elements of one array, at any depth: exactly when the later position is past the end, or holds the same as the one behind it |
| Exclusion.RemovalsCommuteExactly | internal/handlers/common/projection.go:220-312 | the same for two fields of a projection, top-level and dotted |
| Exclusion.ExcludeChanges | internal/handlers/common/projection.go:228-279 | an exclusion changes a value exactly when its path leads to something |
| Exclusion.Commute | internal/handlers/common/projection.go:220-291 | two exclusions that end at document fields commute, also when one path is a prefix of the other |
| Exclusion.OrderDoesNotMatter | internal/handlers/common/projection.go:220-312 | every permutation of the projection's fields gives the same document, as long as no array element is deleted |
| Exclusion.OrderOfElementsMatters | internal/handlers/common/projection.go:287-290 | excluding "0" and "1" from [1, 2, 3] leaves [2] or [3] |
| JsonKeys.GetJSONKeys | internal/fjson/document.go:85-147 | the token loop with its parity counter and depth counters computes the scanner function |
| JsonKeys.KeysOfTree | internal/fjson/document.go:85-147 | what the scanner returns for any object without bracket texts: the texts that come at an odd count |
| JsonKeys.KeysInOrder | internal/fjson/document.go:85-147 | where every value but the last settles the counter and no text is a bracket, the scanner returns exactly the top-level keys in order |
| JsonKeys.KeysInOrderExactly | internal/fjson/document.go:85-147 | for every object: the scanner returns the top-level keys in order exactly when a walk over the tree, with the turn and both depth counters, takes each name when it is due and nothing else |
| JsonKeys.PlainKeysInOrder | internal/fjson/document.go:85-147 | without bracket texts: exactly when each name, or an equal text behind it, comes at an odd count |
| JsonKeys.UnsettledLoseKeys | internal/fjson/document.go:85-147 | where no value is the text of its own key, exactly when every value but the last settles the counter |
| JsonKeys.FilledInsideSettles | internal/fjson/document.go:98-140 | a value with no empty container inside it settles the counter |
| JsonKeys.EmptyInsideLosesKey | internal/fjson/document.go:98-140 | {"a": [[]], "b": 1} gives the keys "a" and "1" |
| JsonKeys.BracketTextShiftsTurns | internal/fjson/document.go:98-140 | {"a": "]", "b": 1} gives the keys "a" and "1" |
| Storage.MarshalDocument | internal/fjson/document.go:150-285 | the writer loops: an ObjectID "_id" first, everything else in order |
| Storage.UnmarshalDocument | internal/fjson/document.go:41-82 | the reader loop over the recovered keys |
| Storage.RoundTrip | internal/fjson/fjson.go:188-316 | reading back what was stored gives the normal form: numbers in the smallest type that holds their text, texts in UTF-8, an ObjectID "_id" first |
| Storage.SecondTripChangesNothing | internal/fjson/fjson.go:188-316 | a second trip changes nothing |
| Storage.NormalIsWrittenAlike | internal/fjson/document.go:219-285 | a document and its normal form are stored as the same text |
| Storage.HexRoundTrip | internal/fjson/objectid.go:41-82 | the hexadecimal text of an ObjectID decodes to it |
| Storage.RepairKeepsUtf8 | internal/fjson/document.go:219-285 | a text is written as it is exactly when it is UTF-8 |
| StoredForms.ScalarForms | internal/fjson/fjson.go:188-316 | how every scalar stands in the stored JSON, with the member names oid, $da, $r and o |
| StoredForms.IdComesFirst | internal/fjson/document.go:219-285 | {a: 1, _id: ObjectID(...)} is stored with the id in front |
| StoredForms.HexSample | internal/fjson/objectid.go:41-82 | the digits are lower-case, the upper half of a byte first |
| StoredForms.ReservedAreStrict | internal/fjson/fjson.go:188-316 | an object with oid, $da or $r that is not null is refused when it has other members |
| StoredForms.IntegersMeet | internal/fjson/fjson.go:125-316 | an integer comes back in 32 bits exactly if they hold it |
| ReadBack.ReadBackExactly | internal/fjson/fjson.go:125-316 | a value reads back as itself exactly when it keeps its type and text, no reserved name makes a document look like another type, and the scanner finds exactly the keys of every document in it |
| ReadBack.KeysLoop | internal/fjson/document.go:41-82 | the reader sets exactly the scanned keys, each where it occurs first, and fails exactly when one of them is invalid or leads nowhere |
| ReadBack.NormalIsFaithful | internal/fjson/fjson.go:125-316 | what the storage format holds and the scanner reads comes back as itself exactly in normal form |
| ReadBack.ReadIdExactly | internal/handlers/crud/msg_delete.go:92-97 | the handler gets the selected id itself exactly when {"_id": id} reads back as itself |
| ReadBack.ScalarIdExactly | internal/handlers/crud/msg_delete.go:92-97 | an id that is no document and no array comes back exactly when it keeps its type and text on its own |
| ReadClean.CleanIdIsWritten | internal/handlers/crud/msg_delete.go:92-102 | what is read back for an id without harmful percent signs is written as it is |

## Left out

- Quote escaping inside SQL strings and names, and the number of blanks between the tokens of a condition.
- A percent sign in the name of a database or a collection, which `fmt.Sprintf` would read as well.
- The text of a condition in which formatting meets a flag, a width or a directive without an argument: the reading of it is left open.
- `$size`, `$all` and `$elemMatch` have no meaning in the filter theorem; `$elemMatch` is not compiled either (its text surgery on "OR" and " AND "). `$size` and `$all` are compiled.
- `$ne`, `$exists: false` and `$not` beside other operators of the same field: compiled, but outside the supported filters.
- Array positions of 2^63 - 1, where the shift by one would overflow.
- Regular expressions beyond literals, `.`, `.*`, `^` and `$`, and non-ASCII ones; texts of several lines.
- Floats: a double is a 64-bit pattern; its decimal text, and the integer that this text reads as, are parameters. JSON integers beyond 64 bits, which the layer never writes, become an error in `Storage`.
- The 32-bit counters of the replies, which are unbounded here.
- JSON lexing: JSON is a tree and its tokens; number tokens print by a parameter.
- Binary and Timestamp, which the source has commented out, and checking of checksums, which it does not do.
- Wire.ReadsWhatWasWritten: the bodies of OP_REPLY and OP_QUERY are not part of this model; they would only add codecs simpler than OP_MSG.
- Inclusion projection and the choice between inclusion and exclusion: text only.
- HeapDocument.Set: values are taken to be valid already; `validateValue` is not modelled.
- HeapDocument.Add: the same.
- HeapDocument.ArrayCell.Set: the same.
- Slices of arrays that share storage with their array (`Subslice`), and a negative index of `Array.Delete`.
- Message-level options of the commands (`upsert`, `writeConcern`, ...), which only refuse a message, and missing `documents`, `updates` or `deletes` arrays.
- The code of an error: errors are told apart by kind only, and the rewriting of the "array not supported" message in `update` is not modelled.
- Concurrency: the compiler's mode and the check before an insert are modelled for sequential runs.
- Sockets, TLS, the listener, the proxy, logging, metrics and the fixed-reply handlers.
- Storage.RoundTrip: documents in which the names `oid`, `$da` or `$r` hold something other than null are outside, because they may read back as other types; `ReadBack.ReadBackExactly` decides them.
- Storage.SecondTripChangesNothing: the same documents are outside.
