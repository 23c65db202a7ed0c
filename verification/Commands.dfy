/** The write commands as steps over the documents of one collection: what insert, update and delete may do, and what
    every such step keeps. The database may return any matching document where a query asks for one. */
module Commands {
  import opened Types
  import opened Sql
  import opened Spelling
  import opened Where
  import opened Filter
  import opened FilterMeaning
  import opened Rows
  import opened Update
  import opened UpdateMeaning
  import opened Sending
  import opened WrittenValues
  import opened ReadBack
  import Like
  import ReadClean
  import Rendering
  import Statements
  import Storage

  const ID: bytes := Storage.ID

  type Chooser = Fields -> bool

  // ----- queries

  /** The documents a condition selects. */
  function BySql(terms: seq<Conj>, compare: Comparison): Chooser { row => Selects(terms, RowEnv(row, compare)) }

  function IdOf(row: Fields): Slot { SlotOf(Get(row, ID)) }

  predicate SameId(a: Slot, b: Slot, compare: Comparison) { a.Val? && b.Val? && compare(a.v, b.v) == Equal }

  /** WHERE "_id" = id. */
  function ById(id: Slot, compare: Comparison): Chooser { row => SameId(IdOf(row), id, compare) }

  function Count(rows: seq<Fields>, chosen: Chooser): (n: nat)
    ensures n <= |rows|
    ensures n == 0 <==> forall i :: 0 <= i < |rows| ==> !chosen(rows[i])
  {
    if rows == [] then 0
    else
      assert forall i :: 0 <= i < |rows[1..]| ==> rows[1..][i] == rows[i + 1];
      assert forall i :: 0 < i < |rows| ==> rows[i] == rows[1..][i - 1];
      (if chosen(rows[0]) then 1 else 0) + Count(rows[1..], chosen)
  }

  function DeleteRows(rows: seq<Fields>, chosen: Chooser): (r: seq<Fields>)
    ensures |r| + Count(rows, chosen) == |rows|
    ensures forall row :: row in r <==> row in rows && !chosen(row)
  {
    if rows == [] then []
    else (if chosen(rows[0]) then [] else [rows[0]]) + DeleteRows(rows[1..], chosen)
  }

  function UpdateRow(row: Fields, plan: Plan): Fields {
    match Updated(Document(row), plan) case Document(fs) => fs case _ => row
  }

  function UpdateRows(rows: seq<Fields>, chosen: Chooser, plan: Plan): (r: seq<Fields>)
    ensures |r| == |rows|
    ensures forall i :: 0 <= i < |rows| ==> r[i] == if chosen(rows[i]) then UpdateRow(rows[i], plan) else rows[i]
  {
    seq(|rows|, i requires 0 <= i < |rows| => if chosen(rows[i]) then UpdateRow(rows[i], plan) else rows[i])
  }

  // ----- insert

  /** IsIdUnique. */
  function UniqueId(rows: seq<Fields>, id: Value, db: Database, nor: bool): Result<bool> {
    match WhereClause([Field(ID, id)], nor)
    case Err(e) => Err(e)
    case Ok(sql) =>
      match Read(sql, db)
      case None => Err(OtherError)
      case Some(terms) => Ok(Count(rows, BySql(terms, db.compare)) == 0)
  }

  /** What the collection holds of an inserted document: what its JSON text says. */
  function Stored(doc: Fields, nums: Storage.Numbers): Fields { Storage.Normal(Document(doc), nums).fields }

  function InsertOne(rows: seq<Fields>, doc: Value, db: Database, nor: bool): Result<seq<Fields>> {
    if !doc.Document? then Err(Panicked)
    else
      match UniqueId(rows, IdValue(doc.fields), db, nor)
      case Err(e) => Err(e)
      case Ok(unique) =>
        if !unique || Storage.Marshal(doc, true, db.nums).None? then Err(OtherError)
        else Ok(rows + [Stored(doc.fields, db.nums)])
  }

  /** MsgInsert: documents before a failing one stay inserted. */
  function InsertAll(rows: seq<Fields>, docs: seq<Value>, inserted: nat, db: Database, nor: bool)
    : (seq<Fields>, Result<nat>)
    decreases |docs|
  {
    if docs == [] then (rows, Ok(inserted))
    else
      match InsertOne(rows, docs[0], db, nor)
      case Err(e) => (rows, Err(e))
      case Ok(rows') => InsertAll(rows', docs[1..], inserted + 1, db, nor)
  }

  // ----- delete and update

  /** The id that arrives in a statement about one document: it is selected, read back from JSON, and written again. */
  function ArrivingId(row: Fields, db: Database): Option<Slot> {
    match ReadId(IdValue(row), db.nums)
    case None => None
    case Some(read) =>
      if UpdateValue(read).Err? then None
      else match Arriving(read, db) case Some(id) => Some(SlotOf(Some(id))) case None => None
  }

  /** One entry of MsgDelete. */
  ghost predicate DeleteStep(before: seq<Fields>, entry: Fields, db: Database, nor: bool,
                             after: seq<Fields>, r: Result<nat>)
  {
    if Get(entry, "collation").Some? || Get(entry, "hint").Some? then after == before && r == Err(NotImplemented)
    else
      match Get(entry, "q")
      case Some(Document(q)) =>
        (match WhereClause(q, nor)
         case Err(e) => after == before && r == Err(e)
         case Ok(sql) =>
           match Get(entry, "limit")
           case Some(Int32(n)) =>
             if n == 0 then DeletesMany(before, ReadSent(sql, [], db), db.compare, after, r)
             else DeletesOne(before, Read(sql, db), db, after, r)
           case _ => DeletesMany(before, ReadSent(sql, [], db), db.compare, after, r))
      case _ => after == before && r == Err(Panicked)
  }

  /** A query that fails or finds nothing lets the entry pass without effect. */
  ghost predicate DeletesOne(before: seq<Fields>, terms: Option<seq<Conj>>, db: Database,
                             after: seq<Fields>, r: Result<nat>)
  {
    if terms.None? || Count(before, BySql(terms.value, db.compare)) == 0 then after == before && r == Ok(0)
    else
      exists k :: 0 <= k < |before| && BySql(terms.value, db.compare)(before[k])
                  && match ArrivingId(before[k], db)
                     case None => after == before && r.Err?
                     case Some(id) => && after == DeleteRows(before, ById(id, db.compare))
                                      && r == Ok(Count(before, ById(id, db.compare)))
  }

  ghost predicate DeletesMany(before: seq<Fields>, terms: Option<seq<Conj>>, compare: Comparison,
                              after: seq<Fields>, r: Result<nat>)
  {
    if terms.None? then after == before && r.Err?
    else
      && after == DeleteRows(before, BySql(terms.value, compare))
      && r == Ok(Count(before, BySql(terms.value, compare)))
  }

  /** What one entry of MsgUpdate reports: documents that match, and documents that were modified. */
  type Counts = (nat, nat)

  /** One entry of MsgUpdate. */
  ghost predicate UpdateStep(before: seq<Fields>, entry: Fields, db: Database, nor: bool,
                             after: seq<Fields>, r: Result<Counts>)
  {
    var multi := Get(entry, "multi") == Some(Bool(true));
    match Get(entry, "q")
    case Some(Document(q)) =>
      (match WhereClause(q, nor)
       case Err(e) => after == before && r == Err(e)
       case Ok(sql) =>
         match Get(entry, "u")
         case Some(Document(u)) =>
           (match UpdatePlan(u, nor)
            case Err(e) => after == before && r == Err(e)
            case Ok(plan) => UpdatesWith(before, sql, plan, multi, db, after, r))
         case _ => after == before && r == Err(Panicked))
    case _ => after == before && r == Err(Panicked)
  }

  ghost predicate UpdatesWith(before: seq<Fields>, sql: Tokens, plan: Plan, multi: bool, db: Database,
                              after: seq<Fields>, r: Result<Counts>)
  {
    if Read(sql, db).None? then after == before && r.Err?
    else
      var matched := Count(before, BySql(Read(sql, db).value, db.compare));
      if multi then UpdatesMany(before, ReadSent(sql, plan.guard, db), plan, matched, db, after, r)
      else UpdatesOne(before, Read(sql + plan.guard, db), plan, matched, db, after, r)
  }

  ghost predicate UpdatesOne(before: seq<Fields>, terms: Option<seq<Conj>>, plan: Plan, matched: nat,
                             db: Database, after: seq<Fields>, r: Result<Counts>)
  {
    if terms.None? || Count(before, BySql(terms.value, db.compare)) == 0 then after == before && r == Ok((matched, 0))
    else
      exists k :: 0 <= k < |before| && BySql(terms.value, db.compare)(before[k])
                  && match (ArrivingId(before[k], db), Assigned(plan, db))
                     case (Some(id), Some(effect)) =>
                       && after == UpdateRows(before, ById(id, db.compare), effect)
                       && r == Ok((matched, 1))
                     case _ => after == before && r.Err?
  }

  ghost predicate UpdatesMany(before: seq<Fields>, terms: Option<seq<Conj>>, plan: Plan, matched: nat,
                              db: Database, after: seq<Fields>, r: Result<Counts>)
  {
    match (terms, Assigned(plan, db))
    case (Some(conjs), Some(effect)) =>
      && after == UpdateRows(before, BySql(conjs, db.compare), effect)
      && r == Ok((matched, Count(before, BySql(conjs, db.compare))))
    case _ => after == before && r.Err?
  }

  // ----- whole messages

  /** All entries of MsgDelete, one after the other; the count goes on from deleted. */
  ghost predicate DeletesAll(before: seq<Fields>, entries: seq<Fields>, deleted: nat, db: Database, nor: bool,
                             after: seq<Fields>, r: Result<nat>)
    decreases |entries|
  {
    if entries == [] then after == before && r == Ok(deleted)
    else
      exists mid, c :: DeleteStep(before, entries[0], db, nor, mid, c)
                       && match c
                          case Err(e) => after == mid && r == Err(e)
                          case Ok(n) => DeletesAll(mid, entries[1..], deleted + n, db, nor, after, r)
  }

  /** All entries of MsgUpdate; both counts go on from sofar. */
  ghost predicate UpdatesAll(before: seq<Fields>, entries: seq<Fields>, sofar: Counts, db: Database, nor: bool,
                             after: seq<Fields>, r: Result<Counts>)
    decreases |entries|
  {
    if entries == [] then after == before && r == Ok(sofar)
    else
      exists mid, c :: UpdateStep(before, entries[0], db, nor, mid, c)
                       && match c
                          case Err(e) => after == mid && r == Err(e)
                          case Ok(n) =>
                            UpdatesAll(mid, entries[1..], (sofar.0 + n.0, sofar.1 + n.1), db, nor, after, r)
  }

  // ----- the invariant

  /** Every document has an "_id" that is not null and can be written, and no two are equal. */
  ghost predicate GoodIds(rows: seq<Fields>, compare: Comparison) {
    && (forall i :: 0 <= i < |rows| ==> IdOf(rows[i]).Val? && IsLiteral(IdOf(rows[i]).v))
    && (forall i, j :: 0 <= i < j < |rows| ==> !SameId(IdOf(rows[i]), IdOf(rows[j]), compare))
  }

  ghost predicate Symmetric(compare: Comparison) { forall x, y :: compare(x, y) == Equal ==> compare(y, x) == Equal }

  ghost predicate Reflexive(compare: Comparison) { forall x :: compare(x, x) == Equal }

  predicate IsOperatorDocument(v: Value) { v.Document? && v.fields != [] && IsOperator(v.fields[0].name) }

  /** An "_id" that is there, not null, and neither a document that reads as an operator expression nor one whose
      text is altered on the way; and the comparison finds nothing equal to its stored form that is not equal to it. */
  ghost predicate GoodNewId(doc: Fields, db: Database) {
    var id := IdValue(doc);
    && !id.Null? && !IsOperatorDocument(id) && (id.Document? ==> IsLiteral(id))
    && forall x :: SameId(x, Val(Storage.Normal(id, db.nums)), db.compare) ==> SameId(x, Val(id), db.compare)
  }

  /** No key of $set or $unset lies below "_id". */
  ghost predicate KeysOutsideId(u: Fields) {
    && (forall i :: 0 <= i < |Part(u, "$set")| ==> !HasPrefix(Part(u, "$set")[i].name, "_id."))
    && (forall i :: 0 <= i < |Part(u, "$unset")| ==> !HasPrefix(Part(u, "$unset")[i].name, "_id."))
  }

  // ----- insert keeps ids distinct

  lemma {:induction false} IdKey()
    ensures !IsOperator(ID) && WhereKey(ID) == Ok([Name(ID)]) && PathOf(ID) == [Name(ID)]
  {
  }

  lemma {:induction false} IdSlot(row: Fields, compare: Comparison)
    ensures RowEnv(row, compare).look([Name(ID)]) == IdOf(row)
  {
    var path := [Name(ID)];
    assert path[1..] == [];
    assert SqlWalk(Document(row), path) == Get(row, ID);
    assert ValueEnv(Document(row), compare).look(path) == SlotOf(SqlWalk(Document(row), path));
  }

  /** The condition of the uniqueness check for an id that is written as w, in either mode of the compiler. */
  lemma {:induction false} IdCheckReads(id: Value, w: Value, db: Database, nor: bool)
    requires WhereValue(id) == Ok((Literal(w), SignEq)) && id != Document([]) && !IsOperatorDocument(id)
    ensures WhereClause([Field(ID, id)], nor).Ok?
    ensures Read(WhereClause([Field(ID, id)], nor).value, db)
         == Some([Conj(GuardedFactors([Compare([Name(ID)], Eq, w)], [Name(ID)], nor))])
  {
    var path := [Name(ID)];
    var c := Compare(path, Eq, w);
    var fs := GuardedFactors([c], path, nor);
    IdKey();
    SingleText(c);
    GuardedText([c], path, nor);
    assert [Ident(path)] + [Cmp(Eq)] + [Literal(w)] == Text(c);
    assert Pair(ID, id, nor) == Ok(TextFactors(fs));
    IdClause(id, TextFactors(fs), nor);
    FactorsRead(fs, db);
  }

  lemma {:induction false} IdClause(id: Value, ts: Tokens, nor: bool)
    requires Pair(ID, id, nor) == Ok(ts)
    ensures WhereClause([Field(ID, id)], nor) == Ok([WHERE] + ts)
  {
    hide Pair;
    var filter := [Field(ID, id)];
    assert filter[1..] == [];
    assert Pairs(filter, true, nor) == Then([] + ts, Ok([]));
    assert [] + ts + [] == ts;
  }

  /** A clause that is the text of factors is read as these factors. */
  lemma {:induction false} FactorsRead(fs: seq<Cond>, db: Database)
    requires WellFormedFactors(fs)
    ensures Read([WHERE] + TextFactors(fs), db) == Some([Conj(fs)])
  {
    FactorsAreIntact(fs);
    IntactJoined([WHERE], TextFactors(fs));
    FactorsCondition(fs);
    assert ([WHERE] + TextFactors(fs))[1..] == TextFactors(fs);
  }

  lemma {:induction false} IdCheckSelects(id: Value, row: Fields, compare: Comparison, nor: bool)
    requires !id.Null?
    ensures Selects([Conj(GuardedFactors([Compare([Name(ID)], Eq, id)], [Name(ID)], nor))], RowEnv(row, compare))
            <==> SameId(IdOf(row), Val(id), compare)
  {
    var c := Compare([Name(ID)], Eq, id);
    var env := RowEnv(row, compare);
    IdSlot(row, compare);
    SelectsSingle(GuardedFactors([c], [Name(ID)], nor), env);
    GuardMeaning([c], [Name(ID)], env);
    EvalSingle(c, env);
  }

  /** The check says "unique" exactly when no document has an id equal to the one that is written. That is the id
      itself, unless the id is a document with percent signs that the formatting alters. */
  lemma {:induction false} UniqueIdIsExact(rows: seq<Fields>, id: Value, w: Value, db: Database, nor: bool)
    requires WhereValue(id) == Ok((Literal(w), SignEq)) && id != Document([]) && !IsOperatorDocument(id)
    ensures UniqueId(rows, id, db, nor)
         == Ok(forall i :: 0 <= i < |rows| ==> !SameId(IdOf(rows[i]), Val(w), db.compare))
  {
    hide WhereClause, WhereValue, Read;
    IdCheckReads(id, w, db, nor);
    LiteralIsNotNull(id, w);
    var terms := [Conj(GuardedFactors([Compare([Name(ID)], Eq, w)], [Name(ID)], nor))];
    forall i | 0 <= i < |rows|
      ensures BySql(terms, db.compare)(rows[i]) <==> SameId(IdOf(rows[i]), Val(w), db.compare)
    {
      IdCheckSelects(w, rows[i], db.compare, nor);
    }
  }

  lemma {:induction false} LiteralIsNotNull(v: Value, w: Value)
    requires WhereValue(v) == Ok((Literal(w), SignEq))
    ensures !w.Null?
  {
  }

  /** A regular expression cannot be stored. */
  lemma {:induction false} RegexIsNotStored(fs: Fields, nums: Storage.Numbers)
    requires Get(fs, ID).Some? && Get(fs, ID).value.Regex?
    ensures Storage.MarshalFields(fs, true, nums).None?
  {
    if fs[0].name != ID { RegexIsNotStored(fs[1..], nums); }
  }

  /** The id of the stored form. */
  lemma StoredId(doc: Fields, nums: Storage.Numbers)
    ensures IdOf(Stored(doc, nums)) == if IdValue(doc).Null? then IdOf(doc) else Val(Storage.Normal(IdValue(doc), nums))
  {
    hide Storage.NormalFields, Without;
    var n := Storage.NormalFields(doc, nums);
    NormalFieldId(doc, nums);
    assert Stored(doc, nums) == Storage.IdFirst(n);
    hide Stored, Storage.Normal;
    if Storage.HasObjectId(n) {
      GetCons(Field(ID, Get(n, ID).value), Without(n, ID), ID);
    }
  }

  lemma {:induction false} NormalFieldId(doc: Fields, nums: Storage.Numbers)
    ensures Get(Storage.NormalFields(doc, nums), ID)
         == match Get(doc, ID) case Some(v) => Some(Storage.Normal(v, nums)) case None => None
  {
    if doc != [] {
      NormalFieldId(doc[1..], nums);
      assert Storage.NormalFields(doc, nums)[1..] == Storage.NormalFields(doc[1..], nums);
    }
  }

  lemma StoredIdIsLiteral(id: Value, nums: Storage.Numbers)
    requires IsLiteral(id)
    ensures IsLiteral(Storage.Normal(id, nums))
  {
    if id.Document? {
      Statements.LiteralDocuments(id.fields);
      ReadClean.NormalIsClean(id, false, nums);
      Statements.LiteralDocuments(Storage.Normal(id, nums).fields);
    }
  }

  /** A document is inserted exactly when no stored id equals the one that is written and the document can be stored;
      then its stored form is appended. */
  lemma {:induction false} InsertOneExactly(rows: seq<Fields>, doc: Fields, w: Value, db: Database, nor: bool)
    requires WhereValue(IdValue(doc)) == Ok((Literal(w), SignEq)) && IdValue(doc) != Document([])
    requires !IsOperatorDocument(IdValue(doc))
    ensures InsertOne(rows, Document(doc), db, nor)
         == if (forall i :: 0 <= i < |rows| ==> !SameId(IdOf(rows[i]), Val(w), db.compare))
               && Storage.Marshal(Document(doc), true, db.nums).Some?
            then Ok(rows + [Stored(doc, db.nums)]) else Err(OtherError)
  {
    hide UniqueId, WhereValue, Stored, Storage.Marshal;
    UniqueIdIsExact(rows, IdValue(doc), w, db, nor);
  }

  /** What an accepted insert does: the stored form of the document is appended, and its id is new. */
  lemma {:induction false} InsertOneKeepsIds(rows: seq<Fields>, doc: Value, db: Database, nor: bool)
    requires GoodIds(rows, db.compare) && InsertOne(rows, doc, db, nor).Ok?
    requires doc.Document? && GoodNewId(doc.fields, db)
    ensures GoodIds(InsertOne(rows, doc, db, nor).value, db.compare)
  {
    var id := IdValue(doc.fields);
    if id.Regex? {
      RegexIsNotStored(doc.fields, db.nums);
    } else {
      hide UniqueId, Stored, IsLiteral, Storage.Normal;
      AcceptedIdIsLiteral(rows, id, db, nor);
      UniqueIdIsExact(rows, id, id, db, nor);
      StoredId(doc.fields, db.nums);
      StoredIdIsLiteral(id, db.nums);
      AppendKeepsIds(rows, Stored(doc.fields, db.nums), db.compare);
    }
  }

  lemma {:induction false} AppendKeepsIds(rows: seq<Fields>, row: Fields, compare: Comparison)
    requires GoodIds(rows, compare) && IdOf(row).Val? && IsLiteral(IdOf(row).v)
    requires forall i :: 0 <= i < |rows| ==> !SameId(IdOf(rows[i]), IdOf(row), compare)
    ensures GoodIds(rows + [row], compare)
  {
    hide IsLiteral, IdOf, SameId;
  }

  lemma {:induction false} AcceptedIdIsLiteral(rows: seq<Fields>, id: Value, db: Database, nor: bool)
    requires UniqueId(rows, id, db, nor).Ok? && !id.Null? && !id.Regex? && !IsOperatorDocument(id)
    requires id.Document? ==> IsLiteral(id)
    ensures IsLiteral(id) && id != Document([])
  {
    IdKey();
    assert Pair(ID, id, nor).Ok?;
  }

  lemma {:induction false} InsertAllKeepsIds(rows: seq<Fields>, docs: seq<Value>, n: nat, db: Database, nor: bool)
    requires GoodIds(rows, db.compare)
    requires forall i :: 0 <= i < |docs| ==> docs[i].Document? ==> GoodNewId(docs[i].fields, db)
    ensures GoodIds(InsertAll(rows, docs, n, db, nor).0, db.compare)
    decreases |docs|
  {
    hide InsertOne, GoodNewId, GoodIds;
    if docs != [] && InsertOne(rows, docs[0], db, nor).Ok? {
      InsertedOne(rows, docs[0], db, nor);
      InsertOneKeepsIds(rows, docs[0], db, nor);
      InsertAllKeepsIds(InsertOne(rows, docs[0], db, nor).value, docs[1..], n + 1, db, nor);
    }
  }

  /** The reported count is the growth of the collection; earlier documents are never touched. */
  lemma {:induction false} InsertAllCounts(rows: seq<Fields>, docs: seq<Value>, n: nat, db: Database, nor: bool)
    ensures var (rows', r) := InsertAll(rows, docs, n, db, nor);
            Grown(rows, docs, rows', db.nums) && (r.Ok? ==> |rows'| == |rows| + |docs| && r.value == n + |docs|)
    decreases |docs|
  {
    hide InsertOne, UniqueId, Grown;
    if docs != [] && InsertOne(rows, docs[0], db, nor).Ok? {
      var next := InsertOne(rows, docs[0], db, nor).value;
      InsertAllCounts(next, docs[1..], n + 1, db, nor);
      InsertedOne(rows, docs[0], db, nor);
      GrownStep(rows, docs, InsertAll(next, docs[1..], n + 1, db, nor).0, db.nums);
    } else {
      GrownByNothing(rows, docs, db.nums);
    }
  }

  lemma {:induction false} InsertedOne(rows: seq<Fields>, doc: Value, db: Database, nor: bool)
    requires InsertOne(rows, doc, db, nor).Ok?
    ensures doc.Document? && InsertOne(rows, doc, db, nor).value == rows + [Stored(doc.fields, db.nums)]
  {
  }

  lemma {:induction false} GrownByNothing(rows: seq<Fields>, docs: seq<Value>, nums: Storage.Numbers)
    ensures Grown(rows, docs, rows, nums)
  {
  }

  /** The collection was extended by the stored forms of some of the first documents, in order. */
  ghost predicate Grown(rows: seq<Fields>, docs: seq<Value>, rows': seq<Fields>, nums: Storage.Numbers) {
    && rows <= rows' && |rows'| <= |rows| + |docs|
    && forall i :: 0 <= i < |rows'| - |rows| ==> docs[i].Document? && rows'[|rows| + i] == Stored(docs[i].fields, nums)
  }

  lemma {:induction false} GrownStep(rows: seq<Fields>, docs: seq<Value>, rows': seq<Fields>, nums: Storage.Numbers)
    requires docs != [] && docs[0].Document?
    requires Grown(rows + [Stored(docs[0].fields, nums)], docs[1..], rows', nums)
    ensures Grown(rows, docs, rows', nums)
  {
    hide Stored;
    forall i | 0 <= i < |rows'| - |rows|
      ensures docs[i].Document? && rows'[|rows| + i] == Stored(docs[i].fields, nums)
    {
      if i > 0 {
        assert docs[1..][i - 1].Document? && rows'[|rows| + 1 + (i - 1)] == Stored(docs[1..][i - 1].fields, nums);
      }
    }
  }

  // ----- where the condition on ids is needed

  /** The "_id" of a document is something a filter can look at. */
  ghost predicate OrdinaryId(row: Fields) {
    var id := IdOf(row);
    !id.Null? && (id.Val? ==> !id.v.Array? && (id.v.String? ==> Like.OneLine(id.v.s)))
  }

  lemma {:induction false} IdIsOrdinary(row: Fields, compare: Comparison)
    requires OrdinaryId(row)
    ensures RowView(row, compare).field(ID) == IdOf(row)
    ensures Ordinary(ID, RowEnv(row, compare), RowView(row, compare))
  {
    IdKey();
    IdSlot(row, compare);
    assert [ID][1..] == [];
    assert KeyWalk(Document(row), [ID]) == Get(row, ID);
  }

  /** An operator document as "_id" is checked by its meaning: it passes exactly when no id matches the expression,
      whether or not the same document is stored already. */
  lemma {:induction false} OperatorIdCheck(rows: seq<Fields>, id: Value, db: Database, nor: bool)
    requires IsOperatorDocument(id) && SupportedOps(id.fields, nor)
    requires forall i :: 0 <= i < |rows| ==> OrdinaryId(rows[i])
    ensures UniqueId(rows, id, db, nor)
         == Ok(forall i :: 0 <= i < |rows| ==> !MatchesOps(id.fields, IdOf(rows[i]), db.compare))
  {
    hide WhereClause, Read, SupportedOps;
    var fs := PairFactors(ID, id, nor);
    OperatorIdReads(id, db, nor);
    forall i | 0 <= i < |rows|
      ensures BySql([Conj(fs)], db.compare)(rows[i]) <==> MatchesOps(id.fields, IdOf(rows[i]), db.compare)
    {
      OperatorIdSelects(id, rows[i], db.compare, nor);
    }
  }

  lemma {:induction false} OperatorIdReads(id: Value, db: Database, nor: bool)
    requires IsOperatorDocument(id) && SupportedOps(id.fields, nor)
    ensures WhereClause([Field(ID, id)], nor).Ok?
    ensures Read(WhereClause([Field(ID, id)], nor).value, db) == Some([Conj(PairFactors(ID, id, nor))])
  {
    var fs := PairFactors(ID, id, nor);
    IdKey();
    PairText(ID, id, nor);
    IdClause(id, TextFactors(fs), nor);
    FactorsRead(fs, db);
  }

  lemma {:induction false} OperatorIdSelects(id: Value, row: Fields, compare: Comparison, nor: bool)
    requires IsOperatorDocument(id) && SupportedOps(id.fields, nor) && OrdinaryId(row)
    ensures Selects([Conj(PairFactors(ID, id, nor))], RowEnv(row, compare))
            <==> MatchesOps(id.fields, IdOf(row), compare)
  {
    var env, d := RowEnv(row, compare), RowView(row, compare);
    IdKey();
    IdIsOrdinary(row, compare);
    PairMeaning(ID, id, nor, env, d);
    SelectsSingle(PairFactors(ID, id, nor), env);
  }

  /** So the same document is accepted again exactly while nothing stored matches its "_id". */
  lemma {:induction false} OperatorIdIsNotUnique(rows: seq<Fields>, doc: Fields, db: Database, nor: bool)
    requires IsOperatorDocument(IdValue(doc)) && SupportedOps(IdValue(doc).fields, nor)
    requires Storage.Marshal(Document(doc), true, db.nums).Some? && forall i :: 0 <= i < |rows| ==> OrdinaryId(rows[i])
    ensures InsertOne(rows, Document(doc), db, nor).Ok?
            <==> forall i :: 0 <= i < |rows| ==> !MatchesOps(IdValue(doc).fields, IdOf(rows[i]), db.compare)
  {
    OperatorIdCheck(rows, IdValue(doc), db, nor);
  }

  lemma {:induction false} GreaterMeaning(v: Value, slot: Slot, compare: Comparison)
    requires IsLiteral(v)
    ensures ArePlainOps([Field("$gt", v)])
    ensures MatchesOps([Field("$gt", v)], slot, compare) <==> slot.Val? && compare(slot.v, v) == Greater
  {
    hide Spells, FieldOpOf;
    var ops := [Field("$gt", v)];
    SpellsItself("$gt");
    FieldOpTable("$gt");
    assert ops[1..] == [];
    SingleOp(ops, slot, compare);
  }

  /** {_id: {$gt: 5}} twice. */
  lemma {:induction false} OperatorIdTwice(db: Database, nor: bool)
    requires db.compare(Document([Field("$gt", Int32(5))]), Int32(5)) != Greater
    ensures var doc := [Field(ID, Document([Field("$gt", Int32(5))]))];
            InsertOne([doc], Document(doc), db, nor) == Ok([doc, doc])
  {
    var ops := [Field("$gt", Int32(5))];
    var doc := [Field(ID, Document(ops))];
    GreaterIsStored(db.nums);
    assert OrdinaryId(doc) && IdOf(doc) == Val(Document(ops)) && IdValue(doc) == Document(ops);
    hide ArePlainOps, MatchesOps, FieldOpOf, OrdinaryId, Storage.Marshal, Storage.Normal, WhereValue, IsLoneOp, IdOf,
      IdValue;
    assert IsLiteral(Int32(5)) by { FiveIsLiteral(); }
    GreaterMeaning(Int32(5), IdOf(doc), db.compare);
    assert [doc] + [doc] == [doc, doc];
    OperatorIdIsNotUnique([doc], doc, db, nor);
  }

  lemma FiveIsLiteral()
    ensures IsLiteral(Int32(5))
  {
  }

  lemma {:induction false} GreaterIsStored(nums: Storage.Numbers)
    ensures var doc := [Field(ID, Document([Field("$gt", Int32(5))]))];
            Storage.Marshal(Document(doc), true, nums).Some? && Stored(doc, nums) == doc
  {
    SingleIsStored("$gt", Int32(5), nums);
    SingleIsStored(ID, Document([Field("$gt", Int32(5))]), nums);
  }

  /** A document id whose text is altered is compared with something else than itself: {_id: {a: ["50%%%%"]}} is
      looked for as {a: ["50%"]}, and so it can be inserted twice. */
  lemma {:induction false} AlteredIdTwice(db: Database, nor: bool)
    requires db.compare(AlteredId(), Document([Field("a", Array([String("50%")]))])) != Equal
    ensures InsertOne([[Field(ID, AlteredId())]], Document([Field(ID, AlteredId())]), db, nor)
         == Ok([[Field(ID, AlteredId())], [Field(ID, AlteredId())]])
  {
    var doc := [Field(ID, AlteredId())];
    var w := Document([Field("a", Array([String("50%")]))]);
    AlteredIdIsWritten();
    assert doc[1..] == [] && [doc] + [doc] == [doc, doc];
    UniqueIdIsExact([doc], AlteredId(), w, db, nor);
    AlteredIdIsStored(db.nums);
  }

  function AlteredId(): Value { Document([Field("a", Array([String("50%%%%")]))]) }

  lemma {:induction false} AlteredIdIsWritten()
    ensures WhereValue(AlteredId()) == Ok((Literal(Document([Field("a", Array([String("50%")]))])), SignEq))
  {
    PercentPairs();
    ArrayIsAltered("50%%%%", "50%%", "50%");
    FieldIsWritten("a", Array([String("50%%%%")]), Array([String("50%")]));
    RendersOneString("50%%%%");
  }

  lemma {:induction false} ArrayIsAltered(a: bytes, b: bytes, c: bytes)
    requires Rendering.Again(a) == Some(b) && Rendering.Again(b) == Some(c)
    ensures WrittenField(Array([String(a)])) == Some(Array([String(c)]))
  {
    hide Rendering.Again;
    var xs, ys, zs := [String(a)], [String(b)], [String(c)];
    assert xs[1..] == [] && ys[1..] == [];
    assert ys == [String(b)] + [] && zs == [String(c)] + [];
    assert WrittenElements(xs) == Some(ys);
    assert FormatElements(ys) == Some(zs);
  }

  lemma {:induction false} FieldIsWritten(k: bytes, v: Value, w: Value)
    requires WrittenField(v) == Some(w) && '%' !in k
    ensures WrittenFields([Field(k, v)]) == Some([Field(k, w)])
  {
    hide WrittenField;
    Rendering.SurvivesFormatting(k);
    hide Rendering.Again;
    var fs := [Field(k, v)];
    assert fs[1..] == [] && [Field(k, w)] == [Field(k, w)] + [];
  }

  lemma {:induction false} RendersOneString(s: bytes)
    ensures Rendering.DocumentRenders([Field("a", Array([String(s)]))])
  {
    var es, fs := [String(s)], [Field("a", Array([String(s)]))];
    assert es[1..] == [] && fs[1..] == [];
    assert Rendering.ArrayRenders(es);
  }

  lemma {:induction false} PercentPairs()
    ensures Rendering.Again("50%%") == Some("50%") && Rendering.Again("50%%%%") == Some("50%%")
  {
    var two, four: bytes := "%%", "%%%%";
    assert two[2..] == [] && four[2..] == two;
    assert Rendering.Again(two) == Some(['%'] + []) && Rendering.Again(four) == Some(['%'] + (['%'] + []));
    Rendering.SprintfPlain("50", two, []);
    Rendering.SprintfPlain("50", four, []);
    assert "50" + two == "50%%" && "50" + four == "50%%%%";
    assert "50" + (['%'] + []) == "50%" && "50" + (['%'] + (['%'] + [])) == "50%%";
  }

  lemma {:induction false} AlteredIdIsStored(nums: Storage.Numbers)
    ensures Storage.Marshal(Document([Field(ID, AlteredId())]), true, nums).Some?
    ensures Stored([Field(ID, AlteredId())], nums) == [Field(ID, AlteredId())]
  {
    hide Storage.Repaired, Storage.Marshal, Storage.Normal;
    Ascii("50%%%%");
    TextInArray("50%%%%", nums);
    SingleIsStored("a", Array([String("50%%%%")]), nums);
    SingleIsStored(ID, AlteredId(), nums);
  }

  lemma {:induction false} TextInArray(s: bytes, nums: Storage.Numbers)
    requires Storage.Repaired(s) == s
    ensures var v := Array([String(s)]); Storage.Marshal(v, true, nums).Some? && Storage.Normal(v, nums) == v
  {
    hide Storage.Repaired;
    var es: seq<Value> := [String(s)];
    assert es[1..] == [] && Storage.MarshalElems(es, nums).Some?;
    assert Storage.NormalElems(es, nums) == [String(s)] + [];
    assert [String(s)] + [] == es;
  }

  /** A text in ASCII is stored as it is. */
  lemma {:induction false} Ascii(s: bytes)
    requires forall i :: 0 <= i < |s| ==> s[i] as int < 0x80
    ensures ValidUtf8(s) && Storage.Repaired(s) == s
  {
    if s != [] { Ascii(s[1..]); }
    Storage.RepairKeepsUtf8(s);
  }

  /** A document of one field. */
  lemma {:induction false} SingleIsStored(name: bytes, v: Value, nums: Storage.Numbers)
    ensures Storage.Marshal(v, true, nums).Some? ==> Storage.Marshal(Document([Field(name, v)]), true, nums).Some?
    ensures Storage.Normal(v, nums) == v ==>
              Storage.Normal(Document([Field(name, v)]), nums) == Document([Field(name, v)])
  {
    var fs := [Field(name, v)];
    assert fs[1..] == [];
    assert Storage.MarshalFields(fs, true, nums).Some? <==> Storage.Marshal(v, true, nums).Some?;
    if Storage.Normal(v, nums) == v {
      assert Storage.NormalFields(fs, nums) == [Field(name, v)] + [];
      assert [Field(name, v)] + [] == fs;
      assert name == ID ==> Without(fs, ID) == [] + [];
    }
  }
}
