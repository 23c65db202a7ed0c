/** What every write step keeps, and what the steps mean for filters and updates inside the supported fragment. */
module CommandSafety {
  import opened Types
  import opened Numerals
  import opened Sql
  import opened Where
  import opened Filter
  import opened RowUpdate
  import opened Update
  import opened UpdateMeaning
  import opened ReadBack
  import opened Sending
  import opened WrittenValues
  import opened Commands
  import ReadClean
  import Statements
  import Storage
  import WrittenText

  // ----- updates and the "_id"

  ghost predicate OutsideId(path: Path) { path != [] && path[0] != Name(ID) }

  ghost predicate PlanOutsideId(plan: Plan) {
    && (forall i :: 0 <= i < |plan.sets| ==> OutsideId(plan.sets[i].path))
    && (forall j :: 0 <= j < |plan.unsets| ==> OutsideId(plan.unsets[j]))
  }

  /** The first part of a dotted key is what stands before its first dot. */
  lemma {:induction false} FirstPart(key: bytes)
    ensures var part := SplitDots(key)[0];
            part <= key && '.' !in part && (part == key || HasPrefix(key, part + ['.']))
    ensures '.' in key ==> SplitDots(key)[0] != key
  {
    if key != [] && key[0] != '.' {
      FirstPart(key[1..]);
      var part := SplitDots(key[1..])[0];
      HeadTail(key);
      assert [key[0]] + part + ['.'] == [key[0]] + (part + ['.']);
    } else if key != [] {
      assert [] + ['.'] == ['.'];
    }
  }

  lemma SamePrefix(key: bytes, part: bytes, rest: bytes)
    requires part <= key && '.' !in part && (part == key || HasPrefix(key, part + ['.']))
    requires '.' !in rest && HasPrefix(key, rest + ['.'])
    ensures part == rest
  {
    assert forall i :: 0 <= i < |part| ==> key[i] == part[i] && part[i] in part;
    assert forall i :: 0 <= i < |rest| ==> key[i] == (rest + ['.'])[i] == rest[i] && rest[i] in rest;
    assert key[|rest|] == (rest + ['.'])[|rest|];
    assert |part| < |key| ==> key[|part|] == (part + ['.'])[|part|];
    assert |part| == |rest|;
  }

  lemma NotANumber(s: bytes)
    requires s != [] && !IsDigit(s[0]) && s[0] != '+' && s[0] != '-'
    ensures Atoi(s).None?
  {
    assert WithoutSign(s) == s && !IsDigit(s[0]);
  }

  /** An accepted key reaches into "_id" exactly when it begins with "_id.". */
  lemma KeyOutsideId(key: bytes)
    requires UpdateKey(key).Ok? && !IsIdKey(key)
    ensures OutsideId(UpdateKey(key).value) <==> !HasPrefix(key, "_id.")
  {
    assert "_id." == ID + ['.'];
    assert Lower(ID) == "_id";
    if HasPrefix(key, "_id.") { assert key[3] == "_id."[3] == '.'; }
    if '.' in key {
      FirstPart(key);
      var part := SplitDots(key)[0];
      if HasPrefix(key, "_id.") { SamePrefix(key, part, ID); }
      NotANumber(ID);
    }
  }

  lemma {:induction false} SetListAt(doc: Fields, i: nat)
    requires SetList(doc).Ok? && i < |doc|
    ensures |SetList(doc).value| == |doc| && !IsIdKey(doc[i].name)
    ensures UpdateKey(doc[i].name) == Ok(SetList(doc).value[i].path)
  {
    if |doc| > 1 { SetListAt(doc[1..], if i > 0 then i - 1 else 0); }
  }

  lemma {:induction false} UnsetListAt(doc: Fields, i: nat)
    requires UnsetList(doc).Ok? && i < |doc|
    ensures |UnsetList(doc).value| == |doc| && !IsIdKey(doc[i].name)
    ensures UpdateKey(doc[i].name) == Ok(UnsetList(doc).value[i])
  {
    if |doc| > 1 { UnsetListAt(doc[1..], if i > 0 then i - 1 else 0); }
  }

  lemma SetsOutsideId(doc: Fields)
    requires SetList(doc).Ok?
    ensures (forall i :: 0 <= i < |SetList(doc).value| ==> OutsideId(SetList(doc).value[i].path))
            <==> forall i :: 0 <= i < |doc| ==> !HasPrefix(doc[i].name, "_id.")
  {
    var sets := SetList(doc).value;
    forall i | 0 <= i < |doc|
      ensures |sets| == |doc| && (OutsideId(sets[i].path) <==> !HasPrefix(doc[i].name, "_id."))
    {
      SetListAt(doc, i);
      KeyOutsideId(doc[i].name);
    }
  }

  lemma UnsetsOutsideId(doc: Fields)
    requires UnsetList(doc).Ok?
    ensures (forall i :: 0 <= i < |UnsetList(doc).value| ==> OutsideId(UnsetList(doc).value[i]))
            <==> forall i :: 0 <= i < |doc| ==> !HasPrefix(doc[i].name, "_id.")
  {
    var paths := UnsetList(doc).value;
    forall i | 0 <= i < |doc|
      ensures |paths| == |doc| && (OutsideId(paths[i]) <==> !HasPrefix(doc[i].name, "_id."))
    {
      UnsetListAt(doc, i);
      KeyOutsideId(doc[i].name);
    }
  }

  /** A plan leaves "_id" alone exactly when no key begins with "_id.": the only check the code makes is on "_id"
      itself. */
  lemma PlanKeepsId(u: Fields, nor: bool)
    requires UpdatePlan(u, nor).Ok?
    ensures PlanOutsideId(UpdatePlan(u, nor).value) <==> KeysOutsideId(u)
  {
    hide SetList, UnsetList, OutsideId, WhereClause, HasUnimplemented, Part, SetGuard, UnsetGuard;
    SetsOutsideId(Part(u, "$set"));
    UnsetsOutsideId(Part(u, "$unset"));
  }

  lemma {:induction false} AssignKeepsId(fs: Fields, path: Path, x: Value)
    requires OutsideId(path)
    ensures Assign(Document(fs), path, x).Document? && Get(Assign(Document(fs), path, x).fields, ID) == Get(fs, ID)
  {
    if path[0].Name? {
      AssignInDocument(fs, path, x);
      GetPut(fs, path[0].name, Assign(Below(fs, path[0].name), path[1..], x), ID);
    }
  }

  lemma {:induction false} UnassignKeepsId(fs: Fields, path: Path)
    requires OutsideId(path)
    ensures Unassign(Document(fs), path).Document? && Get(Unassign(Document(fs), path).fields, ID) == Get(fs, ID)
  {
    if path[0].Name? {
      var n := path[0].name;
      if |path| == 1 {
        GetWithout(fs, n, ID);
      } else if Get(fs, n).Some? {
        GetReplace(fs, n, Unassign(Get(fs, n).value, path[1..]), ID);
      }
    }
  }

  lemma {:induction false} AssignAllKeepsId(fs: Fields, sets: seq<Assignment>)
    requires forall i :: 0 <= i < |sets| ==> OutsideId(sets[i].path)
    ensures AssignAll(Document(fs), sets).Document? && Get(AssignAll(Document(fs), sets).fields, ID) == Get(fs, ID)
    decreases |sets|
  {
    if sets != [] {
      AssignKeepsId(fs, sets[0].path, sets[0].value);
      AssignAllKeepsId(Assign(Document(fs), sets[0].path, sets[0].value).fields, sets[1..]);
    }
  }

  lemma {:induction false} UnassignAllKeepsId(fs: Fields, unsets: seq<Path>)
    requires forall j :: 0 <= j < |unsets| ==> OutsideId(unsets[j])
    ensures UnassignAll(Document(fs), unsets).Document?
    ensures Get(UnassignAll(Document(fs), unsets).fields, ID) == Get(fs, ID)
    decreases |unsets|
  {
    if unsets != [] {
      UnassignKeepsId(fs, unsets[0]);
      UnassignAllKeepsId(Unassign(Document(fs), unsets[0]).fields, unsets[1..]);
    }
  }

  lemma UpdateRowKeepsId(row: Fields, plan: Plan)
    requires PlanOutsideId(plan)
    ensures Updated(Document(row), plan) == Document(UpdateRow(row, plan)) && IdOf(UpdateRow(row, plan)) == IdOf(row)
  {
    AssignAllKeepsId(row, plan.sets);
    UnassignAllKeepsId(AssignAll(Document(row), plan.sets).fields, plan.unsets);
  }

  /** Below "_id" the check is missing: {$set: {"_id.x": 1}} is accepted and gives two documents the same id. */
  lemma {:induction false} BelowIdIsNotProtected()
    ensures var plan := Plan([Assignment([Name("_id"), Name("x")], Int32(1))], [], []);
            && SetList([Field("_id.x", Int32(1))]) == Ok(plan.sets)
            && IdOf(RowWithId(2)) != IdOf(RowWithId(3))
            && IdOf(UpdateRow(RowWithId(2), plan)) == IdOf(UpdateRow(RowWithId(3), plan))
  {
    BelowIdAccepted();
    BelowIdRow(2);
    BelowIdRow(3);
    IdOfRow(2);
    IdOfRow(3);
  }

  lemma BelowIdAccepted()
    ensures SetList([Field("_id.x", Int32(1))]) == Ok([Assignment([Name("_id"), Name("x")], Int32(1))])
  {
    var doc := [Field("_id.x", Int32(1))];
    BelowIdPath();
    assert doc[1..] == [] && SetList([]) == Ok([]);
    var a := Assignment([Name("_id"), Name("x")], Int32(1));
    assert [a] + [] == [a];
  }

  /** {_id: {x: n}}. */
  function RowWithId(n: int32): Fields { [Field(ID, Document([Field("x", Int32(n))]))] }

  lemma IdOfRow(n: int32)
    ensures IdOf(RowWithId(n)) == Val(Document([Field("x", Int32(n))]))
  {
  }

  lemma {:induction false} SplitName(name: bytes, rest: bytes)
    requires '.' !in name
    ensures SplitDots(name) == [name]
    ensures SplitDots(name + (['.'] + rest)) == [name] + SplitDots(rest)
  {
    if name == [] {
      assert name + (['.'] + rest) == ['.'] + rest && (['.'] + rest)[1..] == rest;
    } else {
      SplitName(name[1..], rest);
      HeadTail(name);
      var whole := name + (['.'] + rest);
      assert whole[1..] == name[1..] + (['.'] + rest);
      assert ([name[1..]] + SplitDots(rest))[1..] == SplitDots(rest);
    }
  }

  lemma BelowIdPath()
    ensures UpdateKey("_id.x") == Ok([Name("_id"), Name("x")]) && !IsIdKey("_id.x")
  {
    var x, id: seq<bytes> := ["x"], ["_id", "x"];
    assert SplitDots("_id.x") == id by { SplitOfIdX(); }
    NotANumber(x[0]);
    NotANumber(id[0]);
    assert x[1..] == [] && id[1..] == x;
    assert [Name("x")] + [] == [Name("x")];
    assert UpdateSteps(x, false) == Ok([Name("x")]);
    assert [Name("_id")] + [Name("x")] == [Name("_id"), Name("x")];
    assert "_id.x"[3] == '.';
    assert |Lower("_id.x")| == 5;
  }

  lemma SplitOfIdX()
    ensures SplitDots("_id.x") == ["_id", "x"]
  {
    SplitName("_id", "x");
    SplitName("x", []);
    assert "_id" + (['.'] + "x") == "_id.x";
  }

  lemma BelowIdRow(n: int32)
    ensures UpdateRow(RowWithId(n), Plan([Assignment([Name("_id"), Name("x")], Int32(1))], [], [])) == RowWithId(1)
  {
    var inner, row := [Field("x", Int32(n))], RowWithId(n);
    var path := [Name("_id"), Name("x")];
    assert path[1..] == [Name("x")] && [Name("x")][1..] == [];
    IdOfRow(n);
    assert Replace(inner, "x", Int32(1)) == [Field("x", Int32(1))];
    assert Assign(Document(inner), [Name("x")], Int32(1)) == Document([Field("x", Int32(1))]);
    AssignInDocument(row, path, Int32(1));
    assert Replace(row, ID, Document([Field("x", Int32(1))])) == RowWithId(1);
    assert [Assignment(path, Int32(1))][1..] == [];
  }

  // ----- choosing by id

  /** With good ids, an id chooses nothing but its own document. */
  lemma {:induction false} IdChoosesOne(rows: seq<Fields>, k: nat, compare: Comparison)
    requires GoodIds(rows, compare) && Symmetric(compare) && k < |rows|
    ensures forall i :: 0 <= i < |rows| && i != k ==> !ById(IdOf(rows[k]), compare)(rows[i])
  {
    forall i | 0 <= i < |rows| && i != k ensures !SameId(IdOf(rows[i]), IdOf(rows[k]), compare) {
      if i > k { assert !SameId(IdOf(rows[k]), IdOf(rows[i]), compare); }
    }
  }

  lemma {:induction false} DeleteNone(rows: seq<Fields>, chosen: Chooser)
    requires forall i :: 0 <= i < |rows| ==> !chosen(rows[i])
    ensures DeleteRows(rows, chosen) == rows
  {
    if rows != [] {
      assert forall i :: 0 <= i < |rows[1..]| ==> rows[1..][i] == rows[i + 1];
      DeleteNone(rows[1..], chosen);
      HeadTail(rows);
    }
  }

  lemma {:induction false} DeleteJustOne(rows: seq<Fields>, chosen: Chooser, k: nat)
    requires k < |rows| && forall i :: 0 <= i < |rows| && i != k ==> !chosen(rows[i])
    ensures DeleteRows(rows, chosen) == if chosen(rows[k]) then rows[..k] + rows[k + 1..] else rows
    ensures Count(rows, chosen) == if chosen(rows[k]) then 1 else 0
  {
    hide GoodIds, IdOf, SameId;
    var rest := rows[1..];
    assert forall i :: 0 <= i < |rest| ==> rest[i] == rows[i + 1];
    if k == 0 {
      DeleteNone(rest, chosen);
      HeadTail(rows);
      DropFirst(rows);
    } else {
      DeleteJustOne(rest, chosen, k - 1);
      DeleteBehindFirst(rows, chosen, k);
    }
  }

  lemma DropFirst<T>(s: seq<T>)
    requires s != []
    ensures [] + s[1..] == s[1..] == s[..0] + s[0 + 1..]
  {
  }

  lemma {:induction false} DeleteBehindFirst(rows: seq<Fields>, chosen: Chooser, k: nat)
    requires 0 < k < |rows| && !chosen(rows[0])
    requires var rest := rows[1..];
             DeleteRows(rest, chosen) == if chosen(rows[k]) then rest[..k - 1] + rest[k..] else rest
    ensures DeleteRows(rows, chosen) == if chosen(rows[k]) then rows[..k] + rows[k + 1..] else rows
  {
    RemoveInTail(rows, k);
    HeadTail(rows);
  }

  lemma {:induction false} DeleteKeepsIds(rows: seq<Fields>, chosen: Chooser, compare: Comparison)
    requires GoodIds(rows, compare)
    ensures GoodIds(DeleteRows(rows, chosen), compare)
  {
    if rows != [] {
      var rest := rows[1..];
      assert forall i :: 0 <= i < |rest| ==> rest[i] == rows[i + 1];
      DeleteKeepsIds(rest, chosen, compare);
      PrependKeepsIds(rows, DeleteRows(rest, chosen), compare);
      assert [] + DeleteRows(rest, chosen) == DeleteRows(rest, chosen);
    }
  }

  lemma {:induction false} PrependKeepsIds(rows: seq<Fields>, kept: seq<Fields>, compare: Comparison)
    requires rows != [] && GoodIds(rows, compare) && GoodIds(kept, compare)
    requires forall row :: row in kept ==> row in rows[1..]
    ensures GoodIds([rows[0]] + kept, compare)
  {
    forall j | 0 <= j < |kept| ensures !SameId(IdOf(rows[0]), IdOf(kept[j]), compare) {
      assert kept[j] in rows[1..];
      var m :| 0 <= m < |rows[1..]| && rows[1..][m] == kept[j];
      assert rows[m + 1] == kept[j];
    }
  }

  lemma {:induction false} UpdateKeepsIds(rows: seq<Fields>, chosen: Chooser, plan: Plan, compare: Comparison)
    requires GoodIds(rows, compare) && PlanOutsideId(plan)
    ensures GoodIds(UpdateRows(rows, chosen, plan), compare)
  {
    var after := UpdateRows(rows, chosen, plan);
    forall i | 0 <= i < |rows| ensures IdOf(after[i]) == IdOf(rows[i]) {
      UpdateRowKeepsId(rows[i], plan);
    }
  }

  // ----- every step

  ghost predicate EntryOutsideId(entry: Fields) {
    match Get(entry, "u") case Some(Document(u)) => KeysOutsideId(u) case _ => true
  }

  lemma {:induction false} AssignedOutsideId(plan: Plan, db: Database)
    requires PlanOutsideId(plan) && Assigned(plan, db).Some?
    ensures PlanOutsideId(Assigned(plan, db).value)
  {
  }

  lemma {:induction false} UpdatesWithKeepsIds(before: seq<Fields>, sql: Tokens, plan: Plan, multi: bool, db: Database,
                                               after: seq<Fields>, r: Result<Counts>)
    requires UpdatesWith(before, sql, plan, multi, db, after, r) && after != before
    requires GoodIds(before, db.compare) && PlanOutsideId(plan)
    ensures GoodIds(after, db.compare) && |after| == |before|
  {
    hide GoodIds, PlanOutsideId, Read, ReadSent, Count, Assigned, ArrivingId;
    AssignedOutsideId(plan, db);
    var effect := Assigned(plan, db).value;
    if multi {
      UpdateKeepsIds(before, BySql(ReadSent(sql, plan.guard, db).value, db.compare), effect, db.compare);
    } else {
      var k :| 0 <= k < |before| && ArrivingId(before[k], db).Some?
               && after == UpdateRows(before, ById(ArrivingId(before[k], db).value, db.compare), effect);
      UpdateKeepsIds(before, ById(ArrivingId(before[k], db).value, db.compare), effect, db.compare);
    }
  }

  /** Safety of an update entry, whatever the database makes of a text that was altered on the way. */
  lemma {:induction false} UpdateStepKeepsIds(before: seq<Fields>, entry: Fields, db: Database, nor: bool,
                                              after: seq<Fields>, r: Result<Counts>)
    requires UpdateStep(before, entry, db, nor, after, r)
    requires GoodIds(before, db.compare) && EntryOutsideId(entry)
    ensures GoodIds(after, db.compare) && |after| == |before|
  {
    hide GoodIds, WhereClause, UpdatePlan, UpdatesWith, PlanOutsideId, KeysOutsideId;
    if after != before {
      var q, u := Get(entry, "q").value.fields, Get(entry, "u").value.fields;
      PlanKeepsId(u, nor);
      var multi := Get(entry, "multi") == Some(Bool(true));
      UpdatesWithKeepsIds(before, WhereClause(q, nor).value, UpdatePlan(u, nor).value, multi, db, after, r);
    }
  }

  // ----- statements about one document

  /** A good id arrives as it is, if it reads back as itself. */
  lemma {:induction false} GoodIdArrives(row: Fields, db: Database)
    requires IdOf(row).Val? && IsLiteral(IdOf(row).v) && FaithfulId(IdValue(row), db.nums)
    ensures ArrivingId(row, db) == Some(IdOf(row))
  {
    hide FaithfulId, ReadId;
    var id := IdValue(row);
    LiteralArrives(id);
    ReadIdExactly(id, db.nums);
    if id.Document? {
      Statements.LiteralDocuments(id.fields);
      Statements.SupportedFieldsRender(id.fields);
    }
  }

  /** The comparison tells this id from every other value, and no garbled text is read as this id. */
  ghost predicate TellsApart(id: Value, db: Database) {
    && (forall x :: db.compare(id, x) == Equal <==> x == id)
    && (forall y :: WrittenField(y).None? ==> db.garbled(y) != Some(id))
  }

  /** The statement that follows the selection of a document reaches that document exactly when its id reads back as
      itself. */
  lemma {:induction false} ReachesSelectedExactly(row: Fields, db: Database)
    requires IdOf(row).Val? && IsLiteral(IdOf(row).v) && TellsApart(IdOf(row).v, db)
    ensures ArrivingId(row, db).Some? && ById(ArrivingId(row, db).value, db.compare)(row)
            <==> FaithfulId(IdValue(row), db.nums)
  {
    hide FaithfulId, ReadId, UpdateValue;
    var id := IdValue(row);
    ReadIdExactly(id, db.nums);
    if FaithfulId(id, db.nums) {
      GoodIdArrives(row, db);
    } else if ReadId(id, db.nums).Some? {
      LiteralIsClean(id);
      ReadClean.CleanIdIsWritten(id, db.nums);
    }
  }

  lemma {:induction false} LiteralIsClean(id: Value)
    requires IsLiteral(id)
    ensures Supported(id) && WrittenText.CleanField(id)
  {
    if id.Document? { Statements.LiteralDocuments(id.fields); }
  }

  /** The ids of the chosen documents read back as themselves. */
  ghost predicate ReadableIds(rows: seq<Fields>, chosen: Chooser, nums: Storage.Numbers) {
    forall k :: 0 <= k < |rows| && chosen(rows[k]) ==> FaithfulId(IdValue(rows[k]), nums)
  }

  ghost predicate Transitive(compare: Comparison) {
    forall x, y, z :: compare(x, y) == Equal && compare(y, z) == Equal ==> compare(x, z) == Equal
  }

  /** Whatever id arrives, it belongs to one document at most. */
  lemma {:induction false} AnyIdChoosesOne(rows: seq<Fields>, id: Slot, compare: Comparison) returns (k: nat)
    requires GoodIds(rows, compare) && Symmetric(compare) && Transitive(compare)
    requires exists i :: 0 <= i < |rows| && ById(id, compare)(rows[i])
    ensures k < |rows| && ById(id, compare)(rows[k])
    ensures forall i :: 0 <= i < |rows| && i != k ==> !ById(id, compare)(rows[i])
  {
    k :| 0 <= k < |rows| && ById(id, compare)(rows[k]);
    forall i | 0 <= i < |rows| && i != k ensures !ById(id, compare)(rows[i]) {
      if ById(id, compare)(rows[i]) {
        assert SameId(IdOf(rows[i]), IdOf(rows[k]), compare) && SameId(IdOf(rows[k]), IdOf(rows[i]), compare);
      }
    }
  }

  lemma {:induction false} UpdateJustOne(rows: seq<Fields>, chosen: Chooser, plan: Plan, k: nat)
    requires k < |rows| && forall i :: 0 <= i < |rows| && i != k ==> !chosen(rows[i])
    ensures UpdateRows(rows, chosen, plan) == if chosen(rows[k]) then rows[k := UpdateRow(rows[k], plan)] else rows
  {
  }

  /** An entry without multi changes one document that its filter and guard selected, if the ids of these read back as
      themselves; it fails only when the database refuses a value. */
  lemma {:induction false} UpdateOneTouchesOne(before: seq<Fields>, terms: Option<seq<Conj>>, plan: Plan, matched: nat,
                                               db: Database, after: seq<Fields>, r: Result<Counts>)
    requires UpdatesOne(before, terms, plan, matched, db, after, r)
    requires GoodIds(before, db.compare) && Symmetric(db.compare) && Reflexive(db.compare)
    requires terms.Some? ==> ReadableIds(before, BySql(terms.value, db.compare), db.nums)
    ensures if terms.None? || Count(before, BySql(terms.value, db.compare)) == 0 then
              after == before && r == Ok((matched, 0))
            else if Assigned(plan, db).None? then
              after == before && r.Err?
            else
              r == Ok((matched, 1))
              && exists k :: 0 <= k < |before| && BySql(terms.value, db.compare)(before[k])
                             && after == before[k := UpdateRow(before[k], Assigned(plan, db).value)]
  {
    hide ArrivingId, FaithfulId, UpdateRow, Selects;
    if terms.Some? && Count(before, BySql(terms.value, db.compare)) != 0 {
      forall k | 0 <= k < |before| && BySql(terms.value, db.compare)(before[k])
        ensures ArrivingId(before[k], db) == Some(IdOf(before[k]))
      {
        GoodIdArrives(before[k], db);
      }
      if Assigned(plan, db).Some? {
        var effect := Assigned(plan, db).value;
        var k :| 0 <= k < |before| && BySql(terms.value, db.compare)(before[k])
                 && after == UpdateRows(before, ById(IdOf(before[k]), db.compare), effect) && r == Ok((matched, 1));
        IdChoosesOne(before, k, db.compare);
        UpdateJustOne(before, ById(IdOf(before[k]), db.compare), effect, k);
        IdChoosesItself(before[k], db.compare);
      }
    }
  }

  /** Whatever the ids read back as, at most one document changes. */
  lemma {:induction false} UpdateOneTouchesAtMostOne(before: seq<Fields>, terms: Option<seq<Conj>>, plan: Plan,
                                                     matched: nat, db: Database, after: seq<Fields>, r: Result<Counts>)
    requires UpdatesOne(before, terms, plan, matched, db, after, r) && after != before
    requires GoodIds(before, db.compare) && Symmetric(db.compare) && Transitive(db.compare)
    ensures exists k :: 0 <= k < |before| && Assigned(plan, db).Some?
                        && after == before[k := UpdateRow(before[k], Assigned(plan, db).value)]
  {
    hide ArrivingId, UpdateRow, UpdateRows, BySql, ById, GoodIds;
    var effect := Assigned(plan, db).value;
    var m :| 0 <= m < |before| && ArrivingId(before[m], db).Some?
             && after == UpdateRows(before, ById(ArrivingId(before[m], db).value, db.compare), effect);
    var chosen := ById(ArrivingId(before[m], db).value, db.compare);
    if forall i :: 0 <= i < |before| ==> !chosen(before[i]) {
      UpdateNone(before, chosen, effect);
    } else {
      var k := AnyIdChoosesOne(before, ArrivingId(before[m], db).value, db.compare);
      UpdateJustOne(before, chosen, effect, k);
    }
  }

  lemma {:induction false} UpdateNone(rows: seq<Fields>, chosen: Chooser, plan: Plan)
    requires forall i :: 0 <= i < |rows| ==> !chosen(rows[i])
    ensures UpdateRows(rows, chosen, plan) == rows
  {
  }

  /** Where only one document is selected: it is the one that changes, or it stays as it is. One document is reported
      as modified either way, unless the id cannot be read or written. */
  lemma {:induction false} UpdateOneReachesExactly(before: seq<Fields>, terms: seq<Conj>, plan: Plan, matched: nat,
                                                   db: Database, after: seq<Fields>, r: Result<Counts>, k: nat)
    requires UpdatesOne(before, Some(terms), plan, matched, db, after, r) && Assigned(plan, db).Some?
    requires k < |before| && BySql(terms, db.compare)(before[k])
    requires forall i :: 0 <= i < |before| && i != k ==> !BySql(terms, db.compare)(before[i])
    requires GoodIds(before, db.compare) && Symmetric(db.compare) && TellsApart(IdValue(before[k]), db)
    ensures if FaithfulId(IdValue(before[k]), db.nums) then
              after == before[k := UpdateRow(before[k], Assigned(plan, db).value)] && r == Ok((matched, 1))
            else |after| == |before| && after[k] == before[k]
    ensures ArrivingId(before[k], db).Some? ==> r == Ok((matched, 1))
  {
    hide ArrivingId, FaithfulId, UpdateRow, Selects;
    ReachesSelectedExactly(before[k], db);
    if FaithfulId(IdValue(before[k]), db.nums) {
      GoodIdArrives(before[k], db);
      IdChoosesOne(before, k, db.compare);
      UpdateJustOne(before, ById(IdOf(before[k]), db.compare), Assigned(plan, db).value, k);
    }
  }

  lemma {:induction false} IdChoosesItself(row: Fields, compare: Comparison)
    requires IdOf(row).Val? && Reflexive(compare)
    ensures ById(IdOf(row), compare)(row)
  {
  }

  /** Safety of a delete entry, whatever the database makes of a text that was altered on the way. */
  lemma {:induction false} DeleteStepKeepsIds(before: seq<Fields>, entry: Fields, db: Database, nor: bool,
                                              after: seq<Fields>, r: Result<nat>)
    requires DeleteStep(before, entry, db, nor, after, r) && GoodIds(before, db.compare)
    ensures GoodIds(after, db.compare)
  {
    hide GoodIds, WhereClause;
    if after != before {
      var sql := WhereClause(Get(entry, "q").value.fields, nor).value;
      if DeletesMany(before, ReadSent(sql, [], db), db.compare, after, r) {
        DeleteKeepsIds(before, BySql(ReadSent(sql, [], db).value, db.compare), db.compare);
      } else {
        assert DeletesOne(before, Read(sql, db), db, after, r);
        var k :| 0 <= k < |before| && ArrivingId(before[k], db).Some?
                 && after == DeleteRows(before, ById(ArrivingId(before[k], db).value, db.compare));
        DeleteKeepsIds(before, ById(ArrivingId(before[k], db).value, db.compare), db.compare);
      }
    }
  }

  /** The count of an entry is what the collection loses; an error loses nothing. */
  lemma {:induction false} DeleteStepCounts(before: seq<Fields>, entry: Fields, db: Database, nor: bool,
                                            after: seq<Fields>, r: Result<nat>)
    requires DeleteStep(before, entry, db, nor, after, r)
    ensures r.Ok? ==> |after| + r.value == |before|
    ensures r.Err? ==> after == before
  {
    hide WhereClause;
    if after != before {
      var sql := WhereClause(Get(entry, "q").value.fields, nor).value;
      if !DeletesMany(before, ReadSent(sql, [], db), db.compare, after, r) {
        assert DeletesOne(before, Read(sql, db), db, after, r);
        var k :| 0 <= k < |before| && ArrivingId(before[k], db).Some?
                 && after == DeleteRows(before, ById(ArrivingId(before[k], db).value, db.compare))
                 && r == Ok(Count(before, ById(ArrivingId(before[k], db).value, db.compare)));
      }
    }
  }

  /** An entry with a limit removes one document that its filter selected, if the ids of these read back as
      themselves. */
  lemma {:induction false} DeleteOneTouchesOne(before: seq<Fields>, terms: Option<seq<Conj>>, db: Database,
                                               after: seq<Fields>, r: Result<nat>)
    requires DeletesOne(before, terms, db, after, r)
    requires GoodIds(before, db.compare) && Symmetric(db.compare) && Reflexive(db.compare)
    requires terms.Some? ==> ReadableIds(before, BySql(terms.value, db.compare), db.nums)
    ensures if terms.None? || Count(before, BySql(terms.value, db.compare)) == 0 then
              after == before && r == Ok(0)
            else
              r == Ok(1)
              && exists k :: 0 <= k < |before| && BySql(terms.value, db.compare)(before[k])
                             && after == before[..k] + before[k + 1..]
  {
    hide ArrivingId, FaithfulId, Selects;
    if terms.Some? && Count(before, BySql(terms.value, db.compare)) != 0 {
      forall k | 0 <= k < |before| && BySql(terms.value, db.compare)(before[k])
        ensures ArrivingId(before[k], db) == Some(IdOf(before[k]))
      {
        GoodIdArrives(before[k], db);
      }
      var k :| 0 <= k < |before| && BySql(terms.value, db.compare)(before[k])
               && after == DeleteRows(before, ById(IdOf(before[k]), db.compare))
               && r == Ok(Count(before, ById(IdOf(before[k]), db.compare)));
      IdChoosesOne(before, k, db.compare);
      IdChoosesItself(before[k], db.compare);
      DeleteJustOne(before, ById(IdOf(before[k]), db.compare), k);
    }
  }

  /** Whatever the ids read back as, at most one document goes, and the count says so. */
  lemma {:induction false} DeleteOneTouchesAtMostOne(before: seq<Fields>, terms: Option<seq<Conj>>, db: Database,
                                                     after: seq<Fields>, r: Result<nat>)
    requires DeletesOne(before, terms, db, after, r) && after != before
    requires GoodIds(before, db.compare) && Symmetric(db.compare) && Transitive(db.compare)
    ensures r == Ok(1) && exists k :: 0 <= k < |before| && after == before[..k] + before[k + 1..]
  {
    hide ArrivingId, Selects, GoodIds;
    var m :| 0 <= m < |before| && ArrivingId(before[m], db).Some?
             && after == DeleteRows(before, ById(ArrivingId(before[m], db).value, db.compare))
             && r == Ok(Count(before, ById(ArrivingId(before[m], db).value, db.compare)));
    var chosen := ById(ArrivingId(before[m], db).value, db.compare);
    if forall i :: 0 <= i < |before| ==> !chosen(before[i]) {
      DeleteNone(before, chosen);
    } else {
      var k := AnyIdChoosesOne(before, ArrivingId(before[m], db).value, db.compare);
      DeleteJustOne(before, chosen, k);
    }
  }

  /** Where only one document is selected: it is the one that goes, or it stays. */
  lemma {:induction false} DeleteOneReachesExactly(before: seq<Fields>, terms: seq<Conj>, db: Database,
                                                   after: seq<Fields>, r: Result<nat>, k: nat)
    requires DeletesOne(before, Some(terms), db, after, r) && k < |before| && BySql(terms, db.compare)(before[k])
    requires forall i :: 0 <= i < |before| && i != k ==> !BySql(terms, db.compare)(before[i])
    requires GoodIds(before, db.compare) && Symmetric(db.compare) && TellsApart(IdValue(before[k]), db)
    ensures if FaithfulId(IdValue(before[k]), db.nums) then after == before[..k] + before[k + 1..] && r == Ok(1)
            else before[k] in after
  {
    hide ArrivingId, FaithfulId, Selects;
    ReachesSelectedExactly(before[k], db);
    if FaithfulId(IdValue(before[k]), db.nums) {
      GoodIdArrives(before[k], db);
      IdChoosesOne(before, k, db.compare);
      DeleteJustOne(before, ById(IdOf(before[k]), db.compare), k);
    }
  }

  /** A value that is read back but cannot be written into a statement. */
  predicate Unwritable(v: Value) {
    match v
    case Document(fs) => !Rendering.UpdateRenders(fs)
    case Array(es) => !Rendering.ArrayRenders(es)
    case DateTime(_) => true
    case Regex(_, _) => true
    case _ => false
  }

  /** Where the ids of the selected documents come back as values that cannot be written, the entry is an error and
      nothing goes. */
  lemma {:induction false} UnwritableIdsFail(before: seq<Fields>, terms: seq<Conj>, db: Database,
                                             after: seq<Fields>, r: Result<nat>)
    requires DeletesOne(before, Some(terms), db, after, r) && Count(before, BySql(terms, db.compare)) > 0
    requires forall i :: 0 <= i < |before| && BySql(terms, db.compare)(before[i]) ==>
               ReadId(IdValue(before[i]), db.nums).Some? && Unwritable(ReadId(IdValue(before[i]), db.nums).value)
    ensures after == before && r.Err?
  {
    hide ReadId, Selects;
  }
}
