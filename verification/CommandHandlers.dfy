/** The insert, update and delete handlers, run against one collection: loops over the entries of a message, with the
    filter compiler's mode carried from call to call. */
module CommandHandlers {
  import opened Types
  import opened Sql
  import opened Where
  import opened WhereCompiler
  import opened Update
  import opened UpdateCompiler
  import opened ReadBack
  import opened Sending
  import opened Commands
  import opened CommandSafety
  import Storage

  lemma IdCheckLeavesMode(id: Value, nor: bool)
    ensures OpenNorsPairs([Field(ID, id)], nor) == 0
  {
    IdKey();
    assert [Field(ID, id)][1..] == [];
  }

  /** Whatever becomes of the rest of the entries is what becomes of all of them. */
  ghost predicate DeletesGoOn(start: seq<Fields>, entries: seq<Fields>, rows: seq<Fields>, rest: seq<Fields>,
                              deleted: nat, db: Database, nor: bool)
  {
    forall after, r ::
      DeletesAll(rows, rest, deleted, db, nor, after, r) ==> DeletesAll(start, entries, 0, db, nor, after, r)
  }

  lemma {:induction false} DeletesTurn(start: seq<Fields>, entries: seq<Fields>, rows: seq<Fields>, rest: seq<Fields>,
                                       deleted: nat, db: Database, nor: bool, mid: seq<Fields>, c: Result<nat>)
    requires DeletesGoOn(start, entries, rows, rest, deleted, db, nor)
    requires rest != [] && DeleteStep(rows, rest[0], db, nor, mid, c)
    ensures c.Ok? ==> DeletesGoOn(start, entries, mid, rest[1..], deleted + c.value, db, nor)
    ensures c.Err? ==> DeletesAll(start, entries, 0, db, nor, mid, Err(c.error))
  {
    hide DeleteStep;
    if c.Err? {
      assert DeletesAll(rows, rest, deleted, db, nor, mid, Err(c.error));
    } else {
      forall after, r | DeletesAll(mid, rest[1..], deleted + c.value, db, nor, after, r)
        ensures DeletesAll(start, entries, 0, db, nor, after, r)
      {
        assert DeletesAll(rows, rest, deleted, db, nor, after, r);
      }
    }
  }

  ghost predicate UpdatesGoOn(start: seq<Fields>, entries: seq<Fields>, rows: seq<Fields>, rest: seq<Fields>,
                              sofar: Counts, db: Database, nor: bool)
  {
    forall after, r ::
      UpdatesAll(rows, rest, sofar, db, nor, after, r) ==> UpdatesAll(start, entries, (0, 0), db, nor, after, r)
  }

  lemma {:induction false} UpdatesTurn(start: seq<Fields>, entries: seq<Fields>, rows: seq<Fields>, rest: seq<Fields>,
                                       sofar: Counts, db: Database, nor: bool, mid: seq<Fields>, c: Result<Counts>)
    requires UpdatesGoOn(start, entries, rows, rest, sofar, db, nor)
    requires rest != [] && UpdateStep(rows, rest[0], db, nor, mid, c)
    ensures c.Ok? ==>
              UpdatesGoOn(start, entries, mid, rest[1..], (sofar.0 + c.value.0, sofar.1 + c.value.1), db, nor)
    ensures c.Err? ==> UpdatesAll(start, entries, (0, 0), db, nor, mid, Err(c.error))
  {
    hide UpdateStep;
    if c.Err? {
      assert UpdatesAll(rows, rest, sofar, db, nor, mid, Err(c.error));
    } else {
      var next := (sofar.0 + c.value.0, sofar.1 + c.value.1);
      forall after, r | UpdatesAll(mid, rest[1..], next, db, nor, after, r)
        ensures UpdatesAll(start, entries, (0, 0), db, nor, after, r)
      {
        assert UpdatesAll(rows, rest, sofar, db, nor, after, r);
      }
    }
  }

  /** One collection of the database, as the handlers of a sequential run see it. */
  class Collection {
    var rows: seq<Fields>
    const compiler: Compiler
    const db: Database

    ghost predicate Valid()
      reads compiler
    {
      compiler.Valid()
    }

    constructor (db: Database)
      ensures Valid() && fresh(compiler) && rows == [] && this.db == db && !compiler.isNor
    {
      this.db := db;
      compiler := new Compiler();
      rows := [];
    }

    /** SELECT ... LIMIT 1: any one of the chosen documents. */
    method SelectOne(chosen: Chooser) returns (found: Option<nat>)
      ensures found.None? <==> Count(rows, chosen) == 0
      ensures found.Some? ==> found.value < |rows| && chosen(rows[found.value])
    {
      if Count(rows, chosen) == 0 { return None; }
      var k :| 0 <= k < |rows| && chosen(rows[k]);
      found := Some(k);
    }

    method IsIdUnique(id: Value) returns (unique: Result<bool>)
      requires Valid()
      modifies compiler
      ensures Valid() && compiler.isNor == old(compiler.isNor)
      ensures unique == UniqueId(rows, id, db, compiler.isNor)
    {
      IdCheckLeavesMode(id, compiler.isNor);
      var whereSQL := compiler.CreateWhereClause([Field(ID, id)]);
      if whereSQL.Err? { return Err(whereSQL.error); }
      var terms := Read(whereSQL.value, db);
      if terms.None? { return Err(OtherError); }
      var row := SelectOne(BySql(terms.value, db.compare));
      unique := Ok(row.None?);
    }

    /** MsgInsert. */
    method Insert(docs: seq<Value>) returns (r: Result<nat>)
      requires Valid()
      modifies this, compiler
      ensures Valid() && compiler.isNor == old(compiler.isNor)
      ensures (rows, r) == InsertAll(old(rows), docs, 0, db, compiler.isNor)
    {
      var inserted := 0;
      for i := 0 to |docs|
        invariant Valid() && compiler.isNor == old(compiler.isNor)
        invariant InsertAll(old(rows), docs, 0, db, compiler.isNor)
               == InsertAll(rows, docs[i..], inserted, db, compiler.isNor)
      {
        ghost var tail := docs[i..];
        assert tail[1..] == docs[i + 1..];
        if !docs[i].Document? { return Err(Panicked); }
        var d := docs[i].fields;
        var unique := IsIdUnique(IdValue(d));
        if unique.Err? { return Err(unique.error); }
        if !unique.value { return Err(OtherError); }
        if Storage.Marshal(docs[i], true, db.nums).None? { return Err(OtherError); }
        rows := rows + [Stored(d, db.nums)];
        inserted := inserted + 1;
      }
      r := Ok(inserted);
    }

    /** One entry of MsgDelete. */
    method DeleteEntry(entry: Fields) returns (r: Result<nat>)
      requires Valid()
      modifies this, compiler
      ensures Valid() && (r.Ok? ==> compiler.isNor == old(compiler.isNor))
      ensures DeleteStep(old(rows), entry, db, old(compiler.isNor), rows, r)
    {
      hide ArrivingId, Read, ReadSent, BySql, ById;
      if Get(entry, "collation").Some? || Get(entry, "hint").Some? { return Err(NotImplemented); }
      var q := Get(entry, "q");
      if q.None? || !q.value.Document? { return Err(Panicked); }
      var whereSQL := compiler.CreateWhereClause(q.value.fields);
      if whereSQL.Err? { return Err(whereSQL.error); }
      var limit := 0;
      match Get(entry, "limit") {
        case Some(Int32(n)) => limit := n;
        case _ =>
      }
      if limit != 0 {
        var terms := Read(whereSQL.value, db);
        if terms.None? { return Ok(0); }
        var k := SelectOne(BySql(terms.value, db.compare));
        if k.None? { return Ok(0); }
        var id := ArrivingId(rows[k.value], db);
        if id.None? { return Err(OtherError); }
        r := Ok(Count(rows, ById(id.value, db.compare)));
        rows := DeleteRows(rows, ById(id.value, db.compare));
      } else {
        var terms := ReadSent(whereSQL.value, [], db);
        if terms.None? { return Err(OtherError); }
        r := Ok(Count(rows, BySql(terms.value, db.compare)));
        rows := DeleteRows(rows, BySql(terms.value, db.compare));
      }
    }

    /** MsgDelete: the entries one after the other. Ids stay good, and the reported count is what the collection
        loses. */
    method Delete(entries: seq<Fields>) returns (r: Result<nat>)
      requires Valid()
      modifies this, compiler
      ensures Valid()
      ensures DeletesAll(old(rows), entries, 0, db, old(compiler.isNor), rows, r)
      ensures GoodIds(old(rows), db.compare) ==> GoodIds(rows, db.compare)
      ensures r.Ok? ==> |rows| + r.value == |old(rows)|
    {
      hide DeleteStep, GoodIds;
      var deleted := 0;
      ghost var nor := compiler.isNor;
      for i := 0 to |entries|
        invariant Valid() && compiler.isNor == nor && |rows| + deleted == |old(rows)|
        invariant GoodIds(old(rows), db.compare) ==> GoodIds(rows, db.compare)
        invariant DeletesGoOn(old(rows), entries, rows, entries[i..], deleted, db, nor)
      {
        ghost var before, tail := rows, entries[i..];
        assert tail[1..] == entries[i + 1..];
        var rowsAffected := DeleteEntry(entries[i]);
        DeleteStepCounts(before, entries[i], db, nor, rows, rowsAffected);
        if GoodIds(before, db.compare) { DeleteStepKeepsIds(before, entries[i], db, nor, rows, rowsAffected); }
        DeletesTurn(old(rows), entries, before, tail, deleted, db, nor, rows, rowsAffected);
        if rowsAffected.Err? { return Err(rowsAffected.error); }
        deleted := deleted + rowsAffected.value;
      }
      r := Ok(deleted);
    }

    /** One entry of MsgUpdate. */
    method UpdateEntry(entry: Fields) returns (r: Result<Counts>)
      requires Valid()
      modifies this, compiler
      ensures Valid() && (r.Ok? ==> compiler.isNor == old(compiler.isNor))
      ensures UpdateStep(old(rows), entry, db, old(compiler.isNor), rows, r)
    {
      hide UpdatesWith, WhereClause, UpdatePlan, GoodIds;
      var q := Get(entry, "q");
      if q.None? || !q.value.Document? { return Err(Panicked); }
      var whereSQL := compiler.CreateWhereClause(q.value.fields);
      if whereSQL.Err? { return Err(whereSQL.error); }
      var u := Get(entry, "u");
      if u.None? || !u.value.Document? { return Err(Panicked); }
      var plan := CreatePlan(compiler, u.value.fields);
      if plan.Err? { return Err(plan.error); }
      var multi := Get(entry, "multi") == Some(Bool(true));
      r := UpdateWith(whereSQL.value, plan.value, multi);
    }

    /** The statements of one entry of MsgUpdate. */
    method UpdateWith(whereSQL: Tokens, plan: Plan, multi: bool) returns (r: Result<Counts>)
      modifies this
      ensures UpdatesWith(old(rows), whereSQL, plan, multi, db, rows, r)
    {
      var filter := Read(whereSQL, db);
      if filter.None? { return Err(OtherError); }
      var matched := Count(rows, BySql(filter.value, db.compare));
      var effect := Assigned(plan, db);
      if !multi {
        var terms := Read(whereSQL + plan.guard, db);
        if terms.None? { return Ok((matched, 0)); }
        var k := SelectOne(BySql(terms.value, db.compare));
        if k.None? { return Ok((matched, 0)); }
        var id := ArrivingId(rows[k.value], db);
        if id.None? || effect.None? { return Err(OtherError); }
        rows := UpdateRows(rows, ById(id.value, db.compare), effect.value);
        r := Ok((matched, 1));
      } else {
        var terms := ReadSent(whereSQL, plan.guard, db);
        if terms.None? || effect.None? { return Err(OtherError); }
        r := Ok((matched, Count(rows, BySql(terms.value, db.compare))));
        rows := UpdateRows(rows, BySql(terms.value, db.compare), effect.value);
      }
    }

    /** MsgUpdate: the entries one after the other, with the counts of matched and modified documents. Ids stay good,
        and no document appears or disappears. */
    method Update(entries: seq<Fields>) returns (r: Result<Counts>)
      requires Valid()
      modifies this, compiler
      ensures Valid()
      ensures UpdatesAll(old(rows), entries, (0, 0), db, old(compiler.isNor), rows, r)
      ensures GoodIds(old(rows), db.compare) && (forall i :: 0 <= i < |entries| ==> EntryOutsideId(entries[i])) ==>
                GoodIds(rows, db.compare) && |rows| == |old(rows)|
    {
      hide UpdateStep, GoodIds, EntryOutsideId;
      var selected, updated := 0, 0;
      ghost var nor := compiler.isNor;
      for i := 0 to |entries|
        invariant Valid() && compiler.isNor == nor
        invariant GoodIds(old(rows), db.compare) && (forall i :: 0 <= i < |entries| ==> EntryOutsideId(entries[i])) ==>
                    GoodIds(rows, db.compare) && |rows| == |old(rows)|
        invariant UpdatesGoOn(old(rows), entries, rows, entries[i..], (selected, updated), db, nor)
      {
        ghost var before, tail, sofar := rows, entries[i..], (selected, updated);
        assert tail[1..] == entries[i + 1..];
        var counts := UpdateEntry(entries[i]);
        if GoodIds(before, db.compare) && EntryOutsideId(entries[i]) {
          UpdateStepKeepsIds(before, entries[i], db, nor, rows, counts);
        }
        UpdatesTurn(old(rows), entries, before, tail, sofar, db, nor, rows, counts);
        if counts.Err? { return Err(counts.error); }
        selected := selected + counts.value.0;
        updated := updated + counts.value.1;
      }
      r := Ok((selected, updated));
    }

    method Execute(command: Command) returns (reply: Result<nat>)
      requires Valid() && GoodIds(rows, db.compare) && GoodCommand(command, db)
      modifies this, compiler
      ensures Valid() && GoodIds(rows, db.compare)
      ensures reply.Ok? ==> |rows| == |old(rows)| + Effect(command, reply)
    {
      match command {
        case DoInsert(docs) =>
          InsertAllKeepsIds(rows, docs, 0, db, compiler.isNor);
          InsertAllCounts(rows, docs, 0, db, compiler.isNor);
          reply := Insert(docs);
        case DoUpdate(entries) =>
          var counts := Update(entries);
          reply := if counts.Ok? then Ok(counts.value.1) else Err(counts.error);
        case DoDelete(entries) =>
          reply := Delete(entries);
      }
    }

    /** A sequential run of commands keeps ids good and the books balanced, whatever errors occur on the way:
        what was inserted and not deleted is there. */
    method Run(commands: seq<Command>) returns (replies: seq<Result<nat>>)
      requires Valid() && GoodIds(rows, db.compare)
      requires forall i :: 0 <= i < |commands| ==> GoodCommand(commands[i], db)
      modifies this, compiler
      ensures Valid() && GoodIds(rows, db.compare) && |replies| == |commands|
      ensures (forall i :: 0 <= i < |commands| ==> replies[i].Ok?) ==>
                |rows| == |old(rows)| + Balance(commands, replies)
    {
      replies := [];
      for i := 0 to |commands|
        invariant Valid() && GoodIds(rows, db.compare) && |replies| == i
        invariant Balanced(|old(rows)|, commands[..i], replies, |rows|)
      {
        ghost var before := |rows|;
        var reply := Execute(commands[i]);
        BalancedStep(|old(rows)|, commands[..i], replies, before, commands[i], reply, |rows|);
        assert commands[..i + 1] == commands[..i] + [commands[i]];
        replies := replies + [reply];
      }
      assert commands[..|commands|] == commands;
    }
  }

  datatype Command =
    | DoInsert(docs: seq<Value>)
    | DoUpdate(entries: seq<Fields>)
    | DoDelete(entries: seq<Fields>)

  ghost predicate GoodCommand(c: Command, db: Database) {
    match c
    case DoInsert(docs) => forall i :: 0 <= i < |docs| ==> docs[i].Document? ==> GoodNewId(docs[i].fields, db)
    case DoUpdate(entries) => forall i :: 0 <= i < |entries| ==> EntryOutsideId(entries[i])
    case DoDelete(_) => true
  }

  /** The documents reported inserted minus the documents reported deleted. */
  function Effect(c: Command, reply: Result<nat>): int {
    var n: int := if reply.Ok? then reply.value else 0;
    match c case DoInsert(_) => n case DoUpdate(_) => 0 case DoDelete(_) => -n
  }

  function Balance(commands: seq<Command>, replies: seq<Result<nat>>): int
    requires |commands| == |replies|
  {
    if commands == [] then 0 else Effect(commands[0], replies[0]) + Balance(commands[1..], replies[1..])
  }

  /** Unless something failed, the collection has grown from size n to size m by what the replies say. */
  ghost predicate Balanced(n: nat, commands: seq<Command>, replies: seq<Result<nat>>, m: nat)
    requires |commands| == |replies|
  {
    (forall i :: 0 <= i < |replies| ==> replies[i].Ok?) ==> m == n + Balance(commands, replies)
  }

  lemma BalancedStep(n: nat, commands: seq<Command>, replies: seq<Result<nat>>, m: nat,
                     c: Command, reply: Result<nat>, m': nat)
    requires |commands| == |replies| && Balanced(n, commands, replies, m)
    requires reply.Ok? ==> m' == m + Effect(c, reply)
    ensures Balanced(n, commands + [c], replies + [reply], m')
  {
    var all := replies + [reply];
    BalanceAppend(commands, replies, c, reply);
    if forall i :: 0 <= i < |all| ==> all[i].Ok? {
      assert forall i :: 0 <= i < |replies| ==> all[i] == replies[i];
      assert all[|replies|] == reply;
    }
  }

  lemma {:induction false} BalanceAppend(commands: seq<Command>, replies: seq<Result<nat>>, c: Command,
                                         reply: Result<nat>)
    requires |commands| == |replies|
    ensures Balance(commands + [c], replies + [reply]) == Balance(commands, replies) + Effect(c, reply)
  {
    if commands == [] {
      assert (commands + [c])[1..] == [] && (replies + [reply])[1..] == [];
    } else {
      BalanceAppend(commands[1..], replies[1..], c, reply);
      assert (commands + [c])[1..] == commands[1..] + [c] && (replies + [reply])[1..] == replies[1..] + [reply];
    }
  }
}
