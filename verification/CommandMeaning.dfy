/** What update and delete entries do to a collection, said in terms of the filter and the update rather than of the
    statements that are sent: for filters and updates inside the supported fragment. */
module CommandMeaning {
  import opened Types
  import opened Sql
  import opened Where
  import opened Filter
  import opened Rows
  import opened Update
  import opened UpdateMeaning
  import opened PercentFreeFilters
  import opened Sending
  import opened Commands
  import opened CommandSafety
  import Statements

  /** The documents that a filter matches. */
  function ByFilter(q: Fields, compare: Comparison): Chooser { row => MatchesPairs(q, RowView(row, compare)) }

  /** The documents that a filter matches and an update changes. */
  function ByNeed(q: Fields, plan: Plan, compare: Comparison): Chooser {
    row => MatchesPairs(q, RowView(row, compare)) && Updated(Document(row), plan) != Document(row)
  }

  lemma {:induction false} SameChoice(rows: seq<Fields>, a: Chooser, b: Chooser)
    requires forall i :: 0 <= i < |rows| ==> a(rows[i]) == b(rows[i])
    ensures Count(rows, a) == Count(rows, b) && DeleteRows(rows, a) == DeleteRows(rows, b)
  {
    if rows != [] {
      assert forall i :: 0 <= i < |rows[1..]| ==> rows[1..][i] == rows[i + 1];
      SameChoice(rows[1..], a, b);
    }
  }

  /** The filter is supported and reads only ordinary fields of the documents. */
  ghost predicate Readable(rows: seq<Fields>, q: Fields) {
    SupportedPairs(q, false) && forall i :: 0 <= i < |rows| ==> OrdinaryFields(q, rows[i])
  }

  lemma {:induction false} SqlChoosesMatches(rows: seq<Fields>, q: Fields, db: Database)
    requires Readable(rows, q)
    ensures WhereClause(q, false).Ok? && Read(WhereClause(q, false).value, db).Some?
    ensures var terms := Read(WhereClause(q, false).value, db).value;
            && (forall i :: 0 <= i < |rows| ==> BySql(terms, db.compare)(rows[i]) == ByFilter(q, db.compare)(rows[i]))
            && Count(rows, BySql(terms, db.compare)) == Count(rows, ByFilter(q, db.compare))
            && DeleteRows(rows, BySql(terms, db.compare)) == DeleteRows(rows, ByFilter(q, db.compare))
  {
    hide WhereClause, ParseWhere, Statements.Intact, SupportedPairs, MatchesPairs, OrdinaryFields, Selects;
    ClauseParses(q);
    SupportedIsIntact(q, false);
    var terms := ParseWhere(WhereClause(q, false).value).value;
    forall i | 0 <= i < |rows| ensures BySql(terms, db.compare)(rows[i]) == ByFilter(q, db.compare)(rows[i]) {
      QueryReturnsMatches(q, rows[i], db.compare);
    }
    SameChoice(rows, BySql(terms, db.compare), ByFilter(q, db.compare));
  }

  // ----- delete

  /** A delete entry that the handler accepts, with its filter. */
  predicate DeletesBy(entry: Fields, q: Fields) {
    Get(entry, "collation").None? && Get(entry, "hint").None? && Get(entry, "q") == Some(Document(q))
  }

  lemma {:induction false} DeleteManyIsSent(before: seq<Fields>, entry: Fields, q: Fields, db: Database,
                                            after: seq<Fields>, r: Result<nat>)
    requires var limit := Get(entry, "limit"); limit.Some? && limit.value.Int32? ==> limit.value.i == 0
    requires DeleteStep(before, entry, db, false, after, r) && DeletesBy(entry, q)
    requires WhereClause(q, false).Ok?
    ensures DeletesMany(before, ReadSent(WhereClause(q, false).value, [], db), db.compare, after, r)
  {
    hide WhereClause, ReadSent, Read, DeletesMany, DeletesOne, Get;
  }

  /** Delete without a limit removes the matching documents and no others, and counts them, if the filter has no
      percent sign. */
  lemma {:induction false} DeleteManyRemovesMatches(before: seq<Fields>, entry: Fields, q: Fields, db: Database,
                                                    after: seq<Fields>, r: Result<nat>)
    requires var limit := Get(entry, "limit"); limit.Some? && limit.value.Int32? ==> limit.value.i == 0
    requires DeleteStep(before, entry, db, false, after, r) && DeletesBy(entry, q)
    requires Readable(before, q) && FreeFilter(q)
    ensures after == DeleteRows(before, ByFilter(q, db.compare)) && r == Ok(Count(before, ByFilter(q, db.compare)))
  {
    hide WhereClause, ReadSent, Read, DeleteStep, FreeFilter, SupportedPairs, OrdinaryFields, MatchesPairs, DeletesBy;
    SqlChoosesMatches(before, q, db);
    DeleteManyIsSent(before, entry, q, db, after, r);
    SentAsRead(q, [], db);
    assert WhereClause(q, false).value + [] == WhereClause(q, false).value;
  }

  lemma {:induction false} DeleteOneIsSent(before: seq<Fields>, entry: Fields, q: Fields, db: Database,
                                           after: seq<Fields>, r: Result<nat>)
    requires var limit := Get(entry, "limit"); limit.Some? && limit.value.Int32? && limit.value.i != 0
    requires DeleteStep(before, entry, db, false, after, r) && DeletesBy(entry, q)
    requires WhereClause(q, false).Ok?
    ensures DeletesOne(before, Read(WhereClause(q, false).value, db), db, after, r)
  {
    hide WhereClause, ReadSent, Read, DeletesMany, DeletesOne, Get;
  }

  /** Delete with a limit removes exactly one matching document when there is one, if the ids of the matching documents
      read back as themselves. */
  lemma {:induction false} DeleteOneRemovesAMatch(before: seq<Fields>, entry: Fields, q: Fields, db: Database,
                                                  after: seq<Fields>, r: Result<nat>)
    requires var limit := Get(entry, "limit"); limit.Some? && limit.value.Int32? && limit.value.i != 0
    requires DeleteStep(before, entry, db, false, after, r) && DeletesBy(entry, q)
    requires Readable(before, q) && ReadableIds(before, ByFilter(q, db.compare), db.nums)
    requires GoodIds(before, db.compare) && Symmetric(db.compare) && Reflexive(db.compare)
    ensures if Count(before, ByFilter(q, db.compare)) == 0 then after == before && r == Ok(0)
            else exists k :: 0 <= k < |before| && ByFilter(q, db.compare)(before[k])
                             && after == before[..k] + before[k + 1..] && r == Ok(1)
  {
    hide WhereClause, ReadSent, Read, Readable, MatchesPairs, GoodIds, DeleteStep, DeletesOne;
    SqlChoosesMatches(before, q, db);
    var terms := Read(WhereClause(q, false).value, db);
    DeleteOneIsSent(before, entry, q, db, after, r);
    DeleteOneTouchesOne(before, terms, db, after, r);
  }

  // ----- update

  predicate UpdatesBy(entry: Fields, q: Fields, u: Fields) {
    Get(entry, "q") == Some(Document(q)) && Get(entry, "u") == Some(Document(u))
  }

  /** The guard is exact on this document. */
  ghost predicate ExactOn(row: Fields, plan: Plan, compare: Comparison) {
    && Updatable(Document(row), plan) && Sharp(plan, RowEnv(row, compare))
    && !HidesNull(plan, RowEnv(row, compare))
  }

  ghost predicate Exact(rows: seq<Fields>, u: Fields, compare: Comparison) {
    && PlainUpdate(u) && UpdatePlan(u, false).Ok?
    && forall i :: 0 <= i < |rows| ==> ExactOn(rows[i], UpdatePlan(u, false).value, compare)
  }

  lemma {:induction false} FactorsMeanFilter(row: Fields, q: Fields, compare: Comparison)
    requires SupportedPairs(q, false) && OrdinaryFields(q, row)
    ensures Selects([Conj(PairsFactors(q, false))], RowEnv(row, compare)) <==> ByFilter(q, compare)(row)
  {
    ClauseParses(q);
    QueryReturnsMatches(q, row, compare);
  }

  lemma {:induction false} JoinedChooses(fs: seq<Cond>, g: Cond, row: Fields, compare: Comparison)
    ensures BySql([Conj(fs + [g])], compare)(row)
            <==> Selects([Conj(fs)], RowEnv(row, compare)) && Eval(g, RowEnv(row, compare)) == True
  {
    JoinedSelects(fs, g, RowEnv(row, compare));
  }

  lemma {:induction false} GuardedSqlChooses(row: Fields, q: Fields, plan: Plan, compare: Comparison)
    requires SupportedPairs(q, false) && OrdinaryFields(q, row) && (plan.sets != [] || plan.unsets != [])
    requires ExactOn(row, plan, compare)
    ensures BySql([Conj(PairsFactors(q, false) + [GuardCond(plan)])], compare)(row) <==> ByNeed(q, plan, compare)(row)
  {
    JoinedChooses(PairsFactors(q, false), GuardCond(plan), row, compare);
    FactorsMeanFilter(row, q, compare);
    GuardSelectsChangedDocuments(Document(row), plan, compare);
  }

  lemma {:induction false} UpdateIsSent(before: seq<Fields>, entry: Fields, q: Fields, u: Fields, db: Database,
                                        after: seq<Fields>, r: Result<Counts>)
    requires UpdateStep(before, entry, db, false, after, r) && UpdatesBy(entry, q, u)
    requires WhereClause(q, false).Ok? && UpdatePlan(u, false).Ok?
    ensures UpdatesWith(before, WhereClause(q, false).value, UpdatePlan(u, false).value,
                        Get(entry, "multi") == Some(Bool(true)), db, after, r)
  {
    hide WhereClause, UpdatePlan, UpdatesWith, Get;
  }

  lemma {:induction false} GuardedChoice(rows: seq<Fields>, q: Fields, u: Fields, db: Database)
    requires q != [] && Readable(rows, q) && Exact(rows, u, db.compare)
    ensures WhereClause(q, false).Ok?
    ensures var plan := UpdatePlan(u, false).value;
            var terms := Read(WhereClause(q, false).value + plan.guard, db);
            && terms.Some?
            && (forall i :: 0 <= i < |rows| ==>
                  BySql(terms.value, db.compare)(rows[i]) == ByNeed(q, plan, db.compare)(rows[i]))
            && Count(rows, BySql(terms.value, db.compare)) == Count(rows, ByNeed(q, plan, db.compare))
  {
    hide WhereClause, ParseWhere, Statements.Intact, SupportedPairs, MatchesPairs, OrdinaryFields, Selects, UpdatePlan,
      PlainUpdate, ExactOn, PairsFactors, GuardCond;
    var plan := UpdatePlan(u, false).value;
    PlanHasTargets(u, false);
    GuardedClauseParses(q, u);
    SupportedIsIntact(q, false);
    PlainGuardIsIntact(u);
    IntactJoined(WhereClause(q, false).value, plan.guard);
    var terms := ParseWhere(WhereClause(q, false).value + plan.guard).value;
    forall i | 0 <= i < |rows| ensures BySql(terms, db.compare)(rows[i]) == ByNeed(q, plan, db.compare)(rows[i]) {
      GuardedSqlChooses(rows[i], q, plan, db.compare);
    }
    SameChoice(rows, BySql(terms, db.compare), ByNeed(q, plan, db.compare));
  }

  lemma {:induction false} NoNeedNoChange(row: Fields, q: Fields, plan: Plan, compare: Comparison)
    ensures ByFilter(q, compare)(row) && !ByNeed(q, plan, compare)(row) ==> UpdateRow(row, plan) == row
    ensures ByNeed(q, plan, compare)(row) ==> ByFilter(q, compare)(row)
  {
  }

  lemma {:induction false} ManyAreUpdated(before: seq<Fields>, terms: seq<Conj>, q: Fields, plan: Plan, matched: nat,
                                          db: Database, after: seq<Fields>, r: Result<Counts>)
    requires UpdatesMany(before, Some(terms), plan, matched, db, after, r) && Assigned(plan, db) == Some(plan)
    requires forall i :: 0 <= i < |before| ==>
               BySql(terms, db.compare)(before[i]) == ByNeed(q, plan, db.compare)(before[i])
    ensures |after| == |before|
    ensures forall i :: 0 <= i < |before| ==> after[i] == AfterUpdate(before[i], q, plan, db.compare)
    ensures r == Ok((matched, Count(before, ByNeed(q, plan, db.compare))))
  {
    hide ByNeed, Assigned, Selects;
    SameChoice(before, BySql(terms, db.compare), ByNeed(q, plan, db.compare));
    forall i | 0 <= i < |before| ensures after[i] == AfterUpdate(before[i], q, plan, db.compare) {
      NoNeedNoChange(before[i], q, plan, db.compare);
    }
  }

  /** What becomes of a document: it is updated if the filter matches it. */
  function AfterUpdate(row: Fields, q: Fields, plan: Plan, compare: Comparison): Fields {
    if ByFilter(q, compare)(row) then UpdateRow(row, plan) else row
  }

  /** Update with multi: every matching document becomes its updated form, every other one stays, although the guard
      leaves out the documents that would not change. The counts are the matches and the real changes. */
  lemma {:induction false} UpdateManyUpdatesMatches(before: seq<Fields>, entry: Fields, q: Fields, u: Fields,
                                                    db: Database, after: seq<Fields>, r: Result<Counts>)
    requires Get(entry, "multi") == Some(Bool(true))
    requires UpdateStep(before, entry, db, false, after, r) && UpdatesBy(entry, q, u)
    requires q != [] && Readable(before, q) && FreeFilter(q) && Exact(before, u, db.compare)
    ensures var plan := UpdatePlan(u, false).value;
            && |after| == |before|
            && (forall i :: 0 <= i < |before| ==> after[i] == AfterUpdate(before[i], q, plan, db.compare))
            && r == Ok((Count(before, ByFilter(q, db.compare)), Count(before, ByNeed(q, plan, db.compare))))
  {
    hide WhereClause, UpdatePlan, ReadSent, Read, SupportedPairs, OrdinaryFields, FreeFilter, MatchesPairs, Assigned,
      UpdateStep, UpdatesBy, PlainUpdate, ExactOn, UpdatesOne, UpdatesMany, UpdateRows, BySql, ByNeed, ByFilter,
      AfterUpdate;
    var plan := UpdatePlan(u, false).value;
    SqlChoosesMatches(before, q, db);
    GuardedChoice(before, q, u, db);
    SentAsRead(q, plan.guard, db);
    PlainIsAssigned(u, db);
    UpdateIsSent(before, entry, q, u, db, after, r);
    ManyAreUpdated(before, Read(WhereClause(q, false).value + plan.guard, db).value, q, plan,
                   Count(before, ByFilter(q, db.compare)), db, after, r);
  }

  /** Update without multi: one matching document that the update changes, if there is any, becomes its updated form;
      nothing else changes, if the ids of these documents read back as themselves. */
  lemma {:induction false} UpdateOneUpdatesAMatch(before: seq<Fields>, entry: Fields, q: Fields, u: Fields,
                                                  db: Database, after: seq<Fields>, r: Result<Counts>)
    requires Get(entry, "multi") != Some(Bool(true))
    requires UpdateStep(before, entry, db, false, after, r) && UpdatesBy(entry, q, u)
    requires q != [] && Readable(before, q) && Exact(before, u, db.compare)
    requires ReadableIds(before, ByNeed(q, UpdatePlan(u, false).value, db.compare), db.nums)
    requires GoodIds(before, db.compare) && Symmetric(db.compare) && Reflexive(db.compare)
    ensures var plan := UpdatePlan(u, false).value;
            var matched := Count(before, ByFilter(q, db.compare));
            if Count(before, ByNeed(q, plan, db.compare)) == 0 then after == before && r == Ok((matched, 0))
            else exists k :: 0 <= k < |before| && ByNeed(q, plan, db.compare)(before[k])
                             && after == before[k := UpdateRow(before[k], plan)] && r == Ok((matched, 1))
  {
    hide WhereClause, UpdatePlan, ReadSent, Read, Readable, MatchesPairs, Assigned, UpdateStep, UpdatesBy,
      PlainUpdate, ExactOn, Updated, UpdatesOne, UpdatesMany, GoodIds;
    var plan := UpdatePlan(u, false).value;
    SqlChoosesMatches(before, q, db);
    GuardedChoice(before, q, u, db);
    PlainIsAssigned(u, db);
    UpdateIsSent(before, entry, q, u, db, after, r);
    var terms := Read(WhereClause(q, false).value + plan.guard, db);
    var matched := Count(before, ByFilter(q, db.compare));
    assert UpdatesOne(before, terms, plan, matched, db, after, r);
    UpdateOneTouchesOne(before, terms, plan, matched, db, after, r);
  }

  /** The empty filter: the appended guard makes the statement unreadable, so nothing is ever updated. Without multi
      that passes silently, with every document counted as matched; with multi it is an error. */
  lemma {:induction false} EmptyFilterUpdatesNothing(before: seq<Fields>, entry: Fields, u: Fields, multi: bool,
                                                     db: Database, after: seq<Fields>, r: Result<Counts>)
    requires multi == (Get(entry, "multi") == Some(Bool(true)))
    requires UpdateStep(before, entry, db, false, after, r) && UpdatesBy(entry, [], u)
    requires PlainUpdate(u) && UpdatePlan(u, false).Ok?
    ensures after == before
    ensures if multi then r.Err? else r == Ok((|before|, 0))
  {
    hide UpdatePlan, PlainUpdate;
    GuardedClauseParses([], u);
    PlainGuardIsIntact(u);
    SentAsRead([], UpdatePlan(u, false).value.guard, db);
    assert [] + UpdatePlan(u, false).value.guard == UpdatePlan(u, false).value.guard;
    var terms := Read([], db).value;
    CountAll(before, BySql(terms, db.compare));
  }

  lemma {:induction false} CountAll(rows: seq<Fields>, chosen: Chooser)
    requires forall i :: 0 <= i < |rows| ==> chosen(rows[i])
    ensures Count(rows, chosen) == |rows|
  {
    if rows != [] {
      assert forall i :: 0 <= i < |rows[1..]| ==> rows[1..][i] == rows[i + 1];
      CountAll(rows[1..], chosen);
    }
  }

  // ----- whole messages

  lemma {:induction false} CountFewer(rows: seq<Fields>, a: Chooser, b: Chooser)
    requires forall i :: 0 <= i < |rows| ==> a(rows[i]) ==> b(rows[i])
    ensures Count(rows, a) <= Count(rows, b)
  {
    if rows != [] {
      assert forall i :: 0 <= i < |rows[1..]| ==> rows[1..][i] == rows[i + 1];
      CountFewer(rows[1..], a, b);
    }
  }

  /** An entry with a supported filter and a plain update; with multi the filter has no percent sign. */
  ghost predicate PlainEntry(entry: Fields) {
    match (Get(entry, "q"), Get(entry, "u"))
    case (Some(Document(q)), Some(Document(u))) =>
      SupportedPairs(q, false) && PlainUpdate(u) && (Get(entry, "multi") == Some(Bool(true)) ==> FreeFilter(q))
    case _ => true
  }

  /** The guard only takes documents away from the matching ones. */
  lemma {:induction false} GuardSelectsMatches(rows: seq<Fields>, q: Fields, u: Fields, db: Database)
    requires SupportedPairs(q, false) && PlainUpdate(u) && UpdatePlan(u, false).Ok?
    ensures WhereClause(q, false).Ok? && Read(WhereClause(q, false).value, db).Some?
    ensures var filter := Read(WhereClause(q, false).value, db).value;
            var guarded := Read(WhereClause(q, false).value + UpdatePlan(u, false).value.guard, db);
            guarded.Some? ==>
              && Count(rows, BySql(guarded.value, db.compare)) <= Count(rows, BySql(filter, db.compare))
  {
    hide WhereClause, ParseWhere, Statements.Intact, SupportedPairs, Selects, UpdatePlan, PlainUpdate, PairsFactors,
      GuardCond;
    var plan := UpdatePlan(u, false).value;
    ClauseParses(q);
    SupportedIsIntact(q, false);
    GuardedClauseParses(q, u);
    PlainGuardIsIntact(u);
    IntactJoined(WhereClause(q, false).value, plan.guard);
    if q != [] {
      var fs := PairsFactors(q, false);
      forall i | 0 <= i < |rows|
        ensures BySql([Conj(fs + [GuardCond(plan)])], db.compare)(rows[i]) ==> BySql([Conj(fs)], db.compare)(rows[i])
      {
        JoinedChooses(fs, GuardCond(plan), rows[i], db.compare);
      }
      CountFewer(rows, BySql([Conj(fs + [GuardCond(plan)])], db.compare), BySql([Conj(fs)], db.compare));
    }
  }

  /** An entry modifies no more documents than match. */
  lemma {:induction false} EntryModifiesMatches(before: seq<Fields>, entry: Fields, db: Database,
                                                after: seq<Fields>, r: Result<Counts>)
    requires UpdateStep(before, entry, db, false, after, r) && PlainEntry(entry)
    ensures |after| == |before| && (r.Ok? ==> r.value.1 <= r.value.0)
  {
    hide WhereClause, UpdatePlan, ReadSent, Read, SupportedPairs, PlainUpdate, FreeFilter, Assigned, ArrivingId, BySql,
      ById, UpdateRow, GoodIds;
    if r.Ok? || after != before {
      var q, u := Get(entry, "q").value.fields, Get(entry, "u").value.fields;
      var plan := UpdatePlan(u, false).value;
      GuardSelectsMatches(before, q, u, db);
      UpdateIsSent(before, entry, q, u, db, after, r);
      if Get(entry, "multi") == Some(Bool(true)) { SentAsRead(q, plan.guard, db); }
    }
  }

  /** Over a whole message the modified documents are no more than the matched ones, and no document appears or
      disappears. */
  lemma {:induction false} ModifiedAtMostMatched(before: seq<Fields>, entries: seq<Fields>, sofar: Counts, db: Database,
                                                 after: seq<Fields>, r: Result<Counts>)
    requires UpdatesAll(before, entries, sofar, db, false, after, r) && sofar.1 <= sofar.0
    requires forall i :: 0 <= i < |entries| ==> PlainEntry(entries[i])
    ensures |after| == |before| && (r.Ok? ==> r.value.1 <= r.value.0)
    decreases |entries|
  {
    hide UpdateStep, PlainEntry;
    if entries != [] {
      var mid, c :| UpdateStep(before, entries[0], db, false, mid, c)
                    && match c
                       case Err(e) => after == mid && r == Err(e)
                       case Ok(n) =>
                         UpdatesAll(mid, entries[1..], (sofar.0 + n.0, sofar.1 + n.1), db, false, after, r);
      EntryModifiesMatches(before, entries[0], db, mid, c);
      if c.Ok? {
        ModifiedAtMostMatched(mid, entries[1..], (sofar.0 + c.value.0, sofar.1 + c.value.1), db, after, r);
      }
    }
  }
}
