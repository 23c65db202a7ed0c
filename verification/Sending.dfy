/** What reaches the database: conditions and values as they are sent, and what it may make of texts that were altered
    on the way. */
module Sending {
  import opened Types
  import opened Sql
  import opened Where
  import opened Filter
  import opened WrittenValues
  import opened RowUpdate
  import opened Update
  import opened UpdateMeaning
  import opened Statements
  import opened PercentFreeFilters
  import opened FormattedFilters
  import Storage

  /** The database: how it compares values, how numbers print in the JSON it returns, and what it makes of texts about
      which nothing is known. It may read a condition in which a value is garbled, one in whose text formatting has left
      error marks (with what follows it), and a garbled value; or it may refuse them. */
  datatype Database = Database(
    compare: Comparison,
    nums: Storage.Numbers,
    reading: Tokens -> Option<seq<Conj>>,
    mangled: (Tokens, Tokens) -> Option<seq<Conj>>,
    garbled: Value -> Option<Value>)

  /** A condition that is sent as it was compiled. */
  function Read(ts: Tokens, db: Database): Option<seq<Conj>> {
    if Intact(ts) then ParseWhere(ts) else db.reading(ts)
  }

  /** A condition that is formatted once more before it is sent, and a guard that is not. */
  function ReadSent(ts: Tokens, guard: Tokens, db: Database): Option<seq<Conj>> {
    match FormatTokens(ts)
    case Some(sent) => Read(sent + guard, db)
    case None => db.mangled(ts, guard)
  }

  /** The value that arrives where getUpdateValue has written v. */
  function Arriving(v: Value, db: Database): Option<Value> {
    match WrittenField(v) case Some(w) => Some(w) case None => db.garbled(v)
  }

  function ArrivingSets(sets: seq<Assignment>, db: Database): (r: Option<seq<Assignment>>)
    ensures r.Some? ==> |r.value| == |sets| && forall i :: 0 <= i < |sets| ==> r.value[i].path == sets[i].path
  {
    if sets == [] then Some([])
    else
      match (Arriving(sets[0].value, db), ArrivingSets(sets[1..], db))
      case (Some(v), Some(rest)) => Some([sets[0].(value := v)] + rest)
      case _ => None
  }

  /** The plan with the values that arrive; None when the statement is refused. */
  function Assigned(plan: Plan, db: Database): Option<Plan> {
    match ArrivingSets(plan.sets, db) case Some(sets) => Some(plan.(sets := sets)) case None => None
  }

  // ----- what arrives unaltered

  lemma IntactJoined(a: Tokens, b: Tokens)
    ensures Intact(a + b) <==> Intact(a) && Intact(b)
  {
    assert forall i :: 0 <= i < |a| ==> (a + b)[i] == a[i];
    assert forall i :: 0 <= i < |b| ==> (a + b)[|a| + i] == b[i];
  }

  lemma {:induction false} TextIsIntact(c: Cond)
    ensures Intact(Text(c))
    decreases c, 0
  {
    match c
    case Not(d) =>
      TextIsIntact(d);
      IntactJoined([NOT], Text(d));
    case Group(terms) =>
      TermsAreIntact(terms);
      IntactJoined([LParen], TextTerms(terms));
      IntactJoined([LParen] + TextTerms(terms), [RParen]);
    case _ =>
  }

  lemma {:induction false} FactorsAreIntact(fs: seq<Cond>)
    ensures Intact(TextFactors(fs))
    decreases fs, 1
  {
    if fs != [] {
      TextIsIntact(fs[0]);
      FactorsAreIntact(fs[1..]);
      IntactJoined(Text(fs[0]), [AND]);
      IntactJoined(Text(fs[0]) + [AND], TextFactors(fs[1..]));
    }
  }

  lemma {:induction false} TermsAreIntact(terms: seq<Conj>)
    ensures Intact(TextTerms(terms))
    decreases terms, 1
  {
    if terms != [] {
      FactorsAreIntact(terms[0].factors);
      TermsAreIntact(terms[1..]);
      IntactJoined(TextFactors(terms[0].factors), [OR]);
      IntactJoined(TextFactors(terms[0].factors) + [OR], TextTerms(terms[1..]));
    }
  }

  /** The condition of a supported filter arrives as it was compiled, with the guard of a plain update or without. */
  lemma SupportedIsIntact(filter: Fields, nor: bool)
    requires SupportedPairs(filter, nor)
    ensures WhereClause(filter, nor).Ok? && Intact(WhereClause(filter, nor).value)
  {
    PairsText(filter, nor, true);
    var ts := TextFactors(PairsFactors(filter, nor));
    FactorsAreIntact(PairsFactors(filter, nor));
    if filter != [] {
      assert [] + ts == ts;
      IntactJoined([WHERE], ts);
    }
  }

  lemma PlainGuardIsIntact(u: Fields)
    requires PlainUpdate(u) && UpdatePlan(u, false).Ok?
    ensures Intact(UpdatePlan(u, false).value.guard)
  {
    GuardText(u);
    var g := GuardCond(UpdatePlan(u, false).value);
    TextIsIntact(g);
    IntactJoined([AND], Text(g));
  }

  /** For a filter without percent signs the formatting is invisible. */
  lemma {:induction false} SentAsRead(filter: Fields, guard: Tokens, db: Database)
    requires SupportedPairs(filter, false) && FreeFilter(filter)
    ensures WhereClause(filter, false).Ok?
    ensures ReadSent(WhereClause(filter, false).value, guard, db) == Read(WhereClause(filter, false).value + guard, db)
  {
    hide WhereClause, FormatTokens, Read, PercentFree;
    PercentFreeExactly(filter, false);
    FormatKeepsPercentFree(WhereClause(filter, false).value);
  }

  /** For any other one it is as if the formatted filter had been sent, where there is one and it is supported. */
  lemma {:induction false} SentAsFormatted(filter: Fields, guard: Tokens, db: Database)
    requires SupportedPairs(filter, false) && FormatFilter(filter).Some?
    requires SupportedPairs(FormatFilter(filter).value, false)
    ensures WhereClause(filter, false).Ok? && WhereClause(FormatFilter(filter).value, false).Ok?
    ensures ReadSent(WhereClause(filter, false).value, guard, db)
         == Read(WhereClause(FormatFilter(filter).value, false).value + guard, db)
  {
    hide WhereClause, FormatTokens, Read, FormatFilter;
    FormattedClause(filter, false);
  }

  lemma LiteralArrives(v: Value)
    requires v.Null? || IsLiteral(v)
    ensures WrittenField(v) == Some(v)
  {
  }

  lemma {:induction false} SetsArrive(sets: seq<Assignment>, db: Database)
    requires forall i :: 0 <= i < |sets| ==> WrittenField(sets[i].value) == Some(sets[i].value)
    ensures ArrivingSets(sets, db) == Some(sets)
  {
    if sets != [] {
      SetsArrive(sets[1..], db);
      assert sets[0].(value := sets[0].value) == sets[0];
      HeadTail(sets);
    }
  }

  lemma {:induction false} SetListValues(doc: Fields, i: nat)
    requires SetList(doc).Ok? && i < |SetList(doc).value|
    ensures |SetList(doc).value| == |doc| && SetList(doc).value[i].value == doc[i].value
  {
    var sets := SetList(doc).value;
    assert sets[1..] == SetList(doc[1..]).value;
    if i > 0 { SetListValues(doc[1..], i - 1); }
    else if |doc| > 1 { SetListValues(doc[1..], 0); }
  }

  /** A plain update assigns what it says. */
  lemma {:induction false} PlainIsAssigned(u: Fields, db: Database)
    requires PlainUpdate(u) && UpdatePlan(u, false).Ok?
    ensures Assigned(UpdatePlan(u, false).value, db) == Some(UpdatePlan(u, false).value)
  {
    var doc := Part(u, "$set");
    var sets := UpdatePlan(u, false).value.sets;
    forall i | 0 <= i < |sets| ensures WrittenField(sets[i].value) == Some(sets[i].value) {
      SetListValues(doc, i);
      LiteralArrives(doc[i].value);
    }
    SetsArrive(sets, db);
  }
}
