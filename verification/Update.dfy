/** The update command's plan: what it assigns and removes, and the second condition, appended to the filter, that is
    meant to leave out the documents the update would not change. */
module Update {
  import opened Types
  import opened Numerals
  import opened Sql
  import opened Where
  import opened Filter
  import opened RowUpdate
  import Rendering

  // ----- keys, values and target lists

  /** getUpdateKey: like whereKey, but negative positions are let through. */
  function UpdateSteps(parts: seq<bytes>, afterIndex: bool): Result<Path> {
    if parts == [] then Ok([])
    else
      match Atoi(parts[0])
      case Some(n) =>
        if afterIndex then Err(NotImplemented) else Prefix(Index(n + 1), UpdateSteps(parts[1..], true))
      case None => Prefix(Name(parts[0]), UpdateSteps(parts[1..], false))
  }

  function UpdateKey(key: bytes): Result<Path> {
    if '.' in key then UpdateSteps(SplitDots(key), false) else Ok([Name(key)])
  }

  /** getUpdateValue: which values can be written into a statement. */
  function UpdateValue(v: Value): Result<Value> {
    match v
    case Array(es) => if Rendering.ArrayRenders(es) then Ok(v) else Err(BadValue)
    case Document(fs) => if Rendering.UpdateRenders(fs) then Ok(v) else Err(BadValue)
    case DateTime(_) => Err(OtherError)
    case Regex(_, _) => Err(OtherError)
    case _ => Ok(v)
  }

  /** strings.EqualFold(key, "_id"). */
  predicate IsIdKey(key: bytes) { Lower(key) == "_id" }

  /** createSetandUnsetSqlStmnt for $set. */
  function SetList(doc: Fields): Result<seq<Assignment>> {
    if doc == [] then Ok([])
    else if IsIdKey(doc[0].name) then Err(OtherError)
    else
      match UpdateKey(doc[0].name)
      case Err(e) => Err(e)
      case Ok(path) =>
        match UpdateValue(doc[0].value)
        case Err(e) => Err(e)
        case Ok(v) =>
          match SetList(doc[1..])
          case Err(e) => Err(e)
          case Ok(rest) => Ok([Assignment(path, v)] + rest)
  }

  /** createSetandUnsetSqlStmnt for $unset. */
  function UnsetList(doc: Fields): Result<seq<Path>> {
    if doc == [] then Ok([])
    else if IsIdKey(doc[0].name) then Err(OtherError)
    else
      match UpdateKey(doc[0].name)
      case Err(e) => Err(e)
      case Ok(path) =>
        match UnsetList(doc[1..])
        case Err(e) => Err(e)
        case Ok(rest) => Ok([path] + rest)
  }

  function TargetToken(present: bool): Token { if present then SET else UNSET }

  /** "p IS UNSET OR q IS UNSET ..." or the same with SET. */
  function TargetText(paths: seq<Path>, present: bool): Tokens {
    if paths == [] then []
    else if |paths| == 1 then [Ident(paths[0]), IS, TargetToken(present)]
    else [Ident(paths[0]), IS, TargetToken(present)] + [OR] + TargetText(paths[1..], present)
  }

  function PathsOf(sets: seq<Assignment>): (paths: seq<Path>)
    ensures |paths| == |sets| && forall i :: 0 <= i < |sets| ==> paths[i] == sets[i].path
  {
    seq(|sets|, i requires 0 <= i < |sets| => sets[i].path)
  }

  // ----- the plan

  datatype Plan = Plan(sets: seq<Assignment>, unsets: seq<Path>, guard: Tokens)

  const UNIMPLEMENTED: seq<string> := [
    "$currentDate", "$inc", "$min", "$max", "$mul", "$rename", "$setOnInsert", "$", "$[]", "$[<identifier>]",
    "$addToSet", "$pop", "$pull", "$push", "$pullAll", "$each", "$position", "$slice", "$sort", "$bit", "$addFields",
    "$project", "$replaceRoot", "$replaceWith"]

  predicate HasUnimplemented(u: Fields) { exists i :: 0 <= i < |u| && u[i].name in UNIMPLEMENTED }

  /** A member of the update document that is itself a document; everything else counts as absent. */
  function Part(u: Fields, name: bytes): Fields {
    match Get(u, name) case Some(Document(fs)) => fs case _ => []
  }

  function Parens(ts: Tokens): Tokens { [LParen] + ts + [RParen] }

  function UnsetGuard(unsets: seq<Path>): Tokens { [AND] + Parens(TargetText(unsets, true)) }

  /** "AND ( NOT ( pairs ) OR ( targets unset ) [ OR ( targets set ) ] )". */
  function SetGuard(pairs: Tokens, sets: seq<Assignment>, unsets: seq<Path>): Tokens {
    [AND] + Parens([NOT] + Parens(pairs) + [OR] + Parens(TargetText(PathsOf(sets), false))
                   + if unsets == [] then [] else [OR] + Parens(TargetText(unsets, true)))
  }

  function UpdatePlan(u: Fields, nor: bool): Result<Plan> {
    if HasUnimplemented(u) then Err(NotImplemented)
    else
      match SetList(Part(u, "$set"))
      case Err(e) => Err(e)
      case Ok(sets) =>
        match UnsetList(Part(u, "$unset"))
        case Err(e) => Err(e)
        case Ok(unsets) =>
          if sets == [] && unsets == [] then Err(OtherError) // "no such command: replaceOne"
          else if sets == [] then Ok(Plan(sets, unsets, UnsetGuard(unsets)))
          else
            match WhereClause(Part(u, "$set"), nor)
            case Err(e) => Err(e)
            case Ok(sql) => Ok(Plan(sets, unsets, SetGuard(if sql == [] then [] else sql[1..], sets, unsets)))
  }

  lemma PlanHasTargets(u: Fields, nor: bool)
    requires UpdatePlan(u, nor).Ok?
    ensures UpdatePlan(u, nor).value.sets != [] || UpdatePlan(u, nor).value.unsets != []
  {
  }

  // ----- the guard's condition tree

  /** What the filter compiler makes of {path: value} for a value that can be assigned. */
  function SameCond(a: Assignment): Cond {
    if a.value.Null? then IsNull(a.path, false) else Compare(a.path, Eq, a.value)
  }

  function SameConds(sets: seq<Assignment>): (cs: seq<Cond>)
    ensures |cs| == |sets| && forall i :: 0 <= i < |sets| ==> cs[i] == SameCond(sets[i])
  {
    seq(|sets|, i requires 0 <= i < |sets| => SameCond(sets[i]))
  }

  function TargetTerms(paths: seq<Path>, present: bool): (terms: seq<Conj>)
    ensures |terms| == |paths|
  {
    if paths == [] then []
    else [Conj([if present then IsSet(paths[0]) else IsUnset(paths[0])])] + TargetTerms(paths[1..], present)
  }

  function Single(c: Cond): Conj { Conj([c]) }

  function GuardTerms(sets: seq<Assignment>, unsets: seq<Path>): seq<Conj> {
    if sets == [] then TargetTerms(unsets, true)
    else [Single(Not(Group([Conj(SameConds(sets))]))), Single(Group(TargetTerms(PathsOf(sets), false)))]
         + if unsets == [] then [] else [Single(Group(TargetTerms(unsets, true)))]
  }

  function GuardCond(plan: Plan): Cond { Group(GuardTerms(plan.sets, plan.unsets)) }

  /** An assignment the guard can express: an ordinary key, and a value the filter compiler writes as a literal. */
  predicate PlainAssignment(f: Field) {
    && !IsOperator(f.name) && WhereKey(f.name).Ok?
    && (f.value.Null? || (IsLiteral(f.value)
                          && (f.value.Document? ==> f.value.fields != [] && !IsOperator(f.value.fields[0].name))))
  }

  ghost predicate PlainUpdate(u: Fields) {
    var s := Part(u, "$set");
    forall i :: 0 <= i < |s| ==> PlainAssignment(s[i])
  }

  lemma {:induction false} SameSteps(parts: seq<bytes>, afterIndex: bool)
    requires PathSteps(parts, afterIndex).Ok?
    ensures UpdateSteps(parts, afterIndex) == PathSteps(parts, afterIndex)
  {
    if parts != [] { SameSteps(parts[1..], Atoi(parts[0]).Some?); }
  }

  /** The assigned path is the path the guard looks at. */
  lemma SameKey(key: bytes)
    requires WhereKey(key).Ok?
    ensures UpdateKey(key) == WhereKey(key)
  {
    if '.' in key { SameSteps(SplitDots(key), false); }
  }

  lemma PairIsSame(f: Field, a: Assignment)
    requires PlainAssignment(f) && UpdateKey(f.name) == Ok(a.path) && UpdateValue(f.value) == Ok(a.value)
    ensures Pair(f.name, f.value, false) == Ok(Text(SameCond(a)))
  {
    SameKey(f.name);
    if f.value.Null? {
      assert [Ident(a.path)] + [IS] + [NULL] == Text(SameCond(a));
    } else {
      assert [Ident(a.path)] + [Cmp(Eq)] + [Literal(a.value)] == Text(SameCond(a));
    }
  }

  lemma {:induction false} SetPairsText(doc: Fields, sets: seq<Assignment>, first: bool)
    requires SetList(doc) == Ok(sets) && forall i :: 0 <= i < |doc| ==> PlainAssignment(doc[i])
    ensures Pairs(doc, first, false) == Ok(Joined(SameConds(sets), first))
    ensures |sets| == |doc|
    decreases |doc|
  {
    if doc != [] {
      PairIsSame(doc[0], sets[0]);
      SetPairsText(doc[1..], sets[1..], false);
      SameCondsJoined(sets, first);
    }
  }

  lemma SameCondsJoined(sets: seq<Assignment>, first: bool)
    requires sets != []
    ensures Joined(SameConds(sets), first)
         == Separator(first, AND) + Text(SameCond(sets[0])) + Joined(SameConds(sets[1..]), false)
  {
    var head := [SameCond(sets[0])];
    assert SameConds(sets) == head + SameConds(sets[1..]);
    JoinedCons(head, SameConds(sets[1..]), first);
    SingleText(SameCond(sets[0]));
  }

  lemma {:induction false} TargetsText(paths: seq<Path>, present: bool)
    requires paths != []
    ensures TargetText(paths, present) == TextTerms(TargetTerms(paths, present))
    ensures WellFormedTerms(TargetTerms(paths, present)) && WellFormed(Group(TargetTerms(paths, present)))
  {
    var c := if present then IsSet(paths[0]) else IsUnset(paths[0]);
    SingleText(c);
    assert WellFormedFactors([c]);
    if |paths| == 1 {
      assert TargetTerms(paths, present) == [Conj([c])];
    } else {
      TargetsText(paths[1..], present);
      TextOfAlternatives([Conj([c])], TargetTerms(paths[1..], present));
    }
  }

  lemma SameCondsWellFormed(sets: seq<Assignment>)
    requires sets != []
    ensures WellFormed(Not(Group([Conj(SameConds(sets))])))
  {
    assert WellFormedFactors(SameConds(sets));
    WellFormedGroup(SameConds(sets));
  }

  lemma {:induction false} SetGuardText(sets: seq<Assignment>, unsets: seq<Path>)
    requires sets != []
    ensures SetGuard(TextFactors(SameConds(sets)), sets, unsets) == [AND] + Text(Group(GuardTerms(sets, unsets)))
    ensures WellFormed(Group(GuardTerms(sets, unsets)))
  {
    var a, b := Not(Group([Conj(SameConds(sets))])), Group(TargetTerms(PathsOf(sets), false));
    SameCondsWellFormed(sets);
    TargetsText(PathsOf(sets), false);
    NotGroupText(SameConds(sets));
    var body := Text(a) + [OR] + Text(b);
    if unsets == [] {
      TextOfTwo(a, b);
      assert GuardTerms(sets, unsets) == [Single(a), Single(b)];
      assert body + [] == body;
    } else {
      var c := Group(TargetTerms(unsets, true));
      TargetsText(unsets, true);
      TextOfThree(a, b, c);
      Assoc(body, [OR], Text(c));
    }
  }

  lemma NotGroupText(fs: seq<Cond>)
    ensures Text(Not(Group([Conj(fs)]))) == [NOT] + Parens(TextFactors(fs))
  {
    assert TextTerms([Conj(fs)]) == TextFactors(fs);
  }

  lemma TextOfTwo(a: Cond, b: Cond)
    requires WellFormed(a) && WellFormed(b)
    ensures TextTerms([Single(a), Single(b)]) == Text(a) + [OR] + Text(b)
    ensures WellFormed(Group([Single(a), Single(b)]))
  {
    SingleText(a);
    SingleText(b);
    var terms := [Single(a), Single(b)];
    assert terms[1..] == [Single(b)];
    assert WellFormedFactors(terms[0].factors) && WellFormedFactors(terms[1].factors);
    assert WellFormedTerms(terms);
  }

  lemma TextOfThree(a: Cond, b: Cond, c: Cond)
    requires WellFormed(a) && WellFormed(b) && WellFormed(c)
    ensures TextTerms([Single(a), Single(b)] + [Single(c)]) == Text(a) + [OR] + Text(b) + [OR] + Text(c)
    ensures WellFormed(Group([Single(a), Single(b)] + [Single(c)]))
  {
    TextOfTwo(a, b);
    SingleText(c);
    TextOfAlternatives([Single(a), Single(b)], [Single(c)]);
    var terms := [Single(a), Single(b)] + [Single(c)];
    assert WellFormedFactors(terms[0].factors) && WellFormedFactors(terms[1].factors);
    assert WellFormedFactors(terms[2].factors);
    assert WellFormedTerms(terms);
  }

  /** The text of the guard is AND and one factor. */
  lemma GuardText(u: Fields)
    requires PlainUpdate(u) && UpdatePlan(u, false).Ok?
    ensures var plan := UpdatePlan(u, false).value;
            plan.guard == [AND] + Text(GuardCond(plan)) && WellFormed(GuardCond(plan))
  {
    var plan := UpdatePlan(u, false).value;
    var doc := Part(u, "$set");
    if plan.sets == [] {
      TargetsText(plan.unsets, true);
    } else {
      SetPairsText(doc, plan.sets, true);
      var text := TextFactors(SameConds(plan.sets));
      assert [] + text == text;
      var sql := WhereClause(doc, false).value;
      assert sql[1..] == text;
      SetGuardText(plan.sets, plan.unsets);
    }
  }

  /** Appending the guard: behind a filter with at least one pair the statement parses to the filter's factors and
      the guard as one more. Behind the empty filter, and only there, it does not parse. */
  lemma {:induction false} GuardedClauseParses(filter: Fields, u: Fields)
    requires SupportedPairs(filter, false) && PlainUpdate(u) && UpdatePlan(u, false).Ok?
    ensures WhereClause(filter, false).Ok?
    ensures var plan := UpdatePlan(u, false).value;
            var sql := WhereClause(filter, false).value + plan.guard;
            && (ParseWhere(sql).Some? <==> filter != [])
            && (filter != [] ==> ParseWhere(sql) == Some([Conj(PairsFactors(filter, false) + [GuardCond(plan)])]))
  {
    var plan := UpdatePlan(u, false).value;
    var g := GuardCond(plan);
    GuardText(u);
    PairsText(filter, false, true);
    if filter == [] {
      assert ([] + plan.guard)[0] == AND;
    } else {
      var fs := PairsFactors(filter, false);
      JoinedGuard(fs, g, WhereClause(filter, false).value, plan.guard);
    }
  }

  lemma JoinedGuard(fs: seq<Cond>, g: Cond, sql: Tokens, guard: Tokens)
    requires WellFormedFactors(fs) && WellFormed(g)
    requires sql == [WHERE] + ([] + TextFactors(fs)) && guard == [AND] + Text(g)
    ensures ParseWhere(sql + guard) == Some([Conj(fs + [g])])
  {
    var ts := TextFactors(fs) + [AND] + Text(g);
    TextOfJoined(fs, [g]);
    SingleText(g);
    WellFormedConcat(fs, [g]);
    Assoc(TextFactors(fs), [AND], Text(g));
    assert sql == [WHERE] + TextFactors(fs);
    Assoc([WHERE], TextFactors(fs), guard);
    assert ([WHERE] + ts)[1..] == ts;
    FactorsCondition(fs + [g]);
  }

  lemma FactorsCondition(fs: seq<Cond>)
    requires WellFormedFactors(fs)
    ensures ParseCondition(TextFactors(fs)) == Some([Conj(fs)])
  {
    assert WellFormedTerms([Conj(fs)]) by { assert WellFormedFactors([Conj(fs)][0].factors); }
    TermsParse([Conj(fs)], []);
    assert TextTerms([Conj(fs)]) == TextFactors(fs);
    assert TextFactors(fs) + [] == TextFactors(fs);
  }
}
