/** What the update guard selects: the documents that the update changes, on exactly the rows stated here; and that
    an update that has been applied selects nothing when it is sent again. */
module UpdateMeaning {
  import opened Types
  import opened Sql
  import opened Where
  import opened Filter
  import opened Rows
  import opened RowUpdate
  import opened Update

  type Comparison = (Value, Value) -> Order

  /** The slot holds the new value already. */
  predicate AlreadyHolds(slot: Slot, v: Value, compare: Comparison) {
    if v.Null? then slot.Null? else slot.Val? && compare(slot.v, v) == Equal
  }

  /** A target whose need for change a three-valued comparison can see. */
  predicate ShowsChange(slot: Slot, v: Value, compare: Comparison) {
    slot.Unset? || (slot.Val? && !AlreadyHolds(slot, v, compare))
  }

  /** Some target shows a change: it is to be assigned and missing or different, or to be removed and there. */
  ghost predicate Shows(plan: Plan, env: Env) {
    || (exists i :: 0 <= i < |plan.sets| && ShowsChange(env.look(plan.sets[i].path), plan.sets[i].value, env.compare))
    || (exists j :: 0 <= j < |plan.unsets| && env.look(plan.unsets[j]) != Unset)
  }

  /** Some target holds null and is to get another value. */
  ghost predicate HidesNull(plan: Plan, env: Env) {
    exists i :: 0 <= i < |plan.sets| && env.look(plan.sets[i].path).Null? && !plan.sets[i].value.Null?
  }

  predicate SameSlot(a: Slot, b: Slot, compare: Comparison) {
    match (a, b)
    case (Val(x), Val(y)) => compare(x, y) == Equal
    case _ => a == b
  }

  /** Some target of the plan differs between two rows. */
  ghost predicate TargetsDiffer(plan: Plan, before: Env, after: Env) {
    || (exists i :: 0 <= i < |plan.sets|
                    && !SameSlot(before.look(plan.sets[i].path), after.look(plan.sets[i].path), before.compare))
    || (exists j :: 0 <= j < |plan.unsets|
                    && !SameSlot(before.look(plan.unsets[j]), after.look(plan.unsets[j]), before.compare))
  }

  // ----- the guard's truth

  lemma {:induction false} SameCondFalse(a: Assignment, env: Env)
    ensures Eval(SameCond(a), env) == False
            <==> env.look(a.path).Val? && !AlreadyHolds(env.look(a.path), a.value, env.compare)
  {
  }

  lemma {:induction false} SomeFactorFalse(cs: seq<Cond>, env: Env)
    ensures EvalFactors(cs, env) == False <==> exists i :: 0 <= i < |cs| && Eval(cs[i], env) == False
  {
    if cs != [] {
      SomeFactorFalse(cs[1..], env);
      assert forall i :: 0 <= i < |cs[1..]| ==> cs[1..][i] == cs[i + 1];
      assert forall i :: 0 < i < |cs| ==> cs[i] == cs[1..][i - 1];
    }
  }

  lemma {:induction false} SomeTargetTrue(paths: seq<Path>, present: bool, env: Env)
    ensures EvalTerms(TargetTerms(paths, present), env)
         == Of(exists i :: 0 <= i < |paths| && (env.look(paths[i]) != Unset) == present)
  {
    if paths != [] {
      var c := if present then IsSet(paths[0]) else IsUnset(paths[0]);
      EvalSingle(c, env);
      assert TargetTerms(paths, present)[1..] == TargetTerms(paths[1..], present);
      SomeTargetTrue(paths[1..], present, env);
      assert forall i :: 0 <= i < |paths[1..]| ==> paths[1..][i] == paths[i + 1];
      assert forall i :: 0 < i < |paths| ==> paths[i] == paths[1..][i - 1];
    }
  }

  lemma {:induction false} EvalAlternatives(a: seq<Conj>, b: seq<Conj>, env: Env)
    ensures EvalTerms(a + b, env) == TOr(EvalTerms(a, env), EvalTerms(b, env))
  {
    if a == [] {
      assert a + b == b;
    } else {
      EvalAlternatives(a[1..], b, env);
      assert (a + b)[1..] == a[1..] + b;
    }
  }

  lemma {:induction false} EvalAlternative(c: Cond, env: Env)
    ensures EvalTerms([Single(c)], env) == Eval(c, env)
  {
    EvalSingle(c, env);
    assert [Single(c)][1..] == [];
  }

  lemma {:induction false} NotGroupTruth(cs: seq<Cond>, env: Env)
    ensures Eval(Not(Group([Conj(cs)])), env) == TNot(EvalFactors(cs, env))
  {
    SelectsSingle(cs, env);
    assert Eval(Group([Conj(cs)]), env) == EvalTerms([Conj(cs)], env);
  }

  lemma {:induction false} SetGuardTrue(sets: seq<Assignment>, env: Env)
    ensures var a, b := Not(Group([Conj(SameConds(sets))])), Group(TargetTerms(PathsOf(sets), false));
            (Eval(a, env) == True || Eval(b, env) == True)
            <==> exists i :: 0 <= i < |sets| && ShowsChange(env.look(sets[i].path), sets[i].value, env.compare)
  {
    hide EvalFactors, EvalTerms, ShowsChange;
    var cs, paths := SameConds(sets), PathsOf(sets);
    NotGroupTruth(cs, env);
    SomeFactorFalse(cs, env);
    SomeTargetTrue(paths, false, env);
    forall i | 0 <= i < |sets|
      ensures ShowsChange(env.look(sets[i].path), sets[i].value, env.compare)
              <==> Eval(cs[i], env) == False || (env.look(paths[i]) != Unset) == false
    {
      TargetShows(sets[i], env);
    }
  }

  lemma {:induction false} TargetShows(a: Assignment, env: Env)
    ensures ShowsChange(env.look(a.path), a.value, env.compare)
            <==> Eval(SameCond(a), env) == False || env.look(a.path) == Unset
  {
    SameCondFalse(a, env);
  }

  /** The guard is True on exactly the rows on which a change shows. */
  lemma {:induction false} GuardTrue(plan: Plan, env: Env)
    requires plan.sets != [] || plan.unsets != []
    ensures Eval(GuardCond(plan), env) == True <==> Shows(plan, env)
  {
    SomeTargetTrue(plan.unsets, true, env);
    if plan.sets != [] {
      var a, b := Not(Group([Conj(SameConds(plan.sets))])), Group(TargetTerms(PathsOf(plan.sets), false));
      var c := Group(TargetTerms(plan.unsets, true));
      SetGuardTrue(plan.sets, env);
      EvalAlternative(a, env);
      EvalAlternative(b, env);
      EvalAlternative(c, env);
      EvalAlternatives([Single(a)], [Single(b)], env);
      assert [Single(a)] + [Single(b)] == [Single(a), Single(b)];
      EvalAlternatives([Single(a), Single(b)], if plan.unsets == [] then [] else [Single(c)], env);
    }
  }

  // ----- the guard and the update

  /** What is asked of the row and the targets: no target lies inside another, every assigned path can be created
      inside documents, and what is removed is a field. */
  ghost predicate Updatable(row: Value, plan: Plan) {
    && AllSettable(row, plan.sets) && Separate(plan.sets, plan.unsets)
    && forall j :: 0 <= j < |plan.unsets| ==> EndsInName(plan.unsets[j])
  }

  function Updated(row: Value, plan: Plan): Value { Apply(row, plan.sets, plan.unsets) }

  lemma {:induction false} TargetsAfter(row: Value, plan: Plan, compare: Comparison)
    requires Updatable(row, plan)
    ensures var after := ValueEnv(Updated(row, plan), compare);
            && (forall i :: 0 <= i < |plan.sets| ==> after.look(plan.sets[i].path) == SlotOf(Some(plan.sets[i].value)))
            && (forall j :: 0 <= j < |plan.unsets| ==> after.look(plan.unsets[j]) == Unset)
  {
    ApplyTargets(row, plan.sets, plan.unsets);
  }

  /** Exactness. The guard selects a row just when the update changes one of its targets, unless a null is to be
      replaced and no other target shows a change: then the row is wrongly left out. */
  lemma {:induction false} GuardIsExact(row: Value, plan: Plan, compare: Comparison)
    requires (plan.sets != [] || plan.unsets != []) && Updatable(row, plan)
    ensures var before, after := ValueEnv(row, compare), ValueEnv(Updated(row, plan), compare);
            (Eval(GuardCond(plan), before) == True <==> TargetsDiffer(plan, before, after))
            <==> (HidesNull(plan, before) ==> Shows(plan, before))
  {
    var before, after := ValueEnv(row, compare), ValueEnv(Updated(row, plan), compare);
    GuardTrue(plan, before);
    TargetsAfter(row, plan, compare);
    DifferenceShows(plan, before, after);
  }

  lemma {:induction false} DifferenceShows(plan: Plan, before: Env, after: Env)
    requires forall i :: 0 <= i < |plan.sets| ==> after.look(plan.sets[i].path) == SlotOf(Some(plan.sets[i].value))
    requires forall j :: 0 <= j < |plan.unsets| ==> after.look(plan.unsets[j]) == Unset
    ensures TargetsDiffer(plan, before, after) <==> Shows(plan, before) || HidesNull(plan, before)
  {
    forall i | 0 <= i < |plan.sets|
      ensures var slot, v := before.look(plan.sets[i].path), plan.sets[i].value;
              !SameSlot(slot, after.look(plan.sets[i].path), before.compare)
              <==> ShowsChange(slot, v, before.compare) || (slot.Null? && !v.Null?)
    {
    }
  }

  /** The smallest such row: {a: null} under {$set: {a: 1}} is not selected, though the update would change it. */
  lemma {:induction false} NullIsNotOverwritten(compare: Comparison)
    ensures var plan := Plan([Assignment([Name("a")], Int32(1))], [], []);
            var row := Document([Field("a", Value.Null)]);
            && Updatable(row, plan) && Updated(row, plan) != row
            && Eval(GuardCond(plan), ValueEnv(row, compare)) != True
  {
    var plan := Plan([Assignment([Name("a")], Int32(1))], [], []);
    var row := Document([Field("a", Value.Null)]);
    var env := ValueEnv(row, compare);
    assert Get(row.fields, "a") == Some(Value.Null);
    assert [Name("a")][1..] == [];
    assert plan.sets[0].path == [Name("a")];
    GuardTrue(plan, env);
    ApplyTargets(row, plan.sets, plan.unsets);
    assert SqlWalk(row, plan.sets[0].path) == Some(Value.Null);
  }

  // ----- whole documents

  lemma {:induction false} WithoutMissing(fs: seq<Field>, n: bytes)
    requires Get(fs, n).None?
    ensures Without(fs, n) == fs
  {
    if fs != [] {
      HeadTail(fs);
      WithoutMissing(fs[1..], n);
    }
  }

  lemma {:induction false} AssignSame(v: Value, path: Path, x: Value)
    requires SqlWalk(v, path) == Some(x)
    ensures Assign(v, path, x) == v
    decreases |path|
  {
    if path != [] {
      if v.Document? {
        var w := Get(v.fields, path[0].name).value;
        AssignSame(w, path[1..], x);
        ReplaceSame(v.fields, path[0].name, w);
      } else {
        AssignSame(v.elems[path[0].pos - 1], path[1..], x);
      }
    }
  }

  lemma {:induction false} UnassignSame(v: Value, path: Path)
    requires SqlWalk(v, path) == None
    ensures Unassign(v, path) == v
    decreases |path|
  {
    if v.Document? && path[0].Name? {
      var n := path[0].name;
      if Get(v.fields, n).None? {
        WithoutMissing(v.fields, n);
      } else if |path| > 1 {
        var w := Get(v.fields, n).value;
        UnassignSame(w, path[1..]);
        ReplaceSame(v.fields, n, w);
      }
    } else if v.Array? && path[0].Index? && 1 <= path[0].pos <= |v.elems| {
      UnassignSame(v.elems[path[0].pos - 1], path[1..]);
    }
  }

  lemma {:induction false} AssignAllSame(v: Value, sets: seq<Assignment>)
    requires forall i :: 0 <= i < |sets| ==> SqlWalk(v, sets[i].path) == Some(sets[i].value)
    ensures AssignAll(v, sets) == v
    decreases |sets|
  {
    if sets != [] {
      AssignSame(v, sets[0].path, sets[0].value);
      AssignAllSame(v, sets[1..]);
    }
  }

  lemma {:induction false} UnassignAllSame(v: Value, unsets: seq<Path>)
    requires forall j :: 0 <= j < |unsets| ==> SqlWalk(v, unsets[j]) == None
    ensures UnassignAll(v, unsets) == v
    decreases |unsets|
  {
    if unsets != [] {
      UnassignSame(v, unsets[0]);
      UnassignAllSame(v, unsets[1..]);
    }
  }

  /** The comparison tells a target's value from a different new value. */
  ghost predicate Sharp(plan: Plan, env: Env) {
    forall i :: 0 <= i < |plan.sets| ==>
      var slot := env.look(plan.sets[i].path);
      slot.Val? ==> (env.compare(slot.v, plan.sets[i].value) == Equal <==> slot.v == plan.sets[i].value)
  }

  lemma {:induction false} ShowingNothingChangesNothing(row: Value, plan: Plan, compare: Comparison)
    requires var env := ValueEnv(row, compare); Sharp(plan, env) && !Shows(plan, env) && !HidesNull(plan, env)
    ensures Updated(row, plan) == row
  {
    var env := ValueEnv(row, compare);
    forall i | 0 <= i < |plan.sets| ensures SqlWalk(row, plan.sets[i].path) == Some(plan.sets[i].value) {
      assert env.look(plan.sets[i].path) == SlotOf(SqlWalk(row, plan.sets[i].path));
    }
    forall j | 0 <= j < |plan.unsets| ensures SqlWalk(row, plan.unsets[j]) == None {
      assert env.look(plan.unsets[j]) == SlotOf(SqlWalk(row, plan.unsets[j]));
    }
    AssignAllSame(row, plan.sets);
    UnassignAllSame(row, plan.unsets);
  }

  /** The guard is True on exactly the documents that the update changes at all. */
  lemma {:induction false} GuardSelectsChangedDocuments(row: Value, plan: Plan, compare: Comparison)
    requires (plan.sets != [] || plan.unsets != []) && Updatable(row, plan)
    requires Sharp(plan, ValueEnv(row, compare)) && !HidesNull(plan, ValueEnv(row, compare))
    ensures Eval(GuardCond(plan), ValueEnv(row, compare)) == True <==> Updated(row, plan) != row
  {
    GuardTrue(plan, ValueEnv(row, compare));
    if Updated(row, plan) == row {
      TargetsAfter(row, plan, compare);
    } else if !Shows(plan, ValueEnv(row, compare)) {
      ShowingNothingChangesNothing(row, plan, compare);
    }
  }

  /** An update that has been applied shows nothing any more: sent again it selects no document it has changed. */
  lemma {:induction false} UpdatingTwiceSelectsNothing(filter: Fields, u: Fields, row: Value, compare: Comparison)
    requires SupportedPairs(filter, false) && filter != [] && PlainUpdate(u) && UpdatePlan(u, false).Ok?
    requires var plan := UpdatePlan(u, false).value;
             && Updatable(row, plan)
             && forall i :: 0 <= i < |plan.sets| ==> compare(plan.sets[i].value, plan.sets[i].value) == Equal
    ensures WhereClause(filter, false).Ok?
    ensures var plan := UpdatePlan(u, false).value;
            var sql := ParseWhere(WhereClause(filter, false).value + plan.guard);
            sql.Some? && !Selects(sql.value, ValueEnv(Updated(row, plan), compare))
  {
    hide WhereClause, UpdatePlan, PlainUpdate, SupportedPairs, Updated, Updatable, GuardCond, Selects, PairsFactors,
      ParseWhere;
    var plan := UpdatePlan(u, false).value;
    PlanHasTargets(u, false);
    var after := ValueEnv(Updated(row, plan), compare);
    var fs := PairsFactors(filter, false);
    GuardedClauseParses(filter, u);
    TargetsAfter(row, plan, compare);
    assert !Shows(plan, after);
    GuardTrue(plan, after);
    JoinedSelects(fs, GuardCond(plan), after);
  }

  lemma {:induction false} JoinedSelects(fs: seq<Cond>, g: Cond, env: Env)
    ensures Selects([Conj(fs + [g])], env) <==> Selects([Conj(fs)], env) && Eval(g, env) == True
  {
    SelectsSingle(fs, env);
    SelectsSingle(fs + [g], env);
    EvalJoined(fs, [g], env);
    EvalSingle(g, env);
  }
}
