/** The compiled condition means the filter: compiler correctness on the supported filters, and the exact rows on
    which the compiler is wrong just outside of them. */
module FilterMeaning {
  import opened Types
  import opened Sql
  import opened Spelling
  import opened Where
  import opened Filter
  import Like

  // ----- agreement of a condition with a filter

  /** Under $nor the condition must be two-valued; elsewhere it must be True exactly when the filter matches. */
  predicate Agrees(nor: bool, t: Truth, matches: bool) {
    if nor then t == Of(matches) else (t == True <==> matches)
  }

  /** What is assumed about a field that a filter mentions: the path finds what the filter's key means, and that is
      either nothing or a value that is not null, not an array, and not a text of several lines. */
  ghost predicate Ordinary(k: bytes, env: Env, d: View) {
    var slot := d.field(k);
    && env.look(PathOf(k)) == slot && env.compare == d.compare
    && !slot.Null?
    && (slot.Val? ==> !slot.v.Array? && (slot.v.String? ==> Like.OneLine(slot.v.s)))
  }

  ghost predicate OrdinaryPair(k: bytes, v: Value, env: Env, d: View)
    decreases v, 1
  {
    if IsOperator(k) then v.Array? ==> OrdinaryMembers(v.elems, env, d) else Ordinary(k, env, d)
  }

  ghost predicate OrdinaryPairs(fs: Fields, env: Env, d: View)
    decreases fs, 0
  {
    fs == [] || (OrdinaryPair(fs[0].name, fs[0].value, env, d) && OrdinaryPairs(fs[1..], env, d))
  }

  ghost predicate OrdinaryMembers(es: seq<Value>, env: Env, d: View)
    decreases es, 0
  {
    es == [] || ((es[0].Document? ==> OrdinaryPairs(es[0].fields, env, d)) && OrdinaryMembers(es[1..], env, d))
  }

  // ----- names

  /** The table of field operators: each name, in any case, has its own operator, and nothing else is one. */
  lemma FieldOpTable(k: bytes)
    ensures FieldOpOf(k) == Some(OpCmp(Eq)) <==> Spells(k, "$eq")
    ensures FieldOpOf(k) == Some(OpCmp(Gt)) <==> Spells(k, "$gt")
    ensures FieldOpOf(k) == Some(OpCmp(Ge)) <==> Spells(k, "$gte")
    ensures FieldOpOf(k) == Some(OpCmp(Lt)) <==> Spells(k, "$lt")
    ensures FieldOpOf(k) == Some(OpCmp(Le)) <==> Spells(k, "$lte")
    ensures FieldOpOf(k) == Some(OpNe) <==> Spells(k, "$ne")
    ensures FieldOpOf(k) == Some(OpExists) <==> Spells(k, "$exists")
    ensures FieldOpOf(k) == Some(OpSize) <==> Spells(k, "$size")
    ensures FieldOpOf(k) == Some(OpAll) <==> Spells(k, "$all")
    ensures FieldOpOf(k) == Some(OpElemMatch) <==> Spells(k, "$elemmatch")
    ensures FieldOpOf(k) == Some(OpNot) <==> Spells(k, "$not")
    ensures FieldOpOf(k) == Some(OpRegex) <==> Spells(k, "$regex")
    ensures FieldOpOf(k) != Some(OpCmp(Ne))
  {
    hide Spells, ToLower;
    forall name: bytes | SmallAscii(name) ensures ToLower(k) == name <==> Spells(k, name) {
      SpelledInAnyCase(k, name);
    }
  }

  /** The table of logical operators. */
  lemma LogicOpTable(k: bytes)
    ensures LogicOpOf(k) == Some(LogicAnd) <==> Spells(k, "$and")
    ensures LogicOpOf(k) == Some(LogicOr) <==> Spells(k, "$or")
    ensures LogicOpOf(k) == Some(LogicNor) <==> Spells(k, "$nor")
  {
    hide Spells, ToLower;
    SpelledInAnyCase(k, "$and");
    SpelledInAnyCase(k, "$or");
    SpelledInAnyCase(k, "$nor");
  }

  // ----- leaves

  lemma {:induction false} RegexMeaning(v: Value, path: Path, env: Env, slot: Slot)
    requires IsFaithfulRegex(v) && env.look(path) == slot && !slot.Null?
    requires slot.Val? && slot.v.String? ==> Like.OneLine(slot.v.s)
    ensures slot.Val? ==> Eval(IsLike(path, RegexPattern(v).value), env) == Of(MatchesPattern(v, slot))
    ensures slot.Unset? ==> Eval(IsLike(path, RegexPattern(v).value), env) == Unknown && !MatchesPattern(v, slot)
  {
    if slot.Val? && slot.v.String? {
      Like.TranslationPreservesMatching(if v.Regex? then v.pattern else v.s, slot.v.s);
    }
  }

  /** On a field that is set a plain operator is two-valued and right; on one that is not it is never True. */
  lemma {:induction false} PlainMeaning(k: bytes, v: Value, key: bytes, env: Env, d: View)
    requires IsPlainOp(k, v) && Ordinary(key, env, d)
    ensures var t := Eval(PlainCond(k, v, PathOf(key)), env);
            var matches := MatchesOp(k, v, d.field(key), d.compare);
            if d.field(key).Val? then t == Of(matches) else t != True && !matches
  {
    hide Spells, FieldOpOf;
    FieldOpTable(k);
    if FieldOpOf(k) == Some(OpRegex) {
      RegexMeaning(v, PathOf(key), env, d.field(key));
    }
  }

  /** The first of several plain operators. */
  lemma {:induction false} PlainCons(fs: Fields, slot: Slot, compare: (Value, Value) -> Order)
    requires fs != [] && IsPlainOp(fs[0].name, fs[0].value)
    ensures MatchesOps(fs, slot, compare)
         == (MatchesOp(fs[0].name, fs[0].value, slot, compare) && MatchesOps(fs[1..], slot, compare))
  {
    hide Spells, FieldOpOf, MatchesOp;
    FieldOpTable(fs[0].name);
  }

  lemma {:induction false} GuardMeaning(fs: seq<Cond>, path: Path, env: Env)
    ensures EvalFactors(GuardedFactors(fs, path, true), env) == TAnd(EvalFactors(fs, env), Of(env.look(path) != Unset))
  {
    var g := Group([Conj(fs + [IsSet(path)])]);
    EvalSingle(g, env);
    SelectsSingle(fs + [IsSet(path)], env);
    EvalJoined(fs, [IsSet(path)], env);
    EvalSingle(IsSet(path), env);
  }

  lemma {:induction false} OpsMeaning(fs: Fields, key: bytes, acc: seq<Cond>, nor: bool, b: bool, env: Env, d: View)
    requires ArePlainOps(fs) && Ordinary(key, env, d) && Agrees(nor, EvalFactors(acc, env), b)
    ensures Agrees(nor, EvalFactors(OpsFactors(fs, PathOf(key), acc, nor), env),
                   b && MatchesOps(fs, d.field(key), d.compare))
    decreases |fs|
  {
    if fs != [] {
      var Field(k, v) := fs[0];
      var c := PlainCond(k, v, PathOf(key));
      var matches := MatchesOp(k, v, d.field(key), d.compare);
      hide MatchesOp, MatchesOps, PlainCond, Ordinary;
      PlainMeaning(k, v, key, env, d);
      PlainCons(fs, d.field(key), d.compare);
      EvalJoined(acc, [c], env);
      EvalSingle(c, env);
      GuardMeaning(acc + [c], PathOf(key), env);
      OpsMeaning(fs[1..], key, GuardedFactors(acc + [c], PathOf(key), nor), nor, b && matches, env, d);
    }
  }

  lemma {:induction false} OrUnsetMeaning(c: Cond, path: Path, env: Env)
    ensures Eval(OrUnset(c, path), env) == TOr(Eval(c, env), Of(env.look(path) == Unset))
  {
    EvalSingle(c, env);
    EvalSingle(IsUnset(path), env);
    var terms := [Conj([c]), Conj([IsUnset(path)])];
    assert terms[1..] == [Conj([IsUnset(path)])] && terms[1..][1..] == [];
    SelectsSingle([IsUnset(path)], env);
  }

  lemma {:induction false} SingleOp(fs: Fields, slot: Slot, compare: (Value, Value) -> Order)
    requires |fs| == 1 && ArePlainOps(fs)
    ensures MatchesOps(fs, slot, compare) == MatchesOp(fs[0].name, fs[0].value, slot, compare)
  {
    hide MatchesOp;
    PlainCons(fs, slot, compare);
    assert fs[1..] == [];
  }

  /** $not over one plain operator, or below $nor over any number of them: two-valued and right in both modes. */
  lemma {:induction false} NotMeaning(fs: Fields, key: bytes, nor: bool, env: Env, d: View)
    requires fs != [] && (nor || |fs| == 1) && ArePlainOps(fs) && Ordinary(key, env, d)
    ensures Eval(OrUnset(Not(OpsFactors(fs, PathOf(key), [], nor)[0]), PathOf(key)), env)
         == Of(!MatchesOps(fs, d.field(key), d.compare))
  {
    hide MatchesOp, MatchesOps, IsPlainOp;
    var path := PathOf(key);
    var f := OpsFactors(fs, path, [], nor)[0];
    if nor {
      OpsMeaning(fs, key, [], nor, true, env, d);
      assert OpsFactors(fs, path, [], nor) == [f];
      EvalSingle(f, env);
    } else {
      SingleOp(fs, d.field(key), d.compare);
      PlainMeaning(fs[0].name, fs[0].value, key, env, d);
    }
    OrUnsetMeaning(Not(f), path, env);
    if d.field(key).Unset? { MissingMatchesNoPlainOp(fs, d.compare); }
  }

  lemma {:induction false} LoneMeaning(k: bytes, v: Value, key: bytes, nor: bool, env: Env, d: View)
    requires IsLoneOp(k, v, nor) && Ordinary(key, env, d)
    ensures Agrees(nor, Eval(LoneCond(k, v, PathOf(key), nor), env), MatchesOps([Field(k, v)], d.field(key), d.compare))
  {
    hide Spells, FieldOpOf;
    FieldOpTable(k);
    assert [Field(k, v)][1..] == [];
    match FieldOpOf(k).value
    case OpNot => NotMeaning(v.fields, key, nor, env, d);
    case OpNe => OrUnsetMeaning(Compare(PathOf(key), Ne, v), PathOf(key), env);
    case _ =>
  }

  lemma {:induction false} ValueMeaning(v: Value, key: bytes, nor: bool, env: Env, d: View)
    requires Ordinary(key, env, d) && (IsLiteral(v) || (v.Regex? && IsFaithfulRegex(v)))
    ensures Agrees(nor, EvalFactors(GuardedFactors([ValueCond(v, PathOf(key))], PathOf(key), nor), env),
                   MatchesValue(v, d.field(key), d.compare))
  {
    var path := PathOf(key);
    if v.Regex? { RegexMeaning(v, path, env, d.field(key)); }
    EvalSingle(ValueCond(v, path), env);
    GuardMeaning([ValueCond(v, path)], path, env);
  }

  // ----- the whole filter

  lemma {:induction false} PairMeaning(k: bytes, v: Value, nor: bool, env: Env, d: View)
    requires SupportedPair(k, v, nor) && OrdinaryPair(k, v, env, d)
    ensures Agrees(nor, EvalFactors(PairFactors(k, v, nor), env), MatchesPair(k, v, d))
    decreases v, 1
  {
    if IsOperator(k) {
      LogicMeaning(k, v, nor, env, d);
    } else if v.Document? && v.fields != [] && IsOperator(v.fields[0].name) {
      if ArePlainOps(v.fields) {
        OpsMeaning(v.fields, k, [], nor, true, env, d);
      } else {
        var f := v.fields[0];
        assert v.fields == [f];
        LoneMeaning(f.name, f.value, k, nor, env, d);
        EvalSingle(LoneCond(f.name, f.value, PathOf(k), nor), env);
      }
    } else {
      ValueMeaning(v, k, nor, env, d);
    }
  }

  lemma {:induction false} LogicMeaning(k: bytes, v: Value, nor: bool, env: Env, d: View)
    requires IsOperator(k) && SupportedPair(k, v, nor) && OrdinaryPair(k, v, env, d)
    ensures Agrees(nor, EvalFactors(PairFactors(k, v, nor), env), MatchesPair(k, v, d))
    decreases v, 0
  {
    hide Spells, LogicOpOf, MatchesOps, MatchesValue, SupportedOps, WhereKey;
    LogicOpTable(k);
    var es := v.elems;
    EvalSingle(PairFactors(k, v, nor)[0], env);
    match LogicOpOf(k).value
    case LogicAnd =>
      AllMeaning(es, nor, env, d);
      SelectsSingle(AllFactors(es, nor), env);
    case LogicOr =>
      SomeMeaning(es, nor, env, d);
    case LogicNor =>
      NoneMeaning(es, env, d);
      SelectsSingle(NoneFactors(es), env);
  }

  lemma {:induction false} PairsMeaning(fs: Fields, nor: bool, env: Env, d: View)
    requires SupportedPairs(fs, nor) && OrdinaryPairs(fs, env, d)
    ensures Agrees(nor, EvalFactors(PairsFactors(fs, nor), env), MatchesPairs(fs, d))
    decreases fs, 0
  {
    if fs != [] {
      PairMeaning(fs[0].name, fs[0].value, nor, env, d);
      PairsMeaning(fs[1..], nor, env, d);
      EvalJoined(PairFactors(fs[0].name, fs[0].value, nor), PairsFactors(fs[1..], nor), env);
    }
  }

  lemma {:induction false} MemberMeaning(e: Value, nor: bool, env: Env, d: View)
    requires e.Document? && SupportedPairs(e.fields, nor) && OrdinaryPairs(e.fields, env, d)
    ensures Agrees(nor, EvalFactors(MemberFactors(e, nor), env), MatchesMember(e, d))
    decreases e, 0
  {
    PairsMeaning(e.fields, nor, env, d);
  }

  lemma {:induction false} AllMeaning(es: seq<Value>, nor: bool, env: Env, d: View)
    requires SupportedMembers(es, nor) && OrdinaryMembers(es, env, d)
    ensures Agrees(nor, EvalFactors(AllFactors(es, nor), env), MatchesAll(es, d))
    decreases es, 0
  {
    if es != [] {
      MemberMeaning(es[0], nor, env, d);
      AllMeaning(es[1..], nor, env, d);
      EvalJoined(MemberFactors(es[0], nor), AllFactors(es[1..], nor), env);
    }
  }

  lemma {:induction false} SomeMeaning(es: seq<Value>, nor: bool, env: Env, d: View)
    requires SupportedMembers(es, nor) && OrdinaryMembers(es, env, d)
    ensures Agrees(nor, EvalTerms(SomeTerms(es, nor), env), MatchesSome(es, d))
    decreases es, 0
  {
    if es != [] {
      MemberMeaning(es[0], nor, env, d);
      SomeMeaning(es[1..], nor, env, d);
      assert SomeTerms(es, nor)[1..] == SomeTerms(es[1..], nor);
    }
  }

  /** Because every condition below $nor is two-valued, NOT is the opposite of matching there. */
  lemma {:induction false} NoneMeaning(es: seq<Value>, env: Env, d: View)
    requires SupportedMembers(es, true) && OrdinaryMembers(es, env, d)
    ensures EvalFactors(NoneFactors(es), env) == Of(!MatchesSome(es, d))
    decreases es, 0
  {
    if es != [] {
      MemberMeaning(es[0], true, env, d);
      NoneMeaning(es[1..], env, d);
      var fs := MemberFactors(es[0], true);
      var c := Not(Group([Conj(fs)]));
      SelectsSingle(fs, env);
      EvalSingle(c, env);
      EvalJoined([c], NoneFactors(es[1..]), env);
    }
  }

  /** Compiler correctness: the WHERE clause of a supported filter is accepted, and parses to a condition that
      selects exactly the documents the filter matches. */
  lemma {:induction false} ClauseMeansFilter(filter: Fields, env: Env, d: View)
    requires SupportedPairs(filter, false) && OrdinaryPairs(filter, env, d)
    ensures WhereClause(filter, false).Ok?
    ensures ParseWhere(WhereClause(filter, false).value).Some?
    ensures Selects(ParseWhere(WhereClause(filter, false).value).value, env) <==> MatchesPairs(filter, d)
  {
    ClauseParses(filter);
    PairsMeaning(filter, false, env, d);
    SelectsSingle(PairsFactors(filter, false), env);
  }

  // ----- where it stops

  lemma {:induction false} SpelledNames()
    ensures FieldOpOf("$ne") == Some(OpNe)
    ensures FieldOpOf("$exists") == Some(OpExists)
    ensures FieldOpOf("$not") == Some(OpNot)
  {
    hide Spells, FieldOpOf;
    SpellsItself("$ne");
    SpellsItself("$exists");
    SpellsItself("$not");
    FieldOpTable("$ne");
    FieldOpTable("$exists");
    FieldOpTable("$not");
  }

  /** What $ne and {$exists: false} alone mean. */
  lemma {:induction false} MissingMeaning(v: Value, slot: Slot, compare: (Value, Value) -> Order)
    ensures MatchesOps([Field("$ne", v)], slot, compare) == !MatchesValue(v, slot, compare)
    ensures MatchesOps([Field("$exists", Bool(false))], slot, compare) == slot.Unset?
  {
    hide Spells, FieldOpOf, MatchesValue;
    SpelledNames();
    FieldOpTable("$ne");
    FieldOpTable("$exists");
    assert [Field("$ne", v)][1..] == [] && [Field("$exists", Bool(false))][1..] == [];
  }

  lemma NeGuardedText(v: Value, path: Path)
    requires IsLiteral(v)
    ensures FieldOps(path, [Field("$ne", v)], true, [], None, true)
         == Ok(TextFactors(GuardedFactors([OrUnset(Compare(path, Ne, v), path)], path, true)))
  {
    hide Spells, ToLower, FieldOpOf;
    var c := OrUnset(Compare(path, Ne, v), path);
    var fs := [Field("$ne", v)];
    SpelledNames();
    assert fs[1..] == [];
    OrUnsetText(Compare(path, Ne, v), path);
    NeText(path, v);
    OrUnsetWellFormed(Compare(path, Ne, v), path);
    SingleText(c);
    GuardedText([c], path, true);
  }

  /** {$ne: v} below $nor: the guard turns "missing" into False, so the condition is right on exactly the
      documents that have the field. */
  lemma {:induction false} NeUnderNor(v: Value, key: bytes, env: Env, d: View)
    requires IsLiteral(v) && Ordinary(key, env, d)
    ensures var path := PathOf(key);
            var compiled := GuardedFactors([OrUnset(Compare(path, Ne, v), path)], path, true);
            var matches := MatchesOps([Field("$ne", v)], d.field(key), d.compare);
            && FieldOps(path, [Field("$ne", v)], true, [], None, true) == Ok(TextFactors(compiled))
            && (Agrees(true, EvalFactors(compiled, env), matches) <==> d.field(key).Val?)
  {
    hide FieldOps, TextFactors, Text, PathOf, MatchesOps;
    var path := PathOf(key);
    var c := OrUnset(Compare(path, Ne, v), path);
    NeGuardedText(v, path);
    MissingMeaning(v, d.field(key), d.compare);
    OrUnsetMeaning(Compare(path, Ne, v), path, env);
    EvalSingle(c, env);
    GuardMeaning([c], path, env);
  }

  lemma NotExistsGuardedText(path: Path)
    ensures FieldOps(path, [Field("$exists", Bool(false))], true, [], None, true)
         == Ok(TextFactors(GuardedFactors([IsUnset(path)], path, true)))
  {
    hide Spells, ToLower, FieldOpOf;
    var fs := [Field("$exists", Bool(false))];
    SpelledNames();
    assert fs[1..] == [];
    SingleText(IsUnset(path));
    assert [] + [Ident(path)] + [IS] + [UNSET] == Text(IsUnset(path));
    GuardedText([IsUnset(path)], path, true);
  }

  /** {$exists: false} below $nor can never be True: right on exactly the documents that have the field. */
  lemma {:induction false} NotExistsUnderNor(key: bytes, env: Env, d: View)
    requires Ordinary(key, env, d)
    ensures var path := PathOf(key);
            var compiled := GuardedFactors([IsUnset(path)], path, true);
            var matches := MatchesOps([Field("$exists", Bool(false))], d.field(key), d.compare);
            && FieldOps(path, [Field("$exists", Bool(false))], true, [], None, true) == Ok(TextFactors(compiled))
            && (Agrees(true, EvalFactors(compiled, env), matches) <==> d.field(key).Val?)
  {
    hide FieldOps, TextFactors, Text, PathOf, MatchesOps;
    var path := PathOf(key);
    NotExistsGuardedText(path);
    MissingMeaning(Value.Null, d.field(key), d.compare);
    EvalSingle(IsUnset(path), env);
    GuardMeaning([IsUnset(path)], path, env);
  }

  /** {$not: {several operators}}: NOT only reaches the first factor. Outside $nor the condition is right exactly
      when the field is missing or every operator after the first holds. */
  lemma {:induction false} NotOverSeveral(fs: Fields, key: bytes, env: Env, d: View)
    requires |fs| >= 2 && ArePlainOps(fs) && Ordinary(key, env, d)
    ensures var path := PathOf(key);
            var first := PlainCond(fs[0].name, fs[0].value, path);
            var others := OpsFactors(fs[1..], path, [], false);
            var text := FieldOps(path, [Field("$not", Document(fs))], true, [], None, false);
            var terms := [Conj([Not(first)] + others), Conj([IsUnset(path)])];
            && text == Ok(Text(Group(terms))) && ParseCondition(text.value) == Some([Conj([Group(terms)])])
            && (Agrees(false, Eval(Group(terms), env), !MatchesOps(fs, d.field(key), d.compare))
                <==> d.field(key).Unset? || MatchesOps(fs[1..], d.field(key), d.compare))
  {
    var path := PathOf(key);
    var first := PlainCond(fs[0].name, fs[0].value, path);
    var others := OpsFactors(fs[1..], path, [], false);
    NotSeveralText(fs, path);
    NotSeveralMeaning(fs, key, env, d);
  }

  lemma {:induction false} OpsFactorsSplit(fs: Fields, path: Path, acc: seq<Cond>)
    ensures OpsFactors(fs, path, acc, false) == acc + OpsFactors(fs, path, [], false)
    decreases |fs|
  {
    if fs == [] {
      assert acc + [] == acc;
    } else {
      var c := PlainCond(fs[0].name, fs[0].value, path);
      OpsFactorsSplit(fs[1..], path, acc + [c]);
      OpsFactorsSplit(fs[1..], path, [] + [c]);
      assert [] + [c] == [c];
      Assoc(acc, [c], OpsFactors(fs[1..], path, [], false));
    }
  }

  lemma {:induction false} NotSeveralText(fs: Fields, path: Path)
    requires |fs| >= 2 && ArePlainOps(fs)
    ensures var first := PlainCond(fs[0].name, fs[0].value, path);
            var others := OpsFactors(fs[1..], path, [], false);
            var text := FieldOps(path, [Field("$not", Document(fs))], true, [], None, false);
            var terms := [Conj([Not(first)] + others), Conj([IsUnset(path)])];
            text == Ok(Text(Group(terms))) && ParseCondition(text.value) == Some([Conj([Group(terms)])])
  {
    var first := PlainCond(fs[0].name, fs[0].value, path);
    var others := OpsFactors(fs[1..], path, [], false);
    var g := Group([Conj([Not(first)] + others), Conj([IsUnset(path)])]);
    SpelledNames();
    InnerOpsText(fs, path);
    NotSeveralShape(first, others, path);
    ConditionParses(g);
  }

  lemma ConditionParses(c: Cond)
    requires WellFormed(c)
    ensures ParseCondition(Text(c)) == Some([Conj([c])])
  {
    assert WellFormedFactors([Conj([c])][0].factors);
    TermsParse([Conj([c])], []);
    SingleText(c);
    assert Text(c) + [] == Text(c);
  }

  lemma {:induction false} InnerOpsText(fs: Fields, path: Path)
    requires |fs| >= 2 && ArePlainOps(fs)
    ensures var first := PlainCond(fs[0].name, fs[0].value, path);
            var others := OpsFactors(fs[1..], path, [], false);
            && FieldExpression(path, Document(fs), false) == Ok(TextFactors([first] + others))
            && WellFormed(first) && WellFormedFactors(others)
  {
    var first := PlainCond(fs[0].name, fs[0].value, path);
    OpsText(fs, path, [], false);
    OpsFactorsSplit(fs[1..], path, [] + [first]);
    assert [] + [first] == [first];
    OpsText(fs[1..], path, [], false);
    PlainOpTurn(fs[0].name, fs[0].value, path, [], false);
  }

  /** "( NOT c AND d ... OR field IS UNSET)": the negation stops at the first AND. */
  lemma NotSeveralShape(first: Cond, others: seq<Cond>, path: Path)
    requires WellFormed(first) && WellFormedFactors(others)
    ensures var g := Group([Conj([Not(first)] + others), Conj([IsUnset(path)])]);
            && Text(g) == [LParen, NOT] + TextFactors([first] + others) + UnsetTail(path)
            && WellFormed(g)
  {
    var conj, unset := Conj([Not(first)] + others), Conj([IsUnset(path)]);
    var body := TextFactors([first] + others);
    NotFirstText(first, others);
    SingleText(IsUnset(path));
    TextOfAlternatives([conj], [unset]);
    assert [conj] + [unset] == [conj, unset];
    assert TextTerms([conj]) == [NOT] + body && TextTerms([unset]) == [Ident(path), IS, UNSET];
    assert [LParen] + ([NOT] + body + [OR] + [Ident(path), IS, UNSET]) + [RParen]
        == [LParen, NOT] + body + UnsetTail(path);
    WellFormedConcat([Not(first)], others);
    assert WellFormedFactors(unset.factors);
    assert WellFormedTerms([conj, unset]);
  }

  lemma NotFirstText(first: Cond, others: seq<Cond>)
    requires others != []
    ensures TextFactors([Not(first)] + others) == [NOT] + TextFactors([first] + others)
  {
    TextOfJoined([first], others);
    TextOfJoined([Not(first)], others);
    SingleText(first);
    SingleText(Not(first));
    Assoc([NOT] + Text(first), [AND], TextFactors(others));
    Assoc([NOT], Text(first), [AND] + TextFactors(others));
    Assoc(Text(first), [AND], TextFactors(others));
  }

  lemma {:induction false} NotFirstMeaning(first: Cond, others: seq<Cond>, path: Path, env: Env)
    ensures Eval(Group([Conj([Not(first)] + others), Conj([IsUnset(path)])]), env)
         == TOr(TAnd(Eval(Not(first), env), EvalFactors(others, env)), Of(env.look(path) == Unset))
  {
    var terms := [Conj([Not(first)] + others), Conj([IsUnset(path)])];
    EvalJoined([Not(first)], others, env);
    EvalSingle(Not(first), env);
    EvalSingle(IsUnset(path), env);
    assert terms[1..] == [Conj([IsUnset(path)])];
    SelectsSingle([IsUnset(path)], env);
  }

  lemma {:induction false} NotSeveralMeaning(fs: Fields, key: bytes, env: Env, d: View)
    requires |fs| >= 2 && ArePlainOps(fs) && Ordinary(key, env, d)
    ensures var path := PathOf(key);
            var first := PlainCond(fs[0].name, fs[0].value, path);
            var others := OpsFactors(fs[1..], path, [], false);
            var terms := [Conj([Not(first)] + others), Conj([IsUnset(path)])];
            Agrees(false, Eval(Group(terms), env), !MatchesOps(fs, d.field(key), d.compare))
            <==> d.field(key).Unset? || MatchesOps(fs[1..], d.field(key), d.compare)
  {
    var path := PathOf(key);
    var first := PlainCond(fs[0].name, fs[0].value, path);
    var others := OpsFactors(fs[1..], path, [], false);
    var terms := [Conj([Not(first)] + others), Conj([IsUnset(path)])];
    assert env.look(path) == d.field(key);
    hide MatchesOp, MatchesOps, PlainCond, PathOf, IsPlainOp, OpsFactors, Eval, EvalFactors, ArePlainOps, Ordinary;
    PlainCons(fs, d.field(key), d.compare);
    PlainMeaning(fs[0].name, fs[0].value, key, env, d);
    OpsMeaning(fs[1..], key, [], false, true, env, d);
    NotFirstMeaning(first, others, path, env);
    if d.field(key).Unset? {
      MissingMatchesNoPlainOp(fs, d.compare);
    }
  }

  lemma {:induction false} MissingMatchesNoPlainOp(fs: Fields, compare: (Value, Value) -> Order)
    requires fs != [] && ArePlainOps(fs)
    ensures !MatchesOps(fs, Unset, compare)
  {
    hide Spells, FieldOpOf;
    FieldOpTable(fs[0].name);
    PlainCons(fs, Unset, compare);
  }
}
