/** The filter compiler as it runs: loops that append tokens, and the two package variables isNor and norCounter that
    carry the $nor mode from call to call. */
module WhereCompiler {
  import opened Types
  import opened Numerals
  import opened Sql
  import opened Spelling
  import opened Where

  lemma ThenThen(a: Tokens, b: Tokens, r: Result<Tokens>)
    ensures Then(a, Then(b, r)) == Then(a + b, r)
  {
    if r.Ok? { Assoc(a, b, r.value); }
  }

  lemma ThenNothing(r: Result<Tokens>)
    ensures Then([], r) == r
    ensures forall ts :: r == Ok([]) ==> Then(ts, r) == Ok(ts)
  {
    if r.Ok? { assert [] + r.value == r.value; }
    forall ts: Tokens ensures ts + [] == ts {}
  }

  /** whereKey's loop over the dotted parts. */
  method WhereKeyLoop(key: bytes) returns (r: Result<Path>)
    ensures r == WhereKey(key)
  {
    if '.' !in key { return Ok([Name(key)]); }
    var splitKey := SplitDots(key);
    var kSQL: Path, isInt := [], false;
    if WhereKey(key).Ok? { assert [] + WhereKey(key).value == WhereKey(key).value; }
    for i := 0 to |splitKey|
      invariant WhereKey(key) == match PathSteps(splitKey[i..], isInt)
                                 case Ok(path) => Ok(kSQL + path)
                                 case Err(e) => Err(e)
    {
      assert splitKey[i..][1..] == splitKey[i + 1..];
      ghost var rest := PathSteps(splitKey[i + 1..], Atoi(splitKey[i]).Some?);
      var kInt := Atoi(splitKey[i]);
      if kInt.Some? {
        if isInt { return Err(NotImplemented); }
        if kInt.value < 0 { return Err(OtherError); }
        if rest.Ok? { Assoc(kSQL, [Index(kInt.value + 1)], rest.value); }
        kSQL := kSQL + [Index(kInt.value + 1)];
        isInt := true;
        continue;
      }
      if rest.Ok? { Assoc(kSQL, [Name(splitKey[i])], rest.value); }
      kSQL := kSQL + [Name(splitKey[i])];
      isInt := false;
    }
    assert kSQL + [] == kSQL;
    r := Ok(kSQL);
  }

  /** filterArray's loop for $all. */
  method AllLoop(field: Tokens, filters: seq<Value>) returns (r: Result<Tokens>)
    ensures r == AllOf(field, filters, true)
  {
    var kvSQL: Tokens := [];
    ThenNothing(AllOf(field, filters, true));
    for i := 0 to |filters|
      invariant AllOf(field, filters, true) == Then(kvSQL, AllOf(field, filters[i..], i == 0))
    {
      assert filters[i..][1..] == filters[i + 1..];
      if i != 0 { kvSQL := kvSQL + [AND]; }
      var value := WhereValue(filters[i]);
      if value.Err? { return Err(value.error); }
      var one := [FOR_ANY] + field + [SATISFIES, Ident(ELEMENT), Cmp(Eq), value.value.0, END];
      AllTurn(field, filters[i..], i == 0, if i == 0 then kvSQL else kvSQL[..|kvSQL| - 1]);
      kvSQL := kvSQL + one;
    }
    ThenNothing(Ok([]));
    r := Ok(kvSQL);
  }

  lemma AllTurn(field: Tokens, es: seq<Value>, first: bool, kv: Tokens)
    requires es != [] && WhereValue(es[0]).Ok?
    ensures var one := [FOR_ANY] + field + [SATISFIES, Ident(ELEMENT), Cmp(Eq), WhereValue(es[0]).value.0, END];
            Then(kv, AllOf(field, es, first))
            == Then((if first then kv else kv + [AND]) + one, AllOf(field, es[1..], false))
  {
    var one := [FOR_ANY] + field + [SATISFIES, Ident(ELEMENT), Cmp(Eq), WhereValue(es[0]).value.0, END];
    var sep: Tokens := if first then [] else [AND];
    assert AllOf(field, es, first) == Then(sep + one, AllOf(field, es[1..], false));
    ThenThen(kv, sep + one, AllOf(field, es[1..], false));
    assert kv + (sep + one) == (if first then kv else kv + [AND]) + one;
  }

  /** fieldExpression, from the key on. */
  function FieldText(key: bytes, value: Value, nor: bool): Result<Tokens> {
    match WhereKey(key)
    case Err(e) => Err(e)
    case Ok(path) => FieldExpression(path, value, nor)
  }

  /** fieldExpression: its loop over the operators of one field. */
  method FieldExpressionLoop(key: bytes, value: Value, isNor: bool) returns (r: Result<Tokens>)
    ensures r == FieldText(key, value, isNor)
    decreases value
  {
    var kSQL := WhereKeyLoop(key);
    if kSQL.Err? { return Err(kSQL.error); }
    var path := kSQL.value;
    if !value.Document? { return Err(BadValue); }
    var fs := value.fields;
    var kvSQL: Tokens := [];
    var err: Option<Error> := None;
    for i := 0 to |fs|
      invariant FieldExpression(path, value, isNor) == FieldOps(path, fs[i..], i == 0, kvSQL, err, isNor)
    {
      assert fs[i..][1..] == fs[i + 1..];
      if i != 0 { kvSQL := kvSQL + [AND]; }
      kvSQL := kvSQL + [Ident(path)];
      var op := FieldOpOf(fs[i].name);
      if op.None? { return Err(NotImplemented); }
      var exprValue := fs[i].value;
      if op.value.OpNot? {
        var fieldSQL := FieldExpressionLoop(key, exprValue, isNor);
        if fieldSQL.Err? { return Err(BadValue); }
        return Ok([LParen, NOT] + fieldSQL.value + UnsetTail(path));
      }
      var turn := OpTurn(op.value, path, exprValue, kvSQL, isNor);
      match turn {
        case Leave(res) => return res;
        case Go(kv, e) => kvSQL, err := kv, e;
      }
    }
    r := if err.Some? then Err(err.value) else Ok(kvSQL);
  }

  class Compiler {
    var isNor: bool
    var norCounter: int

    /** The state machine's invariant: the flag says whether the counter is positive. */
    predicate Valid()
      reads this
    {
      norCounter >= 0 && (isNor <==> norCounter > 0)
    }

    constructor ()
      ensures Valid() && !isNor && norCounter == 0
    {
      isNor, norCounter := false, 0;
    }

    /** Every call computes the tokens of its argument under the current mode. It restores the mode, unless it
        fails inside $nor: then each $nor that was entered and not left stays counted. */
    method WherePair(key: bytes, value: Value) returns (kvSQL: Result<Tokens>)
      requires Valid()
      modifies this
      ensures Valid()
      ensures kvSQL == Pair(key, value, old(isNor))
      ensures norCounter == old(norCounter) + OpenNors(key, value, old(isNor))
      decreases value, 3
    {
      if IsOperator(key) {
        kvSQL := LogicExpression(key, value);
        return;
      }
      if value.Document? {
        if value.fields == [] { return Err(Panicked); }
        if IsOperator(value.fields[0].name) {
          kvSQL := FieldExpressionLoop(key, value, isNor);
          return;
        }
      }
      var v := WhereValue(value);
      if v.Err? { return Err(v.error); }
      var kSQL := WhereKeyLoop(key);
      if kSQL.Err? { return Err(kSQL.error); }
      var kv := [Ident(kSQL.value)] + SignTokens(v.value.1) + [v.value.0];
      if isNor {
        kv := [LParen] + kv + SetTail(kSQL.value);
      }
      kvSQL := Ok(kv);
    }

    /** The pairs of one member of a logic expression. */
    method WherePairs(fs: Fields) returns (r: Result<Tokens>)
      requires Valid()
      modifies this
      ensures Valid()
      ensures r == Pairs(fs, true, old(isNor))
      ensures norCounter == old(norCounter) + OpenNorsPairs(fs, old(isNor))
      ensures r.Ok? ==> norCounter == old(norCounter)
      decreases fs, 2
    {
      ghost var nor := isNor;
      var kvSQL: Tokens := [];
      ThenNothing(Pairs(fs, true, nor));
      for i := 0 to |fs|
        invariant Valid() && norCounter == old(norCounter)
        invariant Pairs(fs, true, nor) == Then(kvSQL, Pairs(fs[i..], i == 0, nor))
        invariant OpenNorsPairs(fs, nor) == OpenNorsPairs(fs[i..], nor)
      {
        ghost var tail := fs[i..];
        assert tail[1..] == fs[i + 1..];
        var sep := if i != 0 then [AND] else [];
        var exprSQL := WherePair(fs[i].name, fs[i].value);
        if exprSQL.Err? { return Err(exprSQL.error); }
        OpenNorsOfOk(fs[i].name, fs[i].value, nor);
        ThenThen(kvSQL, sep + exprSQL.value, Pairs(tail[1..], false, nor));
        kvSQL := kvSQL + (sep + exprSQL.value);
      }
      ThenNothing(Ok([]));
      r := Ok(kvSQL);
    }

    /** The members of $and, $or or $nor. */
    method LogicMembers(es: seq<Value>, op: LogicOp) returns (r: Result<Tokens>)
      requires Valid()
      modifies this
      ensures Valid()
      ensures r == Members(es, op, true, old(isNor))
      ensures norCounter == old(norCounter) + OpenNorsMembers(es, old(isNor))
      ensures r.Ok? ==> norCounter == old(norCounter)
      decreases es, 2
    {
      ghost var nor := isNor;
      var kvSQL: Tokens := [];
      ThenNothing(Members(es, op, true, nor));
      for i := 0 to |es|
        invariant Valid() && norCounter == old(norCounter)
        invariant Members(es, op, true, nor) == Then(kvSQL, Members(es[i..], op, i == 0, nor))
        invariant OpenNorsMembers(es, nor) == OpenNorsMembers(es[i..], nor)
      {
        ghost var tail := es[i..];
        assert tail[1..] == es[i + 1..];
        if !es[i].Document? { return Err(OtherError); }
        var member := WherePairs(es[i].fields);
        if member.Err? { return Err(member.error); }
        var text := Opener(op, i == 0) + member.value + Closer(op);
        ThenThen(kvSQL, text, Members(tail[1..], op, false, nor));
        kvSQL := kvSQL + text;
      }
      ThenNothing(Ok([]));
      r := Ok(kvSQL);
    }

    method LogicExpression(key: bytes, value: Value) returns (kvSQL: Result<Tokens>)
      requires Valid() && IsOperator(key)
      modifies this
      ensures Valid()
      ensures kvSQL == Logic(key, value, old(isNor))
      ensures norCounter == old(norCounter) + OpenNors(key, value, old(isNor))
      decreases value, 2
    {
      var op := LogicOpOf(key);
      if op.None? {
        return Err(if ToLower(key) == "$not" then OtherError else NotImplemented);
      }
      var localIsNor := op.value.LogicNor?;
      if localIsNor {
        isNor := true;
        norCounter := norCounter + 1;
      }
      if !value.Array? { return Err(BadValue); }
      if |value.elems| < 2 && !isNor { return Err(OtherError); }
      var members := LogicMembers(value.elems, op.value);
      if members.Err? { return Err(members.error); }
      if localIsNor {
        norCounter := norCounter - 1;
        if norCounter == 0 { isNor := false; }
      }
      kvSQL := Ok([LParen] + members.value + [RParen]);
    }

    /** CreateWhereClause. */
    method CreateWhereClause(filter: Fields) returns (sql: Result<Tokens>)
      requires Valid()
      modifies this
      ensures Valid()
      ensures sql == WhereClause(filter, old(isNor))
      ensures norCounter == old(norCounter) + OpenNorsPairs(filter, old(isNor))
      ensures sql.Ok? ==> isNor == old(isNor) && norCounter == old(norCounter)
    {
      if filter == [] { return Ok([]); }
      var pairs := WherePairs(filter);
      sql := Then([WHERE], pairs);
    }
  }

  lemma OpenNorsOfOk(k: bytes, v: Value, nor: bool)
    requires Pair(k, v, nor).Ok?
    ensures OpenNors(k, v, nor) == 0
  {
  }

  /** The condition "without an error" is needed: {$nor: 5} fails with $nor still open, and then {a: 1} is compiled as
      if it stood below a $nor. */
  lemma ErrorInsideNorLeaks()
    ensures var bad, good := [Field("$nor", Int32(5))], [Field("a", Int32(1))];
            && WhereClause(bad, false).Err? && OpenNorsPairs(bad, false) == 1
            && WhereClause(good, true).Ok? && WhereClause(good, false).Ok?
            && WhereClause(good, true) != WhereClause(good, false)
  {
    var good := [Field("a", Int32(1))];
    SpellsItself("$nor");
    SpelledInAnyCase("$nor", "$nor");
    assert good[1..] == [];
    var path := [Name("a")];
    var plain := [Ident(path)] + [Cmp(Eq)] + [Literal(Int32(1))];
    assert Pair("a", Int32(1), false) == Ok(plain);
    assert Pair("a", Int32(1), true) == Ok([LParen] + plain + SetTail(path));
    assert WhereClause(good, false) == Ok([WHERE] + ([] + plain + []));
    assert WhereClause(good, true) == Ok([WHERE] + ([] + ([LParen] + plain + SetTail(path)) + []));
    assert |[WHERE] + ([] + plain + [])| == 4;
  }

  /** A run of calls without an error: whatever was compiled before, each filter gets the SQL it would get alone. */
  method Run(c: Compiler, filters: seq<Fields>) returns (sqls: seq<Result<Tokens>>)
    requires c.Valid() && !c.isNor
    modifies c
    ensures |sqls| == |filters|
    ensures (forall i :: 0 <= i < |filters| ==> WhereClause(filters[i], false).Ok?) ==>
              && !c.isNor && c.norCounter == 0
              && forall i :: 0 <= i < |filters| ==> sqls[i] == WhereClause(filters[i], false)
  {
    sqls := [];
    for i := 0 to |filters|
      invariant c.Valid() && |sqls| == i
      invariant (forall j :: 0 <= j < i ==> WhereClause(filters[j], false).Ok?) ==>
                  !c.isNor && forall j :: 0 <= j < i ==> sqls[j] == WhereClause(filters[j], false)
    {
      var sql := c.CreateWhereClause(filters[i]);
      sqls := sqls + [sql];
    }
  }
}
