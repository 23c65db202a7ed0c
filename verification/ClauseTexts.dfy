/** The statements written out: which tokens each operator becomes, and which text each token has. */
module ClauseTexts {
  import opened Types
  import opened Numerals
  import opened Sql
  import opened Spelling
  import opened Where
  import opened Filter
  import opened FilterMeaning
  import opened Rendering
  import opened Statements
  import opened Update
  import opened RowUpdate
  import Storage
  import WrittenValues
  import WrittenText
  import Like

  // ----- filters with one operator

  /** {key: {op: v}}. */
  function One(key: bytes, op: bytes, v: Value): Fields { [Field(key, Document([Field(op, v)]))] }

  predicate PlainKey(key: bytes) { !IsOperator(key) && '.' !in key }

  lemma {:induction false} OneClause(key: bytes, op: bytes, v: Value)
    requires PlainKey(key) && IsOperator(op)
    ensures WhereClause(One(key, op, v), false)
         == Then([WHERE], FieldOps([Name(key)], [Field(op, v)], true, [], None, false))
  {
    var fs := [Field(op, v)];
    var ops := FieldOps([Name(key)], fs, true, [], None, false);
    var filter := One(key, op, v);
    assert filter[1..] == [];
    assert Pair(key, Document(fs), false) == ops;
    if ops.Ok? {
      assert [] + ops.value == ops.value && ops.value + [] == ops.value;
      assert Pairs(filter, true, false) == Ok(ops.value);
    }
  }

  lemma {:induction false} OneOperator(path: Path, op: bytes, o: FieldOp, v: Value)
    requires FieldOpOf(op) == Some(o) && !o.OpNot?
    ensures FieldOps(path, [Field(op, v)], true, [], None, false)
         == match OpTurn(o, path, v, [Ident(path)], false)
            case Leave(r) => r
            case Go(ts, e) => if e.Some? then Err(e.value) else Ok(ts)
  {
    hide FieldOpOf, OpTurn;
    var fs := [Field(op, v)];
    assert fs[1..] == [] && [] + [Ident(path)] == [Ident(path)];
  }

  lemma {:induction false} NamesAreOperators(op: bytes, name: bytes)
    requires Spells(op, name) && name != [] && name[0] == '$'
    ensures IsOperator(op)
  {
  }

  lemma {:induction false} OneTurn(key: bytes, op: bytes, name: bytes, o: FieldOp, v: Value)
    requires PlainKey(key) && Spells(op, name) && name != [] && name[0] == '$'
    requires FieldOpOf(op) == Some(o) && !o.OpNot?
    ensures WhereClause(One(key, op, v), false)
         == match OpTurn(o, [Name(key)], v, [Ident([Name(key)])], false)
            case Leave(r) => Then([WHERE], r)
            case Go(ts, e) => if e.Some? then Err(e.value) else Ok([WHERE] + ts)
  {
    hide OpTurn, FieldOpOf, FieldOps, WhereClause, Spells;
    NamesAreOperators(op, name);
    OneClause(key, op, v);
    OneOperator([Name(key)], op, o, v);
  }

  /** A comparison with a literal, in any spelling of its name. */
  lemma {:induction false} ComparisonTokens(key: bytes, op: bytes, v: Value)
    requires PlainKey(key) && IsLiteral(v)
    ensures var field, sql := Ident([Name(key)]), WhereClause(One(key, op, v), false);
            && (Spells(op, "$eq") ==> sql == Ok([WHERE, field, Cmp(Eq), Literal(v)]))
            && (Spells(op, "$gt") ==> sql == Ok([WHERE, field, Cmp(Gt), Literal(v)]))
            && (Spells(op, "$gte") ==> sql == Ok([WHERE, field, Cmp(Ge), Literal(v)]))
            && (Spells(op, "$lt") ==> sql == Ok([WHERE, field, Cmp(Lt), Literal(v)]))
            && (Spells(op, "$lte") ==> sql == Ok([WHERE, field, Cmp(Le), Literal(v)]))
            && (Spells(op, "$ne") ==>
                  sql == Ok([WHERE, LParen, field, Cmp(Ne), Literal(v), OR, field, IS, UNSET, RParen]))
            && (Spells(op, "$size") ==>
                  sql == Ok([WHERE, CARDINALITY, LParen, field, RParen, Cmp(Eq), Literal(v)]))
  {
    hide Spells, FieldOpOf, WhereClause, ToLower, IsLiteral;
    FieldOpTable(op);
    if Spells(op, "$eq") { ComparisonTurn(key, op, "$eq", Eq, v); }
    if Spells(op, "$gt") { ComparisonTurn(key, op, "$gt", Gt, v); }
    if Spells(op, "$gte") { ComparisonTurn(key, op, "$gte", Ge, v); }
    if Spells(op, "$lt") { ComparisonTurn(key, op, "$lt", Lt, v); }
    if Spells(op, "$lte") { ComparisonTurn(key, op, "$lte", Le, v); }
    if Spells(op, "$ne") { NeTurn(key, op, v); }
    if Spells(op, "$size") { SizeTurn(key, op, v); }
  }

  lemma {:induction false} ComparisonTurn(key: bytes, op: bytes, name: bytes, cmp: CmpOp, v: Value)
    requires PlainKey(key) && IsLiteral(v) && Spells(op, name) && name != [] && name[0] == '$'
    requires FieldOpOf(op) == Some(OpCmp(cmp))
    ensures WhereClause(One(key, op, v), false) == Ok([WHERE, Ident([Name(key)]), Cmp(cmp), Literal(v)])
  {
    hide Spells, FieldOpOf, WhereClause, WhereValue;
    OneTurn(key, op, name, OpCmp(cmp), v);
    var field := Ident([Name(key)]);
    assert [WHERE] + ([field] + [Cmp(cmp)] + [Literal(v)]) == [WHERE, field, Cmp(cmp), Literal(v)];
  }

  lemma {:induction false} NeTurn(key: bytes, op: bytes, v: Value)
    requires PlainKey(key) && IsLiteral(v) && Spells(op, "$ne") && FieldOpOf(op) == Some(OpNe)
    ensures var field := Ident([Name(key)]);
            WhereClause(One(key, op, v), false)
            == Ok([WHERE, LParen, field, Cmp(Ne), Literal(v), OR, field, IS, UNSET, RParen])
  {
    hide Spells, FieldOpOf, WhereClause, WhereValue;
    OneTurn(key, op, "$ne", OpNe, v);
    var path := [Name(key)];
    assert [WHERE] + ([LParen] + [Ident(path)] + [Cmp(Ne)] + ([Literal(v)] + UnsetTail(path)))
        == [WHERE, LParen, Ident(path), Cmp(Ne), Literal(v), OR, Ident(path), IS, UNSET, RParen];
  }

  lemma {:induction false} SizeTurn(key: bytes, op: bytes, v: Value)
    requires PlainKey(key) && IsLiteral(v) && Spells(op, "$size") && FieldOpOf(op) == Some(OpSize)
    ensures WhereClause(One(key, op, v), false)
         == Ok([WHERE, CARDINALITY, LParen, Ident([Name(key)]), RParen, Cmp(Eq), Literal(v)])
  {
    hide Spells, FieldOpOf, WhereClause, WhereValue;
    OneTurn(key, op, "$size", OpSize, v);
    var field := Ident([Name(key)]);
    assert [WHERE] + ([CARDINALITY, LParen] + [field] + [RParen] + [Cmp(Eq)] + [Literal(v)])
        == [WHERE, CARDINALITY, LParen, field, RParen, Cmp(Eq), Literal(v)];
  }

  /** Every comparison with null, even "$lt", asks whether the field is null. */
  lemma {:induction false} NullTokens(key: bytes, op: bytes)
    requires PlainKey(key)
    ensures var field, sql := Ident([Name(key)]), WhereClause(One(key, op, Value.Null), false);
            && (Spells(op, "$eq") || Spells(op, "$gt") || Spells(op, "$gte") || Spells(op, "$lt") || Spells(op, "$lte")
                ==> sql == Ok([WHERE, field, IS, NULL]))
            && (Spells(op, "$ne") ==> sql == Ok([WHERE, LParen, field, IS, NOT, NULL, OR, field, IS, UNSET, RParen]))
  {
    hide Spells, FieldOpOf, WhereClause, ToLower;
    FieldOpTable(op);
    var field := Ident([Name(key)]);
    assert [WHERE] + ([field] + [IS] + [NULL]) == [WHERE, field, IS, NULL];
    assert [WHERE] + ([LParen] + [field] + [IS, NOT] + ([NULL] + UnsetTail([Name(key)])))
        == [WHERE, LParen, field, IS, NOT, NULL, OR, field, IS, UNSET, RParen];
    if Spells(op, "$eq") { OneTurn(key, op, "$eq", OpCmp(Eq), Value.Null); }
    if Spells(op, "$gt") { OneTurn(key, op, "$gt", OpCmp(Gt), Value.Null); }
    if Spells(op, "$gte") { OneTurn(key, op, "$gte", OpCmp(Ge), Value.Null); }
    if Spells(op, "$lt") { OneTurn(key, op, "$lt", OpCmp(Lt), Value.Null); }
    if Spells(op, "$lte") { OneTurn(key, op, "$lte", OpCmp(Le), Value.Null); }
    if Spells(op, "$ne") { OneTurn(key, op, "$ne", OpNe, Value.Null); }
  }

  lemma {:induction false} ExistsTokens(key: bytes, op: bytes, v: Value)
    requires PlainKey(key) && Spells(op, "$exists")
    ensures WhereClause(One(key, op, v), false)
         == match v
            case Bool(b) => Ok([WHERE, Ident([Name(key)]), IS, if b then SET else UNSET])
            case _ => Err(OtherError)
  {
    hide Spells, FieldOpOf, WhereClause, ToLower;
    FieldOpTable(op);
    OneTurn(key, op, "$exists", OpExists, v);
    var field, t := Ident([Name(key)]), if v.Bool? && v.b then SET else UNSET;
    assert [WHERE] + ([field] + [IS] + [t]) == [WHERE, field, IS, t];
  }

  lemma {:induction false} ContainsMeans(s: bytes, sub: bytes)
    ensures Contains(s, sub) <==> exists i :: 0 <= i <= |s| && sub <= s[i..]
  {
    assert s[0..] == s;
    if s != [] {
      ContainsMeans(s[1..], sub);
      assert forall i :: 0 <= i <= |s[1..]| ==> s[1..][i..] == s[i + 1..];
      assert forall i :: 0 < i <= |s| ==> s[i..] == s[1..][i - 1..];
    }
  }

  /** The pattern turns the mode for upper and lower case on or off somewhere. */
  ghost predicate ChangesCase(p: bytes) {
    exists i :: 0 <= i <= |p| && ("(?i)" <= p[i..] || "(?-i)" <= p[i..])
  }

  /** "$regex": a regular expression without options, or a string, that does not change the case mode. */
  lemma {:induction false} RegexTokens(key: bytes, op: bytes, v: Value)
    requires PlainKey(key) && Spells(op, "$regex")
    ensures WhereClause(One(key, op, v), false)
         == match v
            case Regex(p, o) =>
              if o != [] || ChangesCase(p) then Err(NotImplemented)
              else Ok([WHERE, Ident([Name(key)]), LIKE, PatternText(Like.Translate(p))])
            case String(p) =>
              if ChangesCase(p) then Err(NotImplemented)
              else Ok([WHERE, Ident([Name(key)]), LIKE, PatternText(Like.Translate(p))])
            case _ => Err(BadValue)
  {
    hide Spells, FieldOpOf, WhereClause, ToLower, Contains, Like.Translate;
    FieldOpTable(op);
    OneTurn(key, op, "$regex", OpRegex, v);
    if v.Regex? || v.String? {
      var p := if v.Regex? then v.pattern else v.s;
      CaseModes(p);
      var field, t := Ident([Name(key)]), PatternText(Like.Translate(p));
      assert [WHERE] + ([field] + [LIKE] + [t]) == [WHERE, field, LIKE, t];
    }
  }

  lemma {:induction false} CaseModes(p: bytes)
    ensures ChangesCase(p) <==> Contains(p, IGNORE_CASE) || Contains(p, RESPECT_CASE)
  {
    assert IGNORE_CASE == "(?i)" && RESPECT_CASE == "(?-i)";
    ContainsMeans(p, "(?i)");
    ContainsMeans(p, "(?-i)");
  }

  // ----- values that no operator takes, and names that are none

  predicate ComparesValue(op: bytes) {
    || Spells(op, "$eq") || Spells(op, "$ne") || Spells(op, "$gt") || Spells(op, "$gte") || Spells(op, "$lt")
    || Spells(op, "$lte") || Spells(op, "$size")
  }

  /** An array or a date cannot be compared. */
  lemma {:induction false} ValueRefused(key: bytes, op: bytes, v: Value)
    requires PlainKey(key) && ComparesValue(op) && (v.Array? || v.DateTime?)
    ensures WhereClause(One(key, op, v), false) == Err(BadValue)
  {
    hide Spells, FieldOpOf, WhereClause, ToLower;
    FieldOpTable(op);
    if Spells(op, "$eq") { OneTurn(key, op, "$eq", OpCmp(Eq), v); }
    if Spells(op, "$gt") { OneTurn(key, op, "$gt", OpCmp(Gt), v); }
    if Spells(op, "$gte") { OneTurn(key, op, "$gte", OpCmp(Ge), v); }
    if Spells(op, "$lt") { OneTurn(key, op, "$lt", OpCmp(Lt), v); }
    if Spells(op, "$lte") { OneTurn(key, op, "$lte", OpCmp(Le), v); }
    if Spells(op, "$ne") { OneTurn(key, op, "$ne", OpNe, v); }
    if Spells(op, "$size") { OneTurn(key, op, "$size", OpSize, v); }
  }

  lemma {:induction false} OtherNamesRefused(key: bytes, op: bytes, v: Value)
    requires PlainKey(key) && IsOperator(op) && !ComparesValue(op)
    requires !Spells(op, "$exists") && !Spells(op, "$regex") && !Spells(op, "$all")
    requires !Spells(op, "$elemmatch") && !Spells(op, "$not")
    ensures WhereClause(One(key, op, v), false) == Err(NotImplemented)
  {
    hide Spells, FieldOpOf, WhereClause, ToLower;
    FieldOpTable(op);
    OneClause(key, op, v);
    match FieldOpOf(op)
    case Some(OpCmp(Eq)) =>
    case Some(OpCmp(Ne)) =>
    case Some(OpCmp(Gt)) =>
    case Some(OpCmp(Ge)) =>
    case Some(OpCmp(Lt)) =>
    case Some(OpCmp(Le)) =>
    case _ =>
  }

  // ----- keys and values

  /** No negative position, and no two positions in a row. */
  predicate GoodParts(parts: seq<bytes>, negative: bool) {
    forall i :: 0 <= i < |parts| && Atoi(parts[i]).Some? ==>
      (negative || Atoi(parts[i]).value >= 0) && (i > 0 ==> Atoi(parts[i - 1]).None?)
  }

  predicate StepsOf(path: Path, parts: seq<bytes>) {
    && |path| == |parts|
    && forall i :: 0 <= i < |parts| ==>
         path[i] == match Atoi(parts[i]) case Some(n) => Index(n + 1) case None => Name(parts[i])
  }

  lemma {:induction false} GoodCons(parts: seq<bytes>, negative: bool)
    requires parts != []
    ensures GoodParts(parts, negative) <==>
            && GoodParts(parts[1..], negative)
            && (Atoi(parts[0]).Some? ==> negative || Atoi(parts[0]).value >= 0)
            && (|parts| > 1 && Atoi(parts[1]).Some? ==> Atoi(parts[0]).None?)
  {
    hide Atoi;
    var rest := parts[1..];
    assert forall i :: 0 <= i < |rest| ==> rest[i] == parts[i + 1];
    assert forall i :: 0 < i < |parts| ==> parts[i] == rest[i - 1];
  }

  lemma {:induction false} PathStepsExactly(parts: seq<bytes>, afterIndex: bool)
    ensures PathSteps(parts, afterIndex).Ok?
            <==> GoodParts(parts, false) && (afterIndex && parts != [] ==> Atoi(parts[0]).None?)
    ensures PathSteps(parts, afterIndex).Ok? ==> StepsOf(PathSteps(parts, afterIndex).value, parts)
  {
    hide Atoi;
    if parts != [] {
      hide GoodParts;
      GoodCons(parts, false);
      PathStepsExactly(parts[1..], Atoi(parts[0]).Some?);
    }
  }

  lemma {:induction false} UpdateStepsExactly(parts: seq<bytes>, afterIndex: bool)
    ensures UpdateSteps(parts, afterIndex).Ok?
            <==> GoodParts(parts, true) && (afterIndex && parts != [] ==> Atoi(parts[0]).None?)
    ensures UpdateSteps(parts, afterIndex).Ok? ==> StepsOf(UpdateSteps(parts, afterIndex).value, parts)
  {
    hide Atoi;
    if parts != [] {
      hide GoodParts;
      GoodCons(parts, true);
      UpdateStepsExactly(parts[1..], Atoi(parts[0]).Some?);
    }
  }

  /** A filter's key: a name, or the steps of its dotted parts, each number a position counted from 1. */
  lemma {:induction false} KeyExactly(key: bytes)
    ensures '.' !in key ==> WhereKey(key) == Ok([Name(key)])
    ensures '.' in key ==> (WhereKey(key).Ok? <==> GoodParts(SplitDots(key), false))
    ensures '.' in key && WhereKey(key).Ok? ==> StepsOf(WhereKey(key).value, SplitDots(key))
  {
    PathStepsExactly(SplitDots(key), false);
  }

  /** An update's key: the same, and negative numbers pass. */
  lemma {:induction false} UpdateKeyExactly(key: bytes)
    ensures '.' !in key ==> UpdateKey(key) == Ok([Name(key)])
    ensures '.' in key ==> (UpdateKey(key).Ok? <==> GoodParts(SplitDots(key), true))
    ensures '.' in key && UpdateKey(key).Ok? ==> StepsOf(UpdateKey(key).value, SplitDots(key))
  {
    UpdateStepsExactly(SplitDots(key), false);
  }

  /** The values that stand in a condition as themselves: every scalar but null, dates and regular expressions, and the
      documents without unsupported values whose percent signs stand only in strings below no array. */
  lemma {:induction false} LiteralsExactly(v: Value)
    ensures IsLiteral(v) <==>
            || v.Int32? || v.Int64? || v.Double? || v.String? || v.Bool? || v.ObjectID?
            || (v.Document? && WrittenValues.SupportedFields(v.fields) && WrittenText.Clean(v.fields))
  {
    if v.Document? { LiteralDocuments(v.fields); }
  }

  // ----- $all

  /** "$all": one FOR ANY for every value of the list, in its order, joined by AND; an empty list leaves nothing. */
  lemma {:induction false} AllTokens(field: Token, es: seq<Value>)
    requires forall i :: 0 <= i < |es| ==> IsLiteral(es[i])
    ensures var sql := FilterArray([field], true, Array(es));
            && (es == [] ==> sql == Ok([]))
            && (es != [] ==>
                  var any := [FOR_ANY, field, SATISFIES, Ident([Name("element")]), Cmp(Eq), Literal(es[0]), END];
                  && FilterArray([field], true, Array(es[1..])).Ok?
                  && var rest := FilterArray([field], true, Array(es[1..])).value;
                     sql == Ok(if |es| == 1 then any else any + [AND] + rest))
  {
    hide WhereValue;
    if es != [] {
      var any := [FOR_ANY, field, SATISFIES, Ident([Name("element")]), Cmp(Eq), Literal(es[0]), END];
      assert ELEMENT == [Name("element")];
      LiteralsAreTaken(field, es[1..]);
      assert [FOR_ANY] + [field] + [SATISFIES, Ident(ELEMENT), Cmp(Eq), Literal(es[0]), END] == any;
      var rest := AllOf([field], es[1..], true).value;
      assert [] + any + [] == any && [] + any + ([AND] + rest) == any + [AND] + rest;
    }
  }

  /** Behind another value the text only starts with AND. */
  lemma {:induction false} LiteralsAreTaken(field: Token, es: seq<Value>)
    requires forall i :: 0 <= i < |es| ==> IsLiteral(es[i])
    ensures AllOf([field], es, true).Ok?
    ensures AllOf([field], es, false)
         == Ok(if es == [] then [] else [AND] + AllOf([field], es, true).value)
  {
    if es != [] {
      LiteralsAreTaken(field, es[1..]);
      var any := [FOR_ANY] + [field] + [SATISFIES, Ident(ELEMENT), Cmp(Eq), Literal(es[0]), END];
      var rest := AllOf([field], es[1..], false).value;
      assert [] + any == any;
      Assoc([AND], any, rest);
    }
  }

  // ----- texts

  /** The text of every token. */
  lemma {:induction false} TokenTexts(t: Token, show: Show)
    ensures match t
            case LParen => TokenText(t, show) == "("
            case RParen => TokenText(t, show) == ")"
            case AND => TokenText(t, show) == "AND"
            case OR => TokenText(t, show) == "OR"
            case NOT => TokenText(t, show) == "NOT"
            case IS => TokenText(t, show) == "IS"
            case NULL => TokenText(t, show) == "NULL"
            case SET => TokenText(t, show) == "SET"
            case UNSET => TokenText(t, show) == "UNSET"
            case LIKE => TokenText(t, show) == "LIKE"
            case WHERE => TokenText(t, show) == "WHERE"
            case Cmp(Eq) => TokenText(t, show) == "="
            case Cmp(Ne) => TokenText(t, show) == "<>"
            case Cmp(Gt) => TokenText(t, show) == ">"
            case Cmp(Ge) => TokenText(t, show) == ">="
            case Cmp(Lt) => TokenText(t, show) == "<"
            case Cmp(Le) => TokenText(t, show) == "<="
            case PatternText(p) => TokenText(t, show) == "'" + p.text + if p.escape then "' ESCAPE '^'" else "'"
            case Literal(v) => TokenText(t, show) == Render(v, true, show)
            case Ident(path) => TokenText(t, show) == PathText(path, true)
            case CARDINALITY => TokenText(t, show) == "CARDINALITY"
            case FOR_ANY => TokenText(t, show) == "FOR ANY \"element\" IN"
            case SATISFIES => TokenText(t, show) == "SATISFIES"
            case END => TokenText(t, show) == "END"
            case Garbled(_) => true
  {
  }

  /** The text of every scalar; null has blanks around it in a document. */
  lemma {:induction false} ScalarTexts(show: Show)
    ensures Render(Bool(true), true, show) == "to_json_boolean(true)"
    ensures Render(Bool(false), true, show) == "to_json_boolean(false)"
    ensures Render(Value.Null, true, show) == " NULL " && Render(Value.Null, false, show) == "NULL"
    ensures Render(Int32(120), true, show) == "120" && Render(Int64(-7), true, show) == "-7"
    ensures forall s: bytes :: Render(String(s), true, show) == "'" + s + "'"
    ensures forall bits: uint64 :: Render(Double(bits), true, show) == show(bits)
    ensures forall id: ObjectId :: Render(ObjectID(id), true, show) == "{\"oid\":'" + Storage.HexEncode(id) + "'}"
  {
    Digits120();
    assert Itoa(7) == "7";
  }

  lemma Digits120()
    ensures Itoa(120) == "120"
  {
    assert Itoa(1) == "1";
    assert Itoa(12) == "1" + "2";
    assert Itoa(120) == "12" + "0";
  }

  /** [null, null], and {a: 1, b: [null, null]}. */
  lemma {:induction false} NestedTexts(show: Show)
    ensures Render(Array([Value.Null, Value.Null]), true, show) == "[NULL, NULL]"
    ensures Render(Document([Field("a", Int32(1)), Field("b", Array([Value.Null, Value.Null]))]), true, show)
         == "{\"a\": 1, \"b\": [NULL, NULL]}"
  {
    ListText(show);
    FieldsText(Array([Value.Null, Value.Null]), show);
    hide RenderFields, RenderElements;
  }

  lemma {:induction false} ListText(show: Show)
    ensures Render(Array([Value.Null, Value.Null]), true, show) == "[NULL, NULL]"
  {
    var es: seq<Value> := [Value.Null, Value.Null];
    assert es[1..] == [Value.Null] && es[1..][1..] == [];
    assert RenderElements(es[1..], false, show) == ", NULL";
    assert RenderElements(es, true, show) == "NULL, NULL";
  }

  lemma {:induction false} FieldsText(v: Value, show: Show)
    ensures RenderFields([Field("a", Int32(1)), Field("b", v)], true, show)
         == "\"a\": 1, \"b\": " + Render(v, true, show)
  {
    hide Render, RenderFields;
    var fs := [Field("a", Int32(1)), Field("b", v)];
    assert fs[1..] == [Field("b", v)];
    OneText(show);
    TwoFields(fs, show);
    assert Rendering.Separator(false) + KeyText("b") == ", \"b\": " && KeyText("a") == "\"a\": ";
    assert RenderFields(fs, true, show) == "\"a\": 1, \"b\": " + Render(v, true, show);
  }

  lemma OneText(show: Show)
    ensures Render(Int32(1), true, show) == "1"
  {
    assert Itoa(1) == "1";
  }

  lemma {:induction false} TwoFields(fs: Fields, show: Show)
    requires |fs| == 2
    ensures RenderFields(fs, true, show)
         == KeyText(fs[0].name) + Render(fs[0].value, true, show)
          + (Rendering.Separator(false) + KeyText(fs[1].name) + Render(fs[1].value, true, show))
  {
    hide Render, KeyText;
    assert fs[1..][1..] == [] && RenderFields([], false, show) == [];
    var head := KeyText(fs[0].name) + Render(fs[0].value, true, show);
    assert Rendering.Separator(true) + KeyText(fs[0].name) == KeyText(fs[0].name);
  }

  /** The path "a.0.b". */
  lemma {:induction false} PathWithPosition()
    ensures PathText([Name("a"), Index(1), Name("b")], true) == "\"a\"[1].\"b\""
  {
    var path := [Name("a"), Index(1), Name("b")];
    assert Itoa(1) == "1";
    assert path[1..] == [Index(1), Name("b")] && path[1..][1..] == [Name("b")] && path[1..][1..][1..] == [];
  }

  /** {a: {$lt: 5}} in full. */
  lemma {:induction false} WholeText(show: Show)
    ensures var sql := WhereClause(One("a", "$lt", Int32(5)), false);
            sql.Ok? && ConditionText(sql.value, show) == "WHERE \"a\" < 5 "
  {
    hide WhereClause, Spells, FieldOpOf, Render;
    SpellsItself("$lt");
    assert PlainKey("a") && IsLiteral(Int32(5));
    ComparisonTokens("a", "$lt", Int32(5));
    ComparisonText("a", Lt, Int32(5), show);
    FiveText(show);
  }

  lemma FiveText(show: Show)
    ensures Render(Int32(5), true, show) == "5"
  {
    assert Itoa(5) == "5";
  }

  lemma {:induction false} ComparisonText(key: bytes, cmp: CmpOp, v: Value, show: Show)
    ensures ConditionText([WHERE, Ident([Name(key)]), Cmp(cmp), Literal(v)], show)
         == "WHERE " + (("\"" + key + "\"") + " " + (OperatorText(cmp) + " " + (Render(v, true, show) + " ")))
  {
    OneName(key);
    hide Render, OperatorText, PathText;
    var last, most := [Literal(v)], [Cmp(cmp), Literal(v)];
    TextOf(WHERE, [Ident([Name(key)])] + most, show);
    TextOf(Ident([Name(key)]), most, show);
    TextOf(Cmp(cmp), last, show);
    TextOf(Literal(v), [], show);
    hide ConditionText;
    assert [WHERE] + ([Ident([Name(key)])] + most) == [WHERE, Ident([Name(key)]), Cmp(cmp), Literal(v)];
    assert [Cmp(cmp)] + last == most && last + [] == last;
  }

  lemma {:induction false} TextOf(t: Token, ts: Tokens, show: Show)
    ensures ConditionText([t] + ts, show) == TokenText(t, show) + " " + ConditionText(ts, show)
    ensures ConditionText([], show) == []
  {
    assert ([t] + ts)[1..] == ts;
  }

  lemma {:induction false} OneName(key: bytes)
    ensures PathText([Name(key)], true) == "\"" + key + "\""
  {
    assert [Name(key)][1..] == [];
  }

  // ----- updates

  /** The members of an update document that are refused wherever they stand. */
  lemma {:induction false} UnimplementedRefused(u: Fields, i: nat, nor: bool)
    requires i < |u| && u[i].name in {
               "$currentDate", "$inc", "$min", "$max", "$mul", "$rename", "$setOnInsert", "$", "$[]",
               "$[<identifier>]", "$addToSet", "$pop", "$pull", "$push", "$pullAll", "$each", "$position", "$slice",
               "$sort", "$bit", "$addFields", "$project", "$replaceRoot", "$replaceWith"}
    ensures UpdatePlan(u, nor) == Err(NotImplemented)
  {
    assert u[i].name in UNIMPLEMENTED;
  }

  /** The assignments are the fields of "$set" and the removals those of "$unset", in order. */
  lemma {:induction false} PlanFollowsUpdate(u: Fields, nor: bool)
    requires UpdatePlan(u, nor).Ok?
    ensures var plan := UpdatePlan(u, nor).value;
            && Assigns(plan.sets, match Get(u, "$set") case Some(Document(fs)) => fs case _ => [])
            && Removes(plan.unsets, match Get(u, "$unset") case Some(Document(fs)) => fs case _ => [])
  {
    hide SetList, UnsetList, WhereClause, SetGuard, UnsetGuard, HasUnimplemented, Assigns, Removes;
    SetListAssigns(Part(u, "$set"));
    UnsetListRemoves(Part(u, "$unset"));
  }

  predicate Assigns(sets: seq<Assignment>, fs: Fields) {
    && |sets| == |fs|
    && forall i :: 0 <= i < |fs| ==> UpdateKey(fs[i].name) == Ok(sets[i].path) && sets[i].value == fs[i].value
  }

  predicate Removes(paths: seq<Path>, fs: Fields) {
    |paths| == |fs| && forall i :: 0 <= i < |fs| ==> UpdateKey(fs[i].name) == Ok(paths[i])
  }

  lemma {:induction false} SetListAssigns(fs: Fields)
    requires SetList(fs).Ok?
    ensures Assigns(SetList(fs).value, fs)
  {
    if fs != [] {
      SetListAssigns(fs[1..]);
      var rest := SetList(fs[1..]).value;
      assert forall i :: 0 < i < |fs| ==> fs[i] == fs[1..][i - 1] && SetList(fs).value[i] == rest[i - 1];
    }
  }

  lemma {:induction false} UnsetListRemoves(fs: Fields)
    requires UnsetList(fs).Ok?
    ensures Removes(UnsetList(fs).value, fs)
  {
    if fs != [] {
      UnsetListRemoves(fs[1..]);
      var rest := UnsetList(fs[1..]).value;
      assert forall i :: 0 < i < |fs| ==> fs[i] == fs[1..][i - 1] && UnsetList(fs).value[i] == rest[i - 1];
    }
  }

  /** The keys that no update may name. */
  lemma {:induction false} IdKeys(key: bytes)
    ensures IsIdKey(key) <==> key in {"_id", "_Id", "_iD", "_ID"}
  {
    var l := Lower(key);
    if l == "_id" {
      assert key == [key[0], key[1], key[2]];
      assert l[0] == '_' && l[1] == 'i' && l[2] == 'd';
    }
    if key == "_id" || key == "_Id" || key == "_iD" || key == "_ID" { assert l == "_id"; }
  }
}
