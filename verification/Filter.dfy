/** What a filter means, and which condition tree the compiler's text stands for. */
module Filter {
  import opened Types
  import opened Sql
  import opened Spelling
  import opened Where
  import Like

  // ----- the meaning of a filter

  /** A document as a filter sees it, and the comparison of two values. */
  datatype View = View(field: bytes -> Slot, compare: (Value, Value) -> Order)

  /** A regular expression without options, or a string that holds one, finds a match in the text. */
  predicate MatchesPattern(v: Value, slot: Slot) {
    && slot.Val? && slot.v.String?
    && ((v.Regex? && v.options == [] && Like.Finds(v.pattern, slot.v.s)) || (v.String? && Like.Finds(v.s, slot.v.s)))
  }

  /** {field: value}: equality, a regular expression, or null for "null or missing". */
  predicate MatchesValue(v: Value, slot: Slot, compare: (Value, Value) -> Order) {
    match v
    case Regex(_, _) => MatchesPattern(v, slot)
    case Null => !slot.Val?
    case _ => slot.Val? && compare(slot.v, v) == Equal
  }

  /** One operator other than $not, by its name. $size, $all and $elemMatch have no meaning here. */
  predicate MatchesOp(k: bytes, v: Value, slot: Slot, compare: (Value, Value) -> Order) {
    if Spells(k, "$eq") then MatchesValue(v, slot, compare)
    else if Spells(k, "$ne") then !MatchesValue(v, slot, compare)
    else if Spells(k, "$gt") then slot.Val? && compare(slot.v, v) == Greater
    else if Spells(k, "$gte") then slot.Val? && (compare(slot.v, v) == Greater || compare(slot.v, v) == Equal)
    else if Spells(k, "$lt") then slot.Val? && compare(slot.v, v) == Less
    else if Spells(k, "$lte") then slot.Val? && (compare(slot.v, v) == Less || compare(slot.v, v) == Equal)
    else if Spells(k, "$exists") then v.Bool? && (slot != Unset) == v.b
    else if Spells(k, "$regex") then MatchesPattern(v, slot)
    else false
  }

  /** {field: {$op: value, ...}}: all operators hold. */
  predicate MatchesOps(fs: Fields, slot: Slot, compare: (Value, Value) -> Order)
    decreases fs
  {
    if fs == [] then true
    else
      && (if Spells(fs[0].name, "$not") then
            fs[0].value.Document? && !MatchesOps(fs[0].value.fields, slot, compare)
          else MatchesOp(fs[0].name, fs[0].value, slot, compare))
      && MatchesOps(fs[1..], slot, compare)
  }

  predicate MatchesPair(k: bytes, v: Value, d: View)
    decreases v, 1
  {
    if IsOperator(k) then
      match v
      case Array(es) =>
        if Spells(k, "$and") then MatchesAll(es, d)
        else if Spells(k, "$or") then MatchesSome(es, d)
        else Spells(k, "$nor") && !MatchesSome(es, d)
      case _ => false
    else if v.Document? && v.fields != [] && IsOperator(v.fields[0].name) then
      MatchesOps(v.fields, d.field(k), d.compare)
    else
      MatchesValue(v, d.field(k), d.compare)
  }

  predicate MatchesPairs(fs: Fields, d: View)
    decreases fs, 0
  {
    fs == [] || (MatchesPair(fs[0].name, fs[0].value, d) && MatchesPairs(fs[1..], d))
  }

  predicate MatchesMember(e: Value, d: View)
    decreases e, 0
  {
    e.Document? && MatchesPairs(e.fields, d)
  }

  predicate MatchesAll(es: seq<Value>, d: View)
    decreases es, 0
  {
    es == [] || (MatchesMember(es[0], d) && MatchesAll(es[1..], d))
  }

  predicate MatchesSome(es: seq<Value>, d: View)
    decreases es, 0
  {
    es != [] && (MatchesMember(es[0], d) || MatchesSome(es[1..], d))
  }

  // ----- the filters for which the compiler is right

  /** A value whose text in the statement is its own direct text. */
  predicate IsLiteral(v: Value) { WhereValue(v) == Ok((Literal(v), SignEq)) }

  /** A regular expression that is translated faithfully. */
  predicate IsFaithfulRegex(v: Value) {
    && RegexPattern(v).Ok?
    && var p := if v.Regex? then v.pattern else v.s;
       Like.Simple(p) && Like.LongEnough(p)
  }

  /** An operator that may stand beside others: a comparison, {$exists: true} or a regular expression. */
  predicate IsPlainOp(k: bytes, v: Value) {
    match FieldOpOf(k)
    case Some(OpCmp(_)) => IsLiteral(v)
    case Some(OpExists) => v == Bool(true)
    case Some(OpRegex) => IsFaithfulRegex(v)
    case _ => false
  }

  predicate ArePlainOps(fs: Fields) {
    fs == [] || (IsPlainOp(fs[0].name, fs[0].value) && ArePlainOps(fs[1..]))
  }

  /** An operator that must stand alone: $not over one plain operator, below $nor over any number of them; and
      outside $nor also $ne and {$exists: false}. */
  predicate IsLoneOp(k: bytes, v: Value, nor: bool) {
    match FieldOpOf(k)
    case Some(OpNot) => v.Document? && v.fields != [] && (nor || |v.fields| == 1) && ArePlainOps(v.fields)
    case Some(OpNe) => !nor && IsLiteral(v)
    case Some(OpExists) => !nor && v == Bool(false)
    case _ => false
  }

  predicate SupportedOps(fs: Fields, nor: bool) {
    fs != [] && (ArePlainOps(fs) || (|fs| == 1 && IsLoneOp(fs[0].name, fs[0].value, nor)))
  }

  predicate SupportedPair(k: bytes, v: Value, nor: bool)
    decreases v, 1
  {
    if IsOperator(k) then
      && LogicOpOf(k).Some? && v.Array? && v.elems != []
      && var inner := nor || LogicOpOf(k).value.LogicNor?;
         (|v.elems| >= 2 || inner) && SupportedMembers(v.elems, inner)
    else
      && WhereKey(k).Ok?
      && if v.Document? && v.fields != [] && IsOperator(v.fields[0].name) then SupportedOps(v.fields, nor)
         else v != Document([]) && (IsLiteral(v) || (v.Regex? && IsFaithfulRegex(v)))
  }

  predicate SupportedPairs(fs: Fields, nor: bool)
    decreases fs, 0
  {
    fs == [] || (SupportedPair(fs[0].name, fs[0].value, nor) && SupportedPairs(fs[1..], nor))
  }

  predicate SupportedMembers(es: seq<Value>, nor: bool)
    decreases es, 0
  {
    es == []
    || (es[0].Document? && es[0].fields != [] && SupportedPairs(es[0].fields, nor) && SupportedMembers(es[1..], nor))
  }

  // ----- the condition tree of a supported filter

  function PathOf(k: bytes): Path {
    match WhereKey(k) case Ok(path) => path case Err(_) => []
  }

  function PlainCond(k: bytes, v: Value, path: Path): Cond {
    match FieldOpOf(k)
    case Some(OpCmp(cmp)) => Compare(path, cmp, v)
    case Some(OpRegex) => if RegexPattern(v).Ok? then IsLike(path, RegexPattern(v).value) else IsSet(path)
    case _ => IsSet(path)
  }

  /** Under $nor, the factors so far become one group that also asks for the field to be set. */
  function GuardedFactors(fs: seq<Cond>, path: Path, nor: bool): seq<Cond> {
    if nor then [Group([Conj(fs + [IsSet(path)])])] else fs
  }

  function OpsFactors(fs: Fields, path: Path, acc: seq<Cond>, nor: bool): (r: seq<Cond>)
    ensures fs != [] ==> r != []
    ensures fs != [] && nor ==> |r| == 1
    decreases |fs|
  {
    if fs == [] then acc
    else OpsFactors(fs[1..], path, GuardedFactors(acc + [PlainCond(fs[0].name, fs[0].value, path)], path, nor), nor)
  }

  /** "( c OR field IS UNSET )". */
  function OrUnset(c: Cond, path: Path): Cond { Group([Conj([c]), Conj([IsUnset(path)])]) }

  function LoneCond(k: bytes, v: Value, path: Path, nor: bool): Cond {
    match FieldOpOf(k)
    case Some(OpNot) =>
      if v.Document? && v.fields != [] then OrUnset(Not(OpsFactors(v.fields, path, [], nor)[0]), path)
      else IsSet(path)
    case Some(OpNe) => OrUnset(Compare(path, Ne, v), path)
    case _ => IsUnset(path)
  }

  function ValueCond(v: Value, path: Path): Cond {
    if v.Regex? && RegexPattern(v).Ok? then IsLike(path, RegexPattern(v).value) else Compare(path, Eq, v)
  }

  function PairFactors(k: bytes, v: Value, nor: bool): seq<Cond>
    decreases v, 1
  {
    if IsOperator(k) then
      match (LogicOpOf(k), v)
      case (Some(LogicAnd), Array(es)) => [Group([Conj(AllFactors(es, nor))])]
      case (Some(LogicOr), Array(es)) => [Group(SomeTerms(es, nor))]
      case (Some(LogicNor), Array(es)) => [Group([Conj(NoneFactors(es))])]
      case _ => []
    else if v.Document? && v.fields != [] && IsOperator(v.fields[0].name) then
      if ArePlainOps(v.fields) then OpsFactors(v.fields, PathOf(k), [], nor)
      else [LoneCond(v.fields[0].name, v.fields[0].value, PathOf(k), nor)]
    else
      GuardedFactors([ValueCond(v, PathOf(k))], PathOf(k), nor)
  }

  function PairsFactors(fs: Fields, nor: bool): seq<Cond>
    decreases fs, 0
  {
    if fs == [] then [] else PairFactors(fs[0].name, fs[0].value, nor) + PairsFactors(fs[1..], nor)
  }

  function MemberFactors(e: Value, nor: bool): seq<Cond>
    decreases e, 0
  {
    if e.Document? then PairsFactors(e.fields, nor) else []
  }

  function AllFactors(es: seq<Value>, nor: bool): seq<Cond>
    decreases es, 0
  {
    if es == [] then [] else MemberFactors(es[0], nor) + AllFactors(es[1..], nor)
  }

  function SomeTerms(es: seq<Value>, nor: bool): seq<Conj>
    decreases es, 0
  {
    if es == [] then [] else [Conj(MemberFactors(es[0], nor))] + SomeTerms(es[1..], nor)
  }

  function NoneFactors(es: seq<Value>): seq<Cond>
    decreases es, 0
  {
    if es == [] then [] else [Not(Group([Conj(MemberFactors(es[0], true))]))] + NoneFactors(es[1..])
  }

  // ----- the text parses to the tree

  lemma {:induction false} PlainOpTurn(k: bytes, v: Value, path: Path, kv: Tokens, nor: bool)
    requires IsPlainOp(k, v)
    ensures FieldOpOf(k).Some? && !FieldOpOf(k).value.OpNot?
    ensures Text(PlainCond(k, v, path)) == [Ident(path)] + Text(PlainCond(k, v, path))[1..]
    ensures OpTurn(FieldOpOf(k).value, path, v, kv, nor)
         == Go(Guarded(kv + Text(PlainCond(k, v, path))[1..], path, nor), None)
    ensures WellFormed(PlainCond(k, v, path))
  {
    var c := PlainCond(k, v, path);
    match FieldOpOf(k).value
    case OpCmp(cmp) => assert kv + [Cmp(cmp)] + [Literal(v)] == kv + Text(c)[1..];
    case OpExists => assert kv + [IS] + [SET] == kv + Text(c)[1..];
    case OpRegex => assert kv + [LIKE] + [PatternText(RegexPattern(v).value)] == kv + Text(c)[1..];
    case _ =>
  }

  lemma SingleText(c: Cond)
    ensures TextFactors([c]) == Text(c)
    ensures TextTerms([Conj([c])]) == Text(c)
  {
  }

  lemma WellFormedGroup(fs: seq<Cond>)
    requires WellFormedFactors(fs)
    ensures WellFormed(Group([Conj(fs)])) && WellFormed(Not(Group([Conj(fs)])))
  {
    assert WellFormedTerms([Conj(fs)]);
  }

  lemma WellFormedConcat(fs: seq<Cond>, gs: seq<Cond>)
    requires WellFormedFactors(fs) && (gs == [] || WellFormedFactors(gs))
    ensures WellFormedFactors(fs + gs)
  {
  }

  lemma GuardedText(fs: seq<Cond>, path: Path, nor: bool)
    requires WellFormedFactors(fs)
    ensures Guarded(TextFactors(fs), path, nor) == TextFactors(GuardedFactors(fs, path, nor))
    ensures WellFormedFactors(GuardedFactors(fs, path, nor))
  {
    if nor {
      TextOfJoined(fs, [IsSet(path)]);
      var g := Group([Conj(fs + [IsSet(path)])]);
      assert TextTerms([Conj(fs + [IsSet(path)])]) == TextFactors(fs) + [AND] + Text(IsSet(path));
      assert Text(g) == [LParen] + (TextFactors(fs) + [AND] + Text(IsSet(path))) + [RParen];
      assert [LParen] + TextFactors(fs) + SetTail(path) == Text(g);
      WellFormedConcat(fs, [IsSet(path)]);
      WellFormedGroup(fs + [IsSet(path)]);
    }
  }

  lemma AppendText(acc: seq<Cond>, c: Cond)
    ensures TextFactors(acc + [c]) == (if acc == [] then [] else TextFactors(acc) + [AND]) + Text(c)
  {
    if acc != [] {
      TextOfJoined(acc, [c]);
    } else {
      assert acc + [c] == [c];
      assert [] + Text(c) == Text(c);
    }
  }

  lemma {:induction false} OpsText(fs: Fields, path: Path, acc: seq<Cond>, nor: bool)
    requires ArePlainOps(fs) && (acc == [] || WellFormedFactors(acc))
    ensures FieldOps(path, fs, acc == [], TextFactors(acc), None, nor)
         == Ok(TextFactors(OpsFactors(fs, path, acc, nor)))
    ensures fs != [] || acc != [] ==> WellFormedFactors(OpsFactors(fs, path, acc, nor))
    decreases |fs|
  {
    if fs != [] {
      var Field(k, v) := fs[0];
      var c := PlainCond(k, v, path);
      var kv := (if acc == [] then TextFactors(acc) else TextFactors(acc) + [AND]) + [Ident(path)];
      PlainOpTurn(k, v, path, kv, nor);
      AppendText(acc, c);
      Assoc(if acc == [] then TextFactors(acc) else TextFactors(acc) + [AND], [Ident(path)], Text(c)[1..]);
      assert kv + Text(c)[1..] == TextFactors(acc + [c]);
      GuardedText(acc + [c], path, nor);
      OpsText(fs[1..], path, GuardedFactors(acc + [c], path, nor), nor);
    }
  }

  lemma OrUnsetText(c: Cond, path: Path)
    ensures Text(OrUnset(c, path)) == [LParen] + Text(c) + UnsetTail(path)
  {
    SingleText(c);
    SingleText(IsUnset(path));
    TextOfAlternatives([Conj([c])], [Conj([IsUnset(path)])]);
    assert [Conj([c])] + [Conj([IsUnset(path)])] == [Conj([c]), Conj([IsUnset(path)])];
  }

  lemma OrUnsetWellFormed(c: Cond, path: Path)
    requires WellFormed(c)
    ensures WellFormed(OrUnset(c, path))
  {
    var terms := [Conj([c]), Conj([IsUnset(path)])];
    assert WellFormedFactors(terms[0].factors) && WellFormedFactors(terms[1].factors);
    assert WellFormedTerms(terms);
  }

  /** The operators behind $not are one factor: there is only one, or they are grouped below $nor. */
  lemma NotText(inner: Fields, path: Path, nor: bool)
    requires inner != [] && (nor || |inner| == 1) && ArePlainOps(inner)
    ensures var f := OpsFactors(inner, path, [], nor)[0];
            && FieldExpression(path, Document(inner), nor) == Ok(Text(f))
            && WellFormed(f)
  {
    OpsText(inner, path, [], nor);
    var fs := OpsFactors(inner, path, [], nor);
    if !nor { assert inner[1..] == []; }
    assert fs == [fs[0]];
    SingleText(fs[0]);
  }

  lemma LoneText(fs: Fields, path: Path, nor: bool)
    requires |fs| == 1 && IsLoneOp(fs[0].name, fs[0].value, nor)
    ensures FieldOps(path, fs, true, [], None, nor) == Ok(Text(LoneCond(fs[0].name, fs[0].value, path, nor)))
    ensures WellFormed(LoneCond(fs[0].name, fs[0].value, path, nor))
  {
    hide OpsFactors, ArePlainOps;
    var Field(k, v) := fs[0];
    assert fs[1..] == [];
    match FieldOpOf(k).value
    case OpNot => LoneNotText(fs, path, nor);
    case OpNe =>
      OrUnsetText(Compare(path, Ne, v), path);
      OrUnsetWellFormed(Compare(path, Ne, v), path);
      NeText(path, v);
    case OpExists =>
      assert [] + [Ident(path)] + [IS] + [UNSET] == [Ident(path), IS, UNSET];
    case _ =>
  }

  lemma LoneNotText(fs: Fields, path: Path, nor: bool)
    requires |fs| == 1 && IsLoneOp(fs[0].name, fs[0].value, nor) && FieldOpOf(fs[0].name) == Some(OpNot)
    ensures FieldOps(path, fs, true, [], None, nor) == Ok(Text(LoneCond(fs[0].name, fs[0].value, path, nor)))
    ensures WellFormed(LoneCond(fs[0].name, fs[0].value, path, nor))
  {
    hide OpsFactors, ArePlainOps, FieldExpression;
    var v := fs[0].value;
    NotText(v.fields, path, nor);
    var f := OpsFactors(v.fields, path, [], nor)[0];
    OrUnsetText(Not(f), path);
    OrUnsetWellFormed(Not(f), path);
    assert [LParen] + ([NOT] + Text(f)) == [LParen, NOT] + Text(f);
  }

  lemma NeText(path: Path, v: Value)
    ensures [LParen] + ([] + [Ident(path)]) + [Cmp(Ne)] + ([Literal(v)] + UnsetTail(path))
         == [LParen] + Text(Compare(path, Ne, v)) + UnsetTail(path)
  {
    assert [LParen] + ([] + [Ident(path)]) + [Cmp(Ne)] + [Literal(v)] == [LParen] + Text(Compare(path, Ne, v));
    Assoc([LParen] + ([] + [Ident(path)]) + [Cmp(Ne)], [Literal(v)], UnsetTail(path));
  }

  lemma ValueText(k: bytes, v: Value, nor: bool)
    requires WhereKey(k).Ok? && (IsLiteral(v) || (v.Regex? && IsFaithfulRegex(v)))
    ensures var path := PathOf(k);
            && WhereValue(v).Ok?
            && Guarded([Ident(path)] + SignTokens(WhereValue(v).value.1) + [WhereValue(v).value.0], path, nor)
               == TextFactors(GuardedFactors([ValueCond(v, path)], path, nor))
            && WellFormedFactors(GuardedFactors([ValueCond(v, path)], path, nor))
  {
    var path := PathOf(k);
    SingleText(ValueCond(v, path));
    GuardedText([ValueCond(v, path)], path, nor);
  }

  /** Precedence safety: the text of a supported pair is a list of factors joined by AND, each of which is a
      predicate, a negation or a group; no OR is left bare. */
  lemma {:induction false} PairText(k: bytes, v: Value, nor: bool)
    requires SupportedPair(k, v, nor)
    ensures Pair(k, v, nor) == Ok(TextFactors(PairFactors(k, v, nor)))
    ensures WellFormedFactors(PairFactors(k, v, nor))
    decreases v, 1
  {
    if IsOperator(k) {
      LogicText(k, v, nor);
    } else if v.Document? && v.fields != [] && IsOperator(v.fields[0].name) {
      var path := PathOf(k);
      if ArePlainOps(v.fields) {
        OpsText(v.fields, path, [], nor);
      } else {
        LoneText(v.fields, path, nor);
        SingleText(LoneCond(v.fields[0].name, v.fields[0].value, path, nor));
      }
    } else {
      ValueText(k, v, nor);
    }
  }

  lemma {:induction false} LogicText(k: bytes, v: Value, nor: bool)
    requires SupportedPair(k, v, nor) && IsOperator(k)
    ensures Logic(k, v, nor) == Ok(TextFactors(PairFactors(k, v, nor)))
    ensures WellFormedFactors(PairFactors(k, v, nor))
    decreases v, 0
  {
    var es := v.elems;
    match LogicOpOf(k).value
    case LogicAnd =>
      AllText(es, nor, true);
      SingleText(Group([Conj(AllFactors(es, nor))]));
      assert Text(Group([Conj(AllFactors(es, nor))])) == [LParen] + TextFactors(AllFactors(es, nor)) + [RParen];
    case LogicOr =>
      SomeText(es, nor, true);
      SingleText(Group(SomeTerms(es, nor)));
    case LogicNor =>
      NoneText(es, true);
      SingleText(Group([Conj(NoneFactors(es))]));
      assert Text(Group([Conj(NoneFactors(es))])) == [LParen] + TextFactors(NoneFactors(es)) + [RParen];
  }

  function Separator(first: bool, t: Token): Tokens { if first then [] else [t] }

  /** A list that is extended on the right: its text with the separator in front, unless it comes first. */
  function Joined(fs: seq<Cond>, first: bool): Tokens {
    if fs == [] then [] else Separator(first, AND) + TextFactors(fs)
  }

  lemma {:induction false} JoinedCons(fs: seq<Cond>, gs: seq<Cond>, first: bool)
    requires fs != []
    ensures Joined(fs + gs, first) == Separator(first, AND) + TextFactors(fs) + Joined(gs, false)
  {
    if gs == [] {
      assert fs + gs == fs;
      assert Separator(first, AND) + TextFactors(fs) + [] == Separator(first, AND) + TextFactors(fs);
    } else {
      TextOfJoined(fs, gs);
      Assoc(Separator(first, AND), TextFactors(fs) + [AND], TextFactors(gs));
      Assoc(Separator(first, AND), TextFactors(fs), [AND]);
      Assoc(Separator(first, AND) + TextFactors(fs), [AND], TextFactors(gs));
    }
  }

  lemma {:induction false} PairsText(fs: Fields, nor: bool, first: bool)
    requires SupportedPairs(fs, nor)
    ensures Pairs(fs, first, nor) == Ok(Joined(PairsFactors(fs, nor), first))
    ensures fs != [] ==> WellFormedFactors(PairsFactors(fs, nor))
    ensures fs == [] ==> PairsFactors(fs, nor) == []
    decreases fs, 0
  {
    if fs != [] {
      var head := PairFactors(fs[0].name, fs[0].value, nor);
      PairText(fs[0].name, fs[0].value, nor);
      PairsText(fs[1..], nor, false);
      JoinedCons(head, PairsFactors(fs[1..], nor), first);
      WellFormedConcat(head, PairsFactors(fs[1..], nor));
    }
  }

  lemma {:induction false} MemberText(e: Value, nor: bool)
    requires e.Document? && e.fields != [] && SupportedPairs(e.fields, nor)
    ensures Pairs(e.fields, true, nor) == Ok(TextFactors(MemberFactors(e, nor)))
    ensures WellFormedFactors(MemberFactors(e, nor))
    decreases e, 0
  {
    PairsText(e.fields, nor, true);
    assert [] + TextFactors(MemberFactors(e, nor)) == TextFactors(MemberFactors(e, nor));
  }

  lemma {:induction false} AllText(es: seq<Value>, nor: bool, first: bool)
    requires SupportedMembers(es, nor)
    ensures Members(es, LogicAnd, first, nor) == Ok(Joined(AllFactors(es, nor), first))
    ensures es != [] ==> WellFormedFactors(AllFactors(es, nor))
    ensures es == [] ==> AllFactors(es, nor) == []
    ensures es != [] && first ==> Joined(AllFactors(es, nor), first) == TextFactors(AllFactors(es, nor))
    decreases es, 0
  {
    if es != [] {
      var head := MemberFactors(es[0], nor);
      MemberText(es[0], nor);
      AllText(es[1..], nor, false);
      JoinedCons(head, AllFactors(es[1..], nor), first);
      WellFormedConcat(head, AllFactors(es[1..], nor));
      assert Opener(LogicAnd, first) + TextFactors(head) + [] == Separator(first, AND) + TextFactors(head);
      assert [] + TextFactors(AllFactors(es, nor)) == TextFactors(AllFactors(es, nor));
    }
  }

  lemma {:induction false} NoneText(es: seq<Value>, first: bool)
    requires SupportedMembers(es, true)
    ensures Members(es, LogicNor, first, true) == Ok(Joined(NoneFactors(es), first))
    ensures es != [] ==> WellFormedFactors(NoneFactors(es))
    ensures es == [] ==> NoneFactors(es) == []
    ensures es != [] && first ==> Joined(NoneFactors(es), first) == TextFactors(NoneFactors(es))
    decreases es, 0
  {
    if es != [] {
      var inner := MemberFactors(es[0], true);
      var head := [Not(Group([Conj(inner)]))];
      MemberText(es[0], true);
      NoneText(es[1..], false);
      JoinedCons(head, NoneFactors(es[1..]), first);
      WellFormedGroup(inner);
      WellFormedConcat(head, NoneFactors(es[1..]));
      NorMemberText(inner, first);
      assert [] + TextFactors(NoneFactors(es)) == TextFactors(NoneFactors(es));
    }
  }

  lemma NorMemberText(inner: seq<Cond>, first: bool)
    ensures Opener(LogicNor, first) + TextFactors(inner) + [RParen]
         == Separator(first, AND) + TextFactors([Not(Group([Conj(inner)]))])
  {
    SingleText(Not(Group([Conj(inner)])));
    assert Text(Group([Conj(inner)])) == [LParen] + TextFactors(inner) + [RParen];
  }

  lemma {:induction false} SomeText(es: seq<Value>, nor: bool, first: bool)
    requires SupportedMembers(es, nor)
    ensures Members(es, LogicOr, first, nor)
         == Ok(if es == [] then [] else Separator(first, OR) + TextTerms(SomeTerms(es, nor)))
    ensures es != [] ==> WellFormedTerms(SomeTerms(es, nor))
    ensures es == [] ==> SomeTerms(es, nor) == []
    ensures es != [] && first ==> Separator(first, OR) + TextTerms(SomeTerms(es, nor)) == TextTerms(SomeTerms(es, nor))
    decreases es, 0
  {
    if es != [] {
      var head := [Conj(MemberFactors(es[0], nor))];
      var tail := SomeTerms(es[1..], nor);
      MemberText(es[0], nor);
      SomeText(es[1..], nor, false);
      assert TextTerms(head) == TextFactors(MemberFactors(es[0], nor));
      var sep := Separator(first, OR);
      assert Opener(LogicOr, first) + TextTerms(head) + [] == sep + TextTerms(head);
      if es[1..] == [] {
        assert head + tail == head;
        assert sep + TextTerms(head) + [] == sep + TextTerms(head);
      } else {
        TextOfAlternatives(head, tail);
        Assoc(sep, TextTerms(head) + [OR], TextTerms(tail));
        Assoc(sep, TextTerms(head), [OR]);
        Assoc(sep + TextTerms(head), [OR], TextTerms(tail));
      }
      assert [] + TextTerms(SomeTerms(es, nor)) == TextTerms(SomeTerms(es, nor));
    }
  }

  /** The WHERE clause of a supported filter parses, and it parses to the intended tree. */
  lemma ClauseParses(filter: Fields)
    requires SupportedPairs(filter, false)
    ensures WhereClause(filter, false).Ok?
    ensures ParseWhere(WhereClause(filter, false).value) == Some([Conj(PairsFactors(filter, false))])
  {
    PairsText(filter, false, true);
    if filter != [] {
      var fs := PairsFactors(filter, false);
      var ts := TextFactors(fs);
      var sql := WhereClause(filter, false).value;
      assert sql[1..] == ts + [] by { assert [] + ts == ts && ts + [] == ts; }
      TermsParse([Conj(fs)], []);
      assert TextTerms([Conj(fs)]) == ts;
    }
  }
}
