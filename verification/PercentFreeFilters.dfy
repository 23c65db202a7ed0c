/** Which filters have a condition without percent signs. */
module PercentFreeFilters {
  import opened Types
  import opened Numerals
  import opened WrittenValues
  import opened Sql
  import opened Where
  import opened Filter
  import opened Statements
  import Like
  import Rendering
  import WrittenText

  // ----- filters without percent signs

  predicate FreePattern(v: Value) { RegexPattern(v).Ok? ==> '%' !in RegexPattern(v).value.text }

  predicate FreeValue(v: Value) { if v.Regex? then FreePattern(v) else WrittenText.Percentless(v) }

  predicate FreeOps(fs: Fields)
    decreases fs
  {
    fs == []
    || (&& (match FieldOpOf(fs[0].name)
            case Some(OpNot) => fs[0].value.Document? ==> FreeOps(fs[0].value.fields)
            case Some(OpRegex) => FreePattern(fs[0].value)
            case _ => WrittenText.Percentless(fs[0].value))
        && FreeOps(fs[1..]))
  }

  predicate FreePair(k: bytes, v: Value)
    decreases v, 1
  {
    if IsOperator(k) then v.Array? ==> FreeMembers(v.elems)
    else
      && '%' !in k
      && if v.Document? && v.fields != [] && IsOperator(v.fields[0].name) then FreeOps(v.fields) else FreeValue(v)
  }

  /** No percent sign in a key or a string, and no regular expression whose LIKE pattern has one. */
  predicate FreeFilter(fs: Fields)
    decreases fs, 0
  {
    fs == [] || (FreePair(fs[0].name, fs[0].value) && FreeFilter(fs[1..]))
  }

  predicate FreeMembers(es: seq<Value>)
    decreases es, 0
  {
    es == [] || ((es[0].Document? ==> FreeFilter(es[0].fields)) && FreeMembers(es[1..]))
  }

  // ----- the same of conditions

  predicate FreeCond(c: Cond)
    decreases c, 0
  {
    match c
    case Compare(p, _, v) => PercentFreePath(p) && WrittenText.Percentless(v)
    case IsLike(p, pattern) => PercentFreePath(p) && '%' !in pattern.text
    case Not(d) => FreeCond(d)
    case Group(terms) => FreeTerms(terms)
    case _ => PercentFreePath(c.path)
  }

  predicate FreeFactors(fs: seq<Cond>)
    decreases fs, 1
  {
    fs == [] || (FreeCond(fs[0]) && FreeFactors(fs[1..]))
  }

  predicate FreeTerms(terms: seq<Conj>)
    decreases terms, 1
  {
    terms == [] || (FreeFactors(terms[0].factors) && FreeTerms(terms[1..]))
  }

  lemma FreeJoined(a: Tokens, b: Tokens)
    ensures PercentFree(a + b) <==> PercentFree(a) && PercentFree(b)
  {
    assert forall i :: 0 <= i < |a| ==> (a + b)[i] == a[i];
    assert forall i :: 0 <= i < |b| ==> (a + b)[|a| + i] == b[i];
  }

  lemma {:induction false} FreeText(c: Cond)
    ensures PercentFree(Text(c)) <==> FreeCond(c)
    decreases c, 0
  {
    match c
    case Not(d) =>
      FreeText(d);
      FreeJoined([NOT], Text(d));
    case Group(terms) =>
      FreeTermsText(terms);
      FreeJoined([LParen], TextTerms(terms));
      FreeJoined([LParen] + TextTerms(terms), [RParen]);
    case Compare(p, op, v) => assert Text(c)[0] == Ident(p) && Text(c)[2] == Literal(v);
    case IsLike(p, pattern) => assert Text(c)[0] == Ident(p) && Text(c)[2] == PatternText(pattern);
    case _ => assert Text(c)[0] == Ident(c.path);
  }

  lemma {:induction false} FreeFactorsText(fs: seq<Cond>)
    ensures PercentFree(TextFactors(fs)) <==> FreeFactors(fs)
    decreases fs, 1
  {
    if fs != [] {
      FreeText(fs[0]);
      FreeFactorsText(fs[1..]);
      FreeJoined(Text(fs[0]), [AND]);
      FreeJoined(Text(fs[0]) + [AND], TextFactors(fs[1..]));
      if |fs| == 1 { assert fs[1..] == []; }
    }
  }

  lemma {:induction false} FreeTermsText(terms: seq<Conj>)
    ensures PercentFree(TextTerms(terms)) <==> FreeTerms(terms)
    decreases terms, 1
  {
    if terms != [] {
      FreeFactorsText(terms[0].factors);
      FreeTermsText(terms[1..]);
      FreeJoined(TextFactors(terms[0].factors), [OR]);
      FreeJoined(TextFactors(terms[0].factors) + [OR], TextTerms(terms[1..]));
      if |terms| == 1 { assert terms[1..] == []; }
    }
  }

  lemma {:induction false} FreeAppended(fs: seq<Cond>, gs: seq<Cond>)
    ensures FreeFactors(fs + gs) <==> FreeFactors(fs) && FreeFactors(gs)
  {
    if fs == [] {
      assert fs + gs == gs;
    } else {
      FreeAppended(fs[1..], gs);
      assert (fs + gs)[1..] == fs[1..] + gs;
    }
  }

  lemma FreeSingle(c: Cond)
    ensures FreeFactors([c]) <==> FreeCond(c)
    ensures FreeTerms([Conj([c])]) <==> FreeCond(c)
  {
    assert [c][1..] == [] && [Conj([c])][1..] == [];
  }

  lemma FreeGroup(fs: seq<Cond>)
    ensures FreeCond(Group([Conj(fs)])) <==> FreeFactors(fs)
  {
    var terms := [Conj(fs)];
    assert terms[1..] == [];
    assert FreeTerms(terms) <==> FreeFactors(terms[0].factors) && FreeTerms([]);
  }

  lemma FreeGuarded(fs: seq<Cond>, path: Path, nor: bool)
    ensures FreeFactors(GuardedFactors(fs, path, nor)) <==> FreeFactors(fs) && (nor ==> PercentFreePath(path))
  {
    FreeAppended(fs, [IsSet(path)]);
    FreeSingle(IsSet(path));
    FreeGroup(fs + [IsSet(path)]);
    FreeSingle(Group([Conj(fs + [IsSet(path)])]));
  }

  // ----- keys

  lemma {:induction false} DigitsAreFree(s: bytes)
    requires Atoi(s).Some?
    ensures '%' !in s
  {
    var d := WithoutSign(s);
    assert forall i :: 0 <= i < |d| ==> IsDigit(d[i]);
    forall i | 0 <= i < |s| ensures s[i] != '%' {
      if d == s { assert IsDigit(d[i]); } else if i > 0 { assert IsDigit(d[i - 1]); }
    }
  }

  predicate FreeParts(parts: seq<bytes>) { forall i :: 0 <= i < |parts| ==> '%' !in parts[i] }

  lemma {:induction false} SplitKeepsPercent(s: bytes)
    ensures FreeParts(SplitDots(s)) <==> '%' !in s
  {
    if s != [] {
      SplitKeepsPercent(s[1..]);
      HeadTail(s);
      var rest := SplitDots(s[1..]);
      if s[0] == '.' {
        assert forall i :: 0 <= i < |rest| ==> ([[]] + rest)[i + 1] == rest[i];
      } else {
        var parts := [[s[0]] + rest[0]] + rest[1..];
        assert forall i :: 0 < i < |parts| ==> parts[i] == rest[i];
        assert parts[0] == [s[0]] + rest[0];
      }
    }
  }

  lemma {:induction false} StepsAreFree(parts: seq<bytes>, afterIndex: bool)
    requires PathSteps(parts, afterIndex).Ok?
    ensures PercentFreePath(PathSteps(parts, afterIndex).value) <==> FreeParts(parts)
    decreases |parts|
  {
    if parts != [] {
      var path := PathSteps(parts, afterIndex).value;
      var number := Atoi(parts[0]).Some?;
      StepsAreFree(parts[1..], number);
      assert path[1..] == PathSteps(parts[1..], number).value;
      if number { DigitsAreFree(parts[0]); }
      FreePartsCons(parts);
      FreePathCons(path);
    }
  }

  lemma FreePartsCons(parts: seq<bytes>)
    requires parts != []
    ensures FreeParts(parts) <==> '%' !in parts[0] && FreeParts(parts[1..])
  {
    assert forall i :: 0 <= i < |parts[1..]| ==> parts[1..][i] == parts[i + 1];
    assert forall i :: 0 < i < |parts| ==> parts[i] == parts[1..][i - 1];
  }

  lemma FreePathCons(path: Path)
    requires path != []
    ensures PercentFreePath(path) <==> (path[0].Name? ==> '%' !in path[0].name) && PercentFreePath(path[1..])
  {
    assert forall i :: 0 <= i < |path[1..]| ==> path[1..][i] == path[i + 1];
    assert forall i :: 0 < i < |path| ==> path[i] == path[1..][i - 1];
  }

  lemma KeyIsFree(k: bytes)
    requires WhereKey(k).Ok?
    ensures PercentFreePath(PathOf(k)) <==> '%' !in k
  {
    if '.' in k {
      StepsAreFree(SplitDots(k), false);
      SplitKeepsPercent(k);
    } else {
      assert PathOf(k)[0] == Name(k);
    }
  }

  // ----- the filter's factors

  lemma FreePlain(k: bytes, v: Value, path: Path)
    requires IsPlainOp(k, v)
    ensures FreeCond(PlainCond(k, v, path)) <==> PercentFreePath(path) && FreeOps([Field(k, v)])
  {
    assert [Field(k, v)][1..] == [];
  }

  lemma FreeOpsCons(fs: Fields)
    requires fs != []
    ensures FreeOps(fs) <==> FreeOps([fs[0]]) && FreeOps(fs[1..])
  {
    assert [fs[0]][1..] == [];
  }

  lemma {:induction false} FreeOpsFactors(fs: Fields, path: Path, acc: seq<Cond>, nor: bool)
    requires ArePlainOps(fs)
    ensures FreeFactors(OpsFactors(fs, path, acc, nor))
            <==> FreeFactors(acc) && (fs != [] ==> PercentFreePath(path)) && FreeOps(fs)
    decreases |fs|
  {
    hide FreeOps, FreeCond;
    if fs == [] {
      FreeNothing();
    } else {
      var c := PlainCond(fs[0].name, fs[0].value, path);
      FreePlain(fs[0].name, fs[0].value, path);
      FreeOpsCons(fs);
      FreeAppended(acc, [c]);
      FreeSingle(c);
      FreeGuarded(acc + [c], path, nor);
      FreeOpsFactors(fs[1..], path, GuardedFactors(acc + [c], path, nor), nor);
      assert fs[0] == Field(fs[0].name, fs[0].value);
    }
  }

  lemma FreeNothing()
    ensures FreeOps([]) && FreeFactors([])
  {
  }

  lemma FreeOrUnset(c: Cond, path: Path)
    ensures FreeCond(OrUnset(c, path)) <==> FreeCond(c) && PercentFreePath(path)
  {
    var terms := [Conj([c]), Conj([IsUnset(path)])];
    FreeSingle(c);
    FreeSingle(IsUnset(path));
    assert terms[1..] == [Conj([IsUnset(path)])];
  }

  lemma FreeLone(k: bytes, v: Value, path: Path, nor: bool)
    requires IsLoneOp(k, v, nor)
    ensures FreeCond(LoneCond(k, v, path, nor)) <==> PercentFreePath(path) && FreeOps([Field(k, v)])
  {
    assert [Field(k, v)][1..] == [];
    match FieldOpOf(k).value
    case OpNot =>
      var fs := OpsFactors(v.fields, path, [], nor);
      FreeOpsFactors(v.fields, path, [], nor);
      FreeNothing();
      if !nor { assert v.fields[1..] == []; }
      assert fs == [fs[0]];
      FreeSingle(fs[0]);
      FreeOrUnset(Not(fs[0]), path);
    case OpNe => FreeOrUnset(Compare(path, Ne, v), path);
    case _ =>
  }

  lemma FreeOperand(v: Value, path: Path, nor: bool)
    requires IsLiteral(v) || (v.Regex? && IsFaithfulRegex(v))
    ensures FreeFactors(GuardedFactors([ValueCond(v, path)], path, nor)) <==> PercentFreePath(path) && FreeValue(v)
  {
    FreeSingle(ValueCond(v, path));
    FreeGuarded([ValueCond(v, path)], path, nor);
  }

  lemma {:induction false} FreePairFactors(k: bytes, v: Value, nor: bool)
    requires SupportedPair(k, v, nor)
    ensures FreeFactors(PairFactors(k, v, nor)) <==> FreePair(k, v)
    decreases v, 1
  {
    hide FreeOps, FreeCond, FreeValue, PercentFreePath, OpsFactors, GuardedFactors;
    if IsOperator(k) {
      FreeLogic(k, v, nor);
    } else {
      var path := PathOf(k);
      KeyIsFree(k);
      if v.Document? && v.fields != [] && IsOperator(v.fields[0].name) {
        if ArePlainOps(v.fields) {
          FreeOpsFactors(v.fields, path, [], nor);
          FreeNothing();
        } else {
          assert v.fields == [Field(v.fields[0].name, v.fields[0].value)];
          FreeLone(v.fields[0].name, v.fields[0].value, path, nor);
          FreeSingle(LoneCond(v.fields[0].name, v.fields[0].value, path, nor));
        }
      } else {
        FreeOperand(v, path, nor);
      }
    }
  }

  lemma {:induction false} FreeLogic(k: bytes, v: Value, nor: bool)
    requires SupportedPair(k, v, nor) && IsOperator(k)
    ensures FreeFactors(PairFactors(k, v, nor)) <==> FreeMembers(v.elems)
    decreases v, 0
  {
    var es := v.elems;
    match LogicOpOf(k).value
    case LogicAnd =>
      FreeAll(es, nor);
      FreeGroup(AllFactors(es, nor));
      FreeSingle(Group([Conj(AllFactors(es, nor))]));
    case LogicOr =>
      FreeSome(es, nor);
      FreeSingle(Group(SomeTerms(es, nor)));
    case LogicNor =>
      FreeNone(es);
      FreeGroup(NoneFactors(es));
      FreeSingle(Group([Conj(NoneFactors(es))]));
  }

  lemma {:induction false} FreePairs(fs: Fields, nor: bool)
    requires SupportedPairs(fs, nor)
    ensures FreeFactors(PairsFactors(fs, nor)) <==> FreeFilter(fs)
    decreases fs, 0
  {
    if fs != [] {
      FreePairFactors(fs[0].name, fs[0].value, nor);
      FreePairs(fs[1..], nor);
      FreeAppended(PairFactors(fs[0].name, fs[0].value, nor), PairsFactors(fs[1..], nor));
    }
  }

  lemma {:induction false} FreeAll(es: seq<Value>, nor: bool)
    requires SupportedMembers(es, nor)
    ensures FreeFactors(AllFactors(es, nor)) <==> FreeMembers(es)
    decreases es, 0
  {
    if es != [] {
      FreePairs(es[0].fields, nor);
      FreeAll(es[1..], nor);
      FreeAppended(MemberFactors(es[0], nor), AllFactors(es[1..], nor));
    }
  }

  lemma {:induction false} FreeSome(es: seq<Value>, nor: bool)
    requires SupportedMembers(es, nor)
    ensures FreeTerms(SomeTerms(es, nor)) <==> FreeMembers(es)
    decreases es, 0
  {
    if es != [] {
      FreePairs(es[0].fields, nor);
      FreeSome(es[1..], nor);
      assert SomeTerms(es, nor)[1..] == SomeTerms(es[1..], nor);
    }
  }

  lemma {:induction false} FreeNone(es: seq<Value>)
    requires SupportedMembers(es, true)
    ensures FreeFactors(NoneFactors(es)) <==> FreeMembers(es)
    decreases es, 0
  {
    if es != [] {
      var fs := MemberFactors(es[0], true);
      FreePairs(es[0].fields, true);
      FreeNone(es[1..]);
      FreeGroup(fs);
      FreeSingle(Not(Group([Conj(fs)])));
      FreeAppended([Not(Group([Conj(fs)]))], NoneFactors(es[1..]));
    }
  }

  /** The condition of a supported filter has no percent sign exactly when the filter has none. */
  lemma PercentFreeExactly(filter: Fields, nor: bool)
    requires SupportedPairs(filter, nor)
    ensures WhereClause(filter, nor).Ok?
    ensures PercentFree(WhereClause(filter, nor).value) <==> FreeFilter(filter)
  {
    var ts := TextFactors(PairsFactors(filter, nor));
    PairsText(filter, nor, true);
    FreePairs(filter, nor);
    FreeFactorsText(PairsFactors(filter, nor));
    if filter != [] {
      assert [] + ts == ts;
      FreeJoined([WHERE], ts);
    }
  }
}
