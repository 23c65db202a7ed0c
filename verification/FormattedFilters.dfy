/** The filter that a formatted condition stands for: its keys and strings are formatted once more. */
module FormattedFilters {
  import opened Types
  import opened Numerals
  import opened Rendering
  import opened WrittenValues
  import opened Sql
  import opened Where
  import opened Filter
  import opened Statements
  import opened PercentFreeFilters

  // ----- the formatted filter

  /** The value of one operator. A regular expression stays as it is, if its LIKE pattern does. */
  function FormatOpValue(k: bytes, v: Value): Option<Value>
    decreases v, 1
  {
    match FieldOpOf(k)
    case Some(OpNot) =>
      (match v
       case Document(fs) => (match FormatOps(fs) case Some(gs) => Some(Document(gs)) case None => None)
       case _ => None)
    case Some(OpRegex) => if FreePattern(v) then Some(v) else None
    case _ => FormatValue(v)
  }

  function FormatOps(fs: Fields): (r: Option<Fields>)
    ensures r.Some? ==> |r.value| == |fs|
    decreases fs, 0
  {
    if fs == [] then Some([])
    else
      match (FormatOpValue(fs[0].name, fs[0].value), FormatOps(fs[1..]))
      case (Some(v), Some(rest)) => Some([Field(fs[0].name, v)] + rest)
      case _ => None
  }

  function FormatOperand(v: Value): Option<Value> {
    if v.Document? && v.fields != [] && IsOperator(v.fields[0].name) then
      match FormatOps(v.fields) case Some(gs) => Some(Document(gs)) case None => None
    else if v.Regex? then (if FreePattern(v) then Some(v) else None)
    else FormatValue(v)
  }

  function FormatPair(f: Field): Option<Field>
    decreases f, 1
  {
    if IsOperator(f.name) then
      match f.value
      case Array(es) => (match FormatMembers(es) case Some(r) => Some(Field(f.name, Array(r))) case None => None)
      case _ => None
    else
      match (Again(f.name), FormatOperand(f.value))
      case (Some(k), Some(v)) => Some(Field(k, v))
      case _ => None
  }

  function FormatFilter(fs: Fields): Option<Fields>
    decreases fs, 2
  {
    if fs == [] then Some([])
    else
      match (FormatPair(fs[0]), FormatFilter(fs[1..]))
      case (Some(f), Some(rest)) => Some([f] + rest)
      case _ => None
  }

  function FormatMembers(es: seq<Value>): Option<seq<Value>>
    decreases es, 0
  {
    if es == [] then Some([])
    else if !es[0].Document? then None
    else
      match (FormatFilter(es[0].fields), FormatMembers(es[1..]))
      case (Some(fs), Some(rest)) => Some([Document(fs)] + rest)
      case _ => None
  }

  // ----- formatted conditions

  function FormatCond(c: Cond): Option<Cond>
    decreases c, 0
  {
    match c
    case Compare(p, op, v) =>
      (match (FormatPath(p), FormatValue(v)) case (Some(q), Some(w)) => Some(Compare(q, op, w)) case _ => None)
    case IsLike(p, pattern) =>
      (match (FormatPath(p), Again(pattern.text))
       case (Some(q), Some(t)) => Some(IsLike(q, pattern.(text := t)))
       case _ => None)
    case IsNull(p, negated) => (match FormatPath(p) case Some(q) => Some(IsNull(q, negated)) case None => None)
    case IsSet(p) => (match FormatPath(p) case Some(q) => Some(IsSet(q)) case None => None)
    case IsUnset(p) => (match FormatPath(p) case Some(q) => Some(IsUnset(q)) case None => None)
    case Not(d) => (match FormatCond(d) case Some(e) => Some(Not(e)) case None => None)
    case Group(terms) => (match FormatTerms(terms) case Some(ts) => Some(Group(ts)) case None => None)
  }

  function FormatFactors(fs: seq<Cond>): (r: Option<seq<Cond>>)
    ensures r.Some? ==> |r.value| == |fs|
    decreases fs, 1
  {
    if fs == [] then Some([])
    else
      match (FormatCond(fs[0]), FormatFactors(fs[1..]))
      case (Some(c), Some(rest)) => Some([c] + rest)
      case _ => None
  }

  function FormatTerms(terms: seq<Conj>): (r: Option<seq<Conj>>)
    ensures r.Some? ==> |r.value| == |terms|
    decreases terms, 1
  {
    if terms == [] then Some([])
    else
      match (FormatFactors(terms[0].factors), FormatTerms(terms[1..]))
      case (Some(fs), Some(rest)) => Some([Conj(fs)] + rest)
      case _ => None
  }

  lemma FormatOne(t: Token)
    ensures FormatTokens([t]) == match FormatToken(t) case Some(u) => Some([u]) case None => None
  {
    assert [t][1..] == [];
    if FormatToken(t).Some? { assert [FormatToken(t).value] + [] == [FormatToken(t).value]; }
  }

  /** Two texts side by side. */
  lemma FormatBoth(a: Tokens, x: Tokens, b: Tokens, y: Tokens)
    requires FormatTokens(a) == Some(x) && FormatTokens(b) == Some(y)
    ensures FormatTokens(a + b) == Some(x + y)
  {
    FormatJoined(a, b);
  }

  lemma FormatPlain(ts: Tokens)
    requires PercentFree(ts)
    ensures FormatTokens(ts) == Some(ts)
  {
    FormatKeepsPercentFree(ts);
  }

  lemma FormatPredicate(path: Path, middle: Tokens, last: Token, text: Tokens, out: Tokens)
    requires PercentFree(middle) && FormatPath(path).Some? && FormatToken(last).Some?
    requires text == [Ident(path)] + middle + [last]
    requires out == [Ident(FormatPath(path).value)] + middle + [FormatToken(last).value]
    ensures FormatTokens(text) == Some(out)
  {
    var p := FormatPath(path).value;
    FormatOne(Ident(path));
    FormatPlain(middle);
    FormatOne(last);
    FormatBoth([Ident(path)], [Ident(p)], middle, middle);
    FormatBoth([Ident(path)] + middle, [Ident(p)] + middle, [last], [FormatToken(last).value]);
  }

  lemma FormatPredicateText(c: Cond)
    requires !c.Not? && !c.Group? && FormatCond(c).Some?
    ensures FormatTokens(Text(c)) == Some(Text(FormatCond(c).value))
  {
    hide FormatTokens, FormatPath, FormatValue, Again, FormatFactors, FormatTerms, TextTerms;
    var d := FormatCond(c).value;
    match c
    case Compare(p, op, v) => FormatPredicate(p, [Cmp(op)], Literal(v), Text(c), Text(d));
    case IsLike(p, pattern) => FormatPredicate(p, [LIKE], PatternText(pattern), Text(c), Text(d));
    case IsNull(p, negated) => FormatPredicate(p, if negated then [IS, NOT] else [IS], NULL, Text(c), Text(d));
    case IsSet(p) => FormatPredicate(p, [IS], SET, Text(c), Text(d));
    case IsUnset(p) => FormatPredicate(p, [IS], UNSET, Text(c), Text(d));
  }

  /** The formatted text of a condition is the text of the formatted condition. */
  lemma {:induction false} FormatText(c: Cond)
    ensures FormatCond(c).Some? ==> FormatTokens(Text(c)) == Some(Text(FormatCond(c).value))
    decreases c, 0
  {
    hide FormatTokens;
    if FormatCond(c).Some? {
      match c
      case Not(d) =>
        FormatText(d);
        FormatPlain([NOT]);
        FormatBoth([NOT], [NOT], Text(d), Text(FormatCond(d).value));
      case Group(terms) =>
        var r := FormatTerms(terms).value;
        FormatTermsText(terms);
        FormatPlain([LParen]);
        FormatPlain([RParen]);
        FormatBoth([LParen], [LParen], TextTerms(terms), TextTerms(r));
        FormatBoth([LParen] + TextTerms(terms), [LParen] + TextTerms(r), [RParen], [RParen]);
      case _ => FormatPredicateText(c);
    }
  }

  lemma {:induction false} FormatFactorsText(fs: seq<Cond>)
    ensures FormatFactors(fs).Some? ==> FormatTokens(TextFactors(fs)) == Some(TextFactors(FormatFactors(fs).value))
    decreases fs, 1
  {
    if fs != [] && FormatFactors(fs).Some? {
      var r := FormatFactors(fs).value;
      assert r[1..] == FormatFactors(fs[1..]).value;
      FormatText(fs[0]);
      if |fs| > 1 {
        FormatFactorsText(fs[1..]);
        FormatPlain([AND]);
        FormatBoth(Text(fs[0]), Text(r[0]), [AND], [AND]);
        FormatBoth(Text(fs[0]) + [AND], Text(r[0]) + [AND], TextFactors(fs[1..]), TextFactors(r[1..]));
      }
    }
  }

  lemma {:induction false} FormatTermsText(terms: seq<Conj>)
    ensures FormatTerms(terms).Some? ==> FormatTokens(TextTerms(terms)) == Some(TextTerms(FormatTerms(terms).value))
    decreases terms, 1
  {
    if terms != [] && FormatTerms(terms).Some? {
      var r := FormatTerms(terms).value;
      assert r[1..] == FormatTerms(terms[1..]).value;
      FormatFactorsText(terms[0].factors);
      if |terms| > 1 {
        var a, b := TextFactors(terms[0].factors), TextFactors(r[0].factors);
        FormatTermsText(terms[1..]);
        FormatPlain([OR]);
        FormatBoth(a, b, [OR], [OR]);
        FormatBoth(a + [OR], b + [OR], TextTerms(terms[1..]), TextTerms(r[1..]));
      }
    }
  }

  lemma {:induction false} FormatAppended(fs: seq<Cond>, gs: seq<Cond>)
    ensures FormatFactors(fs).Some? && FormatFactors(gs).Some? ==>
              FormatFactors(fs + gs) == Some(FormatFactors(fs).value + FormatFactors(gs).value)
  {
    if fs == [] {
      assert fs + gs == gs;
      if FormatFactors(gs).Some? { assert [] + FormatFactors(gs).value == FormatFactors(gs).value; }
    } else {
      FormatAppended(fs[1..], gs);
      assert (fs + gs)[1..] == fs[1..] + gs;
      if FormatFactors(fs).Some? && FormatFactors(gs).Some? {
        Assoc([FormatCond(fs[0]).value], FormatFactors(fs[1..]).value, FormatFactors(gs).value);
      }
    }
  }

  lemma FormatSingle(c: Cond)
    ensures FormatCond(c).Some? ==>
              && FormatFactors([c]) == Some([FormatCond(c).value])
              && FormatTerms([Conj([c])]) == Some([Conj([FormatCond(c).value])])
  {
    assert [c][1..] == [] && [Conj([c])][1..] == [];
    if FormatCond(c).Some? {
      assert [FormatCond(c).value] + [] == [FormatCond(c).value];
      assert [Conj([FormatCond(c).value])] + [] == [Conj([FormatCond(c).value])];
    }
  }

  lemma FormatGroup(fs: seq<Cond>)
    ensures FormatFactors(fs).Some? ==> FormatCond(Group([Conj(fs)])) == Some(Group([Conj(FormatFactors(fs).value)]))
  {
    var terms := [Conj(fs)];
    assert terms[1..] == [];
    if FormatFactors(fs).Some? {
      var out := [Conj(FormatFactors(fs).value)];
      assert FormatTerms(terms) == Some(out + []);
      assert out + [] == out;
    }
  }

  lemma FormatGuarded(fs: seq<Cond>, gs: seq<Cond>, path: Path, q: Path, nor: bool)
    requires FormatFactors(fs) == Some(gs) && FormatPath(path) == Some(q)
    ensures FormatFactors(GuardedFactors(fs, path, nor)) == Some(GuardedFactors(gs, q, nor))
  {
    FormatSingle(IsSet(path));
    FormatAppended(fs, [IsSet(path)]);
    FormatGroup(fs + [IsSet(path)]);
    FormatSingle(Group([Conj(fs + [IsSet(path)])]));
  }

  // ----- keys

  /** Formatting keeps every byte but halves the percent signs, and keeps the first byte. */
  lemma {:induction false} AgainKeeps(s: bytes)
    requires Again(s).Some?
    ensures var t := Again(s).value;
            && (forall c: byte :: c in s <==> c in t)
            && (t == [] <==> s == []) && (s != [] ==> t[0] == s[0])
    decreases |s|
  {
    if s != [] {
      HeadTail(s);
      if s[0] != '%' {
        AgainKeeps(s[1..]);
      } else {
        AgainKeeps(s[2..]);
        assert s == ['%', '%'] + s[2..];
      }
    }
  }

  function FormatParts(parts: seq<bytes>): Option<seq<bytes>> {
    if parts == [] then Some([])
    else
      match (Again(parts[0]), FormatParts(parts[1..]))
      case (Some(p), Some(rest)) => Some([p] + rest)
      case _ => None
  }

  lemma {:induction false} SplitFormats(s: bytes)
    requires Again(s).Some?
    ensures FormatParts(SplitDots(s)) == Some(SplitDots(Again(s).value))
    decreases |s|
  {
    if s == [] {
      assert SplitDots([])[1..] == [];
      assert [[]] + [] == SplitDots([]);
    } else if s[0] != '%' {
      SplitFormats(s[1..]);
      var t := Again(s[1..]).value;
      assert ([s[0]] + t)[1..] == t;
      var parts := SplitDots(s[1..]);
      if s[0] == '.' {
        assert ([[]] + parts)[1..] == parts;
        assert Again([]) == Some([]);
      } else {
        PartFormats([s[0]], [s[0]], parts, SplitDots(t));
        assert Again([s[0]] + parts[0]) == Prepend([s[0]], Again(parts[0])) by {
          assert ([s[0]] + parts[0])[1..] == parts[0];
        }
      }
    } else {
      SplitFormats(s[2..]);
      var t := Again(s[2..]).value;
      var parts := SplitDots(s[2..]);
      assert (['%'] + t)[1..] == t;
      SplitTwo(s, parts);
      PartFormats(['%', '%'], ['%'], parts, SplitDots(t));
      assert Again(['%', '%'] + parts[0]) == Prepend(['%'], Again(parts[0])) by {
        assert (['%', '%'] + parts[0])[2..] == parts[0];
      }
    }
  }

  lemma SplitTwo(s: bytes, parts: seq<bytes>)
    requires |s| >= 2 && s[0] == '%' && s[1] == '%' && parts == SplitDots(s[2..])
    ensures SplitDots(s) == [['%', '%'] + parts[0]] + parts[1..]
  {
    assert s[1..][1..] == s[2..] && s[1..][0] == '%';
    assert SplitDots(s[1..]) == [['%'] + parts[0]] + parts[1..];
    assert ([['%'] + parts[0]] + parts[1..])[1..] == parts[1..];
    assert ['%'] + (['%'] + parts[0]) == ['%', '%'] + parts[0];
  }

  lemma PartFormats(a: bytes, b: bytes, parts: seq<bytes>, out: seq<bytes>)
    requires parts != [] && FormatParts(parts) == Some(out)
    requires Again(a + parts[0]) == Prepend(b, Again(parts[0]))
    ensures FormatParts([a + parts[0]] + parts[1..]) == Some([b + out[0]] + out[1..])
  {
    var whole := [a + parts[0]] + parts[1..];
    assert whole[1..] == parts[1..];
    assert out[1..] == FormatParts(parts[1..]).value;
  }

  lemma NumberFormats(s: bytes)
    requires Again(s).Some?
    ensures Atoi(Again(s).value) == Atoi(s)
  {
    if '%' in s {
      AgainKeeps(s);
      if Atoi(s).Some? { DigitsAreFree(s); }
      if Atoi(Again(s).value).Some? { DigitsAreFree(Again(s).value); }
    } else {
      SurvivesFormatting(s);
    }
  }

  lemma {:induction false} StepsFormat(parts: seq<bytes>, out: seq<bytes>, afterIndex: bool)
    requires PathSteps(parts, afterIndex).Ok? && FormatParts(parts) == Some(out)
    ensures PathSteps(out, afterIndex).Ok?
    ensures FormatPath(PathSteps(parts, afterIndex).value) == Some(PathSteps(out, afterIndex).value)
    decreases |parts|
  {
    if parts != [] {
      NumberFormats(parts[0]);
      assert out[1..] == FormatParts(parts[1..]).value;
      StepsFormat(parts[1..], out[1..], Atoi(parts[0]).Some?);
      var path := PathSteps(parts, afterIndex).value;
      assert path[1..] == PathSteps(parts[1..], Atoi(parts[0]).Some?).value;
    }
  }

  lemma KeyFormats(k: bytes)
    requires WhereKey(k).Ok? && Again(k).Some?
    ensures WhereKey(Again(k).value).Ok? && FormatPath(PathOf(k)) == Some(PathOf(Again(k).value))
    ensures IsOperator(Again(k).value) == IsOperator(k)
  {
    AgainKeeps(k);
    if '.' in k {
      SplitFormats(k);
      StepsFormat(SplitDots(k), SplitDots(Again(k).value), false);
    } else {
      var path := PathOf(k);
      assert path[1..] == [];
      assert [Name(Again(k).value)] + [] == [Name(Again(k).value)];
    }
  }

  // ----- the factors of the formatted filter

  lemma PlainFormats(k: bytes, v: Value, path: Path)
    requires IsPlainOp(k, v) && FormatOpValue(k, v).Some? && FormatPath(path).Some?
    ensures FormatCond(PlainCond(k, v, path)) == Some(PlainCond(k, FormatOpValue(k, v).value, FormatPath(path).value))
  {
    if FieldOpOf(k) == Some(OpRegex) { SurvivesFormatting(RegexPattern(v).value.text); }
  }

  lemma FormatOpsCons(fs: Fields)
    requires fs != [] && FormatOps(fs).Some?
    ensures FormatOpValue(fs[0].name, fs[0].value).Some? && FormatOps(fs[1..]).Some?
    ensures FormatOps(fs).value[0] == Field(fs[0].name, FormatOpValue(fs[0].name, fs[0].value).value)
    ensures FormatOps(fs).value[1..] == FormatOps(fs[1..]).value
  {
  }

  lemma {:induction false} OpsFormat(fs: Fields, path: Path, acc: seq<Cond>, out: seq<Cond>, nor: bool)
    requires ArePlainOps(fs) && FormatOps(fs).Some? && FormatPath(path).Some? && FormatFactors(acc) == Some(out)
    ensures FormatFactors(OpsFactors(fs, path, acc, nor))
         == Some(OpsFactors(FormatOps(fs).value, FormatPath(path).value, out, nor))
    decreases |fs|
  {
    hide FormatCond, PlainCond, FormatOpValue, FormatFactors, FormatPath;
    if fs != [] {
      var Field(k, v) := fs[0];
      var q := FormatPath(path).value;
      var c, d := PlainCond(k, v, path), PlainCond(k, FormatOpValue(k, v).value, q);
      FormatOpsCons(fs);
      PlainFormats(k, v, path);
      FormatSingle(c);
      FormatAppended(acc, [c]);
      FormatGuarded(acc + [c], out + [d], path, q, nor);
      OpsFormat(fs[1..], path, GuardedFactors(acc + [c], path, nor), GuardedFactors(out + [d], q, nor), nor);
    }
  }

  lemma FormatOrUnset(c: Cond, path: Path)
    requires FormatCond(c).Some? && FormatPath(path).Some?
    ensures FormatCond(OrUnset(c, path)) == Some(OrUnset(FormatCond(c).value, FormatPath(path).value))
  {
    var terms := [Conj([c]), Conj([IsUnset(path)])];
    FormatSingle(c);
    FormatSingle(IsUnset(path));
    assert terms[1..] == [Conj([IsUnset(path)])];
    var a, b := FormatCond(c).value, IsUnset(FormatPath(path).value);
    assert FormatTerms(terms) == Some([Conj([a])] + [Conj([b])]);
    assert [Conj([a])] + [Conj([b])] == [Conj([a]), Conj([b])];
  }

  lemma LoneFormats(k: bytes, v: Value, path: Path, nor: bool)
    requires IsLoneOp(k, v, nor) && FormatOpValue(k, v).Some? && FormatPath(path).Some?
    ensures FormatCond(LoneCond(k, v, path, nor))
         == Some(LoneCond(k, FormatOpValue(k, v).value, FormatPath(path).value, nor))
  {
    match FieldOpOf(k).value
    case OpNot => NotFormats(v.fields, path, nor);
    case OpNe => FormatOrUnset(Compare(path, Ne, v), path);
    case _ =>
  }

  lemma NotFormats(fs: Fields, path: Path, nor: bool)
    requires fs != [] && ArePlainOps(fs) && FormatOps(fs).Some? && FormatPath(path).Some?
    ensures var c := OpsFactors(fs, path, [], nor)[0];
            var d := OpsFactors(FormatOps(fs).value, FormatPath(path).value, [], nor)[0];
            FormatCond(OrUnset(Not(c), path)) == Some(OrUnset(Not(d), FormatPath(path).value))
  {
    hide ArePlainOps, FormatOps, FormatPath, OpsFactors;
    assert FormatFactors([]) == Some([]);
    OpsFormat(fs, path, [], [], nor);
    var cs := OpsFactors(fs, path, [], nor);
    FormatOrUnset(Not(cs[0]), path);
  }

  lemma FormatFieldsHead(fs: Fields)
    requires fs != [] && FormatFields(fs).Some?
    ensures Again(fs[0].name).Some?
    ensures FormatFields(fs).value != [] && FormatFields(fs).value[0].name == Again(fs[0].name).value
  {
  }

  /** Formatting keeps the kind of an operand. */
  lemma OperandKeepsKind(v: Value)
    requires FormatOperand(v).Some?
    ensures var w := FormatOperand(v).value;
            && (v.Regex? ==> w == v) && (!v.Regex? ==> !w.Regex?)
            && (w.Document? && w.fields != [] && IsOperator(w.fields[0].name)
                <==> v.Document? && v.fields != [] && IsOperator(v.fields[0].name))
  {
    if v.Document? && v.fields != [] {
      if IsOperator(v.fields[0].name) {
        FormatOpsCons(v.fields);
      } else {
        FormatFieldsHead(v.fields);
        AgainKeeps(v.fields[0].name);
      }
    }
  }

  /** Formatting does not turn an operator that may stand beside others into one that must stand alone. */
  lemma OpsKeepKind(fs: Fields, nor: bool)
    requires FormatOps(fs).Some? && SupportedOps(fs, nor) && SupportedOps(FormatOps(fs).value, nor)
    ensures ArePlainOps(FormatOps(fs).value) <==> ArePlainOps(fs)
  {
    var gs := FormatOps(fs).value;
    FormatOpsCons(fs);
    var Field(k, v) := fs[0];
    if |fs| == 1 {
      assert fs[1..] == [] && gs[1..] == [];
      if FieldOpOf(k) == Some(OpExists) && v.Bool? { assert gs[0].value == v; }
    }
  }

  lemma ValueFormats(v: Value, path: Path)
    requires (IsLiteral(v) || (v.Regex? && IsFaithfulRegex(v))) && FormatPath(path).Some?
    requires !(v.Document? && v.fields != [] && IsOperator(v.fields[0].name)) && FormatOperand(v).Some?
    ensures FormatCond(ValueCond(v, path)) == Some(ValueCond(FormatOperand(v).value, FormatPath(path).value))
  {
    OperandKeepsKind(v);
    if v.Regex? { SurvivesFormatting(RegexPattern(v).value.text); }
  }

  lemma {:induction false} PairFormats(f: Field, nor: bool)
    requires FormatPair(f).Some?
    requires SupportedPair(f.name, f.value, nor)
    requires SupportedPair(FormatPair(f).value.name, FormatPair(f).value.value, nor)
    ensures FormatFactors(PairFactors(f.name, f.value, nor))
         == Some(PairFactors(FormatPair(f).value.name, FormatPair(f).value.value, nor))
    decreases f, 1
  {
    hide FormatCond, FormatPath, OpsFactors, ArePlainOps, FormatOps, IsLiteral, IsFaithfulRegex, LoneCond, ValueCond,
      FormatFactors;
    if IsOperator(f.name) {
      LogicFormats(f, nor);
    } else {
      var Field(k, v) := f;
      KeyFormats(k);
      OperandKeepsKind(v);
      if v.Document? && v.fields != [] && IsOperator(v.fields[0].name) {
        OpsOperandFormats(v.fields, PathOf(k), nor);
      } else {
        ValueFormats(v, PathOf(k));
        FormatSingle(ValueCond(v, PathOf(k)));
        var w, q := FormatPair(f).value.value, FormatPath(PathOf(k)).value;
        FormatGuarded([ValueCond(v, PathOf(k))], [ValueCond(w, q)], PathOf(k), q, nor);
      }
    }
  }

  function OpsCondition(fs: Fields, path: Path, nor: bool): seq<Cond>
    requires fs != []
  {
    if ArePlainOps(fs) then OpsFactors(fs, path, [], nor) else [LoneCond(fs[0].name, fs[0].value, path, nor)]
  }

  lemma OpsOperandFormats(fs: Fields, path: Path, nor: bool)
    requires FormatOps(fs).Some? && FormatPath(path).Some?
    requires SupportedOps(fs, nor) && SupportedOps(FormatOps(fs).value, nor)
    ensures FormatFactors(OpsCondition(fs, path, nor))
         == Some(OpsCondition(FormatOps(fs).value, FormatPath(path).value, nor))
  {
    OpsKeepKind(fs, nor);
    assert FormatFactors([]) == Some([]);
    hide FormatCond, FormatPath, OpsFactors, FormatOpValue, LoneCond, FormatFactors;
    if ArePlainOps(fs) {
      OpsFormat(fs, path, [], [], nor);
    } else {
      FormatOpsCons(fs);
      LoneFormats(fs[0].name, fs[0].value, path, nor);
      FormatSingle(LoneCond(fs[0].name, fs[0].value, path, nor));
    }
  }

  lemma {:induction false} LogicFormats(f: Field, nor: bool)
    requires FormatPair(f).Some? && IsOperator(f.name)
    requires SupportedPair(f.name, f.value, nor)
    requires SupportedPair(FormatPair(f).value.name, FormatPair(f).value.value, nor)
    ensures FormatFactors(PairFactors(f.name, f.value, nor))
         == Some(PairFactors(FormatPair(f).value.name, FormatPair(f).value.value, nor))
    decreases f, 0
  {
    var es, gs := f.value.elems, FormatPair(f).value.value.elems;
    match LogicOpOf(f.name).value
    case LogicAnd =>
      AllFormats(es, nor);
      FormatGroup(AllFactors(es, nor));
      FormatSingle(Group([Conj(AllFactors(es, nor))]));
    case LogicOr =>
      SomeFormats(es, nor);
      FormatSingle(Group(SomeTerms(es, nor)));
    case LogicNor =>
      NoneFormats(es);
      FormatGroup(NoneFactors(es));
      FormatSingle(Group([Conj(NoneFactors(es))]));
  }

  lemma {:induction false} PairsFormat(fs: Fields, nor: bool)
    requires FormatFilter(fs).Some? && SupportedPairs(fs, nor) && SupportedPairs(FormatFilter(fs).value, nor)
    ensures FormatFactors(PairsFactors(fs, nor)) == Some(PairsFactors(FormatFilter(fs).value, nor))
    decreases fs, 2
  {
    if fs != [] {
      var gs := FormatFilter(fs).value;
      assert gs[1..] == FormatFilter(fs[1..]).value;
      PairFormats(fs[0], nor);
      PairsFormat(fs[1..], nor);
      FormatAppended(PairFactors(fs[0].name, fs[0].value, nor), PairsFactors(fs[1..], nor));
    }
  }

  lemma {:induction false} AllFormats(es: seq<Value>, nor: bool)
    requires FormatMembers(es).Some? && SupportedMembers(es, nor) && SupportedMembers(FormatMembers(es).value, nor)
    ensures FormatFactors(AllFactors(es, nor)) == Some(AllFactors(FormatMembers(es).value, nor))
    decreases es, 0
  {
    if es != [] {
      assert FormatMembers(es).value[1..] == FormatMembers(es[1..]).value;
      PairsFormat(es[0].fields, nor);
      AllFormats(es[1..], nor);
      FormatAppended(MemberFactors(es[0], nor), AllFactors(es[1..], nor));
    }
  }

  lemma {:induction false} SomeFormats(es: seq<Value>, nor: bool)
    requires FormatMembers(es).Some? && SupportedMembers(es, nor) && SupportedMembers(FormatMembers(es).value, nor)
    ensures FormatTerms(SomeTerms(es, nor)) == Some(SomeTerms(FormatMembers(es).value, nor))
    decreases es, 0
  {
    if es != [] {
      assert FormatMembers(es).value[1..] == FormatMembers(es[1..]).value;
      PairsFormat(es[0].fields, nor);
      SomeFormats(es[1..], nor);
      assert SomeTerms(es, nor)[1..] == SomeTerms(es[1..], nor);
    }
  }

  lemma {:induction false} NoneFormats(es: seq<Value>)
    requires FormatMembers(es).Some? && SupportedMembers(es, true) && SupportedMembers(FormatMembers(es).value, true)
    ensures FormatFactors(NoneFactors(es)) == Some(NoneFactors(FormatMembers(es).value))
    decreases es, 0
  {
    if es != [] {
      assert FormatMembers(es).value[1..] == FormatMembers(es[1..]).value;
      var fs := MemberFactors(es[0], true);
      PairsFormat(es[0].fields, true);
      NoneFormats(es[1..]);
      FormatGroup(fs);
      FormatSingle(Not(Group([Conj(fs)])));
      FormatAppended([Not(Group([Conj(fs)]))], NoneFactors(es[1..]));
    }
  }

  /** The formatted condition of a supported filter is the condition of the formatted filter, if that is supported. */
  lemma FormattedClause(filter: Fields, nor: bool)
    requires SupportedPairs(filter, nor) && FormatFilter(filter).Some?
    requires SupportedPairs(FormatFilter(filter).value, nor)
    ensures WhereClause(filter, nor).Ok? && WhereClause(FormatFilter(filter).value, nor).Ok?
    ensures FormatTokens(WhereClause(filter, nor).value) == Some(WhereClause(FormatFilter(filter).value, nor).value)
  {
    hide FormatTokens;
    var out := FormatFilter(filter).value;
    var ts, us := TextFactors(PairsFactors(filter, nor)), TextFactors(PairsFactors(out, nor));
    PairsText(filter, nor, true);
    PairsText(out, nor, true);
    PairsFormat(filter, nor);
    FormatFactorsText(PairsFactors(filter, nor));
    if filter == [] {
      FormatPlain([]);
    } else {
      assert [] + ts == ts && [] + us == us;
      FormatPlain([WHERE]);
      FormatBoth([WHERE], [WHERE], ts, us);
    }
  }
}
