/** The conditions the layer sends to the database: their tokens, their grammar, and their three-valued meaning. */
module Sql {
  import opened Types
  import Like

  /** A path names a field: quoted names, and array positions that SQL counts from 1. */
  datatype Step = Name(name: bytes) | Index(pos: int)

  type Path = seq<Step>

  datatype CmpOp = Eq | Ne | Gt | Ge | Lt | Le

  datatype Token =
    | LParen | RParen | AND | OR | NOT
    | IS | NULL | SET | UNSET | LIKE | WHERE
    | Cmp(op: CmpOp)
    | Ident(path: Path)
    | Literal(v: Value)             // the direct text of a value
    | Garbled(v: Value)             // a text written for v that is no direct text: with error marks, or with a gap
    | PatternText(p: Like.Pattern)  // a quoted LIKE pattern, with ESCAPE '^' when the pattern has escapes
    | CARDINALITY | FOR_ANY | SATISFIES | END

  type Tokens = seq<Token>

  // ----- syntax

  datatype Cond =
    | Compare(path: Path, op: CmpOp, v: Value)
    | IsNull(path: Path, negated: bool)
    | IsSet(path: Path)
    | IsUnset(path: Path)
    | IsLike(path: Path, p: Like.Pattern)
    | Not(c: Cond)
    | Group(terms: seq<Conj>)

  /** One operand of OR: factors joined by AND. */
  datatype Conj = Conj(factors: seq<Cond>)

  type Parsed<T> = Option<(T, Tokens)>

  predicate StartsWith(ts: Tokens, t: Token) { ts != [] && ts[0] == t }

  /** condition ::= conjunction { OR conjunction } */
  function ParseTerms(ts: Tokens): (r: Parsed<seq<Conj>>)
    ensures r.Some? ==> |r.value.1| < |ts|
    decreases |ts|, 3
  {
    match ParseFactors(ts)
    case None => None
    case Some((fs, rest)) =>
      if !StartsWith(rest, OR) then Some(([Conj(fs)], rest))
      else
        match ParseTerms(rest[1..])
        case None => None
        case Some((terms, rest')) => Some(([Conj(fs)] + terms, rest'))
  }

  /** conjunction ::= factor { AND factor } */
  function ParseFactors(ts: Tokens): (r: Parsed<seq<Cond>>)
    ensures r.Some? ==> |r.value.1| < |ts|
    decreases |ts|, 2
  {
    match ParseFactor(ts)
    case None => None
    case Some((c, rest)) =>
      if !StartsWith(rest, AND) then Some(([c], rest))
      else
        match ParseFactors(rest[1..])
        case None => None
        case Some((fs, rest')) => Some(([c] + fs, rest'))
  }

  /** factor ::= NOT factor | ( condition ) | predicate */
  function ParseFactor(ts: Tokens): (r: Parsed<Cond>)
    ensures r.Some? ==> |r.value.1| < |ts|
    decreases |ts|, 1
  {
    if ts == [] then None
    else if ts[0] == NOT then
      match ParseFactor(ts[1..])
      case None => None
      case Some((c, rest)) => Some((Not(c), rest))
    else if ts[0] == LParen then
      match ParseTerms(ts[1..])
      case None => None
      case Some((terms, rest)) => if StartsWith(rest, RParen) then Some((Group(terms), rest[1..])) else None
    else ParsePredicate(ts)
  }

  function ParsePredicate(ts: Tokens): (r: Parsed<Cond>)
    ensures r.Some? ==> |r.value.1| < |ts|
  {
    if |ts| < 3 || !ts[0].Ident? then None
    else if ts[1].Cmp? && ts[2].Literal? then Some((Compare(ts[0].path, ts[1].op, ts[2].v), ts[3..]))
    else if ts[1].LIKE? && ts[2].PatternText? then Some((IsLike(ts[0].path, ts[2].p), ts[3..]))
    else if ts[1].IS? && ts[2].SET? then Some((IsSet(ts[0].path), ts[3..]))
    else if ts[1].IS? && ts[2].UNSET? then Some((IsUnset(ts[0].path), ts[3..]))
    else if ts[1].IS? && ts[2].NULL? then Some((IsNull(ts[0].path, false), ts[3..]))
    else if |ts| >= 4 && ts[1].IS? && ts[2].NOT? && ts[3].NULL? then Some((IsNull(ts[0].path, true), ts[4..]))
    else None
  }

  /** A whole condition: nothing may follow it. */
  function ParseCondition(ts: Tokens): Option<seq<Conj>> {
    match ParseTerms(ts)
    case None => None
    case Some((terms, rest)) => if rest == [] then Some(terms) else None
  }

  /** The WHERE clause of a statement; without one every row is meant. */
  function ParseWhere(ts: Tokens): Option<seq<Conj>> {
    if ts == [] then Some([Conj([])])
    else if ts[0] == WHERE then ParseCondition(ts[1..])
    else None
  }

  // ----- printing, to say which tokens denote which tree

  function Text(c: Cond): (ts: Tokens)
    ensures ts != [] && ts[0] != AND && ts[0] != OR
    decreases c, 0
  {
    match c
    case Compare(p, op, v) => [Ident(p), Cmp(op), Literal(v)]
    case IsNull(p, negated) => if negated then [Ident(p), IS, NOT, NULL] else [Ident(p), IS, NULL]
    case IsSet(p) => [Ident(p), IS, SET]
    case IsUnset(p) => [Ident(p), IS, UNSET]
    case IsLike(p, pattern) => [Ident(p), LIKE, PatternText(pattern)]
    case Not(c) => [NOT] + Text(c)
    case Group(terms) => [LParen] + TextTerms(terms) + [RParen]
  }

  function TextFactors(fs: seq<Cond>): (ts: Tokens)
    decreases fs, 1
  {
    if fs == [] then []
    else if |fs| == 1 then Text(fs[0])
    else Text(fs[0]) + [AND] + TextFactors(fs[1..])
  }

  function TextTerms(terms: seq<Conj>): (ts: Tokens)
    decreases terms, 1
  {
    if terms == [] then []
    else if |terms| == 1 then TextFactors(terms[0].factors)
    else TextFactors(terms[0].factors) + [OR] + TextTerms(terms[1..])
  }

  /** No empty conjunction and no empty group: the trees the grammar can produce. */
  ghost predicate WellFormed(c: Cond) {
    match c
    case Not(c) => WellFormed(c)
    case Group(terms) => WellFormedTerms(terms)
    case _ => true
  }

  ghost predicate WellFormedTerms(terms: seq<Conj>) {
    terms != [] && forall i :: 0 <= i < |terms| ==> WellFormedFactors(terms[i].factors)
  }

  ghost predicate WellFormedFactors(fs: seq<Cond>) {
    fs != [] && forall i :: 0 <= i < |fs| ==> WellFormed(fs[i])
  }

  /** The printed text of a tree parses to that tree, whatever follows it; NOT binds tighter than AND, and AND
      tighter than OR, so a factor list is only extended by AND and a condition only by AND or OR. */
  lemma {:induction false} FactorParses(c: Cond, rest: Tokens)
    requires WellFormed(c)
    ensures ParseFactor(Text(c) + rest) == Some((c, rest))
    decreases c, 0
  {
    var ts := Text(c) + rest;
    match c
    case Not(d) =>
      assert ts[1..] == Text(d) + rest;
      FactorParses(d, rest);
    case Group(terms) =>
      assert ts[1..] == TextTerms(terms) + ([RParen] + rest);
      TermsParse(terms, [RParen] + rest);
      assert ([RParen] + rest)[1..] == rest;
    case IsNull(p, negated) =>
      assert ts[|Text(c)|..] == rest;
    case _ =>
      assert ts[3..] == rest;
  }

  lemma {:induction false} FactorsParse(fs: seq<Cond>, rest: Tokens)
    requires WellFormedFactors(fs) && !StartsWith(rest, AND)
    ensures ParseFactors(TextFactors(fs) + rest) == Some((fs, rest))
    decreases fs, 1
  {
    if |fs| == 1 {
      FactorParses(fs[0], rest);
      assert fs == [fs[0]];
    } else {
      var more := [AND] + (TextFactors(fs[1..]) + rest);
      FactorParses(fs[0], more);
      FactorsParse(fs[1..], rest);
      assert more[1..] == TextFactors(fs[1..]) + rest;
      Assoc(Text(fs[0]) + [AND], TextFactors(fs[1..]), rest);
      Assoc(Text(fs[0]), [AND], TextFactors(fs[1..]) + rest);
      HeadTail(fs);
    }
  }

  lemma {:induction false} TermsParse(terms: seq<Conj>, rest: Tokens)
    requires WellFormedTerms(terms) && !StartsWith(rest, AND) && !StartsWith(rest, OR)
    ensures ParseTerms(TextTerms(terms) + rest) == Some((terms, rest))
    decreases terms, 1
  {
    if |terms| == 1 {
      FactorsParse(terms[0].factors, rest);
      assert terms == [terms[0]];
    } else {
      var more := [OR] + (TextTerms(terms[1..]) + rest);
      FactorsParse(terms[0].factors, more);
      TermsParse(terms[1..], rest);
      assert more[1..] == TextTerms(terms[1..]) + rest;
      var head := TextFactors(terms[0].factors);
      Assoc(head + [OR], TextTerms(terms[1..]), rest);
      Assoc(head, [OR], TextTerms(terms[1..]) + rest);
      HeadTail(terms);
    }
  }

  /** Joining two factor lists with AND is the text of the joined list. */
  lemma {:induction false} TextOfJoined(fs: seq<Cond>, gs: seq<Cond>)
    requires fs != [] && gs != []
    ensures TextFactors(fs + gs) == TextFactors(fs) + [AND] + TextFactors(gs)
  {
    if |fs| == 1 {
      assert (fs + gs)[1..] == gs;
    } else {
      TextOfJoined(fs[1..], gs);
      assert (fs + gs)[1..] == fs[1..] + gs;
      assert TextFactors(fs + gs) == Text(fs[0]) + [AND] + TextFactors(fs[1..] + gs);
      Assoc(Text(fs[0]) + [AND], TextFactors(fs[1..]) + [AND], TextFactors(gs));
      Assoc(Text(fs[0]) + [AND], TextFactors(fs[1..]), [AND]);
    }
  }

  lemma {:induction false} TextOfAlternatives(terms: seq<Conj>, more: seq<Conj>)
    requires terms != [] && more != []
    ensures TextTerms(terms + more) == TextTerms(terms) + [OR] + TextTerms(more)
  {
    if |terms| == 1 {
      assert (terms + more)[1..] == more;
    } else {
      TextOfAlternatives(terms[1..], more);
      assert (terms + more)[1..] == terms[1..] + more;
      var head := TextFactors(terms[0].factors) + [OR];
      assert TextTerms(terms + more) == head + TextTerms(terms[1..] + more);
      Assoc(head, TextTerms(terms[1..]) + [OR], TextTerms(more));
      Assoc(head, TextTerms(terms[1..]), [OR]);
    }
  }

  // ----- meaning

  /** The truth values and tables of section 8.12 of ISO/IEC 9075:1992. */
  datatype Truth = True | False | Unknown

  function Of(b: bool): Truth { if b then True else False }

  function TNot(t: Truth): Truth {
    match t case True => False case False => True case Unknown => Unknown
  }

  function TAnd(a: Truth, b: Truth): Truth {
    if a == False || b == False then False else if a == True && b == True then True else Unknown
  }

  function TOr(a: Truth, b: Truth): Truth {
    if a == True || b == True then True else if a == False && b == False then False else Unknown
  }

  /** What a path finds in a row. */
  datatype Slot = Unset | Null | Val(v: Value)

  /** The results of types.CompareScalars. */
  datatype Order = Equal | Less | Greater | NotEqual

  predicate Holds(op: CmpOp, o: Order) {
    match op
    case Eq => o == Equal
    case Ne => o != Equal
    case Gt => o == Greater
    case Ge => o == Greater || o == Equal
    case Lt => o == Less
    case Le => o == Less || o == Equal
  }

  /** A row as a condition sees it, and the database's comparison of two values. */
  datatype Env = Env(look: Path -> Slot, compare: (Value, Value) -> Order)

  function Eval(c: Cond, env: Env): Truth
    decreases c, 0
  {
    match c
    case Compare(p, op, v) =>
      (match env.look(p)
       case Val(x) => Of(Holds(op, env.compare(x, v)))
       case _ => Unknown)
    case IsNull(p, negated) =>
      (match env.look(p)
       case Unset => Unknown
       case Null => Of(!negated)
       case Val(_) => Of(negated))
    case IsSet(p) => Of(env.look(p) != Unset)
    case IsUnset(p) => Of(env.look(p) == Unset)
    case IsLike(p, pattern) =>
      (match env.look(p)
       case Val(String(s)) => Of(Like.Matches(pattern.text, pattern.escape, s))
       case Val(_) => False
       case _ => Unknown)
    case Not(d) => TNot(Eval(d, env))
    case Group(terms) => EvalTerms(terms, env)
  }

  function EvalFactors(fs: seq<Cond>, env: Env): Truth
    decreases fs, 1
  {
    if fs == [] then True else TAnd(Eval(fs[0], env), EvalFactors(fs[1..], env))
  }

  function EvalTerms(terms: seq<Conj>, env: Env): Truth
    decreases terms, 1
  {
    if terms == [] then False else TOr(EvalFactors(terms[0].factors, env), EvalTerms(terms[1..], env))
  }

  lemma {:induction false} EvalJoined(fs: seq<Cond>, gs: seq<Cond>, env: Env)
    ensures EvalFactors(fs + gs, env) == TAnd(EvalFactors(fs, env), EvalFactors(gs, env))
  {
    if fs == [] {
      assert fs + gs == gs;
    } else {
      EvalJoined(fs[1..], gs, env);
      assert (fs + gs)[1..] == fs[1..] + gs;
    }
  }

  lemma {:induction false} EvalSingle(c: Cond, env: Env)
    ensures EvalFactors([c], env) == Eval(c, env)
  {
    assert [c][1..] == [];
  }

  /** A query returns the rows on which its condition is True. */
  predicate Selects(terms: seq<Conj>, env: Env) { EvalTerms(terms, env) == True }

  lemma {:induction false} SelectsSingle(fs: seq<Cond>, env: Env)
    ensures EvalTerms([Conj(fs)], env) == EvalFactors(fs, env)
  {
    assert [Conj(fs)][1..] == [];
  }
}
