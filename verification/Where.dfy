/** What the filter compiler produces: for every filter either an error or the tokens of a condition. The flag nor
    says whether the expression stands somewhere below a $nor. Module WhereCompiler has the loops that compute this. */
module Where {
  import opened Types
  import opened Numerals
  import opened Spelling
  import opened Rendering
  import opened Sql
  import opened WrittenValues
  import Like

  datatype Error = BadValue | NotImplemented | OtherError | Panicked | NotModelled

  datatype Result<+T> = Ok(value: T) | Err(error: Error)

  type Fields = seq<Field>

  // ----- text

  predicate HasPrefix(s: bytes, prefix: bytes) { |prefix| <= |s| && s[..|prefix|] == prefix }

  predicate Contains(s: bytes, sub: bytes) {
    HasPrefix(s, sub) || (s != [] && Contains(s[1..], sub))
  }

  predicate IsOperator(key: bytes) { key != [] && key[0] == '$' }

  /** A text without its case, as strings.EqualFold sees it. */
  function Lower(s: bytes): (r: bytes)
    ensures |r| == |s|
  {
    seq(|s|, i requires 0 <= i < |s| => LowerByte(s[i]))
  }

  /** strings.Split(s, "."). */
  function SplitDots(s: bytes): (parts: seq<bytes>)
    ensures parts != []
  {
    if s == [] then [[]]
    else
      var rest := SplitDots(s[1..]);
      if s[0] == '.' then [[]] + rest else [[s[0]] + rest[0]] + rest[1..]
  }

  // ----- keys

  /** A numeric part is an array position, shifted by one, and may not follow another one. */
  function PathSteps(parts: seq<bytes>, afterIndex: bool): Result<Path> {
    if parts == [] then Ok([])
    else
      match Atoi(parts[0])
      case Some(n) =>
        if afterIndex then Err(NotImplemented)
        else if n < 0 then Err(OtherError)
        else Prefix(Index(n + 1), PathSteps(parts[1..], true))
      case None => Prefix(Name(parts[0]), PathSteps(parts[1..], false))
  }

  function Prefix(s: Step, r: Result<Path>): Result<Path> {
    match r case Ok(path) => Ok([s] + path) case Err(e) => Err(e)
  }

  /** whereKey. */
  function WhereKey(key: bytes): Result<Path> {
    if '.' in key then PathSteps(SplitDots(key), false) else Ok([Name(key)])
  }

  // ----- values

  datatype Sign = SignEq | SignIs | SignLike

  function SignTokens(s: Sign): Tokens {
    match s case SignEq => [Cmp(Eq)] case SignIs => [IS] case SignLike => [LIKE]
  }

  const IGNORE_CASE: bytes := ['(', '?', 'i', ')']
  const RESPECT_CASE: bytes := ['(', '?', '-', 'i', ')']

  /** regex: the pattern of a regular expression or of a string. */
  function RegexPattern(v: Value): Result<Like.Pattern> {
    if v.Regex? && v.options != [] then Err(NotImplemented)
    else if !v.Regex? && !v.String? then Err(BadValue)
    else
      var p := if v.Regex? then v.pattern else v.s;
      if Contains(p, IGNORE_CASE) || Contains(p, RESPECT_CASE) then Err(NotImplemented) else Ok(Like.Translate(p))
  }

  /** The token of a document: the direct text of the document that its own text stands for, if there is one. */
  function WrittenToken(fs: Fields): Token {
    match WrittenFields(fs) case Some(r) => Literal(Document(r)) case None => Garbled(Document(fs))
  }

  /** whereValue: the token of a value and the sign that goes with it. */
  function WhereValue(v: Value): Result<(Token, Sign)> {
    match v
    case Null => Ok((NULL, SignIs))
    case Regex(_, _) =>
      (match RegexPattern(v)
       case Ok(p) => Ok((PatternText(p), SignLike))
       case Err(e) => Err(e))
    case Document(fs) => if DocumentRenders(fs) then Ok((WrittenToken(fs), SignEq)) else Err(BadValue)
    case Array(_) => Err(BadValue)
    case DateTime(_) => Err(BadValue)
    case _ => Ok((Literal(v), SignEq))
  }

  // ----- {field: {$op: value, ...}}

  datatype FieldOp = OpCmp(op: CmpOp) | OpNe | OpExists | OpSize | OpAll | OpElemMatch | OpNot | OpRegex

  /** fieldExprMap, after lower-casing. */
  function FieldOpOf(k: bytes): Option<FieldOp> {
    var l := ToLower(k);
    if l == "$gt" then Some(OpCmp(Gt))
    else if l == "$gte" then Some(OpCmp(Ge))
    else if l == "$lt" then Some(OpCmp(Lt))
    else if l == "$lte" then Some(OpCmp(Le))
    else if l == "$eq" then Some(OpCmp(Eq))
    else if l == "$ne" then Some(OpNe)
    else if l == "$exists" then Some(OpExists)
    else if l == "$size" then Some(OpSize)
    else if l == "$all" then Some(OpAll)
    else if l == "$elemmatch" then Some(OpElemMatch)
    else if l == "$not" then Some(OpNot)
    else if l == "$regex" then Some(OpRegex)
    else None
  }

  const ELEMENT: Path := [Name(['e', 'l', 'e', 'm', 'e', 'n', 't'])]

  /** filterArray for $all: one FOR ANY per listed value. */
  function AllOf(field: Tokens, es: seq<Value>, first: bool): Result<Tokens> {
    if es == [] then Ok([])
    else
      match WhereValue(es[0])
      case Err(e) => Err(e)
      case Ok((value, _)) =>
        match AllOf(field, es[1..], false)
        case Err(e) => Err(e)
        case Ok(rest) =>
          Ok((if first then [] else [AND])
             + ([FOR_ANY] + field + [SATISFIES, Ident(ELEMENT), Cmp(Eq), value, END]) + rest)
  }

  function FilterArray(field: Tokens, all: bool, v: Value): Result<Tokens> {
    match v
    case Document(_) => if all then Err(BadValue) else Err(NotModelled)
    case Array(es) => if all then AllOf(field, es, true) else Err(BadValue)
    case _ => Err(BadValue)
  }

  function UnsetTail(path: Path): Tokens { [OR, Ident(path), IS, UNSET, RParen] }

  function SetTail(path: Path): Tokens { [AND, Ident(path), IS, SET, RParen] }

  /** Under $nor everything collected so far is guarded by "field IS SET". */
  function Guarded(kv: Tokens, path: Path, nor: bool): Tokens {
    if nor then [LParen] + kv + SetTail(path) else kv
  }

  /** What one operator does to the text collected so far: go on with a new text and perhaps an error that the
      next operator will forget, or leave the function. */
  datatype Turn = Go(kv: Tokens, error: Option<Error>) | Leave(r: Result<Tokens>)

  function OpTurn(op: FieldOp, path: Path, v: Value, kv: Tokens, nor: bool): Turn
    requires !op.OpNot?
  {
    match op
    case OpExists =>
      if v.Bool? then Go(Guarded(kv + [IS] + [if v.b then SET else UNSET], path, nor), None) else Leave(Err(OtherError))
    case OpSize =>
      (match WhereValue(v)
       case Err(e) => Leave(Err(e))
       case Ok((t, sign)) =>
         Go(Guarded([CARDINALITY, LParen] + kv + [RParen] + SignTokens(sign) + [t], path, nor), None))
    case OpAll =>
      (match FilterArray(kv, true, v) case Err(e) => Leave(Err(e)) case Ok(ts) => Go(ts, None))
    case OpElemMatch =>
      (match FilterArray(kv, false, v) case Err(e) => Leave(Err(e)) case Ok(ts) => Go(ts, None))
    case OpNe =>
      (match WhereValue(v)
       case Err(e) => Leave(Err(e))
       case Ok((t, sign)) =>
         var comparison := if sign == SignIs then [IS, NOT] else [Cmp(Ne)];
         Go(Guarded([LParen] + kv + comparison + ([t] + UnsetTail(path)), path, nor), None))
    case OpRegex =>
      (match RegexPattern(v)
       case Err(e) => Go(Guarded(kv + [LIKE] + [], path, nor), Some(e))
       case Ok(p) => Go(Guarded(kv + [LIKE] + [PatternText(p)], path, nor), None))
    case OpCmp(cmp) =>
      (match WhereValue(v)
       case Err(e) => Leave(Err(e))
       case Ok((t, sign)) =>
         Go(Guarded(kv + (if sign == SignIs then [IS] else [Cmp(cmp)]) + [t], path, nor), None))
  }

  /** The rest of the operator loop; error is what the previous operator left behind. */
  function FieldOps(path: Path, fs: Fields, first: bool, kv: Tokens, error: Option<Error>, nor: bool): Result<Tokens>
    decreases fs, 0
  {
    if fs == [] then (if error.Some? then Err(error.value) else Ok(kv))
    else
      var kv1 := (if first then kv else kv + [AND]) + [Ident(path)];
      match FieldOpOf(fs[0].name)
      case None => Err(NotImplemented)
      case Some(op) =>
        if op.OpNot? then
          match FieldExpression(path, fs[0].value, nor)
          case Err(_) => Err(BadValue)
          case Ok(inner) => Ok([LParen, NOT] + inner + UnsetTail(path))
        else
          match OpTurn(op, path, fs[0].value, kv1, nor)
          case Leave(r) => r
          case Go(kv2, e) => FieldOps(path, fs[1..], false, kv2, e, nor)
  }

  /** fieldExpression, once the key has become a path. */
  function FieldExpression(path: Path, v: Value, nor: bool): Result<Tokens>
    decreases v, 1
  {
    match v
    case Document(fs) => FieldOps(path, fs, true, [], None, nor)
    case _ => Err(BadValue)
  }

  // ----- pairs and logic

  datatype LogicOp = LogicAnd | LogicOr | LogicNor

  function LogicOpOf(k: bytes): Option<LogicOp> {
    var l := ToLower(k);
    if l == "$and" then Some(LogicAnd)
    else if l == "$or" then Some(LogicOr)
    else if l == "$nor" then Some(LogicNor)
    else None
  }

  function Joiner(op: LogicOp): Tokens {
    match op case LogicAnd => [AND] case LogicOr => [OR] case LogicNor => [AND, NOT, LParen]
  }

  function Opener(op: LogicOp, first: bool): Tokens {
    if first then (if op.LogicNor? then [NOT, LParen] else []) else Joiner(op)
  }

  function Closer(op: LogicOp): Tokens { if op.LogicNor? then [RParen] else [] }

  function Then(ts: Tokens, r: Result<Tokens>): Result<Tokens> {
    match r case Ok(more) => Ok(ts + more) case Err(e) => Err(e)
  }

  /** wherePair. */
  function Pair(k: bytes, v: Value, nor: bool): Result<Tokens>
    decreases v, 3
  {
    if IsOperator(k) then Logic(k, v, nor)
    else if v.Document? && v.fields == [] then Err(Panicked)
    else if v.Document? && IsOperator(v.fields[0].name) then
      match WhereKey(k)
      case Err(e) => Err(e)
      case Ok(path) => FieldExpression(path, v, nor)
    else
      match WhereValue(v)
      case Err(e) => Err(e)
      case Ok((t, sign)) =>
        match WhereKey(k)
        case Err(e) => Err(e)
        case Ok(path) => Ok(Guarded([Ident(path)] + SignTokens(sign) + [t], path, nor))
  }

  /** The pairs of a document, joined by AND. */
  function Pairs(fs: Fields, first: bool, nor: bool): Result<Tokens>
    decreases fs, 2
  {
    if fs == [] then Ok([])
    else
      match Pair(fs[0].name, fs[0].value, nor)
      case Err(e) => Err(e)
      case Ok(ts) => Then((if first then [] else [AND]) + ts, Pairs(fs[1..], false, nor))
  }

  /** The members of a logic expression. */
  function Members(es: seq<Value>, op: LogicOp, first: bool, nor: bool): Result<Tokens>
    decreases es, 2
  {
    if es == [] then Ok([])
    else
      match es[0]
      case Document(fs) =>
        (match Pairs(fs, true, nor)
         case Err(e) => Err(e)
         case Ok(ts) => Then(Opener(op, first) + ts + Closer(op), Members(es[1..], op, false, nor)))
      case _ => Err(OtherError)
  }

  /** logicExpression. Everything inside a $nor is compiled in nor mode. */
  function Logic(k: bytes, v: Value, nor: bool): Result<Tokens>
    decreases v, 2
  {
    match LogicOpOf(k)
    case None => if ToLower(k) == "$not" then Err(OtherError) else Err(NotImplemented)
    case Some(op) =>
      match v
      case Array(es) =>
        if |es| < 2 && !(nor || op.LogicNor?) then Err(OtherError)
        else
          (match Members(es, op, true, nor || op.LogicNor?)
           case Err(e) => Err(e)
           case Ok(ts) => Ok([LParen] + ts + [RParen]))
      case _ => Err(BadValue)
  }

  /** CreateWhereClause. */
  function WhereClause(filter: Fields, nor: bool): Result<Tokens> {
    if filter == [] then Ok([]) else Then([WHERE], Pairs(filter, true, nor))
  }

  // ----- the $nor counter after an error

  /** How many $nor expressions were entered but not left when compilation of the pair failed. */
  function OpenNors(k: bytes, v: Value, nor: bool): (n: nat)
    decreases v, 3
  {
    if !IsOperator(k) || LogicOpOf(k).None? || Logic(k, v, nor).Ok? then 0
    else
      var op := LogicOpOf(k).value;
      (if op.LogicNor? then 1 else 0)
      + if v.Array? && (|v.elems| >= 2 || nor || op.LogicNor?) then OpenNorsMembers(v.elems, nor || op.LogicNor?) else 0
  }

  function OpenNorsPairs(fs: Fields, nor: bool): (n: nat)
    decreases fs, 2
  {
    if fs == [] then 0
    else if Pair(fs[0].name, fs[0].value, nor).Err? then OpenNors(fs[0].name, fs[0].value, nor)
    else OpenNorsPairs(fs[1..], nor)
  }

  function OpenNorsMembers(es: seq<Value>, nor: bool): (n: nat)
    decreases es, 2
  {
    if es == [] || !es[0].Document? then 0
    else if Pairs(es[0].fields, true, nor).Err? then OpenNorsPairs(es[0].fields, nor)
    else OpenNorsMembers(es[1..], nor)
  }
}
