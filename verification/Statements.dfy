/** The text of a condition, and what is left of it when the text is formatted once more: updateMany and deleteMany pass
    the finished condition through fmt.Sprintf, as if it were a template without arguments. */
module Statements {
  import opened Types
  import opened Rendering
  import opened WrittenValues
  import opened Sql
  import opened Where
  import Filter
  import Like
  import WrittenText

  // ----- text

  function StepText(s: Step, first: bool): bytes {
    match s
    case Name(n) => (if first then [] else ".") + ("\"" + n + "\"")
    case Index(p) => "[" + IntText(p) + "]"
  }

  function PathText(path: Path, first: bool): bytes {
    if path == [] then [] else StepText(path[0], first) + PathText(path[1..], false)
  }

  function OperatorText(op: CmpOp): bytes {
    match op case Eq => "=" case Ne => "<>" case Gt => ">" case Ge => ">=" case Lt => "<" case Le => "<="
  }

  function QuotedPattern(p: Like.Pattern): bytes { "'" + p.text + (if p.escape then "' ESCAPE '^'" else "'") }

  /** A token's text. The text of a garbled value is not known; nothing below is said about it. */
  function TokenText(t: Token, show: Show): bytes {
    match t
    case LParen => "("
    case RParen => ")"
    case AND => "AND"
    case OR => "OR"
    case NOT => "NOT"
    case IS => "IS"
    case NULL => "NULL"
    case SET => "SET"
    case UNSET => "UNSET"
    case LIKE => "LIKE"
    case WHERE => "WHERE"
    case Cmp(op) => OperatorText(op)
    case Ident(path) => PathText(path, true)
    case Literal(v) => Render(v, true, show)
    case Garbled(_) => []
    case PatternText(p) => QuotedPattern(p)
    case CARDINALITY => "CARDINALITY"
    case FOR_ANY => "FOR ANY \"element\" IN"
    case SATISFIES => "SATISFIES"
    case END => "END"
  }

  /** The text of a condition, up to the number of blanks between its tokens. */
  function ConditionText(ts: Tokens, show: Show): bytes {
    if ts == [] then [] else TokenText(ts[0], show) + " " + ConditionText(ts[1..], show)
  }

  /** Every value stands in the condition with a direct text. */
  predicate Intact(ts: Tokens) { forall i :: 0 <= i < |ts| ==> !ts[i].Garbled? }

  // ----- formatting

  function FormatStep(s: Step): Option<Step> {
    match s
    case Name(n) => (match Again(n) case Some(m) => Some(Name(m)) case None => None)
    case Index(_) => Some(s)
  }

  function FormatPath(path: Path): Option<Path> {
    if path == [] then Some([])
    else
      match (FormatStep(path[0]), FormatPath(path[1..]))
      case (Some(s), Some(rest)) => Some([s] + rest)
      case _ => None
  }

  function FormatToken(t: Token): Option<Token> {
    match t
    case Ident(path) => (match FormatPath(path) case Some(p) => Some(Ident(p)) case None => None)
    case Literal(v) => (match FormatValue(v) case Some(w) => Some(Literal(w)) case None => None)
    case Garbled(_) => None
    case PatternText(p) => (match Again(p.text) case Some(s) => Some(PatternText(p.(text := s))) case None => None)
    case _ => Some(t)
  }

  /** The condition whose text is the formatted text; None when formatting leaves error marks. */
  function FormatTokens(ts: Tokens): Option<Tokens> {
    if ts == [] then Some([])
    else
      match (FormatToken(ts[0]), FormatTokens(ts[1..]))
      case (Some(t), Some(rest)) => Some([t] + rest)
      case _ => None
  }

  lemma {:induction false} FormatJoined(a: Tokens, b: Tokens)
    ensures FormatTokens(a + b)
         == match (FormatTokens(a), FormatTokens(b)) case (Some(x), Some(y)) => Some(x + y) case _ => None
  {
    if a == [] {
      assert [] + b == b;
      if FormatTokens(b).Some? { assert [] + FormatTokens(b).value == FormatTokens(b).value; }
    } else {
      FormatJoined(a[1..], b);
      assert (a + b)[1..] == a[1..] + b;
      match (FormatToken(a[0]), FormatTokens(a[1..]), FormatTokens(b))
      case (Some(t), Some(x), Some(y)) => Assoc([t], x, y);
      case _ =>
    }
  }

  // ----- percent signs

  predicate PercentFreePath(path: Path) { forall i :: 0 <= i < |path| ==> path[i].Name? ==> '%' !in path[i].name }

  predicate PercentFreeToken(t: Token) {
    match t
    case Ident(path) => PercentFreePath(path)
    case Literal(v) => WrittenText.Percentless(v)
    case Garbled(_) => false
    case PatternText(p) => '%' !in p.text
    case _ => true
  }

  /** No percent sign in a name, a value or a pattern. */
  predicate PercentFree(ts: Tokens) { forall i :: 0 <= i < |ts| ==> PercentFreeToken(ts[i]) }

  // ----- formatting the text is formatting the tokens

  function PathTextOf(path: Option<Path>, first: bool): Option<bytes> {
    match path case Some(p) => Some(PathText(p, first)) case None => None
  }

  lemma {:induction false} NameFormats(before: bytes, n: bytes)
    requires '%' !in before
    ensures Again(before + ("\"" + n + "\""))
         == match Again(n) case Some(m) => Some(before + ("\"" + m + "\"")) case None => None
    ensures EndsPlain(before + ("\"" + n + "\""))
  {
    AgainDelimited(before + "\"", n, "\"");
    assert before + ("\"" + n + "\"") == before + "\"" + n + "\"";
    if Again(n).Some? { assert before + ("\"" + Again(n).value + "\"") == before + "\"" + Again(n).value + "\""; }
  }

  lemma {:induction false} StepFormats(s: Step, first: bool)
    ensures Again(StepText(s, first)) == match FormatStep(s) case Some(r) => Some(StepText(r, first)) case None => None
    ensures EndsPlain(StepText(s, first))
  {
    match s
    case Name(n) => NameFormats(if first then [] else ".", n);
    case Index(p) =>
      NumbersHaveNoPercent(p);
      SurvivesFormatting(StepText(s, first));
  }

  lemma {:induction false} PathFormats(path: Path, first: bool)
    ensures Again(PathText(path, first)) == PathTextOf(FormatPath(path), first)
    ensures EndsPlain(PathText(path, first))
  {
    if path != [] {
      StepFormats(path[0], first);
      PathFormats(path[1..], false);
      AgainAppend(StepText(path[0], first), PathText(path[1..], false));
      if FormatPath(path).Some? { assert FormatPath(path).value[1..] == FormatPath(path[1..]).value; }
    }
  }

  function TokenTextOf(t: Option<Token>, show: Show): Option<bytes> {
    match t case Some(r) => Some(TokenText(r, show)) case None => None
  }

  lemma {:induction false} TokenFormats(t: Token, show: Show)
    requires GoodShow(show) && !t.Garbled?
    ensures Again(TokenText(t, show)) == TokenTextOf(FormatToken(t), show)
    ensures EndsPlain(TokenText(t, show))
  {
    hide Again, Render, PathText;
    match t
    case Ident(path) => PathFormats(path, true);
    case Literal(v) =>
      FormatRender(v, true, show);
      RenderEndsPlain(v, true, show);
    case PatternText(p) => AgainDelimited("'", p.text, if p.escape then "' ESCAPE '^'" else "'");
    case _ => SurvivesFormatting(TokenText(t, show));
  }

  function ConditionTextOf(ts: Option<Tokens>, show: Show): Option<bytes> {
    match ts case Some(r) => Some(ConditionText(r, show)) case None => None
  }

  /** What fmt.Sprintf makes of a condition's text is the text of the formatted condition. */
  lemma {:induction false} ConditionFormats(ts: Tokens, show: Show)
    requires GoodShow(show) && Intact(ts)
    ensures Again(ConditionText(ts, show)) == ConditionTextOf(FormatTokens(ts), show)
  {
    if ts != [] {
      var head := TokenText(ts[0], show);
      TokenFormats(ts[0], show);
      ConditionFormats(ts[1..], show);
      SurvivesFormatting(" ");
      AgainAppend(head, " ");
      AgainAppend(head + " ", ConditionText(ts[1..], show));
      if FormatTokens(ts).Some? { assert FormatTokens(ts).value[1..] == FormatTokens(ts[1..]).value; }
    }
  }

  // ----- which conditions survive

  lemma {:induction false} PathShrinks(path: Path, first: bool)
    ensures PercentFreePath(path) ==> FormatPath(path) == Some(path)
    ensures FormatPath(path).Some? ==>
              && |PathText(FormatPath(path).value, first)| <= |PathText(path, first)|
              && (|PathText(FormatPath(path).value, first)| == |PathText(path, first)| ==> PercentFreePath(path))
  {
    if path != [] {
      HeadTail(path);
      if path[0].Name? { AgainShrinks(path[0].name); }
      PathShrinks(path[1..], false);
      if FormatPath(path).Some? { assert FormatPath(path).value[1..] == FormatPath(path[1..]).value; }
      assert PercentFreePath(path) <==> (path[0].Name? ==> '%' !in path[0].name) && PercentFreePath(path[1..]) by {
        assert forall i :: 0 <= i < |path[1..]| ==> path[1..][i] == path[i + 1];
        assert forall i :: 0 < i < |path| ==> path[i] == path[1..][i - 1];
      }
    }
  }

  lemma {:induction false} TokenShrinks(t: Token, show: Show)
    ensures PercentFreeToken(t) ==> FormatToken(t) == Some(t)
    ensures FormatToken(t).Some? ==>
              && |TokenText(FormatToken(t).value, show)| <= |TokenText(t, show)|
              && (|TokenText(FormatToken(t).value, show)| == |TokenText(t, show)| ==> PercentFreeToken(t))
  {
    match t
    case Ident(path) => PathShrinks(path, true);
    case Literal(v) => WrittenText.FormatShrinks(v, true, show);
    case PatternText(p) => AgainShrinks(p.text);
    case _ =>
  }

  lemma {:induction false} PercentFreeParts(ts: Tokens)
    requires ts != []
    ensures PercentFree(ts) <==> PercentFreeToken(ts[0]) && PercentFree(ts[1..])
  {
    assert forall i :: 0 <= i < |ts[1..]| ==> ts[1..][i] == ts[i + 1];
    assert forall i :: 0 < i < |ts| ==> ts[i] == ts[1..][i - 1];
  }

  lemma {:induction false} ConditionShrinks(ts: Tokens, show: Show)
    ensures PercentFree(ts) ==> FormatTokens(ts) == Some(ts)
    ensures FormatTokens(ts).Some? ==>
              var r := FormatTokens(ts).value;
              && |ConditionText(r, show)| <= |ConditionText(ts, show)|
              && (|ConditionText(r, show)| == |ConditionText(ts, show)| ==> PercentFree(ts))
  {
    if ts != [] {
      HeadTail(ts);
      PercentFreeParts(ts);
      TokenShrinks(ts[0], show);
      ConditionShrinks(ts[1..], show);
      if FormatTokens(ts).Some? { assert FormatTokens(ts).value[1..] == FormatTokens(ts[1..]).value; }
    }
  }

  /** The condition that is sent is the compiled condition, as tokens and as text, exactly when no name, value or
      pattern in it has a percent sign. */
  lemma {:induction false} SentAsCompiledExactly(ts: Tokens, show: Show)
    requires GoodShow(show) && Intact(ts)
    ensures FormatTokens(ts) == Some(ts) <==> PercentFree(ts)
    ensures Again(ConditionText(ts, show)) == Some(ConditionText(ts, show)) <==> PercentFree(ts)
    ensures '%' !in ConditionText(ts, show) <==> PercentFree(ts)
  {
    ConditionShrinks(ts, show);
    ConditionFormats(ts, show);
    SurvivesFormatting(ConditionText(ts, show));
  }

  lemma {:induction false} FormatKeepsPercentFree(ts: Tokens)
    requires PercentFree(ts)
    ensures FormatTokens(ts) == Some(ts)
  {
    ConditionShrinks(ts, bits => []);
  }

  // ----- literals

  lemma {:induction false} WrittenIsSupported(v: Value)
    ensures WrittenField(v).Some? || WrittenElement(v).Some? ==> Supported(v)
    decreases v, 1
  {
    match v
    case Document(fs) => WrittenFieldsAreSupported(fs);
    case Array(es) => WrittenElementsAreSupported(es);
    case _ =>
  }

  lemma {:induction false} WrittenFieldsAreSupported(fs: Fields)
    ensures WrittenFields(fs).Some? ==> SupportedFields(fs)
    decreases fs, 0
  {
    if fs != [] {
      WrittenIsSupported(fs[0].value);
      WrittenFieldsAreSupported(fs[1..]);
    }
  }

  lemma {:induction false} WrittenElementsAreSupported(es: seq<Value>)
    ensures WrittenElements(es).Some? ==> SupportedElements(es)
    decreases es, 0
  {
    if es != [] {
      WrittenIsSupported(es[0]);
      WrittenElementsAreSupported(es[1..]);
    }
  }

  lemma {:induction false} SupportedRenders(v: Value)
    requires Supported(v)
    ensures v.Document? ==> UpdateRenders(v.fields) && DocumentRenders(v.fields)
    ensures v.Array? ==> ArrayRenders(v.elems)
    decreases v, 1
  {
    match v
    case Document(fs) => SupportedFieldsRender(fs);
    case Array(es) => SupportedElementsRender(es);
    case _ =>
  }

  lemma {:induction false} SupportedFieldsRender(fs: Fields)
    requires SupportedFields(fs)
    ensures UpdateRenders(fs) && DocumentRenders(fs)
    decreases fs, 0
  {
    if fs != [] {
      SupportedRenders(fs[0].value);
      SupportedFieldsRender(fs[1..]);
    }
  }

  lemma {:induction false} SupportedElementsRender(es: seq<Value>)
    requires SupportedElements(es)
    ensures ArrayRenders(es)
    decreases es, 0
  {
    if es != [] {
      SupportedRenders(es[0]);
      SupportedElementsRender(es[1..]);
    }
  }

  /** A document is written as itself exactly when it holds no unsupported value and its percent signs stand only in
      strings below no array. */
  lemma {:induction false} DocumentIsItself(fs: Fields)
    ensures WrittenFields(fs) == Some(fs) <==> SupportedFields(fs) && WrittenText.Clean(fs)
  {
    WrittenFieldsAreSupported(fs);
    if SupportedFields(fs) { WrittenText.WrittenFieldsShrink(fs, true, bits => []); }
  }

  lemma {:induction false} LiteralDocuments(fs: Fields)
    ensures Filter.IsLiteral(Document(fs)) <==> SupportedFields(fs) && WrittenText.Clean(fs)
  {
    DocumentIsItself(fs);
    if SupportedFields(fs) { SupportedFieldsRender(fs); }
  }

  /** The text that whereValue writes for a value it compares with "=": a placeholder and its argument, put together. */
  function ValueText(v: Value, show: Show): Outcome {
    match v
    case Document(fs) => DocumentText(fs, false, show)
    case _ => match ScalarPiece(v, show) case Some(p) => Done(Sprintf(p.text, p.args)) case None => Failed(None)
  }

  lemma {:induction false} ScalarIsWritten(v: Value, show: Show)
    requires !v.Null? && ScalarPiece(v, show).Some?
    ensures var p := ScalarPiece(v, show).value; Sprintf(p.text, p.args) == Some(Render(v, true, show))
  {
    WrittenText.ScalarBehaves(v, true, show, [], []);
    var p, out := ScalarPiece(v, show).value, Render(v, true, show);
    assert p.text + [] == p.text && p.args + [] == p.args && out + [] == out;
  }

  /** A literal token stands for the text that is written: the direct text of the value that it names. */
  lemma {:induction false} LiteralIsWritten(v: Value, show: Show)
    requires GoodShow(show) && WhereValue(v).Ok? && WhereValue(v).value.0.Literal?
    ensures ValueText(v, show) == Done(Some(Render(WhereValue(v).value.0.v, true, show)))
  {
    hide Render, Sprintf, DocumentText, WrittenFields;
    if v.Document? {
      WrittenFieldsAreSupported(v.fields);
      WrittenText.DocumentIsWritten(v.fields, show);
      assert DocumentText(v.fields, false, show) == Done(WrittenText.DirectText(WrittenFields(v.fields), show));
    } else {
      ScalarIsWritten(v, show);
    }
  }
}
