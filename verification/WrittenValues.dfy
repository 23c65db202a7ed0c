/** Which value the text of a value stands for. Two formattings turn the text of a document into the direct text of
    another document: its keys are formatted once, its arrays once more than what is in them. */
module WrittenValues {
  import opened Types
  import opened Numerals
  import opened Rendering
  import Storage

  // ----- a value formatted once more

  /** The value whose keys and strings are formatted without arguments; None when one of them cannot be. */
  function FormatValue(v: Value): Option<Value>
    decreases v
  {
    match v
    case String(s) => (match Again(s) case Some(t) => Some(String(t)) case None => None)
    case Array(es) => (match FormatElements(es) case Some(r) => Some(Array(r)) case None => None)
    case Document(fs) => (match FormatFields(fs) case Some(r) => Some(Document(r)) case None => None)
    case _ => Some(v)
  }

  function FormatElements(es: seq<Value>): Option<seq<Value>>
    decreases es
  {
    if es == [] then Some([])
    else
      match (FormatValue(es[0]), FormatElements(es[1..]))
      case (Some(v), Some(rest)) => Some([v] + rest)
      case _ => None
  }

  function FormatFields(fs: seq<Field>): Option<seq<Field>>
    decreases fs
  {
    if fs == [] then Some([])
    else
      match (Again(fs[0].name), FormatValue(fs[0].value), FormatFields(fs[1..]))
      case (Some(name), Some(v), Some(rest)) => Some([Field(name, v)] + rest)
      case _ => None
  }

  // ----- the value that is written

  /** A field's value: a string is an argument and stays as it is, an array's text is formatted with its document. */
  function WrittenField(v: Value): Option<Value>
    decreases v, 1
  {
    match v
    case Array(es) => (match WrittenElements(es) case Some(r) => FormatValue(Array(r)) case None => None)
    case Document(fs) => (match WrittenFields(fs) case Some(r) => Some(Document(r)) case None => None)
    case _ => if Unsupported(v) then None else Some(v)
  }

  function WrittenElement(v: Value): Option<Value>
    decreases v, 1
  {
    match v
    case String(s) => FormatValue(v)
    case Array(es) => (match WrittenElements(es) case Some(r) => Some(Array(r)) case None => None)
    case Document(fs) => (match WrittenFields(fs) case Some(r) => Some(Document(r)) case None => None)
    case _ => if Unsupported(v) then None else Some(v)
  }

  function WrittenElements(es: seq<Value>): Option<seq<Value>>
    decreases es, 0
  {
    if es == [] then Some([])
    else
      match (WrittenElement(es[0]), WrittenElements(es[1..]))
      case (Some(v), Some(rest)) => Some([v] + rest)
      case _ => None
  }

  function WrittenFields(fs: seq<Field>): Option<seq<Field>>
    decreases fs, 0
  {
    if fs == [] then Some([])
    else
      match (Again(fs[0].name), WrittenField(fs[0].value), WrittenFields(fs[1..]))
      case (Some(name), Some(v), Some(rest)) => Some([Field(name, v)] + rest)
      case _ => None
  }

  /** No unsupported value anywhere. */
  predicate Supported(v: Value) {
    match v
    case Document(fs) => SupportedFields(fs)
    case Array(es) => SupportedElements(es)
    case _ => !Unsupported(v)
  }

  predicate SupportedFields(fs: seq<Field>) { fs == [] || (Supported(fs[0].value) && SupportedFields(fs[1..])) }

  predicate SupportedElements(es: seq<Value>) { es == [] || (Supported(es[0]) && SupportedElements(es[1..])) }

  // ----- formatting a direct text

  function Join(a: Option<bytes>, b: Option<bytes>): Option<bytes> {
    match (a, b) case (Some(x), Some(y)) => Some(x + y) case _ => None
  }

  lemma {:induction false} AgainAppend(a: bytes, b: bytes)
    requires EndsPlain(a)
    ensures Again(a + b) == Join(Again(a), Again(b))
  {
    if Again(a).Some? {
      SprintfAppend(a, b, []);
    } else {
      StrayVerb(a);
      VerbsAppend(a, b);
      EveryVerbIsServed(a + b, []);
    }
  }

  lemma {:induction false} BrokenStaysBroken(s: bytes, after: bytes)
    requires Again(s).None? && after != [] && after[0] != '%'
    ensures Again(s + after).None?
    decreases |s|
  {
    if s[0] != '%' {
      assert (s + after)[0] == s[0] && (s + after)[1..] == s[1..] + after;
      BrokenStaysBroken(s[1..], after);
    } else if |s| >= 2 && s[1] == '%' {
      assert (s + after)[0] == '%' && (s + after)[1] == '%' && (s + after)[2..] == s[2..] + after;
      BrokenStaysBroken(s[2..], after);
    } else {
      assert (s + after)[0] == '%' && (s + after)[1] != '%';
    }
  }

  /** A text between delimiters. */
  lemma {:induction false} AgainDelimited(before: bytes, s: bytes, after: bytes)
    requires '%' !in before && '%' !in after && after != []
    ensures Again(before + s + after)
         == match Again(s) case Some(t) => Some(before + t + after) case None => None
  {
    Assoc(before, s, after);
    SprintfPlain(before, s + after, []);
    if Again(s).Some? {
      SprintfAppend(s, after, []);
      SurvivesFormatting(after);
      Assoc(before, Again(s).value, after);
    } else {
      BrokenStaysBroken(s, after);
    }
  }

  lemma {:induction false} KeyTextFormats(name: bytes)
    ensures Again(KeyText(name)) == match Again(name) case Some(t) => Some(KeyText(t)) case None => None
    ensures EndsPlain(KeyText(name))
  {
    AgainDelimited("\"", name, "\": ");
  }

  lemma {:induction false} NumbersHaveNoPercent(i: int)
    ensures '%' !in IntText(i)
  {
    var n := if i < 0 then -i else i;
    assert forall k :: 0 <= k < |Itoa(n)| ==> IsDigit(Itoa(n)[k]);
  }

  lemma {:induction false} HexHasNoPercent(b: bytes)
    ensures '%' !in Storage.HexEncode(b)
  {
    if b != [] { HexHasNoPercent(b[1..]); }
  }

  predicate IsScalar(v: Value) { !v.Document? && !v.Array? && !v.String? }

  lemma {:induction false} ScalarHasNoPercent(v: Value, inDocument: bool, show: Show)
    requires IsScalar(v) && GoodShow(show)
    ensures '%' !in Render(v, inDocument, show)
  {
    match v
    case Int32(i) => NumbersHaveNoPercent(i);
    case Int64(l) => NumbersHaveNoPercent(l);
    case ObjectID(id) => HexHasNoPercent(id);
    case _ =>
  }

  lemma {:induction false} RenderEndsPlain(v: Value, inDocument: bool, show: Show)
    requires GoodShow(show)
    ensures EndsPlain(Render(v, inDocument, show))
  {
    if IsScalar(v) { ScalarHasNoPercent(v, inDocument, show); }
  }

  function Rendered(v: Option<Value>, inDocument: bool, show: Show): Option<bytes> {
    match v case Some(w) => Some(Render(w, inDocument, show)) case None => None
  }

  function RenderedFields(fs: Option<seq<Field>>, first: bool, show: Show): Option<bytes> {
    match fs case Some(r) => Some(RenderFields(r, first, show)) case None => None
  }

  function RenderedElements(es: Option<seq<Value>>, first: bool, show: Show): Option<bytes> {
    match es case Some(r) => Some(RenderElements(r, first, show)) case None => None
  }

  /** Formatting the direct text of a value gives the direct text of the formatted value. */
  lemma {:induction false} FormatRender(v: Value, inDocument: bool, show: Show)
    requires GoodShow(show)
    ensures Again(Render(v, inDocument, show)) == Rendered(FormatValue(v), inDocument, show)
    decreases v, 1
  {
    match v
    case String(s) => AgainDelimited("'", s, "'");
    case Array(es) =>
      FormatRenderElements(es, true, show);
      AgainDelimited("[", RenderElements(es, true, show), "]");
    case Document(fs) =>
      FormatRenderFields(fs, true, show);
      AgainDelimited("{", RenderFields(fs, true, show), "}");
    case _ =>
      ScalarHasNoPercent(v, inDocument, show);
      SurvivesFormatting(Render(v, inDocument, show));
  }

  lemma {:induction false} FormatRenderElements(es: seq<Value>, first: bool, show: Show)
    requires GoodShow(show)
    ensures Again(RenderElements(es, first, show)) == RenderedElements(FormatElements(es), first, show)
    decreases es, 0
  {
    if es != [] {
      var head := Separator(first) + Render(es[0], false, show);
      FormatRender(es[0], false, show);
      FormatRenderElements(es[1..], false, show);
      RenderEndsPlain(es[0], false, show);
      SurvivesFormatting(Separator(first));
      AgainAppend(Separator(first), Render(es[0], false, show));
      AgainAppend(head, RenderElements(es[1..], false, show));
      if FormatElements(es).Some? { assert FormatElements(es).value[1..] == FormatElements(es[1..]).value; }
    }
  }

  lemma {:induction false} FormatRenderFields(fs: seq<Field>, first: bool, show: Show)
    requires GoodShow(show)
    ensures Again(RenderFields(fs, first, show)) == RenderedFields(FormatFields(fs), first, show)
    decreases fs, 0
  {
    if fs != [] {
      var Field(name, v) := fs[0];
      var key, value := KeyText(name), Render(v, true, show);
      FormatRender(v, true, show);
      FormatRenderFields(fs[1..], false, show);
      RenderEndsPlain(v, true, show);
      KeyTextFormats(name);
      SurvivesFormatting(Separator(first));
      AgainAppend(Separator(first), key);
      AgainAppend(Separator(first) + key, value);
      AgainAppend(Separator(first) + key + value, RenderFields(fs[1..], false, show));
      if FormatFields(fs).Some? { assert FormatFields(fs).value[1..] == FormatFields(fs[1..]).value; }
    }
  }
}
