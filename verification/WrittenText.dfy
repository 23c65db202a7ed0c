/** The text of a document or an array is the direct text of the value that is written; it is the direct text of the
    document itself exactly where no percent sign is formatted on the way. */
module WrittenText {
  import opened Types
  import opened Rendering
  import opened WrittenValues

  // ----- one piece of a template

  /** The piece, followed by any template, is formatted to the given text, followed by what that template gives. */
  predicate Yields(p: Template, out: bytes, t: bytes, args: seq<Arg>) {
    Sprintf(p.text + t, p.args + args) == Prepend(out, Sprintf(t, args))
  }

  /** A piece with a text yields it; a piece without one asks for more arguments than it brings. */
  predicate Behaves(p: Option<Template>, out: Option<bytes>, t: bytes, args: seq<Arg>) {
    && (p.Some? ==> EndsPlain(p.value.text) && Verbs(p.value.text) >= |p.value.args|)
    && (out.Some? ==> p.Some? && Yields(p.value, out.value, t, args))
    && (out.None? && p.Some? ==> Verbs(p.value.text) > |p.value.args|)
  }

  lemma LiterallyBehaves(text: bytes, t: bytes, args: seq<Arg>)
    requires EndsPlain(text)
    ensures Behaves(Literally(Some(text)), Again(text), t, args)
  {
    assert [] + args == args;
    StrayVerb(text);
    if Again(text).Some? { SprintfAppend(text, t, args); }
  }

  lemma VerbBehaves(before: bytes, verb: byte, x: bytes, after: bytes, t: bytes, args: seq<Arg>)
    requires '%' !in before && '%' !in after && verb != '%'
    ensures Behaves(Some(Template(before + ['%', verb] + after, [Arg(verb, x)])), Some(before + x + after), t, args)
  {
    var all := [Arg(verb, x)] + args;
    var text := before + ['%', verb] + after;
    assert text + t == before + (['%', verb] + (after + t));
    SprintfPlain(before, ['%', verb] + (after + t), all);
    SprintfVerb(verb, x, after + t, args);
    SprintfPlain(after, t, args);
    PrependPrepend(x, after, Sprintf(t, args));
    PrependPrepend(before, x + after, Sprintf(t, args));
    Assoc(before, x, after);
    VerbsOfDirective(before, verb, after);
  }

  lemma VerbsOfDirective(before: bytes, verb: byte, after: bytes)
    requires '%' !in before && '%' !in after && verb != '%'
    ensures Verbs(before + ['%', verb] + after) == 1 && EndsPlain(before + ['%', verb] + after)
  {
    SurvivesFormatting(before);
    SurvivesFormatting(after);
    StrayVerb(before);
    StrayVerb(after);
    VerbsAppend(before, ['%', verb]);
    VerbsAppend(before + ['%', verb], after);
    assert ['%', verb][2..] == [];
  }

  lemma BareBehaves(text: bytes, verb: byte, x: bytes, t: bytes, args: seq<Arg>)
    requires text == ['%', verb] && verb != '%'
    ensures Behaves(Some(Template(text, [Arg(verb, x)])), Some(x), t, args)
  {
    VerbBehaves([], verb, x, [], t, args);
    assert [] + ['%', verb] + [] == text && [] + x + [] == x;
  }

  lemma ArgumentBehaves(x: Option<bytes>, t: bytes, args: seq<Arg>)
    ensures Behaves(AsArgument(x), x, t, args)
  {
    if x.Some? { BareBehaves("%s", 's', x.value, t, args); }
  }

  lemma ScalarBehaves(v: Value, inDocument: bool, show: Show, t: bytes, args: seq<Arg>)
    requires !v.Null? && ScalarPiece(v, show).Some?
    ensures Behaves(ScalarPiece(v, show), Some(Render(v, inDocument, show)), t, args)
  {
    match v
    case Int32(i) => BareBehaves("%d", 'd', IntText(i), t, args);
    case Int64(l) => BareBehaves("%d", 'd', IntText(l), t, args);
    case Double(bits) => BareBehaves("%f", 'f', show(bits), t, args);
    case ObjectID(id) => BareBehaves("%s", 's', IdText(id), t, args);
    case String(s) =>
      VerbBehaves("'", 's', s, "'", t, args);
      assert "'" + ['%', 's'] + "'" == "'%s'";
    case Bool(b) =>
      VerbBehaves("to_json_boolean(", 't', BoolText(b), ")", t, args);
      assert "to_json_boolean(" + ['%', 't'] + ")" == "to_json_boolean(%t)";
  }

  // ----- pieces put together

  function Combine(a: Option<Template>, b: Option<Template>): Option<Template> {
    match (a, b) case (Some(x), Some(y)) => Some(Template(x.text + y.text, x.args + y.args)) case _ => None
  }

  lemma AppendIsCombine(prefix: bytes, p: Option<Template>, rest: Option<Template>)
    ensures Append(prefix, p, rest) == Combine(Combine(Literally(Some(prefix)), p), rest)
  {
    if p.Some? { assert [] + p.value.args == p.value.args; }
  }

  lemma CombineBehaves(a: Option<Template>, x: Option<bytes>, b: Option<Template>, y: Option<bytes>,
                       t: bytes, args: seq<Arg>)
    requires Behaves(b, y, t, args)
    requires b.Some? ==> Behaves(a, x, b.value.text + t, b.value.args + args)
    ensures Behaves(Combine(a, b), Join(x, y), t, args)
  {
    if a.Some? && b.Some? {
      VerbsAppend(a.value.text, b.value.text);
      Assoc(a.value.text, b.value.text, t);
      Assoc(a.value.args, b.value.args, args);
      if x.Some? && y.Some? { PrependPrepend(x.value, y.value, Sprintf(t, args)); }
    }
  }

  function TextOf(p: Option<Template>, t: bytes): bytes { if p.Some? then p.value.text + t else t }

  function ArgsOf(p: Option<Template>, args: seq<Arg>): seq<Arg> { if p.Some? then p.value.args + args else args }

  // ----- what a template is formatted to

  lemma NothingBehaves(t: bytes, args: seq<Arg>)
    ensures Behaves(None, None, t, args)
  {
  }

  lemma {:induction false} FieldBehaves(v: Value, show: Show, t: bytes, args: seq<Arg>)
    requires GoodShow(show) && Supported(v)
    ensures FieldPiece(v, true, show).Good?
    ensures Behaves(FieldPiece(v, true, show).t, Rendered(WrittenField(v), true, show), t, args)
    decreases v, 2
  {
    hide Behaves, Again, DocumentText, ArrayText, SupportedElements, SupportedFields, FormatValue;
    match v
    case Null =>
      SurvivesFormatting(" NULL ");
      LiterallyBehaves(" NULL ", t, args);
    case Array(es) =>
      ArrayIsWritten(es, show);
      if WrittenElements(es).Some? {
        var r := Array(WrittenElements(es).value);
        FormatRender(r, true, show);
        LiterallyBehaves(Render(r, true, show), t, args);
      } else {
        NothingBehaves(t, args);
      }
    case Document(fs) =>
      DocumentIsWritten(fs, show);
      ArgumentBehaves(Rendered(WrittenField(v), true, show), t, args);
    case _ => ScalarBehaves(v, true, show, t, args);
  }

  lemma {:induction false} FieldsBehave(fs: seq<Field>, first: bool, show: Show, t: bytes, args: seq<Arg>)
    requires SupportedFields(fs) && GoodShow(show)
    ensures FieldsTemplate(fs, first, true, show).AllFields? && !FieldsTemplate(fs, first, true, show).pending
    ensures Behaves(FieldsTemplate(fs, first, true, show).t, RenderedFields(WrittenFields(fs), first, show), t, args)
    decreases fs, 0
  {
    if fs == [] {
      LiterallyBehaves([], t, args);
    } else {
      var Field(name, v) := fs[0];
      FieldsBehave(fs[1..], false, show, t, args);
      var rest := FieldsTemplate(fs[1..], false, true, show).t;
      FieldBehaves(v, show, TextOf(rest, t), ArgsOf(rest, args));
      var p := FieldPiece(v, true, show).t;
      PrefixBehaves(first, name, TextOf(p, TextOf(rest, t)), ArgsOf(p, ArgsOf(rest, args)));
      AppendBehaves(Separator(first) + KeyText(name), PrefixText(first, name), p, Rendered(WrittenField(v), true, show),
                    rest, RenderedFields(WrittenFields(fs[1..]), false, show), t, args);
      JoinFields(fs, first, show);
    }
  }

  function PrefixText(first: bool, name: bytes): Option<bytes> {
    match Again(name) case Some(s) => Some(Separator(first) + KeyText(s)) case None => None
  }

  lemma PrefixBehaves(first: bool, name: bytes, t: bytes, args: seq<Arg>)
    ensures Behaves(Literally(Some(Separator(first) + KeyText(name))), PrefixText(first, name), t, args)
  {
    KeyTextFormats(name);
    SurvivesFormatting(Separator(first));
    AgainAppend(Separator(first), KeyText(name));
    LiterallyBehaves(Separator(first) + KeyText(name), t, args);
  }

  lemma AppendBehaves(prefix: bytes, w: Option<bytes>, p: Option<Template>, x: Option<bytes>,
                      rest: Option<Template>, y: Option<bytes>, t: bytes, args: seq<Arg>)
    requires Behaves(rest, y, t, args)
    requires Behaves(p, x, TextOf(rest, t), ArgsOf(rest, args))
    requires Behaves(Literally(Some(prefix)), w, TextOf(p, TextOf(rest, t)), ArgsOf(p, ArgsOf(rest, args)))
    ensures Behaves(Append(prefix, p, rest), Join(Join(w, x), y), t, args)
  {
    AppendIsCombine(prefix, p, rest);
    CombineBehaves(Literally(Some(prefix)), w, p, x, TextOf(rest, t), ArgsOf(rest, args));
    CombineBehaves(Combine(Literally(Some(prefix)), p), Join(w, x), rest, y, t, args);
  }

  lemma JoinFields(fs: seq<Field>, first: bool, show: Show)
    requires fs != []
    ensures RenderedFields(WrittenFields(fs), first, show)
         == Join(Join(PrefixText(first, fs[0].name), Rendered(WrittenField(fs[0].value), true, show)),
                 RenderedFields(WrittenFields(fs[1..]), false, show))
  {
    if WrittenFields(fs).Some? { assert WrittenFields(fs).value[1..] == WrittenFields(fs[1..]).value; }
  }

  function DirectText(fs: Option<seq<Field>>, show: Show): Option<bytes> {
    match fs case Some(r) => Some(Render(Document(r), true, show)) case None => None
  }

  /** The text of a document, for whereDocument and updateDocument alike, is the direct text of the document that is
      written; where none is written, the text has error marks. */
  lemma {:induction false} DocumentIsWritten(fs: seq<Field>, show: Show)
    requires SupportedFields(fs) && GoodShow(show)
    ensures forall strict :: DocumentText(fs, strict, show) == Done(DirectText(WrittenFields(fs), show))
    decreases fs, 1
  {
    FieldsBehave(fs, true, show, [], []);
    var t := FieldsTemplate(fs, true, true, show).t;
    var out := RenderedFields(WrittenFields(fs), true, show);
    if t.Some? {
      assert t.value.text + [] == t.value.text && t.value.args + [] == t.value.args;
      SprintfPlain("{", t.value.text, t.value.args);
      if out.Some? {
        assert out.value + [] == out.value;
      } else {
        EveryVerbIsServed(t.value.text, t.value.args);
      }
    }
    DocumentFails(fs, true, show);
    WhereAndUpdateAgree(fs, show);
  }

  lemma {:induction false} ElementBehaves(v: Value, show: Show, t: bytes, args: seq<Arg>)
    requires GoodShow(show) && Supported(v)
    ensures ElementPiece(v, show).Good?
    ensures Behaves(ElementPiece(v, show).t, Rendered(WrittenElement(v), false, show), t, args)
    decreases v, 2
  {
    match v
    case Null =>
      SurvivesFormatting("NULL");
      LiterallyBehaves("NULL", t, args);
    case Array(es) =>
      ArrayIsWritten(es, show);
      ArgumentBehaves(Rendered(WrittenElement(v), false, show), t, args);
    case Document(fs) =>
      DocumentIsWritten(fs, show);
      ArgumentBehaves(Rendered(WrittenElement(v), false, show), t, args);
    case _ => if ScalarPiece(v, show).Some? { ScalarElementBehaves(v, show, t, args); }
  }

  lemma ScalarElementBehaves(v: Value, show: Show, t: bytes, args: seq<Arg>)
    requires GoodShow(show) && !v.Null? && ScalarPiece(v, show).Some?
    ensures ElementPiece(v, show).Good?
    ensures Behaves(ElementPiece(v, show).t, Rendered(WrittenElement(v), false, show), t, args)
  {
    var p := ScalarPiece(v, show).value;
    var out := Render(v, false, show);
    ScalarBehaves(v, false, show, [], []);
    assert p.text + [] == p.text && p.args + [] == p.args && out + [] == out;
    RenderEndsPlain(v, false, show);
    LiterallyBehaves(out, t, args);
    FormatRender(v, false, show);
  }

  lemma {:induction false} ElementsBehave(es: seq<Value>, first: bool, show: Show, t: bytes, args: seq<Arg>)
    requires SupportedElements(es) && GoodShow(show)
    ensures ElementsTemplate(es, first, show).AllElements?
    ensures Behaves(ElementsTemplate(es, first, show).t, RenderedElements(WrittenElements(es), first, show), t, args)
    decreases es, 0
  {
    if es == [] {
      LiterallyBehaves([], t, args);
    } else {
      ElementsBehave(es[1..], false, show, t, args);
      var rest := ElementsTemplate(es[1..], false, show).t;
      ElementBehaves(es[0], show, TextOf(rest, t), ArgsOf(rest, args));
      var p := ElementPiece(es[0], show).t;
      SurvivesFormatting(Separator(first));
      LiterallyBehaves(Separator(first), TextOf(p, TextOf(rest, t)), ArgsOf(p, ArgsOf(rest, args)));
      AppendBehaves(Separator(first), Some(Separator(first)), p, Rendered(WrittenElement(es[0]), false, show),
                    rest, RenderedElements(WrittenElements(es[1..]), false, show), t, args);
      JoinElements(es, first, show);
    }
  }

  lemma JoinElements(es: seq<Value>, first: bool, show: Show)
    requires es != []
    ensures RenderedElements(WrittenElements(es), first, show)
         == Join(Join(Some(Separator(first)), Rendered(WrittenElement(es[0]), false, show)),
                 RenderedElements(WrittenElements(es[1..]), false, show))
  {
    if WrittenElements(es).Some? { assert WrittenElements(es).value[1..] == WrittenElements(es[1..]).value; }
  }

  /** The same for the text of an array. */
  lemma {:induction false} ArrayIsWritten(es: seq<Value>, show: Show)
    requires SupportedElements(es) && GoodShow(show)
    ensures ArrayText(es, show)
         == Done(match WrittenElements(es) case Some(r) => Some(Render(Array(r), false, show)) case None => None)
    decreases es, 1
  {
    ElementsBehave(es, true, show, "]", []);
    var t := ElementsTemplate(es, true, show).t;
    var out := RenderedElements(WrittenElements(es), true, show);
    if t.Some? {
      assert t.value.args + [] == t.value.args;
      assert "[" + t.value.text + "]" == "[" + (t.value.text + "]");
      SprintfPlain("[", t.value.text + "]", t.value.args);
      if out.Some? {
        SurvivesFormatting("]");
        Assoc("[", out.value, "]");
      } else {
        VerbsAppend(t.value.text, "]");
        EveryVerbIsServed(t.value.text + "]", t.value.args);
      }
    }
  }

  // ----- where the text is the value's own

  /** No percent sign in any key or string. */
  predicate Percentless(v: Value) {
    match v
    case Document(fs) => PercentlessFields(fs)
    case Array(es) => PercentlessElements(es)
    case String(s) => '%' !in s
    case _ => true
  }

  predicate PercentlessFields(fs: seq<Field>) {
    fs == [] || ('%' !in fs[0].name && Percentless(fs[0].value) && PercentlessFields(fs[1..]))
  }

  predicate PercentlessElements(es: seq<Value>) {
    es == [] || (Percentless(es[0]) && PercentlessElements(es[1..]))
  }

  /** In a document, percent signs only in strings that lie below no array. */
  predicate Clean(fs: seq<Field>)
    decreases fs
  {
    fs == []
    || (&& '%' !in fs[0].name
        && (match fs[0].value
            case Document(inner) => Clean(inner)
            case String(_) => true
            case v => Percentless(v))
        && Clean(fs[1..]))
  }

  /** In an array on its own, percent signs only in strings of a clean document. */
  predicate CleanElements(es: seq<Value>)
    decreases es
  {
    es == []
    || (&& (match es[0]
            case Document(inner) => Clean(inner)
            case Array(inner) => CleanElements(inner)
            case v => Percentless(v))
        && CleanElements(es[1..]))
  }

  /** Formatting never lengthens the direct text, and leaves it as it is only where there is no percent sign. */
  lemma {:induction false} FormatShrinks(v: Value, inDocument: bool, show: Show)
    ensures Percentless(v) ==> FormatValue(v) == Some(v)
    ensures FormatValue(v).Some? ==>
              && |Render(FormatValue(v).value, inDocument, show)| <= |Render(v, inDocument, show)|
              && (|Render(FormatValue(v).value, inDocument, show)| == |Render(v, inDocument, show)| ==> Percentless(v))
    decreases v, 1
  {
    match v
    case String(s) => AgainShrinks(s);
    case Array(es) => FormatShrinksElements(es, true, show);
    case Document(fs) => FormatShrinksFields(fs, true, show);
    case _ =>
  }

  lemma {:induction false} FormatShrinksElements(es: seq<Value>, first: bool, show: Show)
    ensures PercentlessElements(es) ==> FormatElements(es) == Some(es)
    ensures FormatElements(es).Some? ==>
              var r := FormatElements(es).value;
              && |RenderElements(r, first, show)| <= |RenderElements(es, first, show)|
              && (|RenderElements(r, first, show)| == |RenderElements(es, first, show)| ==> PercentlessElements(es))
    decreases es, 0
  {
    if es != [] {
      HeadTail(es);
      FormatShrinks(es[0], false, show);
      FormatShrinksElements(es[1..], false, show);
      if FormatElements(es).Some? { assert FormatElements(es).value[1..] == FormatElements(es[1..]).value; }
    }
  }

  lemma {:induction false} FormatShrinksFields(fs: seq<Field>, first: bool, show: Show)
    ensures PercentlessFields(fs) ==> FormatFields(fs) == Some(fs)
    ensures FormatFields(fs).Some? ==>
              var r := FormatFields(fs).value;
              && |RenderFields(r, first, show)| <= |RenderFields(fs, first, show)|
              && (|RenderFields(r, first, show)| == |RenderFields(fs, first, show)| ==> PercentlessFields(fs))
    decreases fs, 0
  {
    if fs != [] {
      HeadTail(fs);
      AgainShrinks(fs[0].name);
      FormatShrinks(fs[0].value, true, show);
      FormatShrinksFields(fs[1..], false, show);
      if FormatFields(fs).Some? { assert FormatFields(fs).value[1..] == FormatFields(fs[1..]).value; }
    }
  }

  lemma {:induction false} PercentlessIsClean(fs: seq<Field>)
    requires PercentlessFields(fs)
    ensures Clean(fs)
    decreases fs
  {
    if fs != [] {
      PercentlessIsClean(fs[1..]);
      if fs[0].value.Document? { PercentlessIsClean(fs[0].value.fields); }
    }
  }

  lemma {:induction false} PercentlessElementsAreClean(es: seq<Value>)
    requires PercentlessElements(es)
    ensures CleanElements(es)
    decreases es
  {
    if es != [] {
      PercentlessElementsAreClean(es[1..]);
      match es[0] {
        case Document(inner) => PercentlessIsClean(inner);
        case Array(inner) => PercentlessElementsAreClean(inner);
        case _ =>
      }
    }
  }

  /** The written document has no longer text, and as long a text only where it is the document itself. */
  lemma {:induction false} WrittenFieldsShrink(fs: seq<Field>, first: bool, show: Show)
    requires SupportedFields(fs)
    ensures Clean(fs) ==> WrittenFields(fs) == Some(fs)
    ensures WrittenFields(fs).Some? ==>
              var r := WrittenFields(fs).value;
              && |RenderFields(r, first, show)| <= |RenderFields(fs, first, show)|
              && (|RenderFields(r, first, show)| == |RenderFields(fs, first, show)| ==> Clean(fs))
    decreases fs, 0
  {
    if fs != [] {
      HeadTail(fs);
      AgainShrinks(fs[0].name);
      WrittenFieldShrinks(fs[0].value, show);
      WrittenFieldsShrink(fs[1..], false, show);
      if WrittenFields(fs).Some? { assert WrittenFields(fs).value[1..] == WrittenFields(fs[1..]).value; }
    }
  }

  predicate CleanField(v: Value) {
    match v case Document(inner) => Clean(inner) case String(_) => true case _ => Percentless(v)
  }

  lemma {:induction false} WrittenFieldShrinks(v: Value, show: Show)
    requires Supported(v)
    ensures CleanField(v) ==> WrittenField(v) == Some(v)
    ensures WrittenField(v).Some? ==>
              && |Render(WrittenField(v).value, true, show)| <= |Render(v, true, show)|
              && (|Render(WrittenField(v).value, true, show)| == |Render(v, true, show)| ==> CleanField(v))
    decreases v, 1
  {
    match v
    case Array(es) =>
      WrittenElementsShrink(es, true, show);
      if PercentlessElements(es) { PercentlessElementsAreClean(es); }
      if WrittenElements(es).Some? { FormatShrinks(Array(WrittenElements(es).value), true, show); }
    case Document(fs) => WrittenFieldsShrink(fs, true, show);
    case _ =>
  }

  predicate CleanElement(v: Value) {
    match v case Document(inner) => Clean(inner) case Array(inner) => CleanElements(inner) case _ => Percentless(v)
  }

  lemma {:induction false} WrittenElementShrinks(v: Value, show: Show)
    requires Supported(v)
    ensures CleanElement(v) ==> WrittenElement(v) == Some(v)
    ensures WrittenElement(v).Some? ==>
              && |Render(WrittenElement(v).value, false, show)| <= |Render(v, false, show)|
              && (|Render(WrittenElement(v).value, false, show)| == |Render(v, false, show)| ==> CleanElement(v))
    decreases v, 1
  {
    match v
    case String(s) => AgainShrinks(s);
    case Array(es) => WrittenElementsShrink(es, true, show);
    case Document(fs) => WrittenFieldsShrink(fs, true, show);
    case _ =>
  }

  lemma {:induction false} WrittenElementsShrink(es: seq<Value>, first: bool, show: Show)
    requires SupportedElements(es)
    ensures CleanElements(es) ==> WrittenElements(es) == Some(es)
    ensures WrittenElements(es).Some? ==>
              var r := WrittenElements(es).value;
              && |RenderElements(r, first, show)| <= |RenderElements(es, first, show)|
              && (|RenderElements(r, first, show)| == |RenderElements(es, first, show)| ==> CleanElements(es))
    decreases es, 0
  {
    if es != [] {
      HeadTail(es);
      WrittenElementShrinks(es[0], show);
      WrittenElementsShrink(es[1..], false, show);
      if WrittenElements(es).Some? { assert WrittenElements(es).value[1..] == WrittenElements(es[1..]).value; }
    }
  }

  /** The two phases give a document's direct text exactly when percent signs stand only in strings below no array. */
  lemma TwoPhasesAreDirectExactly(fs: seq<Field>, strict: bool, show: Show)
    requires SupportedFields(fs) && GoodShow(show)
    ensures DocumentText(fs, strict, show) == Done(Some(Render(Document(fs), true, show))) <==> Clean(fs)
  {
    DocumentIsWritten(fs, show);
    WrittenFieldsShrink(fs, true, show);
    if WrittenFields(fs).Some? {
      var r := WrittenFields(fs).value;
      assert |Render(Document(r), true, show)| == |RenderFields(r, true, show)| + 2;
      assert |Render(Document(fs), true, show)| == |RenderFields(fs, true, show)| + 2;
    }
  }

  /** The same for an array on its own. */
  lemma ArrayIsDirectExactly(es: seq<Value>, show: Show)
    requires SupportedElements(es) && GoodShow(show)
    ensures ArrayText(es, show) == Done(Some(Render(Array(es), false, show))) <==> CleanElements(es)
  {
    ArrayIsWritten(es, show);
    WrittenElementsShrink(es, true, show);
    if WrittenElements(es).Some? {
      var r := WrittenElements(es).value;
      assert |Render(Array(r), false, show)| == |RenderElements(r, true, show)| + 2;
      assert |Render(Array(es), false, show)| == |RenderElements(es, true, show)| + 2;
    }
  }
}
