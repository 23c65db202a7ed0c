/** How values become text in a statement: in two phases, first a template with placeholders and a list of arguments,
    then fmt.Sprintf; and arrays are formatted once more as part of the template around them. */
module Rendering {
  import opened Types
  import opened Numerals
  import Storage

  // ----- fmt.Sprintf

  /** An argument and the verb it is meant for: 'd', 'f', 's' or 't'. */
  datatype Arg = Arg(verb: byte, text: bytes)

  datatype Template = Template(text: bytes, args: seq<Arg>)

  function Prepend(a: bytes, r: Option<bytes>): Option<bytes> {
    match r case Some(b) => Some(a + b) case None => None
  }

  /** The formatted text. None stands for everything else Sprintf writes: "%!" error marks, and flags or widths. */
  function Sprintf(format: bytes, args: seq<Arg>): Option<bytes>
    decreases |format|
  {
    if format == [] then (if args == [] then Some([]) else None)
    else if format[0] != '%' then Prepend([format[0]], Sprintf(format[1..], args))
    else if |format| >= 2 && format[1] == '%' then Prepend(['%'], Sprintf(format[2..], args))
    else if |format| >= 2 && args != [] && format[1] == args[0].verb then
      Prepend(args[0].text, Sprintf(format[2..], args[1..]))
    else None
  }

  /** A text that is formatted once more, without arguments. */
  function Again(text: bytes): Option<bytes> { Sprintf(text, []) }

  /** How many arguments a format asks for. */
  function Verbs(format: bytes): nat
    decreases |format|
  {
    if |format| <= 1 then 0
    else if format[0] != '%' then Verbs(format[1..])
    else if format[1] == '%' then Verbs(format[2..])
    else 1 + Verbs(format[2..])
  }

  /** No directive reaches over the end of the text. */
  predicate EndsPlain(text: bytes) { text == [] || text[|text| - 1] != '%' }

  lemma {:induction false} PrependPrepend(a: bytes, b: bytes, r: Option<bytes>)
    ensures Prepend(a, Prepend(b, r)) == Prepend(a + b, r)
  {
    if r.Some? { Assoc(a, b, r.value); }
  }

  /** The directives of a text that can be formatted alone are formatted the same way in front of anything. */
  lemma {:induction false} SprintfAppend(a: bytes, t: bytes, args: seq<Arg>)
    requires Again(a).Some?
    ensures Sprintf(a + t, args) == Prepend(Again(a).value, Sprintf(t, args))
    decreases |a|
  {
    var r := Sprintf(t, args);
    if a == [] {
      assert [] + t == t;
      if r.Some? { assert [] + r.value == r.value; }
    } else if a[0] != '%' {
      assert (a + t)[0] == a[0] && (a + t)[1..] == a[1..] + t;
      SprintfAppend(a[1..], t, args);
      PrependPrepend([a[0]], Again(a[1..]).value, r);
    } else {
      assert (a + t)[0] == '%' && (a + t)[1] == '%' && (a + t)[2..] == a[2..] + t;
      SprintfAppend(a[2..], t, args);
      PrependPrepend(['%'], Again(a[2..]).value, r);
    }
  }

  lemma {:induction false} SprintfPlain(plain: bytes, t: bytes, args: seq<Arg>)
    requires '%' !in plain
    ensures Sprintf(plain + t, args) == Prepend(plain, Sprintf(t, args))
  {
    SurvivesFormatting(plain);
    SprintfAppend(plain, t, args);
  }

  lemma {:induction false} SprintfVerb(verb: byte, x: bytes, t: bytes, args: seq<Arg>)
    requires verb != '%'
    ensures Sprintf(['%', verb] + t, [Arg(verb, x)] + args) == Prepend(x, Sprintf(t, args))
  {
    var format, all := ['%', verb] + t, [Arg(verb, x)] + args;
    assert format[0] == '%' && format[1] == verb && format[2..] == t && all[1..] == args;
  }

  lemma {:induction false} AgainShrinks(text: bytes)
    ensures Again(text).Some? ==> |Again(text).value| <= |text|
    ensures Again(text).Some? && '%' in text ==> |Again(text).value| < |text|
    ensures '%' !in text ==> Again(text) == Some(text)
    decreases |text|
  {
    if text != [] {
      HeadTail(text);
      if text[0] != '%' {
        AgainShrinks(text[1..]);
      } else if |text| >= 2 && text[1] == '%' {
        AgainShrinks(text[2..]);
      }
    }
  }

  /** A finished text survives being formatted again exactly when it has no percent sign. */
  lemma {:induction false} SurvivesFormatting(text: bytes)
    ensures Again(text) == Some(text) <==> '%' !in text
  {
    AgainShrinks(text);
  }

  // ----- counting directives

  lemma {:induction false} VerbsAppend(a: bytes, b: bytes)
    requires EndsPlain(a)
    ensures Verbs(a + b) == Verbs(a) + Verbs(b)
    decreases |a|
  {
    if a == [] {
      assert [] + b == b;
    } else if a[0] != '%' {
      assert (a + b)[0] == a[0] && (a + b)[1..] == a[1..] + b;
      VerbsAppend(a[1..], b);
      if |a| == 1 { assert a[1..] == []; }
    } else {
      assert (a + b)[0] == '%' && (a + b)[1] == a[1] && (a + b)[2..] == a[2..] + b;
      VerbsAppend(a[2..], b);
    }
  }

  /** A format is only served when it asks for as many arguments as there are. */
  lemma {:induction false} EveryVerbIsServed(format: bytes, args: seq<Arg>)
    ensures Sprintf(format, args).Some? ==> Verbs(format) == |args|
    decreases |format|
  {
    if format != [] {
      if format[0] != '%' {
        EveryVerbIsServed(format[1..], args);
      } else if |format| >= 2 && format[1] == '%' {
        EveryVerbIsServed(format[2..], args);
      } else if |format| >= 2 && args != [] && format[1] == args[0].verb {
        EveryVerbIsServed(format[2..], args[1..]);
      }
    }
  }

  /** A text that cannot be formatted without arguments asks for one, unless it breaks off. */
  lemma {:induction false} StrayVerb(text: bytes)
    requires EndsPlain(text)
    ensures Again(text).None? <==> Verbs(text) > 0
    decreases |text|
  {
    if text != [] {
      if text[0] != '%' {
        StrayVerb(text[1..]);
      } else if text[1] == '%' {
        StrayVerb(text[2..]);
      }
    }
  }

  // ----- texts of scalars

  /** How %f prints a double; any text without a percent sign will do. */
  type Show = uint64 -> bytes

  ghost predicate GoodShow(show: Show) { forall bits :: '%' !in show(bits) }

  function IntText(i: int): bytes { if i < 0 then ['-'] + Itoa(-i) else Itoa(i) }

  function BoolText(b: bool): bytes { if b then "true" else "false" }

  /** {"oid":'...'}: the JSON text with its last two quotes made single. */
  function IdText(id: ObjectId): bytes { "{\"oid\":'" + Storage.HexEncode(id) + "'}" }

  /** The placeholder and argument of a scalar, as whereValue, whereDocument and updateDocument write them. */
  function ScalarPiece(v: Value, show: Show): Option<Template> {
    match v
    case Int32(i) => Some(Template("%d", [Arg('d', IntText(i))]))
    case Int64(l) => Some(Template("%d", [Arg('d', IntText(l))]))
    case Double(bits) => Some(Template("%f", [Arg('f', show(bits))]))
    case String(s) => Some(Template("'%s'", [Arg('s', s)]))
    case Bool(b) => Some(Template("to_json_boolean(%t)", [Arg('t', BoolText(b))]))
    case ObjectID(id) => Some(Template("%s", [Arg('s', IdText(id))]))
    case _ => None
  }

  // ----- which values are refused

  /** A value that no branch of the switches takes. */
  predicate Unsupported(v: Value) { v.DateTime? || v.Regex? }

  /** updateDocument fails on an unsupported value, wherever it stands. */
  predicate UpdateRenders(fs: seq<Field>)
    decreases fs, 0
  {
    fs == []
    || (&& (match fs[0].value
            case Document(inner) => UpdateRenders(inner)
            case Array(es) => ArrayRenders(es)
            case v => !Unsupported(v))
        && UpdateRenders(fs[1..]))
  }

  /** whereDocument fails in the same cases, but it looks at an array's error only when the array is the last field. */
  predicate DocumentRenders(fs: seq<Field>)
    decreases fs, 0
  {
    fs == []
    || (&& (match fs[0].value
            case Document(inner) => DocumentRenders(inner)
            case Array(es) => |fs| > 1 || ArrayRenders(es)
            case v => !Unsupported(v))
        && DocumentRenders(fs[1..]))
  }

  /** PrepareArrayForSQL stops at the first error. */
  predicate ArrayRenders(es: seq<Value>)
    decreases es, 0
  {
    es == []
    || (&& (match es[0]
            case Document(inner) => DocumentRenders(inner)
            case Array(inner) => ArrayRenders(inner)
            case v => !Unsupported(v))
        && ArrayRenders(es[1..]))
  }

  // ----- the two phases

  /** What the text functions return: a finished text, or an error beside the text collected so far. In both, None
      stands for a text with Sprintf's error marks. */
  datatype Outcome = Done(text: Option<bytes>) | Failed(left: Option<bytes>)

  /** What one value adds to a template. Forgotten is the rest of a failed array, whose error is overwritten later. */
  datatype Piece = Good(t: Option<Template>) | Forgotten(left: Option<bytes>) | Bad

  function Literally(text: Option<bytes>): Option<Template> {
    match text case Some(t) => Some(Template(t, [])) case None => None
  }

  function AsArgument(text: Option<bytes>): Option<Template> {
    match text case Some(t) => Some(Template("%s", [Arg('s', t)])) case None => None
  }

  function ScalarOrBad(v: Value, show: Show): Piece {
    match ScalarPiece(v, show) case Some(p) => Good(Some(p)) case None => Bad
  }

  /** A field's value in the template of its document: strict for updateDocument, not strict for whereDocument. */
  function FieldPiece(v: Value, strict: bool, show: Show): Piece
    decreases v, 2
  {
    match v
    case Null => Good(Some(Template(" NULL ", [])))
    case Array(es) =>
      (match ArrayText(es, show)
       case Done(t) => Good(Literally(t))
       case Failed(left) => if strict then Bad else Forgotten(left))
    case Document(fs) =>
      (match DocumentText(fs, strict, show) case Done(t) => Good(AsArgument(t)) case Failed(_) => Bad)
    case _ => ScalarOrBad(v, show)
  }

  /** An element's value in the template of its array: scalars are already formatted. */
  function ElementPiece(v: Value, show: Show): Piece
    decreases v, 2
  {
    match v
    case Null => Good(Some(Template("NULL", [])))
    case Array(es) => (match ArrayText(es, show) case Done(t) => Good(AsArgument(t)) case Failed(_) => Bad)
    case Document(fs) =>
      (match DocumentText(fs, false, show) case Done(t) => Good(AsArgument(t)) case Failed(_) => Bad)
    case _ =>
      match ScalarPiece(v, show)
      case None => Bad
      case Some(p) => Good(Literally(Sprintf(p.text, p.args)))
  }

  function Separator(first: bool): bytes { if first then [] else ", " }

  function KeyText(name: bytes): bytes { "\"" + name + "\": " }

  function Append(prefix: bytes, p: Option<Template>, rest: Option<Template>): Option<Template> {
    match (p, rest)
    case (Some(p), Some(r)) => Some(Template(prefix + p.text + r.text, p.args + r.args))
    case _ => None
  }

  /** The template of a document's fields; pending is an array's error that nothing has overwritten. */
  datatype FieldsOutcome = AllFields(t: Option<Template>, pending: bool) | NoFields

  function FieldsTemplate(fs: seq<Field>, first: bool, strict: bool, show: Show): FieldsOutcome
    decreases fs, 0
  {
    if fs == [] then AllFields(Some(Template([], [])), false)
    else
      var prefix := Separator(first) + KeyText(fs[0].name);
      match (FieldPiece(fs[0].value, strict, show), FieldsTemplate(fs[1..], false, strict, show))
      case (Bad, _) => NoFields
      case (_, NoFields) => NoFields
      case (Good(p), AllFields(rest, pending)) => AllFields(Append(prefix, p, rest), pending)
      case (Forgotten(left), AllFields(rest, pending)) =>
        AllFields(Append(prefix, Literally(left), rest), if |fs| == 1 then true else pending)
  }

  /** The template of an array's elements, or what had been written when one of them failed. */
  datatype ElementsOutcome = AllElements(t: Option<Template>) | NoElements(left: Option<bytes>)

  function ElementsTemplate(es: seq<Value>, first: bool, show: Show): ElementsOutcome
    decreases es, 0
  {
    if es == [] then AllElements(Some(Template([], [])))
    else
      match ElementPiece(es[0], show)
      case Good(p) =>
        (match ElementsTemplate(es[1..], false, show)
         case AllElements(rest) => AllElements(Append(Separator(first), p, rest))
         case NoElements(left) =>
           NoElements(if p.Some? && left.Some? then Some(Separator(first) + p.value.text + left.value) else None))
      case _ => NoElements(Some(Separator(first)))
  }

  /** whereDocument, and updateDocument when strict. */
  function DocumentText(fs: seq<Field>, strict: bool, show: Show): Outcome
    decreases fs, 1
  {
    match FieldsTemplate(fs, true, strict, show)
    case NoFields => Failed(None)
    case AllFields(t, pending) =>
      var text := Closed(t);
      if pending then Failed(text) else Done(text)
  }

  function Closed(t: Option<Template>): Option<bytes> {
    match t
    case None => None
    case Some(t) => match Sprintf("{" + t.text, t.args) case Some(text) => Some(text + "}") case None => None
  }

  /** PrepareArrayForSQL. */
  function ArrayText(es: seq<Value>, show: Show): Outcome
    decreases es, 1
  {
    match ElementsTemplate(es, true, show)
    case NoElements(left) => Failed(if left.Some? then Some("[" + left.value) else None)
    case AllElements(t) => Done(if t.Some? then Sprintf("[" + t.value.text + "]", t.value.args) else None)
  }

  // ----- errors

  lemma {:induction false} FieldFails(v: Value, strict: bool, show: Show)
    ensures FieldPiece(v, strict, show).Bad?
            <==> (match v
                  case Document(inner) => if strict then !UpdateRenders(inner) else !DocumentRenders(inner)
                  case Array(es) => strict && !ArrayRenders(es)
                  case _ => Unsupported(v))
    ensures FieldPiece(v, strict, show).Forgotten? <==> v.Array? && !strict && !ArrayRenders(v.elems)
    decreases v, 2
  {
    match v
    case Document(inner) => DocumentFails(inner, strict, show);
    case Array(es) => ArrayFails(es, show);
    case _ =>
  }

  lemma {:induction false} FieldsFail(fs: seq<Field>, first: bool, strict: bool, show: Show)
    ensures var r := FieldsTemplate(fs, first, strict, show);
            (r.AllFields? && !r.pending) <==> if strict then UpdateRenders(fs) else DocumentRenders(fs)
    decreases fs, 0
  {
    if fs != [] {
      FieldFails(fs[0].value, strict, show);
      FieldsFail(fs[1..], false, strict, show);
      if |fs| == 1 { assert fs[1..] == []; }
    }
  }

  /** whereDocument and updateDocument return an error exactly on these documents. */
  lemma {:induction false} DocumentFails(fs: seq<Field>, strict: bool, show: Show)
    ensures DocumentText(fs, strict, show).Done? <==> if strict then UpdateRenders(fs) else DocumentRenders(fs)
    decreases fs, 1
  {
    FieldsFail(fs, true, strict, show);
  }

  lemma {:induction false} ElementsFail(es: seq<Value>, first: bool, show: Show)
    ensures ElementsTemplate(es, first, show).AllElements? <==> ArrayRenders(es)
    decreases es, 0
  {
    if es != [] {
      match es[0] {
        case Document(inner) => DocumentFails(inner, false, show);
        case Array(inner) => ArrayFails(inner, show);
        case _ =>
      }
      ElementsFail(es[1..], false, show);
    }
  }

  lemma {:induction false} ArrayFails(es: seq<Value>, show: Show)
    ensures ArrayText(es, show).Done? <==> ArrayRenders(es)
    decreases es, 1
  {
    ElementsFail(es, true, show);
  }

  /** Where updateDocument succeeds, whereDocument succeeds with the same text. */
  lemma {:induction false} WhereAndUpdateAgree(fs: seq<Field>, show: Show)
    requires UpdateRenders(fs)
    ensures DocumentText(fs, false, show) == DocumentText(fs, true, show)
    decreases fs, 1
  {
    FieldsAgree(fs, true, show);
  }

  lemma {:induction false} FieldsAgree(fs: seq<Field>, first: bool, show: Show)
    requires UpdateRenders(fs)
    ensures FieldsTemplate(fs, first, false, show) == FieldsTemplate(fs, first, true, show)
    decreases fs, 0
  {
    if fs != [] {
      FieldFails(fs[0].value, false, show);
      if fs[0].value.Document? { WhereAndUpdateAgree(fs[0].value.fields, show); }
      if fs[0].value.Array? { ArrayFails(fs[0].value.elems, show); }
      FieldsAgree(fs[1..], false, show);
    }
  }

  /** updateDocument succeeds exactly where whereDocument does without having forgotten the error of an array. */
  lemma {:induction false} WhereForgetsArrays(fs: seq<Field>)
    ensures UpdateRenders(fs) <==> DocumentRenders(fs) && !HasFailedArray(fs)
    decreases fs
  {
    if fs != [] {
      if fs[0].value.Document? { WhereForgetsArrays(fs[0].value.fields); }
      WhereForgetsArrays(fs[1..]);
    }
  }

  /** A field that is not the last one of its document holds an array that cannot be written. */
  predicate HasFailedArray(fs: seq<Field>) {
    fs != []
    && (|| (fs[0].value.Array? && |fs| > 1 && !ArrayRenders(fs[0].value.elems))
        || (fs[0].value.Document? && HasFailedArray(fs[0].value.fields))
        || HasFailedArray(fs[1..]))
  }

  // ----- the direct text

  function Render(v: Value, inDocument: bool, show: Show): bytes
    decreases v, 1
  {
    match v
    case Null => if inDocument then " NULL " else "NULL"
    case Int32(i) => IntText(i)
    case Int64(l) => IntText(l)
    case Double(bits) => show(bits)
    case String(s) => "'" + s + "'"
    case Bool(b) => "to_json_boolean(" + BoolText(b) + ")"
    case ObjectID(id) => IdText(id)
    case Array(es) => "[" + RenderElements(es, true, show) + "]"
    case Document(fs) => "{" + RenderFields(fs, true, show) + "}"
    case _ => []
  }

  function RenderFields(fs: seq<Field>, first: bool, show: Show): bytes
    decreases fs, 0
  {
    if fs == [] then []
    else Separator(first) + KeyText(fs[0].name) + Render(fs[0].value, true, show) + RenderFields(fs[1..], false, show)
  }

  function RenderElements(es: seq<Value>, first: bool, show: Show): bytes
    decreases es, 0
  {
    if es == [] then [] else Separator(first) + Render(es[0], false, show) + RenderElements(es[1..], false, show)
  }
}
