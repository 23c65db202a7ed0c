/** The text functions as they run: loops that append to a template and to a list of arguments, and an error variable
    that the next field overwrites. */
module RenderingLoops {
  import opened Types
  import opened Rendering
  import opened WrittenText

  /** The template so far, with what the remaining fields add; error is what the last field left behind. */
  ghost function AfterFields(template: Option<Template>, error: bool, fs: seq<Field>, first: bool, strict: bool,
                             show: Show)
    : FieldsOutcome
  {
    match FieldsTemplate(fs, first, strict, show)
    case NoFields => NoFields
    case AllFields(t, pending) => AllFields(Combine(template, t), if fs == [] then error else pending)
  }

  lemma CombineAppend(template: Option<Template>, prefix: bytes, p: Option<Template>, rest: Option<Template>)
    ensures Combine(template, Append(prefix, p, rest)) == Combine(Grown(template, prefix, p), rest)
  {
    if template.Some? && p.Some? && rest.Some? {
      Assoc(template.value.text, prefix + p.value.text, rest.value.text);
      Assoc(template.value.args, p.value.args, rest.value.args);
    }
  }

  /** The template with one more piece. */
  function Grown(template: Option<Template>, prefix: bytes, p: Option<Template>): Option<Template> {
    match (template, p)
    case (Some(t), Some(q)) => Some(Template(t.text + (prefix + q.text), t.args + q.args))
    case _ => None
  }

  lemma CombineNothing(t: Option<Template>)
    ensures Combine(Some(Template([], [])), t) == t && Combine(t, Some(Template([], []))) == t
  {
    if t.Some? {
      assert [] + t.value.text == t.value.text == t.value.text + [];
      assert [] + t.value.args == t.value.args == t.value.args + [];
    }
  }

  lemma {:induction false} FieldsTurn(template: Option<Template>, error: bool, fs: seq<Field>, first: bool,
                                      strict: bool, show: Show)
    requires fs != []
    ensures var prefix := Separator(first) + KeyText(fs[0].name);
            AfterFields(template, error, fs, first, strict, show)
            == match FieldPiece(fs[0].value, strict, show)
               case Bad => NoFields
               case Good(p) => AfterFields(Grown(template, prefix, p), false, fs[1..], false, strict, show)
               case Forgotten(left) =>
                 AfterFields(Grown(template, prefix, Literally(left)), true, fs[1..], false, strict, show)
  {
    var prefix := Separator(first) + KeyText(fs[0].name);
    var rest := FieldsTemplate(fs[1..], false, strict, show);
    if rest.AllFields? {
      match FieldPiece(fs[0].value, strict, show)
      case Good(p) => CombineAppend(template, prefix, p, rest.t);
      case Forgotten(left) => CombineAppend(template, prefix, Literally(left), rest.t);
      case Bad =>
    }
    if |fs| == 1 { assert fs[1..] == []; }
  }

  lemma StartFields(fs: seq<Field>, strict: bool, show: Show)
    ensures AfterFields(Some(Template([], [])), false, fs, true, strict, show) == FieldsTemplate(fs, true, strict, show)
  {
    match FieldsTemplate(fs, true, strict, show)
    case AllFields(t, _) => CombineNothing(t);
    case NoFields =>
  }

  /** whereDocument. */
  method WhereDocument(fs: seq<Field>, show: Show) returns (docSQL: Outcome)
    ensures docSQL == DocumentText(fs, false, show)
    decreases fs
  {
    var template, err := Some(Template([], [])), false;
    StartFields(fs, false, show);
    for i := 0 to |fs|
      invariant FieldsTemplate(fs, true, false, show) == AfterFields(template, err, fs[i..], i == 0, false, show)
    {
      ghost var tail := fs[i..];
      assert tail[1..] == fs[i + 1..];
      FieldsTurn(template, err, tail, i == 0, false, show);
      var prefix := Separator(i == 0) + KeyText(fs[i].name);
      err := false;
      match fs[i].value {
        case Null => template := Grown(template, prefix, Some(Template(" NULL ", [])));
        case Array(es) =>
          var sqlArray := PrepareArrayForSQL(es, show);
          err := sqlArray.Failed?;
          template := Grown(template, prefix, Literally(if err then sqlArray.left else sqlArray.text));
        case Document(inner) =>
          var docValue := WhereDocument(inner, show);
          if docValue.Failed? { return Failed(None); }
          template := Grown(template, prefix, AsArgument(docValue.text));
        case _ =>
          var p := ScalarPiece(fs[i].value, show);
          if p.None? { return Failed(None); }
          template := Grown(template, prefix, p);
      }
    }
    CombineNothing(template);
    docSQL := if err then Failed(Closed(template)) else Done(Closed(template));
  }

  /** updateDocument: the same loop, but an array's error is looked at. */
  method UpdateDocument(fs: seq<Field>, show: Show) returns (docSQL: Outcome)
    ensures docSQL == DocumentText(fs, true, show)
    decreases fs
  {
    var template := Some(Template([], []));
    StartFields(fs, true, show);
    for i := 0 to |fs|
      invariant FieldsTemplate(fs, true, true, show) == AfterFields(template, false, fs[i..], i == 0, true, show)
    {
      ghost var tail := fs[i..];
      assert tail[1..] == fs[i + 1..];
      FieldsTurn(template, false, tail, i == 0, true, show);
      var prefix := Separator(i == 0) + KeyText(fs[i].name);
      match fs[i].value {
        case Null => template := Grown(template, prefix, Some(Template(" NULL ", [])));
        case Array(es) =>
          var arraySQL := PrepareArrayForSQL(es, show);
          if arraySQL.Failed? { return Failed(None); }
          template := Grown(template, prefix, Literally(arraySQL.text));
        case Document(inner) =>
          var docValue := UpdateDocument(inner, show);
          if docValue.Failed? { return Failed(None); }
          template := Grown(template, prefix, AsArgument(docValue.text));
        case _ =>
          var p := ScalarPiece(fs[i].value, show);
          if p.None? { return Failed(None); }
          template := Grown(template, prefix, p);
      }
    }
    CombineNothing(template);
    docSQL := Done(Closed(template));
  }

  // ----- arrays

  ghost function AfterElements(template: Option<Template>, es: seq<Value>, first: bool, show: Show): ElementsOutcome {
    match ElementsTemplate(es, first, show)
    case AllElements(t) => AllElements(Combine(template, t))
    case NoElements(left) =>
      NoElements(if template.Some? && left.Some? then Some(template.value.text + left.value) else None)
  }

  lemma {:induction false} ElementsTurn(template: Option<Template>, es: seq<Value>, first: bool, show: Show)
    requires es != []
    ensures AfterElements(template, es, first, show)
         == match ElementPiece(es[0], show)
            case Good(p) => AfterElements(Grown(template, Separator(first), p), es[1..], false, show)
            case _ => NoElements(if template.Some? then Some(template.value.text + Separator(first)) else None)
  {
    var piece := ElementPiece(es[0], show);
    if piece.Good? {
      match ElementsTemplate(es[1..], false, show)
      case AllElements(rest) => CombineAppend(template, Separator(first), piece.t, rest);
      case NoElements(left) =>
        if template.Some? && piece.t.Some? && left.Some? {
          Assoc(template.value.text, Separator(first) + piece.t.value.text, left.value);
        }
    }
  }

  /** PrepareArrayForSQL: on an error the text collected so far is returned as it is, placeholders included. */
  method PrepareArrayForSQL(es: seq<Value>, show: Show) returns (sqlArray: Outcome)
    ensures sqlArray == ArrayText(es, show)
    decreases es
  {
    var template := Some(Template([], []));
    StartElements(es, show);
    for i := 0 to |es|
      invariant ElementsTemplate(es, true, show) == AfterElements(template, es[i..], i == 0, show)
    {
      ghost var tail := es[i..];
      assert tail[1..] == es[i + 1..];
      ElementsTurn(template, tail, i == 0, show);
      var stopped: Option<bytes> :=
        if template.Some? then Some("[" + (template.value.text + Separator(i == 0))) else None;
      match es[i] {
        case Null => template := Grown(template, Separator(i == 0), Some(Template("NULL", [])));
        case Array(inner) =>
          var sql := PrepareArrayForSQL(inner, show);
          if sql.Failed? { return Failed(stopped); }
          template := Grown(template, Separator(i == 0), AsArgument(sql.text));
        case Document(inner) =>
          var docValue := WhereDocument(inner, show);
          if docValue.Failed? { return Failed(stopped); }
          template := Grown(template, Separator(i == 0), AsArgument(docValue.text));
        case _ =>
          var p := ScalarPiece(es[i], show);
          if p.None? { return Failed(stopped); }
          template := Grown(template, Separator(i == 0), Literally(Sprintf(p.value.text, p.value.args)));
      }
    }
    CombineNothing(template);
    sqlArray := Done(if template.Some? then Sprintf("[" + template.value.text + "]", template.value.args) else None);
  }

  lemma StartElements(es: seq<Value>, show: Show)
    ensures AfterElements(Some(Template([], [])), es, true, show) == ElementsTemplate(es, true, show)
  {
    match ElementsTemplate(es, true, show)
    case AllElements(t) => CombineNothing(t);
    case NoElements(left) => if left.Some? { assert [] + left.value == left.value; }
  }
}
