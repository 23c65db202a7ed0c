/** What percent signs do to updateMany and deleteMany: the condition is formatted once more before it is sent. */
module PercentSigns {
  import opened Types
  import opened Sql
  import opened Where
  import opened Filter
  import opened Rows
  import opened Update
  import opened UpdateMeaning
  import opened PercentFreeFilters
  import opened FormattedFilters
  import opened Sending
  import opened Commands
  import opened CommandSafety
  import opened CommandMeaning
  import Like
  import Rendering
  import Statements

  /** Delete without a limit formats the filter once more: it removes what the formatted filter matches. */
  lemma {:induction false} DeleteManyTakesFormatted(before: seq<Fields>, entry: Fields, q: Fields, db: Database,
                                                    after: seq<Fields>, r: Result<nat>)
    requires var limit := Get(entry, "limit"); limit.Some? && limit.value.Int32? ==> limit.value.i == 0
    requires DeleteStep(before, entry, db, false, after, r) && DeletesBy(entry, q)
    requires SupportedPairs(q, false) && FormatFilter(q).Some? && Readable(before, FormatFilter(q).value)
    ensures var formatted := FormatFilter(q).value;
            && after == DeleteRows(before, ByFilter(formatted, db.compare))
            && r == Ok(Count(before, ByFilter(formatted, db.compare)))
  {
    hide WhereClause, Read, ReadSent, DeleteStep, DeletesBy, MatchesPairs, SupportedPairs, FormatFilter;
    var formatted := FormatFilter(q).value;
    SqlChoosesMatches(before, formatted, db);
    SentAsFormatted(q, [], db);
    assert WhereClause(formatted, false).value + [] == WhereClause(formatted, false).value;
    DeleteManyIsSent(before, entry, q, db, after, r);
  }

  /** Update with multi: what is updated belongs to the formatted filter, what is reported as matched to the filter. */
  lemma {:induction false} UpdateManyTakesFormatted(before: seq<Fields>, entry: Fields, q: Fields, u: Fields,
                                                    db: Database, after: seq<Fields>, r: Result<Counts>)
    requires Get(entry, "multi") == Some(Bool(true))
    requires UpdateStep(before, entry, db, false, after, r) && UpdatesBy(entry, q, u)
    requires q != [] && FormatFilter(q).Some? && Readable(before, q) && Readable(before, FormatFilter(q).value)
    requires Exact(before, u, db.compare)
    ensures var plan := UpdatePlan(u, false).value;
            var formatted := FormatFilter(q).value;
            && |after| == |before|
            && (forall i :: 0 <= i < |before| ==> after[i] == AfterUpdate(before[i], formatted, plan, db.compare))
            && r == Ok((Count(before, ByFilter(q, db.compare)), Count(before, ByNeed(formatted, plan, db.compare))))
  {
    FormattedIsThere(q);
    hide WhereClause, UpdatePlan, ReadSent, Read, MatchesPairs, SupportedPairs, Assigned, UpdateStep, UpdatesBy,
      PlainUpdate, ExactOn, UpdatesOne, UpdatesMany, FormatFilter, UpdateRows, BySql, ByNeed, ByFilter,
      AfterUpdate;
    var plan := UpdatePlan(u, false).value;
    var formatted := FormatFilter(q).value;
    SentAsFormatted(q, plan.guard, db);
    SqlChoosesMatches(before, q, db);
    GuardedChoice(before, formatted, u, db);
    PlainIsAssigned(u, db);
    UpdateIsSent(before, entry, q, u, db, after, r);
    ManyAreUpdated(before, Read(WhereClause(formatted, false).value + plan.guard, db).value, formatted, plan,
                   Count(before, ByFilter(q, db.compare)), db, after, r);
  }

  lemma FormattedIsThere(q: Fields)
    requires q != [] && FormatFilter(q).Some?
    ensures FormatFilter(q).value != []
  {
  }

  // ----- failing inputs

  /** One field compared with a string. */
  function StringFilter(k: bytes, s: bytes): Fields { [Field(k, String(s))] }

  lemma StringIsReadable(rows: seq<Fields>, k: bytes, s: bytes)
    requires !IsOperator(k) && WhereKey(k).Ok? && forall i :: 0 <= i < |rows| ==> OrdinaryField(k, rows[i])
    ensures Readable(rows, StringFilter(k, s))
  {
    assert StringFilter(k, s)[1..] == [];
    assert SupportedPair(k, String(s), false);
  }

  lemma StringFormats(k: bytes, s: bytes, t: bytes)
    requires !IsOperator(k) && '%' !in k && Rendering.Again(s) == Some(t)
    ensures FormatFilter(StringFilter(k, s)) == Some(StringFilter(k, t))
  {
    Rendering.SurvivesFormatting(k);
    assert StringFilter(k, s)[1..] == [];
    assert FormatPair(Field(k, String(s))) == Some(Field(k, String(t)));
    assert [Field(k, String(t))] + [] == StringFilter(k, t);
  }

  /** {f: "a%%b"}: of the documents {f: "a%%b"} and {f: "a%b"}, the matching one stays and the other one goes. */
  lemma {:induction false} DeleteManyTakesTheWrongOne(entry: Fields, db: Database, after: seq<Fields>, r: Result<nat>)
    requires var limit := Get(entry, "limit"); limit.Some? && limit.value.Int32? ==> limit.value.i == 0
    requires DeletesBy(entry, StringFilter("f", "a%%b"))
    requires DeleteStep([StringFilter("f", "a%%b"), StringFilter("f", "a%b")], entry, db, false, after, r)
    requires db.compare(String("a%b"), String("a%b")) == Equal && db.compare(String("a%%b"), String("a%b")) != Equal
    ensures after == [StringFilter("f", "a%%b")]
  {
    hide DeleteStep, ByFilter, DeleteRows, DeletesBy, FormatFilter, Readable, SupportedPairs;
    var s, t: bytes := "a%%b", "a%b";
    var before := [StringFilter("f", s), StringFilter("f", t)];
    PairFormats();
    SingleField("f", s);
    SingleField("f", t);
    StringFormats("f", s, t);
    StringIsReadable(before, "f", s);
    StringIsReadable(before, "f", t);
    DeleteManyTakesFormatted(before, entry, StringFilter("f", s), db, after, r);
    var chosen := ByFilter(StringFilter("f", t), db.compare);
    MatchesString("f", t, s, db.compare);
    MatchesString("f", t, t, db.compare);
    DeleteJustOne(before, chosen, 1);
    assert before[..1] + before[2..] == [StringFilter("f", s)];
  }

  lemma PairFormats()
    ensures Rendering.Again("a%%b") == Some("a%b")
  {
    var tail: bytes := "%%b";
    Rendering.SurvivesFormatting("b");
    assert tail[2..] == "b" && ['%'] + "b" == "%b" && "a" + "%b" == "a%b" && "a" + tail == "a%%b";
    Rendering.SprintfPlain("a", tail, []);
  }

  lemma SingleField(k: bytes, s: bytes)
    requires '.' !in k && '\n' !in s
    ensures OrdinaryField(k, StringFilter(k, s))
    ensures KeyWalk(Document(StringFilter(k, s)), Parts(k)) == Some(String(s))
  {
    assert [k][1..] == [];
  }

  lemma {:induction false} MatchesString(k: bytes, wanted: bytes, held: bytes, compare: Comparison)
    requires '.' !in k && !IsOperator(k) && '\n' !in held
    ensures ByFilter(StringFilter(k, wanted), compare)(StringFilter(k, held))
            <==> compare(String(held), String(wanted)) == Equal
  {
    SingleField(k, held);
    var q, row := StringFilter(k, wanted), StringFilter(k, held);
    var d := RowView(row, compare);
    assert q[1..] == [] && MatchesPairs(q[1..], d);
    assert d.field(k) == Val(String(held));
    assert MatchesPair(k, String(wanted), d) <==> compare(String(held), String(wanted)) == Equal;
  }

  /** {f: /^ab/} is supported, but its pattern ab% breaks the statement: formatting leaves an error mark. */
  lemma {:induction false} PatternBreaksStatement()
    ensures var q := [Field("f", Regex("^ab", []))];
            && SupportedPairs(q, false) && WhereClause(q, false).Ok?
            && Statements.FormatTokens(WhereClause(q, false).value) == None
  {
    hide RegexPattern, IsFaithfulRegex, Logic, FieldExpression;
    var v := Regex("^ab", []);
    var q := [Field("f", v)];
    var head, pattern := [WHERE, Ident([Name("f")]), LIKE], [PatternText(Like.Pattern("ab%", false))];
    AnchoredPattern();
    assert q[1..] == [];
    assert SupportedPair("f", v, false);
    var ts := [Ident([Name("f")])] + [LIKE] + pattern;
    assert Pair("f", v, false) == Ok(ts);
    assert [] + ts + [] == ts && [WHERE] + ts == head + pattern;
    assert Pairs(q, true, false) == Then([] + ts, Ok([]));
    LonePercent();
    assert pattern[1..] == [] && Statements.FormatTokens(pattern) == None;
    Statements.FormatJoined(head, pattern);
  }

  lemma LonePercent()
    ensures Rendering.Again("ab%") == None
  {
    var tail: bytes := "%";
    Rendering.SprintfPlain("ab", tail, []);
    assert "ab" + tail == "ab%";
  }

  lemma AnchoredPattern()
    ensures RegexPattern(Regex("^ab", [])) == Ok(Like.Pattern("ab%", false)) && IsFaithfulRegex(Regex("^ab", []))
  {
    hide Like.Run, Like.Translate;
    var p: bytes := "^ab";
    AnchoredTranslation();
    assert p[1..] == "ab" && "ab"[1..] == "b" && "b"[1..] == [];
    assert Like.SimpleBody("b") && Like.SimpleBody("ab");
    assert !Contains(p, IGNORE_CASE) && !Contains(p, RESPECT_CASE);
  }

  lemma AnchoredTranslation()
    ensures Like.Translate("^ab") == Like.Pattern("ab%", false)
  {
    var p: bytes, last := "^ab", Like.State("ab%", false, false);
    assert Like.Run(p, 3, last) == last;
    assert "a" + ['b', '%'] == "ab%" && [] + ['a'] == "a";
    assert Like.Run(p, 2, Like.State("a", false, false)) == last;
    assert Like.Run(p, 1, Like.START) == last;
    assert Like.Run(p, 0, Like.START) == last;
  }
}
