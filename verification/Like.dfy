/** From regular expression to LIKE pattern: the character loop of the filter compiler, and what it preserves. */
module Like {
  import opened Types

  // ----- the two languages

  /** The LIKE predicate (section 8.5 of ISO/IEC 9075:1992): % stands for any text, _ for any one character. With
      the clause ESCAPE '^', a ^ makes the next character stand for itself. */
  predicate Matches(p: bytes, escape: bool, s: bytes)
    decreases |p|, |s|
  {
    if p == [] then s == []
    else if p[0] == '%' then Matches(p[1..], escape, s) || (s != [] && Matches(p, escape, s[1..]))
    else if p[0] == '_' then s != [] && Matches(p[1..], escape, s[1..])
    else if escape && p[0] == '^' then |p| >= 2 && s != [] && s[0] == p[1] && Matches(p[2..], escape, s[1..])
    else s != [] && s[0] == p[0] && Matches(p[1..], escape, s[1..])
  }

  /** A match of the expression p at the front of s; p has no leading ^. */
  predicate MatchHere(p: bytes, s: bytes)
    decreases |p|, |s|
  {
    if p == [] then true
    else if p == ['$'] then s == []
    else if |p| >= 2 && p[0] == '.' && p[1] == '*' then
      MatchHere(p[2..], s) || (s != [] && s[0] != '\n' && MatchHere(p, s[1..]))
    else if p[0] == '.' then s != [] && s[0] != '\n' && MatchHere(p[1..], s[1..])
    else s != [] && s[0] == p[0] && MatchHere(p[1..], s[1..])
  }

  predicate MatchSomewhere(p: bytes, s: bytes) {
    MatchHere(p, s) || (s != [] && MatchSomewhere(p, s[1..]))
  }

  predicate Anchored(p: bytes) { p != [] && p[0] == '^' }

  function Body(p: bytes): bytes { if Anchored(p) then p[1..] else p }

  /** A regular expression finds a match in s: at the front when it starts with ^, otherwise anywhere. */
  predicate Finds(p: bytes, s: bytes) {
    if Anchored(p) then MatchHere(Body(p), s) else MatchSomewhere(p, s)
  }

  predicate OtherOperator(c: byte) {
    || c == '*' || c == '^' || c == '(' || c == ')' || c == '[' || c == ']'
    || c == '{' || c == '}' || c == '?' || c == '+' || c == '|' || c == '\\'
  }

  /** Literals, ".", ".*" and a final "$". */
  predicate SimpleBody(p: bytes) {
    if p == [] then true
    else if |p| >= 2 && p[0] == '.' && p[1] == '*' then SimpleBody(p[2..])
    else if p[0] == '$' then |p| == 1
    else !OtherOperator(p[0]) && p[0] as int < 0x80 && SimpleBody(p[1..])
  }

  /** The expressions whose operators the translation knows: an optional ^ and a simple body. */
  predicate Simple(p: bytes) { SimpleBody(Body(p)) }

  predicate OneLine(s: bytes) { '\n' !in s }

  // ----- the translation

  datatype Pattern = Pattern(text: bytes, escape: bool)

  datatype State = State(text: bytes, dot: bool, escape: bool)

  predicate Wild(c: byte) { c == '%' || c == '_' }

  /** The first character. A dot is remembered; nothing is written for it yet. */
  function First(c: byte, st: State): State {
    if c == '^' then st
    else if c == '.' then st.(dot := true)
    else if Wild(c) then st.(text := st.text + ['%', '^', c], escape := true)
    else st.(text := st.text + ['%', c])
  }

  /** A character after the first dot of an expression that starts with a dot. */
  function Second(c: byte, st: State): State {
    if st.dot && c != '*' then State(st.text + ['%', '_'], c == '.', st.escape) else st
  }

  function Last(c: byte, st: State): State {
    if st.dot && c == '.' then st.(text := st.text + ['_'] + ['_', '%'])
    else
      var t := if st.dot && c != '*' then st.(text := st.text + ['_'], dot := false) else st;
      if c == '$' then t
      else if c == '*' && t.dot then t.(text := t.text + ['%', '%'])
      else if c == '.' then t.(text := t.text + ['_', '%'])
      else if Wild(c) then t.(text := t.text + ['^', c, '%'], escape := true)
      else t.(text := t.text + [c, '%'])
  }

  function Middle(c: byte, st: State): State {
    if st.dot && c == '.' then st.(text := st.text + ['_'])
    else
      var t := if st.dot && c != '*' then st.(text := st.text + ['_'], dot := false) else st;
      if c == '.' then t.(dot := true)
      else if c == '*' && t.dot then t.(text := t.text + ['%'], dot := false)
      else if Wild(c) then t.(text := t.text + ['^', c], escape := true)
      else t.(text := t.text + [c])
  }

  /** What the loop does with character i, which the source decides from i, the length and the pending dot. */
  function Step(p: bytes, i: nat, st: State): State
    requires i < |p|
  {
    if i == 0 then First(p[0], st)
    else
      var t := if i == 1 then Second(p[1], st) else st;
      if i == 1 && st.dot && p[1] == '.' then t
      else if i == |p| - 1 then Last(p[i], t)
      else Middle(p[i], t)
  }

  function Run(p: bytes, i: nat, st: State): State
    requires i <= |p|
    decreases |p| - i
  {
    if i == |p| then st else Run(p, i + 1, Step(p, i, st))
  }

  const START := State([], false, false)

  function Translate(p: bytes): Pattern {
    var st := Run(p, 0, START);
    Pattern(st.text, st.escape)
  }

  /** The loop of the source, with its early continues. */
  method TranslateLoop(value: bytes) returns (r: Pattern)
    ensures r == Translate(value)
  {
    var vSQL: bytes, escape, dot := [], false, false;
    for i := 0 to |value|
      invariant Run(value, 0, START) == Run(value, i, State(vSQL, dot, escape))
    {
      var s := value[i];
      if i == 0 {
        if s == '^' { continue; }
        if s == '.' {
          dot := true;
          continue;
        }
        if s == '%' || s == '_' {
          vSQL := vSQL + ['%', '^', s];
          escape := true;
          continue;
        }
        vSQL := vSQL + ['%', s];
        continue;
      }

      if dot && s != '*' && i == 1 {
        vSQL := vSQL + ['%', '_'];
        if s != '.' {
          dot := false;
        } else {
          continue;
        }
      }

      if i == |value| - 1 {
        if dot && s != '*' {
          vSQL := vSQL + ['_'];
          if s == '.' {
            vSQL := vSQL + ['_', '%'];
            continue;
          } else {
            dot := false;
          }
        }
        if s == '$' { continue; }
        if s == '*' && dot {
          vSQL := vSQL + ['%', '%'];
          continue;
        }
        if s == '.' {
          vSQL := vSQL + ['_', '%'];
          continue;
        }
        if s == '%' || s == '_' {
          vSQL := vSQL + ['^', s, '%'];
          escape := true;
          continue;
        }
        vSQL := vSQL + [s, '%'];
        continue;
      }

      if dot && s != '*' {
        vSQL := vSQL + ['_'];
        if s == '.' {
          continue;
        } else {
          dot := false;
        }
      }

      if s == '.' {
        dot := true;
        continue;
      } else if s == '*' && dot {
        vSQL := vSQL + ['%'];
        dot := false;
        continue;
      } else if s == '%' || s == '_' {
        vSQL := vSQL + ['^', s];
        escape := true;
        continue;
      }
      vSQL := vSQL + [s];
    }
    r := Pattern(vSQL, escape);
  }

  // ----- what the loop writes

  /** The LIKE text of a body, with the % that follows it unless the body ends in $. */
  function Image(b: bytes): bytes {
    if b == [] then ['%']
    else if b == ['$'] then []
    else if |b| >= 2 && b[0] == '.' && b[1] == '*' then ['%'] + Image(b[2..])
    else if b[0] == '.' then ['_'] + Image(b[1..])
    else if Wild(b[0]) then ['^', b[0]] + Image(b[1..])
    else [b[0]] + Image(b[1..])
  }

  predicate HasWild(b: bytes) { exists i :: 0 <= i < |b| && Wild(b[i]) }

  /** The leading %: none after ^, and none in front of ".*", which writes its own. */
  function Lead(p: bytes): bytes {
    if Anchored(p) || (|p| >= 2 && p[0] == '.' && p[1] == '*') then [] else ['%']
  }

  function Pending(st: State): bytes { if st.dot then ['.'] else [] }

  /** The text that the state stands for when the characters q are still to come. */
  ghost predicate Promises(st: State, q: bytes, text: bytes, wild: bool) {
    && SimpleBody(Pending(st) + q)
    && text == st.text + Image(Pending(st) + q)
    && (wild <==> st.escape || HasWild(q))
  }

  lemma WildCons(c: byte, q: bytes)
    ensures HasWild([c] + q) <==> Wild(c) || HasWild(q)
  {
    var cq := [c] + q;
    assert cq[0] == c;
    if HasWild(q) {
      var i :| 0 <= i < |q| && Wild(q[i]);
      assert Wild(cq[i + 1]);
    }
    if i :| 0 <= i < |cq| && Wild(cq[i]) {
      if i > 0 { assert Wild(q[i - 1]); }
    }
  }

  /** A pending dot is settled by whatever follows it, unless that is a *. */
  lemma DotSettled(c: byte, q: bytes, st: State, text: bytes, wild: bool)
    requires st.dot && c != '*' && Promises(st, [c] + q, text, wild)
    ensures Promises(st.(text := st.text + ['_'], dot := false), [c] + q, text, wild)
  {
    var cq := [c] + q;
    var b := ['.'] + cq;
    assert b[1..] == cq && [] + cq == cq;
    Assoc(st.text, ['_'], Image(cq));
  }

  lemma StarSettled(q: bytes, st: State, text: bytes, wild: bool)
    requires st.dot && Promises(st, ['*'] + q, text, wild)
    ensures Promises(st.(text := st.text + ['%'], dot := false), q, text, wild)
  {
    WildCons('*', q);
    var b := ['.'] + (['*'] + q);
    assert b[2..] == q && [] + q == q;
    Assoc(st.text, ['%'], Image(q));
  }

  lemma NoDotKeeps(c: byte, q: bytes, st: State, text: bytes, wild: bool)
    requires !st.dot && q != [] && Promises(st, [c] + q, text, wild)
    ensures Promises(Middle(c, st), q, text, wild)
  {
    WildCons(c, q);
    var cq := [c] + q;
    assert cq[1..] == q && [] + cq == cq && [] + q == q;
    if Wild(c) {
      Assoc(st.text, ['^', c], Image(q));
    } else if c != '.' {
      Assoc(st.text, [c], Image(q));
    }
  }

  lemma MiddleKeeps(c: byte, q: bytes, st: State, text: bytes, wild: bool)
    requires q != [] && Promises(st, [c] + q, text, wild)
    ensures Promises(Middle(c, st), q, text, wild)
  {
    if st.dot && c == '*' {
      StarSettled(q, st, text, wild);
    } else if st.dot {
      DotSettled(c, q, st, text, wild);
      NoDotKeeps(c, q, st.(text := st.text + ['_'], dot := false), text, wild);
    } else {
      NoDotKeeps(c, q, st, text, wild);
    }
  }

  lemma NoDotLast(c: byte, st: State, text: bytes, wild: bool)
    requires !st.dot && Promises(st, [c], text, wild)
    ensures Last(c, st) == State(text, false, wild)
  {
    WildCons(c, []);
    assert [c] + [] == [c] && [] + [c] == [c] && [c][1..] == [];
    assert Image([c])
        == if c == '$' then [] else if c == '.' then ['_', '%'] else if Wild(c) then ['^', c, '%'] else [c, '%'];
  }

  lemma LastKeeps(c: byte, st: State, text: bytes, wild: bool)
    requires Promises(st, [c], text, wild)
    ensures Last(c, st).text == text && Last(c, st).escape == wild
  {
    assert [c] + [] == [c];
    if st.dot && c == '*' {
      StarSettled([], st, text, wild);
      assert st.text + ['%'] + ['%'] == st.text + ['%', '%'];
    } else if st.dot {
      DotSettled(c, [], st, text, wild);
      NoDotLast(c, st.(text := st.text + ['_'], dot := false), text, wild);
    } else {
      NoDotLast(c, st, text, wild);
    }
  }

  lemma {:induction false} RestKeeps(p: bytes, i: nat, st: State, text: bytes, wild: bool)
    requires 2 <= i < |p| || (i == 1 < |p| && !st.dot)
    requires Promises(st, p[i..], text, wild)
    ensures Run(p, i, st).text == text && Run(p, i, st).escape == wild
    decreases |p| - i
  {
    assert p[i..] == [p[i]] + p[i + 1..];
    if i == |p| - 1 {
      assert p[i..] == [p[i]];
      LastKeeps(p[i], st, text, wild);
    } else {
      MiddleKeeps(p[i], p[i + 1..], st, text, wild);
      RestKeeps(p, i + 1, Middle(p[i], st), text, wild);
    }
  }

  /** Expressions too short for the loop: it writes the closing % when it meets the last character, and that must
      not be the first one, nor the second of two dots. */
  predicate LongEnough(p: bytes) { |p| >= 2 && p != ['.', '.'] }

  lemma TranslateIsImage(p: bytes)
    requires Simple(p) && LongEnough(p)
    ensures Translate(p) == Pattern(Lead(p) + Image(Body(p)), HasWild(p))
  {
    var text := Lead(p) + Image(Body(p));
    var st := First(p[0], START);
    HeadTail(p);
    WildCons(p[0], p[1..]);
    if p[0] != '.' {
      assert Pending(st) + p[1..] == p[1..];
      assert Promises(st, p[1..], text, HasWild(p));
      RestKeeps(p, 1, st, text, HasWild(p));
    } else {
      HeadTail(p[1..]);
      WildCons(p[1], p[2..]);
      if p[1] == '*' {
        DotStarFirst(p);
      } else if p[1] == '.' {
        DotDotFirst(p);
      } else {
        DotFirst(p);
      }
    }
  }

  predicate Writes(p: bytes)
    requires p != []
  {
    Run(p, 1, First(p[0], START)).text == Lead(p) + Image(p) && Run(p, 1, First(p[0], START)).escape == HasWild(p)
  }

  lemma {:induction false} DotStarFirst(p: bytes)
    requires SimpleBody(p) && |p| >= 2 && p[0] == '.' && p[1] == '*' && (HasWild(p) <==> HasWild(p[2..]))
    ensures Writes(p)
  {
    var q := p[2..];
    var st := First('.', START);
    assert Lead(p) + Image(p) == Image(p);
    if q == [] {
      assert Last('*', st).text == ['%', '%'] == Image(p);
    } else {
      var st2 := Middle('*', st);
      assert Pending(st2) + q == q;
      RestKeeps(p, 2, st2, Lead(p) + Image(p), HasWild(p));
    }
  }

  lemma DotDotFirst(p: bytes)
    requires SimpleBody(p) && |p| >= 3 && p[0] == '.' && p[1] == '.' && (HasWild(p) <==> HasWild(p[2..]))
    ensures Writes(p)
  {
    var q := p[2..];
    var st2 := Second('.', First('.', START));
    assert Pending(st2) + q == p[1..];
    assert ['%'] + (['_'] + Image(p[1..])) == ['%', '_'] + Image(p[1..]);
    RestKeeps(p, 2, st2, Lead(p) + Image(p), HasWild(p));
  }

  lemma DotFirst(p: bytes)
    requires SimpleBody(p) && |p| >= 2 && p[0] == '.' && p[1] != '.' && p[1] != '*'
    requires HasWild(p) <==> HasWild(p[1..])
    ensures Writes(p)
  {
    var st1 := Second(p[1], First('.', START));
    var text := Lead(p) + Image(p);
    assert Pending(st1) + p[1..] == p[1..];
    assert ['%'] + (['_'] + Image(p[1..])) == ['%', '_'] + Image(p[1..]);
    assert Promises(st1, p[1..], text, HasWild(p));
    HeadTail(p[1..]);
    if |p| == 2 {
      assert p[1..] == [p[1]];
      LastKeeps(p[1], st1, text, HasWild(p));
    } else {
      MiddleKeeps(p[1], p[2..], st1, text, HasWild(p));
      RestKeeps(p, 2, Middle(p[1], st1), text, HasWild(p));
    }
  }

  // ----- what it means

  lemma {:induction false} PercentMatchesAll(escape: bool, s: bytes)
    ensures Matches(['%'], escape, s)
  {
    if s != [] { PercentMatchesAll(escape, s[1..]); }
  }

  lemma {:induction false} ImageMatchesBody(b: bytes, escape: bool, s: bytes)
    requires SimpleBody(b) && OneLine(s) && (HasWild(b) ==> escape)
    ensures Matches(Image(b), escape, s) == MatchHere(b, s)
    decreases |b|, |s|
  {
    if b == [] {
      PercentMatchesAll(escape, s);
    } else if b == ['$'] {
    } else if |b| >= 2 && b[0] == '.' && b[1] == '*' {
      assert HasWild(b[2..]) ==> HasWild(b) by {
        if i :| 0 <= i < |b[2..]| && Wild(b[2..][i]) { assert Wild(b[i + 2]); }
      }
      assert Image(b)[1..] == Image(b[2..]);
      ImageMatchesBody(b[2..], escape, s);
      if s != [] { ImageMatchesBody(b, escape, s[1..]); }
    } else {
      assert b == [b[0]] + b[1..];
      WildCons(b[0], b[1..]);
      assert Image(b)[(if Wild(b[0]) then 2 else 1)..] == Image(b[1..]);
      if s != [] { ImageMatchesBody(b[1..], escape, s[1..]); }
    }
  }

  lemma {:induction false} LeadingPercent(b: bytes, escape: bool, s: bytes)
    requires SimpleBody(b) && OneLine(s) && (HasWild(b) ==> escape)
    ensures Matches(['%'] + Image(b), escape, s) == MatchSomewhere(b, s)
    decreases |s|
  {
    assert (['%'] + Image(b))[1..] == Image(b);
    ImageMatchesBody(b, escape, s);
    if s != [] { LeadingPercent(b, escape, s[1..]); }
  }

  lemma {:induction false} StarAbsorbsSearch(b: bytes, s: bytes)
    requires |b| >= 2 && b[0] == '.' && b[1] == '*' && OneLine(s)
    ensures MatchSomewhere(b, s) == MatchHere(b, s)
    decreases |s|
  {
    if s != [] { StarAbsorbsSearch(b, s[1..]); }
  }

  /** The LIKE pattern matches exactly the one-line texts in which the expression is found. */
  lemma TranslationPreservesMatching(p: bytes, s: bytes)
    requires Simple(p) && LongEnough(p) && OneLine(s)
    ensures Matches(Translate(p).text, Translate(p).escape, s) == Finds(p, s)
  {
    TranslateIsImage(p);
    var b := Body(p);
    assert HasWild(b) ==> HasWild(p) by {
      if Anchored(p) && HasWild(b) {
        var i :| 0 <= i < |b| && Wild(b[i]);
        assert Wild(p[i + 1]);
      }
    }
    if Anchored(p) {
      ImageMatchesBody(b, HasWild(p), s);
      assert Lead(p) + Image(b) == Image(b);
    } else if |p| >= 2 && p[0] == '.' && p[1] == '*' {
      ImageMatchesBody(p, HasWild(p), s);
      StarAbsorbsSearch(p, s);
      assert Lead(p) + Image(b) == Image(b);
    } else {
      LeadingPercent(p, HasWild(p), s);
    }
  }

  /** A text on which a too short expression and its LIKE pattern disagree. */
  function Witness(p: bytes): (s: bytes) {
    if |p| == 1 && p[0] == '$' then []
    else if |p| == 1 && p[0] != '.' && p[0] != '^' then [p[0], if p[0] == 'a' then 'b' else 'a']
    else ['a']
  }

  lemma OneLiteral(c: byte, s: bytes)
    ensures !Wild(c) ==> (Matches([c], false, s) <==> s == [c])
    ensures Matches(['^', c], true, s) <==> s == [c]
  {
    assert [c][1..] == [] && ['^', c][2..] == [];
    if s != [] { assert s[1..] == [] <==> s == [s[0]]; }
  }

  /** "%c" does not match a c that is followed by something else. */
  lemma LiteralNotLast(t: bytes, escape: bool, c: byte, d: byte)
    requires forall s :: Matches(t, escape, s) <==> s == [c]
    requires c != d
    ensures !Matches(['%'] + t, escape, [c, d])
  {
    var p := ['%'] + t;
    assert p[1..] == t && [c, d][1..] == [d] && [d][1..] == [];
    assert !Matches(p, escape, []);
    assert !Matches(p, escape, [d]);
  }

  lemma ShortLiteralFails(c: byte)
    requires !OtherOperator(c) && c != '.' && c != '$'
    ensures Matches(Translate([c]).text, Translate([c]).escape, Witness([c])) != Finds([c], Witness([c]))
  {
    var d := if c == 'a' then 'b' else 'a';
    var st := First(c, START);
    assert Translate([c]) == Pattern(st.text, st.escape) by { assert Run([c], 1, st) == st; }
    forall s
      ensures !Wild(c) ==> (Matches([c], false, s) <==> s == [c])
      ensures Matches(['^', c], true, s) <==> s == [c]
    {
      OneLiteral(c, s);
    }
    if Wild(c) {
      assert st.text == ['%'] + ['^', c];
      LiteralNotLast(['^', c], true, c, d);
    } else {
      assert st.text == ['%'] + [c];
      LiteralNotLast([c], false, c, d);
    }
    assert [c][1..] == [];
    assert MatchHere([c], [c, d]);
    assert Witness([c]) == [c, d];
  }

  lemma ShortExpressionsFail(p: bytes)
    requires Simple(p) && !LongEnough(p)
    ensures Matches(Translate(p).text, Translate(p).escape, Witness(p)) != Finds(p, Witness(p))
  {
    if p == [] {
    } else if |p| == 1 {
      assert p == [p[0]] && p[1..] == [];
      if p[0] == '$' {
        assert Translate(p) == Pattern(['%', '$'], false) by {
          assert Run(p, 1, First('$', START)) == First('$', START);
        }
        assert ['%', '$'][1..] == ['$'];
      } else if p[0] == '.' || p[0] == '^' {
        assert Translate(p) == Pattern([], false) by { assert Run(p, 1, First(p[0], START)) == First(p[0], START); }
        assert MatchHere(p[1..], ['a'][1..]) && MatchHere(p[1..], ['a']);
        assert p[0] == '.' ==> MatchHere(p, ['a']);
      } else {
        ShortLiteralFails(p[0]);
      }
    } else {
      var st := Second('.', First('.', START));
      assert Run(p, 2, st) == st;
      assert st.text == ['%', '_'];
      assert Matches(['_'], false, ['a']);
    }
  }

  lemma {:induction false} NewlineIsNeverFound(s: bytes)
    requires OneLine(s)
    ensures !Matches(['%', '\n'], false, s) && !MatchSomewhere(['\n'], s)
  {
    assert ['%', '\n'][1..] == ['\n'];
    if s != [] { NewlineIsNeverFound(s[1..]); }
  }

  /** Among the simple expressions, the length condition is exactly what decides; the one exception is a lone
      newline, which neither side ever finds in a one-line text. */
  lemma TranslationIsRightExactly(p: bytes)
    requires Simple(p)
    ensures (forall s | OneLine(s) :: Matches(Translate(p).text, Translate(p).escape, s) == Finds(p, s))
            <==> LongEnough(p) || p == ['\n']
  {
    if LongEnough(p) {
      forall s | OneLine(s) ensures Matches(Translate(p).text, Translate(p).escape, s) == Finds(p, s) {
        TranslationPreservesMatching(p, s);
      }
    } else if p == ['\n'] {
      forall s | OneLine(s) ensures Matches(Translate(p).text, Translate(p).escape, s) == Finds(p, s) {
        NewlineIsNeverFound(s);
        assert Translate(p) == Pattern(['%', '\n'], false);
      }
    } else {
      ShortExpressionsFail(p);
      assert |p| == 1 ==> p == [p[0]];
      assert OneLine(Witness(p));
    }
  }
}
