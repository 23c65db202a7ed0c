/** getJSONKeys: the top-level keys of a JSON object, in order, from its flat token stream. */
module JsonKeys {
  import opened Types

  /** Tokens by their printed text, which is all the scanner looks at. */
  datatype Token = Delim(c: char) | Word(text: bytes)

  /** A JSON value as its parse tree (section 4 of RFC 8259 for objects). */
  datatype Tree = Leaf(text: bytes) | Arr(elems: seq<Tree>) | Obj(members: seq<Member>)

  datatype Member = Member(name: bytes, value: Tree)

  function Tokens(v: Tree): (ts: seq<Token>)
    decreases v
  {
    match v
    case Leaf(text) => [Word(text)]
    case Arr(es) => [Delim('[')] + ElemTokens(es) + [Delim(']')]
    case Obj(ms) => [Delim('{')] + MemberTokens(ms) + [Delim('}')]
  }

  function ElemTokens(es: seq<Tree>): (ts: seq<Token>)
    decreases es
  {
    if es == [] then [] else Tokens(es[0]) + ElemTokens(es[1..])
  }

  function MemberTokens(ms: seq<Member>): (ts: seq<Token>)
    decreases ms
  {
    if ms == [] then [] else [Word(ms[0].name)] + Tokens(ms[0].value) + MemberTokens(ms[1..])
  }

  // ----- the scanner

  function Shown(t: Token): bytes {
    match t
    case Delim(c) => if c as int < 0x100 then [c] else []
    case Word(text) => text
  }

  datatype State = State(i: nat, isArray: int, isDocument: int, keys: seq<bytes>)

  function Step(st: State, t: Token): State {
    var s := Shown(t);
    if st.i == 0 then st.(i := 1)
    else if s == "]" then st.(isArray := st.isArray - 1)
    else if s == "}" then st.(isDocument := st.isDocument - 1)
    else if s == "[" then st.(i := st.i + 1, isArray := st.isArray + 1)
    else if s == "{" then st.(i := st.i + 1, isDocument := st.isDocument + 1)
    else if st.i % 2 == 0 then st.(i := st.i + 1)
    else if st.isArray > 0 || st.isDocument > 0 then st
    else st.(keys := st.keys + [s], i := st.i + 1)
  }

  function Run(st: State, ts: seq<Token>): State
    decreases |ts|
  {
    if ts == [] then st else Run(Step(st, ts[0]), ts[1..])
  }

  const START := State(0, 0, 0, [])

  /** The loop of the source. */
  method GetJSONKeys(docs: seq<Token>) returns (keys: seq<bytes>)
    ensures keys == Run(START, docs).keys
  {
    keys := [];
    var i, isArray, isDocument := 0, 0, 0;
    for n := 0 to |docs|
      invariant i >= 0
      invariant Run(START, docs) == Run(State(i, isArray, isDocument, keys), docs[n..])
    {
      assert docs[n..][1..] == docs[n + 1..];
      var s := Shown(docs[n]);
      if i == 0 {
        i := i + 1;
        continue;
      }
      if s == "]" {
        isArray := isArray - 1;
        continue;
      }
      if s == "}" {
        isDocument := isDocument - 1;
        continue;
      }
      if s == "[" {
        i := i + 1;
        isArray := isArray + 1;
        continue;
      }
      if s == "{" {
        i := i + 1;
        isDocument := isDocument + 1;
        continue;
      }
      // a value
      if i % 2 == 0 {
        i := i + 1;
        continue;
      }
      if isArray > 0 || isDocument > 0 { continue; }
      keys := keys + [s];
      i := i + 1;
    }
  }

  lemma {:induction false} RunAppend(st: State, a: seq<Token>, b: seq<Token>)
    ensures Run(st, a + b) == Run(Run(st, a), b)
    decreases |a|
  {
    if a == [] {
      assert a + b == b;
    } else {
      RunAppend(Step(st, a[0]), a[1..], b);
      assert (a + b)[1..] == a[1..] + b;
    }
  }

  // ----- what one value does to the scanner

  predicate Bracket(s: bytes) { s == "[" || s == "]" || s == "{" || s == "}" }

  /** No string in the value reads like a bracket. */
  predicate NoBrackets(v: Tree)
    decreases v
  {
    match v
    case Leaf(text) => !Bracket(text)
    case Arr(es) => forall i :: 0 <= i < |es| ==> NoBrackets(es[i])
    case Obj(ms) => forall i :: 0 <= i < |ms| ==> !Bracket(ms[i].name) && NoBrackets(ms[i].value)
  }

  /** Inside a container a word only makes the counter odd. */
  function AfterWord(i: nat): nat { if i % 2 == 0 then i + 1 else i }

  /** The counter after a value that is scanned inside a container. */
  function After(v: Tree, i: nat): nat
    decreases v
  {
    match v
    case Leaf(_) => AfterWord(i)
    case Arr(es) => AfterElems(es, i + 1)
    case Obj(ms) => AfterMembers(ms, i + 1)
  }

  function AfterElems(es: seq<Tree>, i: nat): nat
    decreases es
  {
    if es == [] then i else AfterElems(es[1..], After(es[0], i))
  }

  function AfterMembers(ms: seq<Member>, i: nat): nat
    decreases ms
  {
    if ms == [] then i else AfterMembers(ms[1..], After(ms[0].value, AfterWord(i)))
  }

  predicate Inside(st: State) {
    st.i > 0 && st.isArray >= 0 && st.isDocument >= 0 && st.isArray + st.isDocument > 0
  }

  lemma {:induction false} CounterStaysPositive(v: Tree, i: nat)
    requires i > 0
    ensures After(v, i) > 0
    decreases v
  {
    match v
    case Leaf(_) =>
    case Arr(es) => ElemsCounterStaysPositive(es, i + 1);
    case Obj(ms) => MembersCounterStaysPositive(ms, i + 1);
  }

  lemma {:induction false} ElemsCounterStaysPositive(es: seq<Tree>, i: nat)
    requires i > 0
    ensures AfterElems(es, i) > 0
    decreases es
  {
    if es != [] {
      CounterStaysPositive(es[0], i);
      ElemsCounterStaysPositive(es[1..], After(es[0], i));
    }
  }

  lemma {:induction false} MembersCounterStaysPositive(ms: seq<Member>, i: nat)
    requires i > 0
    ensures AfterMembers(ms, i) > 0
    decreases ms
  {
    if ms != [] {
      CounterStaysPositive(ms[0].value, AfterWord(i));
      MembersCounterStaysPositive(ms[1..], After(ms[0].value, AfterWord(i)));
    }
  }

  /** A whole value inside a container: both depths come back, no key is taken, only the counter moves. */
  lemma {:induction false} ScanInside(v: Tree, st: State)
    requires Inside(st) && NoBrackets(v)
    ensures Run(st, Tokens(v)) == st.(i := After(v, st.i))
    decreases v
  {
    match v
    case Leaf(text) => assert [Word(text)][1..] == [];
    case Arr(es) =>
      ScanContainer('[', ElemTokens(es), ']', st);
      ScanElems(es, st.(i := st.i + 1, isArray := st.isArray + 1));
    case Obj(ms) =>
      ScanContainer('{', MemberTokens(ms), '}', st);
      ScanMembers(ms, st.(i := st.i + 1, isDocument := st.isDocument + 1));
  }

  lemma {:induction false} ScanContainer(open: char, inner: seq<Token>, close: char, st: State)
    requires st.i > 0 && ((open == '[' && close == ']') || (open == '{' && close == '}'))
    ensures var within := if open == '[' then st.(i := st.i + 1, isArray := st.isArray + 1)
                          else st.(i := st.i + 1, isDocument := st.isDocument + 1);
            Run(st, [Delim(open)] + inner + [Delim(close)]) == Run(Run(within, inner), [Delim(close)])
  {
    hide Run;
    RunAppend(st, [Delim(open)] + inner, [Delim(close)]);
    RunAppend(st, [Delim(open)], inner);
    RunOne(st, Delim(open));
  }

  lemma RunOne(st: State, t: Token)
    ensures Run(st, [t]) == Step(st, t)
  {
    assert [t][1..] == [];
  }

  lemma {:induction false} ScanElems(es: seq<Tree>, st: State)
    requires Inside(st) && st.isArray > 0 && forall i :: 0 <= i < |es| ==> NoBrackets(es[i])
    ensures Run(st, ElemTokens(es)) == st.(i := AfterElems(es, st.i))
    ensures Run(Run(st, ElemTokens(es)), [Delim(']')]) == st.(i := AfterElems(es, st.i), isArray := st.isArray - 1)
    decreases es
  {
    if es != [] {
      ScanInside(es[0], st);
      CounterStaysPositive(es[0], st.i);
      RunAppend(st, Tokens(es[0]), ElemTokens(es[1..]));
      ScanElems(es[1..], st.(i := After(es[0], st.i)));
    }
    ElemsCounterStaysPositive(es, st.i);
    RunOne(Run(st, ElemTokens(es)), Delim(']'));
  }

  lemma {:induction false} ScanMembers(ms: seq<Member>, st: State)
    requires Inside(st) && st.isDocument > 0
    requires forall i :: 0 <= i < |ms| ==> !Bracket(ms[i].name) && NoBrackets(ms[i].value)
    ensures Run(st, MemberTokens(ms)) == st.(i := AfterMembers(ms, st.i))
    ensures Run(Run(st, MemberTokens(ms)), [Delim('}')])
         == st.(i := AfterMembers(ms, st.i), isDocument := st.isDocument - 1)
    decreases ms
  {
    if ms != [] {
      var Member(name, v) := ms[0];
      var st1 := st.(i := AfterWord(st.i));
      RunOne(st, Word(name));
      ScanInside(v, st1);
      CounterStaysPositive(v, st1.i);
      RunAppend(st, [Word(name)] + Tokens(v), MemberTokens(ms[1..]));
      RunAppend(st, [Word(name)], Tokens(v));
      ScanMembers(ms[1..], st1.(i := After(v, st1.i)));
    }
    MembersCounterStaysPositive(ms, st.i);
    RunOne(Run(st, MemberTokens(ms)), Delim('}'));
  }

  // ----- the members of the object itself

  predicate Outside(st: State) { st.i > 0 && st.isArray == 0 && st.isDocument == 0 }

  /** A word outside every container: skipped as a value or taken as a key, in turn. */
  lemma ScanWordOutside(s: bytes, st: State)
    requires Outside(st) && !Bracket(s)
    ensures Run(st, [Word(s)])
         == if st.i % 2 == 0 then st.(i := st.i + 1) else st.(i := st.i + 1, keys := st.keys + [s])
  {
    RunOne(st, Word(s));
  }

  lemma ScanContainerOutside(v: Tree, st: State)
    requires Outside(st) && NoBrackets(v) && !v.Leaf?
    ensures Run(st, Tokens(v)) == st.(i := After(v, st.i))
    ensures After(v, st.i) > 0
  {
    CounterStaysPositive(v, st.i);
    match v
    case Arr(es) =>
      ScanContainer('[', ElemTokens(es), ']', st);
      ScanElems(es, st.(i := st.i + 1, isArray := st.isArray + 1));
    case Obj(ms) =>
      ScanContainer('{', MemberTokens(ms), '}', st);
      ScanMembers(ms, st.(i := st.i + 1, isDocument := st.isDocument + 1));
  }

  predicate PlainMembers(ms: seq<Member>) {
    forall i :: 0 <= i < |ms| ==> !Bracket(ms[i].name) && NoBrackets(ms[i].value)
  }

  function MemberNames(ms: seq<Member>): (names: seq<bytes>)
    ensures |names| == |ms|
    ensures forall i :: 0 <= i < |ms| ==> names[i] == ms[i].name
  {
    seq(|ms|, i requires 0 <= i < |ms| => ms[i].name)
  }

  /** The value leaves the counter odd, so that the scanner expects a key next. It does unless the last thing
      that moved the counter was the bracket of an empty container at the wrong parity. */
  predicate Settles(v: Tree) { After(v, 2) % 2 == 1 }

  lemma {:induction false} ParityOnly(v: Tree, i: nat, j: nat)
    requires i % 2 == j % 2
    ensures After(v, i) % 2 == After(v, j) % 2
    decreases v
  {
    match v
    case Leaf(_) =>
    case Arr(es) => ElemsParityOnly(es, i + 1, j + 1);
    case Obj(ms) => MembersParityOnly(ms, i + 1, j + 1);
  }

  lemma {:induction false} ElemsParityOnly(es: seq<Tree>, i: nat, j: nat)
    requires i % 2 == j % 2
    ensures AfterElems(es, i) % 2 == AfterElems(es, j) % 2
    decreases es
  {
    if es != [] {
      ParityOnly(es[0], i, j);
      ElemsParityOnly(es[1..], After(es[0], i), After(es[0], j));
    }
  }

  lemma {:induction false} MembersParityOnly(ms: seq<Member>, i: nat, j: nat)
    requires i % 2 == j % 2
    ensures AfterMembers(ms, i) % 2 == AfterMembers(ms, j) % 2
    decreases ms
  {
    if ms != [] {
      ParityOnly(ms[0].value, AfterWord(i), AfterWord(j));
      MembersParityOnly(ms[1..], After(ms[0].value, AfterWord(i)), After(ms[0].value, AfterWord(j)));
    }
  }

  // ----- the scanner on the parse tree

  /** What the scanner takes from one member, when the counter stands at i. At an odd counter it takes the name; at an
      even one it skips the name and takes the value, if that is a text. */
  function Taken(m: Member, i: nat): seq<bytes> {
    if i % 2 == 1 then [m.name] else if m.value.Leaf? then [m.value.text] else []
  }

  /** The counter after the member. */
  function AfterMember(m: Member, i: nat): nat { if m.value.Leaf? then i + 2 else After(m.value, i + 1) }

  /** The keys that the scanner finds, read off the tree. */
  function KeysFrom(ms: seq<Member>, i: nat): (keys: seq<bytes>)
    ensures |keys| <= |ms|
    decreases |ms|
  {
    if ms == [] then [] else Taken(ms[0], i) + KeysFrom(ms[1..], AfterMember(ms[0], i))
  }

  lemma {:induction false} ScanMember(m: Member, st: State)
    requires Outside(st) && !Bracket(m.name) && NoBrackets(m.value)
    ensures Run(st, [Word(m.name)] + Tokens(m.value))
         == st.(i := AfterMember(m, st.i), keys := st.keys + Taken(m, st.i))
    ensures AfterMember(m, st.i) > 0
  {
    var st1 := Run(st, [Word(m.name)]);
    RunAppend(st, [Word(m.name)], Tokens(m.value));
    ScanWordOutside(m.name, st);
    if m.value.Leaf? {
      ScanWordOutside(m.value.text, st1);
    } else {
      ScanContainerOutside(m.value, st1);
      assert st.keys + [] == st.keys;
    }
  }

  lemma {:induction false} ScanTree(ms: seq<Member>, st: State)
    requires Outside(st) && PlainMembers(ms)
    ensures Outside(Run(st, MemberTokens(ms)))
    ensures Run(st, MemberTokens(ms)).keys == st.keys + KeysFrom(ms, st.i)
    decreases |ms|
  {
    if ms == [] {
      assert st.keys + [] == st.keys;
    } else {
      var head := [Word(ms[0].name)] + Tokens(ms[0].value);
      ScanMember(ms[0], st);
      RunAppend(st, head, MemberTokens(ms[1..]));
      ScanTree(ms[1..], Run(st, head));
      Assoc(st.keys, Taken(ms[0], st.i), KeysFrom(ms[1..], AfterMember(ms[0], st.i)));
    }
  }

  function Keys(ms: seq<Member>): seq<bytes> { Run(START, Tokens(Obj(ms))).keys }

  /** What the scanner returns for any object without brackets among its texts. */
  lemma {:induction false} KeysOfTree(ms: seq<Member>)
    requires PlainMembers(ms)
    ensures Keys(ms) == KeysFrom(ms, 1)
  {
    ScanTree(ms, State(1, 0, 0, []));
    KeysOfMembers(ms);
    assert [] + KeysFrom(ms, 1) == KeysFrom(ms, 1);
  }

  /** Every member is met at an odd counter, or at an even one with its own name as its value. */
  predicate AllTaken(ms: seq<Member>, i: nat)
    decreases |ms|
  {
    ms == []
    || ((i % 2 == 1 || ms[0].value == Leaf(ms[0].name)) && AllTaken(ms[1..], AfterMember(ms[0], i)))
  }

  lemma {:induction false} TakenInOrder(ms: seq<Member>, i: nat)
    ensures KeysFrom(ms, i) == MemberNames(ms) <==> AllTaken(ms, i)
    decreases |ms|
  {
    if ms != [] {
      var rest := KeysFrom(ms[1..], AfterMember(ms[0], i));
      TakenInOrder(ms[1..], AfterMember(ms[0], i));
      assert MemberNames(ms) == [ms[0].name] + MemberNames(ms[1..]);
      if Taken(ms[0], i) != [] {
        var t := Taken(ms[0], i)[0];
        assert Taken(ms[0], i) == [t];
        assert ([t] + rest)[0] == t && ([t] + rest)[1..] == rest;
        assert MemberNames(ms)[1..] == MemberNames(ms[1..]);
      }
    }
  }

  /** Without brackets among the texts, the scanner agrees with the parse tree exactly on these objects. */
  lemma PlainKeysInOrder(ms: seq<Member>)
    requires PlainMembers(ms)
    ensures Keys(ms) == MemberNames(ms) <==> AllTaken(ms, 1)
  {
    KeysOfTree(ms);
    TakenInOrder(ms, 1);
  }

  /** All members but the last settle. */
  predicate AllSettle(ms: seq<Member>) {
    forall i :: 0 <= i < |ms| - 1 ==> Settles(ms[i].value)
  }

  lemma SettledMember(m: Member, i: nat)
    requires i % 2 == 1
    ensures AfterMember(m, i) % 2 == 1 <==> Settles(m.value)
  {
    ParityOnly(m.value, i + 1, 2);
  }

  lemma {:induction false} SettledAreTaken(ms: seq<Member>, i: nat)
    requires i % 2 == 1 && AllSettle(ms)
    ensures AllTaken(ms, i)
    decreases |ms|
  {
    if |ms| > 1 {
      SettledMember(ms[0], i);
      assert forall k :: 0 <= k < |ms[1..]| ==> ms[1..][k] == ms[k + 1];
      SettledAreTaken(ms[1..], AfterMember(ms[0], i));
    } else if |ms| == 1 {
      assert ms[1..] == [];
    }
  }

  lemma {:induction false} TakenAreSettled(ms: seq<Member>, i: nat)
    requires i % 2 == 1 && AllTaken(ms, i)
    requires forall k :: 0 <= k < |ms| ==> ms[k].value != Leaf(ms[k].name)
    ensures AllSettle(ms)
    decreases |ms|
  {
    if |ms| > 1 {
      SettledMember(ms[0], i);
      assert forall k :: 0 <= k < |ms[1..]| ==> ms[1..][k] == ms[k + 1];
      TakenAreSettled(ms[1..], AfterMember(ms[0], i));
      assert forall k :: 1 <= k < |ms| - 1 ==> ms[k] == ms[1..][k - 1];
    }
  }

  /** Where every value but the last settles the counter, the scanner agrees with the parse tree. */
  lemma KeysInOrder(ms: seq<Member>)
    requires PlainMembers(ms) && AllSettle(ms)
    ensures Keys(ms) == MemberNames(ms)
  {
    SettledAreTaken(ms, 1);
    PlainKeysInOrder(ms);
  }

  /** And where no text repeats the name it stands under, only there. */
  lemma UnsettledLoseKeys(ms: seq<Member>)
    requires PlainMembers(ms) && forall k :: 0 <= k < |ms| ==> ms[k].value != Leaf(ms[k].name)
    ensures Keys(ms) == MemberNames(ms) <==> AllSettle(ms)
  {
    PlainKeysInOrder(ms);
    if AllSettle(ms) { SettledAreTaken(ms, 1); }
    if AllTaken(ms, 1) { TakenAreSettled(ms, 1); }
  }

  // ----- every object, with whatever texts

  /** A walk over the parse tree with the scanner's three counters and the names that are still due. It is lost when a
      text is due to be taken that is not the next name. */
  datatype Walk = At(i: nat, isArray: int, isDocument: int, due: seq<bytes>) | Lost

  /** Any text, whether it is a bracket of the tree, a name or a value. */
  function Pass(w: Walk, s: bytes): Walk {
    match w
    case Lost => Lost
    case At(i, isArray, isDocument, due) =>
      if s == "]" then w.(isArray := isArray - 1)
      else if s == "}" then w.(isDocument := isDocument - 1)
      else if s == "[" then w.(i := i + 1, isArray := isArray + 1)
      else if s == "{" then w.(i := i + 1, isDocument := isDocument + 1)
      else if i % 2 == 0 then w.(i := i + 1)
      else if isArray > 0 || isDocument > 0 then w
      else if due != [] && due[0] == s then w.(i := i + 1, due := due[1..])
      else Lost
  }

  function PassTree(w: Walk, v: Tree): Walk
    decreases v
  {
    match v
    case Leaf(text) => Pass(w, text)
    case Arr(es) => Pass(PassElems(Pass(w, "["), es), "]")
    case Obj(ms) => Pass(PassMembers(Pass(w, "{"), ms), "}")
  }

  function PassElems(w: Walk, es: seq<Tree>): Walk
    decreases es
  {
    if es == [] then w else PassElems(PassTree(w, es[0]), es[1..])
  }

  function PassMembers(w: Walk, ms: seq<Member>): Walk
    decreases ms
  {
    if ms == [] then w else PassMembers(PassTree(Pass(w, ms[0].name), ms[0].value), ms[1..])
  }

  /** The walk through the members meets every name when it is due. */
  predicate InOrder(ms: seq<Member>) {
    var w := PassMembers(At(1, 0, 0, MemberNames(ms)), ms);
    w.At? && w.due == []
  }

  /** The walk follows the scanner: it has the same counters and is due to take what is missing from the names, or it is
      lost and the keys have left the names for good. */
  ghost predicate Follows(w: Walk, st: State, names: seq<bytes>) {
    st.i > 0
    && match w
       case Lost => !(st.keys <= names)
       case At(i, isArray, isDocument, due) =>
         st.i == i && st.isArray == isArray && st.isDocument == isDocument && st.keys + due == names
  }

  lemma NotDue(keys: seq<bytes>, due: seq<bytes>, s: bytes)
    requires due == [] || due[0] != s
    ensures !(keys + [s] <= keys + due)
  {
    assert (keys + [s])[|keys|] == s;
    assert due != [] ==> (keys + due)[|keys|] == due[0];
  }

  lemma FollowsPass(w: Walk, st: State, names: seq<bytes>, t: Token)
    requires Follows(w, st, names)
    ensures Follows(Pass(w, Shown(t)), Run(st, [t]), names)
  {
    var s := Shown(t);
    RunOne(st, t);
    var next := Step(st, t);
    if w.Lost? {
      assert st.keys <= next.keys;
    } else if next.keys != st.keys {
      assert next.keys == st.keys + [s];
      if w.due != [] && w.due[0] == s {
        HeadTail(w.due);
        Assoc(st.keys, [s], w.due[1..]);
      } else {
        NotDue(st.keys, w.due, s);
      }
    }
  }

  lemma {:induction false} FollowsTree(w: Walk, st: State, names: seq<bytes>, v: Tree)
    requires Follows(w, st, names)
    ensures Follows(PassTree(w, v), Run(st, Tokens(v)), names)
    decreases v
  {
    match v
    case Leaf(text) => FollowsPass(w, st, names, Word(text));
    case Arr(es) =>
      FollowsPass(w, st, names, Delim('['));
      FollowsElems(Pass(w, "["), Run(st, [Delim('[')]), names, es);
      FollowsClosed(st, Delim('['), ElemTokens(es), Delim(']'), PassElems(Pass(w, "["), es), names);
    case Obj(ms) =>
      FollowsPass(w, st, names, Delim('{'));
      FollowsMembers(Pass(w, "{"), Run(st, [Delim('{')]), names, ms);
      FollowsClosed(st, Delim('{'), MemberTokens(ms), Delim('}'), PassMembers(Pass(w, "{"), ms), names);
  }

  lemma {:induction false} FollowsClosed(st: State, open: Token, inner: seq<Token>, close: Token, w: Walk,
                                         names: seq<bytes>)
    requires Follows(w, Run(Run(st, [open]), inner), names)
    ensures Follows(Pass(w, Shown(close)), Run(st, [open] + inner + [close]), names)
  {
    hide Run, Follows;
    RunAppend(st, [open] + inner, [close]);
    RunAppend(st, [open], inner);
    FollowsPass(w, Run(Run(st, [open]), inner), names, close);
  }

  lemma {:induction false} FollowsElems(w: Walk, st: State, names: seq<bytes>, es: seq<Tree>)
    requires Follows(w, st, names)
    ensures Follows(PassElems(w, es), Run(st, ElemTokens(es)), names)
    decreases es
  {
    if es != [] {
      FollowsTree(w, st, names, es[0]);
      RunAppend(st, Tokens(es[0]), ElemTokens(es[1..]));
      FollowsElems(PassTree(w, es[0]), Run(st, Tokens(es[0])), names, es[1..]);
    }
  }

  lemma {:induction false} FollowsMembers(w: Walk, st: State, names: seq<bytes>, ms: seq<Member>)
    requires Follows(w, st, names)
    ensures Follows(PassMembers(w, ms), Run(st, MemberTokens(ms)), names)
    decreases ms
  {
    if ms != [] {
      var Member(name, v) := ms[0];
      FollowsPass(w, st, names, Word(name));
      var st1 := Run(st, [Word(name)]);
      FollowsTree(Pass(w, name), st1, names, v);
      RunAppend(st, [Word(name)] + Tokens(v), MemberTokens(ms[1..]));
      RunAppend(st, [Word(name)], Tokens(v));
      FollowsMembers(PassTree(Pass(w, name), v), Run(st1, Tokens(v)), names, ms[1..]);
    }
  }

  /** The scanner returns the top-level keys in order exactly when the walk meets every name when it is due: for every
      object, whatever its texts are. */
  lemma KeysInOrderExactly(ms: seq<Member>)
    ensures Keys(ms) == MemberNames(ms) <==> InOrder(ms)
  {
    var names := MemberNames(ms);
    var st, w := State(1, 0, 0, []), At(1, 0, 0, names);
    assert st.keys + names == names;
    FollowsMembers(w, st, names, ms);
    KeysOfMembers(ms);
    var last := PassMembers(w, ms);
    if last.At? && last.due == [] {
      assert Run(st, MemberTokens(ms)).keys + [] == Run(st, MemberTokens(ms)).keys;
    }
  }

  /** The outermost brackets take no key. */
  lemma KeysOfMembers(ms: seq<Member>)
    ensures Keys(ms) == Run(State(1, 0, 0, []), MemberTokens(ms)).keys
  {
    hide Run;
    var st := State(1, 0, 0, []);
    RunAppend(START, [Delim('{')] + MemberTokens(ms), [Delim('}')]);
    RunAppend(START, [Delim('{')], MemberTokens(ms));
    RunOne(START, Delim('{'));
    RunOne(Run(st, MemberTokens(ms)), Delim('}'));
  }

  lemma {:induction false} KeysGrow(st: State, ts: seq<Token>)
    ensures st.keys <= Run(st, ts).keys
    decreases |ts|
  {
    if ts != [] { KeysGrow(Step(st, ts[0]), ts[1..]); }
  }

  /** The first name is always taken. */
  lemma FirstKeyIsTaken(ms: seq<Member>)
    requires ms != [] && !Bracket(ms[0].name)
    ensures [ms[0].name] <= Keys(ms)
  {
    var st, first := State(1, 0, 0, []), Word(ms[0].name);
    var rest := Tokens(ms[0].value) + MemberTokens(ms[1..]);
    KeysOfMembers(ms);
    Assoc([first], Tokens(ms[0].value), MemberTokens(ms[1..]));
    RunAppend(st, [first], rest);
    RunOne(st, first);
    KeysGrow(Step(st, first), rest);
  }

  // ----- keys that occur again

  /** The names, with those keys added that are not among them, in the order in which they occur first. */
  function Including(names: seq<bytes>, keys: seq<bytes>): (r: seq<bytes>)
    ensures |r| <= |names| + |keys|
    decreases |keys|
  {
    if keys == [] then names else Including(if keys[0] in names then names else names + [keys[0]], keys[1..])
  }

  function FirstOnly(keys: seq<bytes>): seq<bytes> { Including([], keys) }

  lemma {:induction false} IncludingDistinct(names: seq<bytes>, keys: seq<bytes>)
    ensures NoDup(names + keys) ==> Including(names, keys) == names + keys
    ensures |Including(names, keys)| == |names| + |keys| ==> Including(names, keys) == names + keys
    decreases |keys|
  {
    if keys == [] {
      assert names + [] == names;
    } else {
      var more := if keys[0] in names then names else names + [keys[0]];
      IncludingDistinct(more, keys[1..]);
      HeadTail(keys);
      Assoc(names, [keys[0]], keys[1..]);
      if keys[0] in names { OccursAgain(names, keys); }
    }
  }

  lemma OccursAgain(names: seq<bytes>, keys: seq<bytes>)
    requires keys != [] && keys[0] in names
    ensures !NoDup(names + keys)
  {
    var k :| 0 <= k < |names| && names[k] == keys[0];
    assert (names + keys)[k] == (names + keys)[|names|];
  }

  lemma {:induction false} EveryKeyOccurs(names: seq<bytes>, keys: seq<bytes>, i: nat)
    requires i < |names| + |keys|
    ensures (names + keys)[i] in Including(names, keys)
    decreases |keys|
  {
    if keys != [] {
      var more := if keys[0] in names then names else names + [keys[0]];
      if i > |names| {
        EveryKeyOccurs(more, keys[1..], if keys[0] in names then i - 1 else i);
      } else if i == |names| && keys[0] in names {
        var k :| 0 <= k < |names| && names[k] == keys[0];
        EveryKeyOccurs(more, keys[1..], k);
      } else {
        EveryKeyOccurs(more, keys[1..], i);
      }
    }
  }

  /** Without brackets among the texts, a key that occurs again has taken the place of one that is missing. */
  lemma PlainFirstKeys(ms: seq<Member>)
    requires PlainMembers(ms) && NoDup(MemberNames(ms))
    ensures FirstOnly(Keys(ms)) == MemberNames(ms) <==> AllTaken(ms, 1)
  {
    KeysOfTree(ms);
    PlainKeysInOrder(ms);
    IncludingDistinct([], Keys(ms));
    assert [] + Keys(ms) == Keys(ms);
  }

  // ----- a condition one can see

  /** No empty container anywhere in the value. */
  predicate Filled(v: Tree)
    decreases v
  {
    match v
    case Leaf(_) => true
    case Arr(es) => es != [] && forall i :: 0 <= i < |es| ==> Filled(es[i])
    case Obj(ms) => ms != [] && forall i :: 0 <= i < |ms| ==> Filled(ms[i].value)
  }

  /** The value may itself be empty, but nothing inside it is. */
  predicate FilledInside(v: Tree) { Filled(v) || v == Arr([]) || v == Obj([]) }

  lemma {:induction false} FilledEndsOdd(v: Tree, i: nat)
    requires Filled(v)
    ensures After(v, i) % 2 == 1
    decreases v
  {
    match v
    case Leaf(_) =>
    case Arr(es) => FilledElemsEndOdd(es, i + 1);
    case Obj(ms) => FilledMembersEndOdd(ms, i + 1);
  }

  lemma {:induction false} FilledElemsEndOdd(es: seq<Tree>, i: nat)
    requires es != [] && forall k :: 0 <= k < |es| ==> Filled(es[k])
    ensures AfterElems(es, i) % 2 == 1
    decreases es
  {
    FilledEndsOdd(es[0], i);
    if |es| > 1 {
      FilledElemsEndOdd(es[1..], After(es[0], i));
    } else {
      assert es[1..] == [];
    }
  }

  lemma {:induction false} FilledMembersEndOdd(ms: seq<Member>, i: nat)
    requires ms != [] && forall k :: 0 <= k < |ms| ==> Filled(ms[k].value)
    ensures AfterMembers(ms, i) % 2 == 1
    decreases ms
  {
    FilledEndsOdd(ms[0].value, AfterWord(i));
    if |ms| > 1 {
      FilledMembersEndOdd(ms[1..], After(ms[0].value, AfterWord(i)));
    } else {
      assert ms[1..] == [];
    }
  }

  lemma FilledInsideSettles(v: Tree)
    requires FilledInside(v)
    ensures Settles(v)
  {
    if Filled(v) { FilledEndsOdd(v, 2); }
  }

  /** {"a": [[]], "b": 1}: the empty array inside "a" costs the key "b", and the value 1 is taken for a key. */
  lemma EmptyInsideLosesKey()
    ensures Keys([Member("a", Arr([Arr([])])), Member("b", Leaf("1"))]) == ["a", "1"]
  {
    hide Run, Tokens, Keys;
    KeysOfTree([Member("a", Arr([Arr([])])), Member("b", Leaf("1"))]);
    EmptyInsideShiftsTurns(Member("a", Arr([Arr([])])), Member("b", Leaf("1")));
  }

  lemma EmptyInsideShiftsTurns(a: Member, b: Member)
    requires a.value == Arr([Arr([])]) && b.value == Leaf("1")
    ensures KeysFrom([a, b], 1) == [a.name, "1"]
  {
    assert [Arr([])][1..] == [];
    assert AfterMember(a, 1) == 4;
    assert [a, b][1..] == [b] && [b][1..] == [];
    assert KeysFrom([b], 4) == ["1"] + [];
  }

  /** {"a": "]", "b": 1}: a text that reads like a bracket shifts the turns, and the value 1 is taken for a key. */
  lemma BracketTextShiftsTurns()
    ensures Run(State(1, 0, 0, []), [Word("a"), Word("]"), Word("b"), Word("1")]).keys == ["a", "1"]
    ensures MemberTokens([Member("a", Leaf("]")), Member("b", Leaf("1"))])
         == [Word("a"), Word("]"), Word("b"), Word("1")]
  {
    var st := State(1, 0, 0, []);
    RunAppend(st, [Word("a"), Word("]")], [Word("b"), Word("1")]);
    RunAppend(st, [Word("a")], [Word("]")]);
    RunOne(st, Word("a"));
    var s2 := Step(Step(st, Word("a")), Word("]"));
    RunOne(Step(st, Word("a")), Word("]"));
    RunAppend(s2, [Word("b")], [Word("1")]);
    RunOne(s2, Word("b"));
    RunOne(Step(s2, Word("b")), Word("1"));
    assert [Word("a"), Word("]")] + [Word("b"), Word("1")] == [Word("a"), Word("]"), Word("b"), Word("1")];
    assert [Word("a")] + [Word("]")] == [Word("a"), Word("]")] && [Word("b")] + [Word("1")] == [Word("b"), Word("1")];
    var ms := [Member("a", Leaf("]")), Member("b", Leaf("1"))];
    assert ms[1..] == [ms[1]] && ms[1..][1..] == [];
  }
}
