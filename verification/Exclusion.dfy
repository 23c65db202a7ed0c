/** Exclusion of fields from a document as deletion in a tree, and when the order of several exclusions matters. */
module Exclusion {
  import opened Types
  import opened Numerals
  import opened Where

  /** Deletes what a dotted path leads to. The path must exist, and it may not pass through or end at a null field of
      a document; otherwise nothing is deleted. */
  function Exclude(v: Value, parts: seq<bytes>): Value
    decreases |parts|
  {
    if parts == [] then v
    else
      match v
      case Document(fs) => ExcludeFromDocument(fs, parts)
      case Array(es) => ExcludeFromArray(es, parts)
      case _ => v
  }

  function ExcludeFromDocument(fs: Fields, parts: seq<bytes>): Value
    requires parts != []
    decreases |parts|, 0
  {
    match Get(fs, parts[0])
    case None => Document(fs)
    case Some(w) =>
      if w.Null? then Document(fs)
      else if |parts| == 1 then Document(Without(fs, parts[0]))
      else Document(Replace(fs, parts[0], Exclude(w, parts[1..])))
  }

  function ExcludeFromArray(es: seq<Value>, parts: seq<bytes>): Value
    requires parts != []
    decreases |parts|, 0
  {
    match Atoi(parts[0])
    case None => Array(es)
    case Some(i) =>
      if !(0 <= i < |es|) then Array(es)
      else if |parts| == 1 then Array(es[..i] + es[i + 1..])
      else Array(es[i := Exclude(es[i], parts[1..])])
  }

  // ----- order

  /** Where the path leads to something, that is a field of a document rather than an array element. */
  predicate EndsAtField(v: Value, parts: seq<bytes>)
    decreases |parts|
  {
    if parts == [] then true
    else
      match v
      case Document(fs) =>
        (match Get(fs, parts[0]) case Some(w) => EndsAtField(w, parts[1..]) case None => true)
      case Array(es) =>
        (match Atoi(parts[0])
         case Some(i) => 0 <= i < |es| ==> |parts| > 1 && EndsAtField(es[i], parts[1..])
         case None => true)
      case _ => true
  }

  lemma {:induction false} ReplaceReplace(fs: Fields, a: bytes, x: Value, b: bytes, y: Value)
    requires a != b
    ensures Replace(Replace(fs, a, x), b, y) == Replace(Replace(fs, b, y), a, x)
  {
    if fs != [] {
      if fs[0].name != a && fs[0].name != b {
        ReplaceReplace(fs[1..], a, x, b, y);
      }
    }
  }

  lemma {:induction false} ReplaceTwice(fs: Fields, a: bytes, x: Value, y: Value)
    ensures Replace(Replace(fs, a, x), a, y) == Replace(fs, a, y)
  {
    if fs != [] {
      if fs[0].name != a { ReplaceTwice(fs[1..], a, x, y); }
    }
  }

  lemma {:induction false} WithoutReplace(fs: Fields, a: bytes, b: bytes, y: Value)
    ensures Without(Replace(fs, b, y), a) == if a == b then Without(fs, a) else Replace(Without(fs, a), b, y)
  {
    if fs != [] {
      var f, rest := fs[0], fs[1..];
      HeadTail(fs);
      WithoutReplace(rest, a, b, y);
      WithoutCons(f, rest, a);
      if f.name == b {
        WithoutCons(Field(b, y), rest, a);
        if a != b { assert ([f] + Without(rest, a))[1..] == Without(rest, a); }
      } else {
        WithoutCons(f, Replace(rest, b, y), a);
        if f.name != a { assert ([f] + Without(rest, a))[1..] == Without(rest, a); }
      }
    }
  }

  lemma WithoutCons(f: Field, fs: Fields, a: bytes)
    ensures Without([f] + fs, a) == if f.name == a then Without(fs, a) else [f] + Without(fs, a)
  {
    assert ([f] + fs)[1..] == fs;
    assert [] + Without(fs, a) == Without(fs, a);
  }

  lemma {:induction false} WithoutWithout(fs: Fields, a: bytes, b: bytes)
    ensures Without(Without(fs, a), b) == Without(Without(fs, b), a)
  {
    if fs != [] {
      WithoutWithout(fs[1..], a, b);
      assert [] + Without(fs[1..], a) == Without(fs[1..], a);
      assert [] + Without(fs[1..], b) == Without(fs[1..], b);
    }
  }

  /** What an exclusion does to the fields of a document. */
  datatype Change = Same | Drop | Put(v: Value)

  function ChangeOf(w: Option<Value>, parts: seq<bytes>): Change
    requires parts != []
  {
    match w
    case None => Same
    case Some(w) => if w.Null? then Same else if |parts| == 1 then Drop else Put(Exclude(w, parts[1..]))
  }

  function Act(fs: Fields, name: bytes, c: Change): Fields {
    match c case Same => fs case Drop => Without(fs, name) case Put(v) => Replace(fs, name, v)
  }

  lemma ExcludeIsAct(fs: Fields, parts: seq<bytes>)
    requires parts != []
    ensures Exclude(Document(fs), parts) == Document(Act(fs, parts[0], ChangeOf(Get(fs, parts[0]), parts)))
  {
  }

  lemma {:induction false} GetAct(fs: Fields, name: bytes, c: Change, other: bytes)
    requires c.Put? ==> Get(fs, name).Some?
    ensures Get(Act(fs, name, c), other)
         == if other != name then Get(fs, other)
            else match c case Same => Get(fs, name) case Drop => None case Put(v) => Some(v)
  {
    match c
    case Same =>
    case Drop => GetWithout(fs, name, other);
    case Put(v) => GetReplace(fs, name, v, other);
  }

  lemma {:induction false} ActsCommute(fs: Fields, a: bytes, c: Change, b: bytes, d: Change)
    requires a != b
    ensures Act(Act(fs, a, c), b, d) == Act(Act(fs, b, d), a, c)
  {
    match (c, d)
    case (Drop, Drop) => WithoutWithout(fs, a, b);
    case (Drop, Put(y)) => WithoutReplace(fs, a, b, y);
    case (Put(x), Drop) => WithoutReplace(fs, b, a, x);
    case (Put(x), Put(y)) => ReplaceReplace(fs, a, x, b, y);
    case _ =>
  }

  lemma ExcludeKeepsKind(v: Value, parts: seq<bytes>)
    ensures Exclude(v, parts).Null? <==> v.Null?
    ensures Exclude(v, parts).Document? <==> v.Document?
    ensures Exclude(v, parts).Array? <==> v.Array?
  {
  }

  lemma {:induction false} ExcludeApart(fs: Fields, p: seq<bytes>, q: seq<bytes>)
    requires p != [] && q != [] && p[0] != q[0]
    ensures Exclude(Exclude(Document(fs), p), q) == Exclude(Exclude(Document(fs), q), p)
  {
    var c, d := ChangeOf(Get(fs, p[0]), p), ChangeOf(Get(fs, q[0]), q);
    ExcludeIsAct(fs, p);
    ExcludeIsAct(fs, q);
    ExcludeIsAct(Act(fs, p[0], c), q);
    ExcludeIsAct(Act(fs, q[0], d), p);
    GetAct(fs, p[0], c, q[0]);
    GetAct(fs, q[0], d, p[0]);
    ActsCommute(fs, p[0], c, q[0], d);
  }

  /** Two exclusions below the same field: the second one acts on what the first one left. */
  lemma {:induction false} ExcludeTogether(fs: Fields, p: seq<bytes>, q: seq<bytes>)
    requires p != [] && q != [] && p[0] == q[0]
    ensures var n := p[0];
            Exclude(Exclude(Document(fs), p), q)
            == if Get(fs, n).None? || Get(fs, n).value.Null? then Document(fs)
               else if |p| == 1 || |q| == 1 then Document(Without(fs, n))
               else Document(Replace(fs, n, Exclude(Exclude(Get(fs, n).value, p[1..]), q[1..])))
  {
    var n := p[0];
    var c := ChangeOf(Get(fs, n), p);
    var fs' := Act(fs, n, c);
    ExcludeIsAct(fs, p);
    ExcludeIsAct(fs', q);
    GetAct(fs, n, c, n);
    if c.Put? {
      ExcludeKeepsKind(Get(fs, n).value, p[1..]);
      if |q| == 1 {
        WithoutReplace(fs, n, n, c.v);
      } else {
        ReplaceTwice(fs, n, c.v, Exclude(c.v, q[1..]));
      }
    }
  }

  predicate Position(es: seq<Value>, part: bytes) { Atoi(part).Some? && 0 <= Atoi(part).value < |es| }

  /** Two exclusions below an element of an array. */
  lemma ExcludeInElement(es: seq<Value>, p: seq<bytes>, q: seq<bytes>)
    requires |p| > 1 && |q| > 1 && Position(es, p[0]) && Atoi(q[0]) == Atoi(p[0])
    ensures var i := Atoi(p[0]).value;
            Exclude(Exclude(Array(es), p), q) == Array(es[i := Exclude(Exclude(es[i], p[1..]), q[1..])])
  {
    hide Atoi;
    var i := Atoi(p[0]).value;
    var mid := es[i := Exclude(es[i], p[1..])];
    assert Exclude(Array(es), p) == Array(mid);
    assert Exclude(Array(mid), q) == Array(mid[i := Exclude(mid[i], q[1..])]);
  }

  /** The path leads to something, through fields that are not null. */
  predicate Reaches(v: Value, parts: seq<bytes>)
    decreases |parts|
  {
    parts == []
    || match v
       case Document(fs) =>
         (match Get(fs, parts[0]) case Some(w) => !w.Null? && Reaches(w, parts[1..]) case None => false)
       case Array(es) => Position(es, parts[0]) && Reaches(es[Atoi(parts[0]).value], parts[1..])
       case _ => false
  }

  lemma {:induction false} WithoutShrinks(fs: Fields, name: bytes)
    ensures |Without(fs, name)| <= |fs|
    ensures Get(fs, name).Some? ==> |Without(fs, name)| < |fs|
  {
    if fs != [] { WithoutShrinks(fs[1..], name); }
  }

  /** An exclusion changes a value exactly when its path leads to something. */
  lemma {:induction false} ExcludeChanges(v: Value, parts: seq<bytes>)
    requires parts != []
    ensures Exclude(v, parts) == v <==> !Reaches(v, parts)
    decreases |parts|
  {
    match v
    case Document(fs) =>
      var w := Get(fs, parts[0]);
      if w.Some? && !w.value.Null? {
        if |parts| == 1 {
          WithoutShrinks(fs, parts[0]);
        } else {
          var x := Exclude(w.value, parts[1..]);
          ExcludeChanges(w.value, parts[1..]);
          GetReplace(fs, parts[0], x, parts[0]);
          if x == w.value { ReplaceSame(fs, parts[0], x); }
        }
      }
    case Array(es) =>
      if Position(es, parts[0]) && |parts| > 1 {
        var i := Atoi(parts[0]).value;
        ExcludeChanges(es[i], parts[1..]);
        assert es[i := Exclude(es[i], parts[1..])][i] == Exclude(es[i], parts[1..]);
      }
    case _ =>
  }

  // ----- exactly when two exclusions commute

  /** The order of two exclusions does not matter. In documents it matters only below a common field. In an array,
      deleting an element moves the later ones down: what the other path deletes or changes must look the same one
      position further. */
  predicate OrderFree(v: Value, p: seq<bytes>, q: seq<bytes>)
    requires p != [] && q != []
    decreases |p|
  {
    match v
    case Document(fs) =>
      || p[0] != q[0] || |p| == 1 || |q| == 1
      || (match Get(fs, p[0]) case Some(w) => OrderFree(w, p[1..], q[1..]) case None => true)
    case Array(es) =>
      Position(es, p[0]) && Position(es, q[0]) ==>
        var i, j := Atoi(p[0]).value, Atoi(q[0]).value;
        if |p| == 1 && |q| == 1 then i == j || LooksDeleted(es, if i < j then j else i)
        else if |p| == 1 then MovesUnnoticed(es, i, j, q[1..])
        else if |q| == 1 then MovesUnnoticed(es, j, i, p[1..])
        else i == j ==> OrderFree(es[i], p[1..], q[1..])
    case _ => true
  }

  /** Deleting the element or the one behind it gives the same array. */
  predicate LooksDeleted(es: seq<Value>, k: int)
    requires 0 <= k < |es|
  {
    k + 1 < |es| && es[k] == es[k + 1]
  }

  /** Element i is deleted, and an exclusion happens inside element j. */
  predicate MovesUnnoticed(es: seq<Value>, i: int, j: int, parts: seq<bytes>)
    requires 0 <= i < |es| && 0 <= j < |es|
  {
    && (j > i ==> !Reaches(es[j], parts))
    && (j >= i && j + 1 < |es| ==> !Reaches(es[j + 1], parts))
  }

  function DeleteAt(es: seq<Value>, i: nat): (r: seq<Value>)
    requires i < |es|
    ensures |r| == |es| - 1 && forall k :: 0 <= k < |r| ==> r[k] == if k < i then es[k] else es[k + 1]
  {
    es[..i] + es[i + 1..]
  }

  function DeleteIfThere(es: seq<Value>, i: nat): seq<Value> { if i < |es| then DeleteAt(es, i) else es }

  lemma DeleteTwo(es: seq<Value>, i: nat, j: nat)
    requires i < j < |es|
    ensures DeleteIfThere(DeleteAt(es, i), j) == DeleteAt(DeleteAt(es, j), i) <==> LooksDeleted(es, j)
  {
    var a, b := DeleteAt(es, i), DeleteAt(es, j);
    if j + 1 < |es| {
      var c, d := DeleteAt(b, i), DeleteAt(a, j);
      assert c[j - 1] == b[j] == es[j + 1] && d[j - 1] == a[j - 1] == es[j];
      if es[j] == es[j + 1] {
        forall k | 0 <= k < |c| ensures c[k] == d[k] {
          assert c[k] == (if k < i then b[k] else b[k + 1]) && d[k] == (if k < j then a[k] else a[k + 1]);
        }
        assert c == d;
      }
    }
  }

  function ChangeIfThere(es: seq<Value>, j: nat, x: Value): seq<Value> { if j < |es| then es[j := x] else es }

  lemma DeleteAndChange(es: seq<Value>, i: nat, j: nat, x: Value, y: Value)
    requires i < |es| && j < |es|
    ensures ChangeIfThere(DeleteAt(es, i), j, if j < i then x else y) == DeleteAt(es[j := x], i)
            <==> (j > i ==> x == es[j]) && (j >= i && j + 1 < |es| ==> y == es[j + 1])
  {
    var c, d := DeleteAt(es[j := x], i), ChangeIfThere(DeleteAt(es, i), j, if j < i then x else y);
    if j > i { assert c[j - 1] == x && d[j - 1] == es[j]; }
    if j >= i && j + 1 < |es| { assert c[j] == es[j + 1] && d[j] == y; }
    if (j > i ==> x == es[j]) && (j >= i && j + 1 < |es| ==> y == es[j + 1]) {
      forall k | 0 <= k < |c| ensures c[k] == d[k] {}
      assert c == d;
    }
  }

  lemma ExcludeElement(es: seq<Value>, p: seq<bytes>)
    requires |p| == 1 && Atoi(p[0]).Some? && 0 <= Atoi(p[0]).value
    ensures Exclude(Array(es), p) == Array(DeleteIfThere(es, Atoi(p[0]).value))
  {
  }

  lemma ExcludeInside(es: seq<Value>, q: seq<bytes>)
    requires |q| > 1 && Atoi(q[0]).Some? && 0 <= Atoi(q[0]).value
    ensures var j := Atoi(q[0]).value;
            Exclude(Array(es), q) == Array(ChangeIfThere(es, j, if j < |es| then Exclude(es[j], q[1..]) else Null))
  {
  }

  lemma BothDelete(es: seq<Value>, p: seq<bytes>, q: seq<bytes>)
    requires |p| == 1 && |q| == 1 && Position(es, p[0]) && Position(es, q[0]) && Atoi(p[0]).value < Atoi(q[0]).value
    ensures Exclude(Exclude(Array(es), p), q) == Exclude(Exclude(Array(es), q), p)
            <==> LooksDeleted(es, Atoi(q[0]).value)
  {
    hide DeleteAt, Exclude, Atoi, LooksDeleted;
    var i, j := Atoi(p[0]).value, Atoi(q[0]).value;
    ExcludeElement(es, p);
    ExcludeElement(es, q);
    ExcludeElement(DeleteAt(es, i), q);
    ExcludeElement(DeleteAt(es, j), p);
    DeleteTwo(es, i, j);
  }

  lemma SameElement(es: seq<Value>, p: seq<bytes>, q: seq<bytes>)
    requires |p| == 1 && |q| == 1 && Position(es, p[0]) && Atoi(p[0]) == Atoi(q[0])
    ensures Exclude(Exclude(Array(es), p), q) == Exclude(Exclude(Array(es), q), p)
  {
    hide DeleteAt, Exclude, Atoi;
    var shorter := DeleteIfThere(es, Atoi(p[0]).value);
    ExcludeElement(es, p);
    ExcludeElement(es, q);
    ExcludeElement(shorter, p);
    ExcludeElement(shorter, q);
  }

  /** One exclusion deletes an element, the other one acts inside an element. */
  lemma {:induction false} DeleteAndExclude(es: seq<Value>, p: seq<bytes>, q: seq<bytes>)
    requires |p| == 1 && |q| > 1 && Position(es, p[0]) && Position(es, q[0])
    ensures Exclude(Exclude(Array(es), p), q) == Exclude(Exclude(Array(es), q), p)
            <==> MovesUnnoticed(es, Atoi(p[0]).value, Atoi(q[0]).value, q[1..])
  {
    hide DeleteAt, Exclude, Atoi, Reaches;
    var i, j := Atoi(p[0]).value, Atoi(q[0]).value;
    var x := Exclude(es[j], q[1..]);
    var y := if j + 1 < |es| then Exclude(es[j + 1], q[1..]) else Null;
    ExcludeElement(es, p);
    ExcludeInside(es, q);
    ExcludeInside(DeleteAt(es, i), q);
    ExcludeElement(es[j := x], p);
    ExcludeChanges(es[j], q[1..]);
    if j + 1 < |es| { ExcludeChanges(es[j + 1], q[1..]); }
    DeleteAndChange(es, i, j, x, y);
  }

  /** Order independence of two exclusions, decided. */
  lemma {:induction false} CommuteExactly(v: Value, p: seq<bytes>, q: seq<bytes>)
    requires p != [] && q != []
    ensures Exclude(Exclude(v, p), q) == Exclude(Exclude(v, q), p) <==> OrderFree(v, p, q)
    decreases |p|
  {
    if v.Document? {
      CommuteInDocument(v.fields, p, q);
    } else if v.Array? {
      CommuteInArray(v.elems, p, q);
    }
  }

  lemma {:induction false} CommuteInDocument(fs: Fields, p: seq<bytes>, q: seq<bytes>)
    requires p != [] && q != []
    ensures Exclude(Exclude(Document(fs), p), q) == Exclude(Exclude(Document(fs), q), p)
            <==> OrderFree(Document(fs), p, q)
    decreases |p|, 0
  {
    var n := p[0];
    if n != q[0] {
      ExcludeApart(fs, p, q);
    } else {
      ExcludeTogether(fs, p, q);
      ExcludeTogether(fs, q, p);
      if Get(fs, n).Some? && |p| > 1 && |q| > 1 {
        var w := Get(fs, n).value;
        CommuteExactly(w, p[1..], q[1..]);
        GetReplace(fs, n, Exclude(Exclude(w, p[1..]), q[1..]), n);
        GetReplace(fs, n, Exclude(Exclude(w, q[1..]), p[1..]), n);
      }
    }
  }

  lemma {:induction false} CommuteInArray(es: seq<Value>, p: seq<bytes>, q: seq<bytes>)
    requires p != [] && q != []
    ensures Exclude(Exclude(Array(es), p), q) == Exclude(Exclude(Array(es), q), p) <==> OrderFree(Array(es), p, q)
    decreases |p|, 0
  {
    hide Exclude, Atoi, LooksDeleted, MovesUnnoticed;
    if !(Position(es, p[0]) && Position(es, q[0])) {
      OnePosition(es, p, q);
    } else if |p| == 1 && |q| == 1 {
      var i, j := Atoi(p[0]).value, Atoi(q[0]).value;
      if i < j { BothDelete(es, p, q); } else if j < i { BothDelete(es, q, p); } else { SameElement(es, p, q); }
    } else if |p| == 1 {
      DeleteAndExclude(es, p, q);
    } else if |q| == 1 {
      DeleteAndExclude(es, q, p);
    } else {
      BothInside(es, p, q);
    }
  }

  lemma OnePosition(es: seq<Value>, p: seq<bytes>, q: seq<bytes>)
    requires p != [] && q != [] && !(Position(es, p[0]) && Position(es, q[0]))
    ensures Exclude(Exclude(Array(es), p), q) == Exclude(Exclude(Array(es), q), p)
  {
    if Position(es, p[0]) {
      assert Exclude(Array(es), q) == Array(es);
    } else {
      assert Exclude(Array(es), p) == Array(es);
    }
  }

  lemma {:induction false} BothInside(es: seq<Value>, p: seq<bytes>, q: seq<bytes>)
    requires |p| > 1 && |q| > 1 && Position(es, p[0]) && Position(es, q[0])
    ensures Exclude(Exclude(Array(es), p), q) == Exclude(Exclude(Array(es), q), p) <==> OrderFree(Array(es), p, q)
    decreases |p|, -1
  {
    var i, j := Atoi(p[0]).value, Atoi(q[0]).value;
    if i == j {
      ExcludeInElement(es, p, q);
      ExcludeInElement(es, q, p);
      CommuteExactly(es[i], p[1..], q[1..]);
      assert es[i := Exclude(Exclude(es[i], p[1..]), q[1..])][i] == Exclude(Exclude(es[i], p[1..]), q[1..]);
      assert es[i := Exclude(Exclude(es[i], q[1..]), p[1..])][i] == Exclude(Exclude(es[i], q[1..]), p[1..]);
    } else {
      var x, y := Exclude(es[i], p[1..]), Exclude(es[j], q[1..]);
      assert es[i := x][j := y] == es[j := y][i := x];
    }
  }

  /** What the path leads to. */
  function Walk(v: Value, parts: seq<bytes>): Option<Value>
    decreases |parts|
  {
    if parts == [] then Some(v)
    else
      match v
      case Document(fs) => (match Get(fs, parts[0]) case Some(w) => Walk(w, parts[1..]) case None => None)
      case Array(es) => if Position(es, parts[0]) then Walk(es[Atoi(parts[0]).value], parts[1..]) else None
      case _ => None
  }

  lemma {:induction false} BelowPrefix(v: Value, prefix: seq<bytes>, p: seq<bytes>, q: seq<bytes>)
    requires p != [] && q != []
    ensures OrderFree(v, prefix + p, prefix + q)
            <==> match Walk(v, prefix) case Some(w) => OrderFree(w, p, q) case None => true
    decreases |prefix|
  {
    if prefix == [] {
      assert [] + p == p && [] + q == q;
    } else {
      assert (prefix + p)[1..] == prefix[1..] + p && (prefix + q)[1..] == prefix[1..] + q;
      match v
      case Document(fs) => if Get(fs, prefix[0]).Some? { BelowPrefix(Get(fs, prefix[0]).value, prefix[1..], p, q); }
      case Array(es) => if Position(es, prefix[0]) { BelowPrefix(es[Atoi(prefix[0]).value], prefix[1..], p, q); }
      case _ =>
    }
  }

  lemma ElementsOrderFree(es: seq<Value>, p: bytes, q: bytes)
    requires Atoi(p).Some? && Atoi(q).Some? && 0 <= Atoi(p).value < Atoi(q).value
    ensures OrderFree(Array(es), [p], [q]) <==> Atoi(q).value >= |es| || LooksDeleted(es, Atoi(q).value)
  {
  }

  /** Two elements of one array, wherever the array stands: the order matters unless the later position is past the
      end, or holds the same as the position behind it. */
  lemma {:induction false} ElementsCommuteExactly(v: Value, prefix: seq<bytes>, p: bytes, q: bytes)
    requires Walk(v, prefix).Some? && Walk(v, prefix).value.Array?
    requires Atoi(p).Some? && Atoi(q).Some? && 0 <= Atoi(p).value < Atoi(q).value
    ensures var es, j := Walk(v, prefix).value.elems, Atoi(q).value;
            Exclude(Exclude(v, prefix + [p]), prefix + [q]) == Exclude(Exclude(v, prefix + [q]), prefix + [p])
            <==> j >= |es| || (j + 1 < |es| && es[j] == es[j + 1])
  {
    hide Exclude, Walk;
    BelowPrefix(v, prefix, [p], [q]);
    ElementsOrderFree(Walk(v, prefix).value.elems, p, q);
    hide OrderFree;
    CommuteExactly(v, prefix + [p], prefix + [q]);
  }

  /** Two exclusions that end at fields commute. */
  lemma {:induction false} Commute(v: Value, p: seq<bytes>, q: seq<bytes>)
    requires p != [] && q != [] && EndsAtField(v, p) && EndsAtField(v, q)
    ensures OrderFree(v, p, q)
    ensures Exclude(Exclude(v, p), q) == Exclude(Exclude(v, q), p)
    decreases |p|
  {
    if |p| > 1 && |q| > 1 {
      match v
      case Document(fs) => if p[0] == q[0] && Get(fs, p[0]).Some? { Commute(Get(fs, p[0]).value, p[1..], q[1..]); }
      case Array(es) =>
        if Position(es, p[0]) && Position(es, q[0]) && Atoi(p[0]) == Atoi(q[0]) {
          Commute(es[Atoi(p[0]).value], p[1..], q[1..]);
        }
      case _ =>
    }
    CommuteExactly(v, p, q);
  }

  lemma {:induction false} StaysAtField(v: Value, p: seq<bytes>, q: seq<bytes>)
    requires EndsAtField(v, p) && EndsAtField(v, q)
    ensures EndsAtField(Exclude(v, p), q)
    decreases |p|
  {
    if p != [] && q != [] {
      if v.Document? {
        var c := ChangeOf(Get(v.fields, p[0]), p);
        ExcludeIsAct(v.fields, p);
        GetAct(v.fields, p[0], c, q[0]);
        if c.Put? && p[0] == q[0] { StaysAtField(Get(v.fields, p[0]).value, p[1..], q[1..]); }
      } else if v.Array? && Position(v.elems, p[0]) && Position(v.elems, q[0]) {
        var i := Atoi(p[0]).value;
        if Atoi(q[0]).value == i { StaysAtField(v.elems[i], p[1..], q[1..]); }
      }
    }
  }

  // ----- a whole exclusion

  /** A top-level field goes even when it is null; "_id" stays when its value in the projection says so. */
  datatype Removal = Keep | Top(name: bytes) | Deep(parts: seq<bytes>)

  /** types.CompareScalars(v, int32(0)) is "equal" for the numbers zero; for doubles the bit patterns of 0 and -0. */
  predicate IsZero(v: Value) {
    match v
    case Int32(i) => i == 0
    case Int64(l) => l == 0
    case Double(bits) => bits == 0 || bits == 0x8000_0000_0000_0000
    case _ => false
  }

  predicate IsNumber(v: Value) { v.Int32? || v.Int64? || v.Double? }

  /** What one field of the projection asks for. */
  function RemovalOf(f: Field): Removal {
    if '.' in f.name then Deep(SplitDots(f.name))
    else if f.name == "_id" && ((f.value.Bool? && f.value.b) || (IsNumber(f.value) && !IsZero(f.value))) then Keep
    else Top(f.name)
  }

  function Removals(projection: Fields): (rs: seq<Removal>)
    ensures |rs| == |projection| && forall i :: 0 <= i < |rs| ==> rs[i] == RemovalOf(projection[i])
  {
    seq(|projection|, i requires 0 <= i < |projection| => RemovalOf(projection[i]))
  }

  function ExcludeOne(fs: Fields, r: Removal): (v: Value)
    ensures v.Document?
  {
    match r
    case Keep => Document(fs)
    case Top(name) => Document(Without(fs, name))
    case Deep(parts) => ExcludeKeepsKind(Document(fs), parts); Exclude(Document(fs), parts)
  }

  function ExcludeAll(fs: Fields, rs: seq<Removal>): Fields
    decreases |rs|
  {
    if rs == [] then fs else ExcludeAll(ExcludeOne(fs, rs[0]).fields, rs[1..])
  }

  /** The removal deletes no array element. */
  predicate Plain(fs: Fields, r: Removal) {
    r.Deep? ==> |r.parts| > 1 && EndsAtField(Document(fs), r.parts)
  }

  lemma TopAndDeep(fs: Fields, name: bytes, q: seq<bytes>)
    requires |q| > 1
    ensures ExcludeOne(ExcludeOne(fs, Top(name)).fields, Deep(q))
         == ExcludeOne(ExcludeOne(fs, Deep(q)).fields, Top(name))
  {
    var d := ChangeOf(Get(fs, q[0]), q);
    ExcludeIsAct(fs, q);
    ExcludeIsAct(Without(fs, name), q);
    GetWithout(fs, name, q[0]);
    if name != q[0] {
      ActsCommute(fs, name, Drop, q[0], d);
    } else if d.Put? {
      WithoutReplace(fs, name, name, d.v);
    }
  }

  /** Two fields of a projection may be taken in either order. */
  predicate EitherOrder(fs: Fields, r: Removal, t: Removal)
    requires (r.Deep? ==> |r.parts| > 1) && (t.Deep? ==> |t.parts| > 1)
  {
    r.Deep? && t.Deep? ==> OrderFree(Document(fs), r.parts, t.parts)
  }

  lemma RemovalsCommuteExactly(fs: Fields, r: Removal, t: Removal)
    requires (r.Deep? ==> |r.parts| > 1) && (t.Deep? ==> |t.parts| > 1)
    ensures ExcludeOne(ExcludeOne(fs, r).fields, t) == ExcludeOne(ExcludeOne(fs, t).fields, r)
            <==> EitherOrder(fs, r, t)
  {
    match (r, t)
    case (Top(a), Top(b)) => WithoutWithout(fs, a, b);
    case (Top(a), Deep(q)) => TopAndDeep(fs, a, q);
    case (Deep(p), Top(b)) => TopAndDeep(fs, b, p);
    case (Deep(p), Deep(q)) => CommuteExactly(Document(fs), p, q);
    case _ =>
  }

  lemma RemovalsCommute(fs: Fields, r: Removal, t: Removal)
    requires Plain(fs, r) && Plain(fs, t)
    ensures ExcludeOne(ExcludeOne(fs, r).fields, t) == ExcludeOne(ExcludeOne(fs, t).fields, r)
  {
    RemovalsCommuteExactly(fs, r, t);
    if r.Deep? && t.Deep? { Commute(Document(fs), r.parts, t.parts); }
  }

  lemma StaysPlain(fs: Fields, r: Removal, t: Removal)
    requires Plain(fs, r) && Plain(fs, t)
    ensures Plain(ExcludeOne(fs, r).fields, t)
  {
    if t.Deep? {
      match r
      case Top(a) => GetWithout(fs, a, t.parts[0]);
      case Deep(p) => StaysAtField(Document(fs), p, t.parts);
      case Keep =>
    }
  }

  predicate AllPlain(fs: Fields, rs: seq<Removal>) { forall i :: 0 <= i < |rs| ==> Plain(fs, rs[i]) }

  /** A removal may be done first. */
  lemma {:induction false} MoveToFront(fs: Fields, rs: seq<Removal>, k: nat)
    requires AllPlain(fs, rs) && k < |rs|
    ensures ExcludeAll(fs, rs) == ExcludeAll(ExcludeOne(fs, rs[k]).fields, rs[..k] + rs[k + 1..])
    decreases |rs|
  {
    if k == 0 {
      assert rs[..0] + rs[1..] == rs[1..];
    } else {
      var fs' := ExcludeOne(fs, rs[0]).fields;
      var rest := rs[1..];
      forall i | 0 <= i < |rest| ensures Plain(fs', rest[i]) {
        assert rest[i] == rs[i + 1];
        StaysPlain(fs, rs[0], rs[i + 1]);
      }
      MoveToFront(fs', rest, k - 1);
      RemovalsCommute(fs, rs[0], rs[k]);
      var others := rs[..k] + rs[k + 1..];
      assert others[0] == rs[0] && others[1..] == rest[..k - 1] + rest[k..];
    }
  }

  /** Order independence: as long as no array element is deleted, the fields of a projection may be taken in any
      order, also when one path is a prefix of another. */
  lemma {:induction false} OrderDoesNotMatter(fs: Fields, rs: seq<Removal>, ts: seq<Removal>)
    requires AllPlain(fs, rs) && multiset(rs) == multiset(ts)
    ensures ExcludeAll(fs, rs) == ExcludeAll(fs, ts)
    decreases |rs|
  {
    if rs == [] {
      assert |ts| == |multiset(ts)| == 0;
    } else {
      var k := TakeOut(rs, ts);
      AllStayPlain(fs, rs, ts);
      MoveToFront(fs, ts, k);
      OrderDoesNotMatter(ExcludeOne(fs, rs[0]).fields, rs[1..], ts[..k] + ts[k + 1..]);
    }
  }

  lemma TakeOut<T>(rs: seq<T>, ts: seq<T>) returns (k: nat)
    requires rs != [] && multiset(rs) == multiset(ts)
    ensures k < |ts| && ts[k] == rs[0] && multiset(rs[1..]) == multiset(ts[..k] + ts[k + 1..])
  {
    HeadTail(rs);
    assert rs[0] in multiset(rs);
    assert rs[0] in ts;
    k :| 0 <= k < |ts| && ts[k] == rs[0];
    Split(ts, k);
    HeadTail(ts[k..]);
    assert ts[k..][1..] == ts[k + 1..];
    assert multiset(rs) == multiset([rs[0]]) + multiset(rs[1..]);
    assert multiset(ts[k..]) == multiset([rs[0]]) + multiset(ts[k + 1..]);
    assert multiset(ts) == multiset(ts[..k]) + multiset(ts[k..]);
    assert multiset(ts[..k] + ts[k + 1..]) == multiset(ts[..k]) + multiset(ts[k + 1..]);
    assert multiset(rs[1..]) == multiset(rs) - multiset([rs[0]]);
    assert multiset(ts[..k] + ts[k + 1..]) == multiset(ts) - multiset([rs[0]]);
  }

  lemma AllStayPlain(fs: Fields, rs: seq<Removal>, ts: seq<Removal>)
    requires AllPlain(fs, rs) && rs != [] && multiset(rs) == multiset(ts)
    ensures AllPlain(fs, ts) && AllPlain(ExcludeOne(fs, rs[0]).fields, rs[1..])
  {
    forall i | 0 <= i < |ts| ensures Plain(fs, ts[i]) {
      assert ts[i] in multiset(ts);
      assert ts[i] in rs;
    }
    forall i | 0 <= i < |rs[1..]| ensures Plain(ExcludeOne(fs, rs[0]).fields, rs[1..][i]) {
      assert rs[1..][i] == rs[i + 1];
      StaysPlain(fs, rs[0], rs[i + 1]);
    }
  }

  /** With array elements it does matter: excluding "a.0" and "a.1" from {a: [1, 2, 3]} leaves [2] or [3]. */
  lemma OrderOfElementsMatters()
    ensures var v := Array([Int32(1), Int32(2), Int32(3)]);
            && Exclude(Exclude(v, ["0"]), ["1"]) == Array([Int32(2)])
            && Exclude(Exclude(v, ["1"]), ["0"]) == Array([Int32(3)])
  {
  }
}
