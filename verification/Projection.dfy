/** Exclusion as it runs on documents in memory: the walk along a dotted path, the countdown that decides where the
    shrunk document has to be written back, and the loops over fields and documents. */
module Projection {
  import opened Types
  import opened Numerals
  import opened Where
  import opened HeapDocument
  import opened Exclusion
  import opened ProjectionMeaning
  import opened DocumentTree

  // ----- fields by position

  lemma {:induction false} FieldAt(fs: Fields, i: nat)
    requires i < |fs| && forall j, k :: 0 <= j < k < |fs| ==> fs[j].name != fs[k].name
    ensures Get(fs, fs[i].name) == Some(fs[i].value)
    ensures Without(fs, fs[i].name) == fs[..i] + fs[i + 1..]
  {
    var name := fs[i].name;
    if i == 0 {
      AbsentField(fs[1..], name);
      assert [] + fs[1..] == fs[1..] == fs[..0] + fs[1..];
    } else {
      assert fs[0].name != name && fs[1..][i - 1] == fs[i];
      FieldAt(fs[1..], i - 1);
      RemoveInTail(fs, i);
    }
  }

  lemma {:induction false} ReplaceFieldAt(fs: Fields, i: nat, v: Value)
    requires i < |fs| && forall j, k :: 0 <= j < k < |fs| ==> fs[j].name != fs[k].name
    ensures Replace(fs, fs[i].name, v) == fs[i := Field(fs[i].name, v)]
  {
    var f := Field(fs[i].name, v);
    if i == 0 {
      assert [f] + fs[1..] == fs[0 := f];
    } else {
      var rest := fs[1..];
      assert fs[0].name != fs[i].name;
      ReplaceFieldAt(rest, i - 1, v);
      assert rest[i - 1] == fs[i];
      UpdateInTail(fs, i, f);
    }
  }

  lemma UpdateInTail<T>(s: seq<T>, i: nat, x: T)
    requires 0 < i < |s|
    ensures [s[0]] + s[1..][i - 1 := x] == s[i := x]
  {
  }

  lemma {:induction false} AbsentField(fs: Fields, name: bytes)
    requires forall i :: 0 <= i < |fs| ==> fs[i].name != name
    ensures Get(fs, name).None? && Without(fs, name) == fs
  {
    if fs != [] {
      HeadTail(fs);
      AbsentField(fs[1..], name);
    }
  }

  // ----- one step of the tree

  /** The node without one of its children. */
  function WithoutKid(n: Node, i: nat): Node
    requires !n.NScalar? && i < |n.kids| && (n.NDoc? ==> |n.names| == |n.kids|)
  {
    match n
    case NDoc(cell, keys, names, kids) => NDoc(cell, keys, RemoveAt(names, i), RemoveAt(kids, i))
    case NArr(arr, store, kids) => NArr(arr, store, RemoveAt(kids, i))
  }

  lemma TreeOfDocument(n: Node)
    requires n.NDoc? && Holds(n)
    ensures Tree(n).Document? && |Tree(n).fields| == |n.kids| == |n.names|
    ensures forall i :: 0 <= i < |n.kids| ==> Tree(n).fields[i] == Field(n.names[i], Tree(n.kids[i]))
    ensures forall j, k :: 0 <= j < k < |n.kids| ==> Tree(n).fields[j].name != Tree(n).fields[k].name
  {
    ContentsAgree(Handle(n.cell, n.keys, |n.names|), n.names, Refs(n.kids));
  }

  lemma NullTree(n: Node)
    requires Holds(n)
    ensures Tree(n).Null? <==> n == NScalar(Value.Null)
  {
  }

  lemma {:induction false} KidHolds(n: Node, i: nat)
    requires !n.NScalar? && Holds(n) && i < |n.kids|
    ensures Holds(n.kids[i])
  {
    HoldsAllMeans(n.kids);
  }

  /** Where the walk cannot go, exclusion changes nothing. */
  lemma NoKidNoChange(n: Node, parts: seq<bytes>)
    requires Holds(n) && parts != [] && KidIndex(n, parts[0]).None?
    ensures Exclude(Tree(n), parts) == Tree(n)
  {
    if n.NDoc? {
      var fs := Tree(n).fields;
      TreeOfDocument(n);
      match IndexOf(n.names, parts[0])
      case None => AbsentField(fs, parts[0]);
      case Some(i) => FieldAt(fs, i);
    }
  }

  /** Excluding a child. */
  lemma {:induction false} ExcludeKid(n: Node, s: bytes)
    requires Holds(n) && KidIndex(n, s).Some?
    requires n.NDoc? ==> |n.names| == |n.kids|
    ensures Exclude(Tree(n), [s]) == Tree(WithoutKid(n, KidIndex(n, s).value))
  {
    hide Holds, Without;
    var i := KidIndex(n, s).value;
    if n.NDoc? {
      TreeOfDocument(n);
      FieldAt(Tree(n).fields, i);
      KidHolds(n, i);
      NullTree(n.kids[i]);
      TreeWithoutKid(n, i);
    } else {
      TreeWithoutElem(n, i);
    }
  }

  lemma TreeWithoutKid(n: Node, i: nat)
    requires n.NDoc? && i < |n.kids| == |n.names|
    ensures Tree(WithoutKid(n, i)) == Document(RemoveAt(Tree(n).fields, i))
  {
    assert Tree(WithoutKid(n, i)).fields == RemoveAt(Tree(n).fields, i);
  }

  lemma TreeWithoutElem(n: Node, i: nat)
    requires n.NArr? && i < |n.kids|
    ensures Tree(WithoutKid(n, i)) == Array(RemoveAt(Tree(n).elems, i))
  {
    assert Tree(WithoutKid(n, i)).elems == RemoveAt(Tree(n).elems, i);
  }

  lemma TreeWithKid(n: Node, i: nat, x: Node)
    requires n.NDoc? && i < |n.kids| == |n.names|
    ensures Tree(WithKid(n, i, x)) == Document(Tree(n).fields[i := Field(n.names[i], Tree(x))])
  {
    assert Tree(WithKid(n, i, x)).fields == Tree(n).fields[i := Field(n.names[i], Tree(x))];
  }

  lemma TreeWithElem(n: Node, i: nat, x: Node)
    requires n.NArr? && i < |n.kids|
    ensures Tree(WithKid(n, i, x)) == Array(Tree(n).elems[i := Tree(x)])
  {
    assert Tree(WithKid(n, i, x)).elems == Tree(n).elems[i := Tree(x)];
  }

  /** Excluding something below a child. */
  lemma {:induction false} ExcludeBelowKid(n: Node, parts: seq<bytes>, x: Node)
    requires Holds(n) && |parts| > 1 && KidIndex(n, parts[0]).Some?
    requires Tree(x) == Exclude(Tree(n.kids[KidIndex(n, parts[0]).value]), parts[1..])
    ensures Exclude(Tree(n), parts) == Tree(WithKid(n, KidIndex(n, parts[0]).value, x))
  {
    var i := KidIndex(n, parts[0]).value;
    if n.NDoc? {
      TreeOfDocument(n);
      ExcludeBelowField(Tree(n).fields, parts, i);
      KidHolds(n, i);
      NullTree(n.kids[i]);
      TreeWithKid(n, i, x);
    } else {
      TreeWithElem(n, i, x);
    }
  }

  lemma {:induction false} ExcludeBelowField(fs: Fields, parts: seq<bytes>, i: nat)
    requires |parts| > 1 && i < |fs| && fs[i].name == parts[0] && !fs[i].value.Null?
    requires forall j, k :: 0 <= j < k < |fs| ==> fs[j].name != fs[k].name
    ensures Exclude(Document(fs), parts) == Document(fs[i := Field(parts[0], Exclude(fs[i].value, parts[1..]))])
  {
    FieldAt(fs, i);
    ReplaceFieldAt(fs, i, Exclude(fs[i].value, parts[1..]));
  }

  /** A path that does not lead anywhere excludes nothing. */
  lemma {:induction false} NotFoundNoChange(n: Node, parts: seq<bytes>)
    requires Holds(n) && At(n, parts).None?
    ensures Exclude(Tree(n), parts) == Tree(n)
    decreases |parts|
  {
    hide Holds, Tree, Exclude;
    match KidIndex(n, parts[0])
    case None => NoKidNoChange(n, parts);
    case Some(i) =>
      KidHolds(n, i);
      NotFoundNoChange(n.kids[i], parts[1..]);
      ExcludeBelowKid(n, parts, n.kids[i]);
      assert n.kids[i := n.kids[i]] == n.kids;
  }

  /** A change in one part is the change of the whole tree. */
  lemma {:induction false} TreeReplaced(n: Node, path: seq<bytes>, x: Node, rest: seq<bytes>)
    requires Holds(n) && At(n, path).Some? && rest != []
    requires Tree(x) == Exclude(Tree(At(n, path).value), rest)
    ensures Tree(ReplaceAt(n, path, x)) == Exclude(Tree(n), path + rest)
    decreases |path|
  {
    if path == [] {
      assert [] + rest == rest;
    } else {
      hide Exclude, Tree, Holds;
      var i := KidIndex(n, path[0]).value;
      var parts := path + rest;
      assert parts[0] == path[0] && parts[1..] == path[1..] + rest;
      KidHolds(n, i);
      TreeReplaced(n.kids[i], path[1..], x, rest);
      ReplaceStep(n, path, x, i, parts);
    }
  }

  lemma {:induction false} ReplaceStep(n: Node, path: seq<bytes>, x: Node, i: nat, parts: seq<bytes>)
    requires Holds(n) && path != [] && |parts| > 1 && parts[0] == path[0] && KidIndex(n, path[0]) == Some(i)
    requires Tree(ReplaceAt(n.kids[i], path[1..], x)) == Exclude(Tree(n.kids[i]), parts[1..])
    ensures Tree(ReplaceAt(n, path, x)) == Exclude(Tree(n), parts)
  {
    ExcludeBelowKid(n, parts, ReplaceAt(n.kids[i], path[1..], x));
  }

  // ----- shrinking a part in memory

  lemma WithoutKidApart(n: Node, i: nat)
    requires !n.NScalar? && i < |n.kids| && (n.NDoc? ==> |n.names| == |n.kids|) && Apart(n)
    ensures Apart(WithoutKid(n, i)) && Foot(WithoutKid(n, i)) <= Foot(n)
  {
    var r := RemoveAt(n.kids, i);
    assert ApartKids(n.kids);
    assert forall j :: 0 <= j < |r| ==> r[j] == n.kids[if j < i then j else j + 1];
    forall o | o in FootAll(r) ensures o in FootAll(n.kids) {
      var j := FootIn(r, o);
      FootAt(n.kids, if j < i then j else j + 1);
    }
  }

  lemma HoldsRemoved(ns: seq<Node>, i: nat)
    requires i < |ns| && HoldsAll(ns[..i]) && HoldsAll(ns[i + 1..])
    ensures HoldsAll(RemoveAt(ns, i))
  {
    HoldsAllMeans(ns[..i]);
    HoldsAllMeans(ns[i + 1..]);
    HoldsAllMeans(RemoveAt(ns, i));
  }

  lemma HoldsUpdated(ns: seq<Node>, i: nat, x: Node)
    requires i < |ns| && HoldsAll(ns[..i]) && HoldsAll(ns[i + 1..]) && Holds(x)
    ensures HoldsAll(ns[i := x])
  {
    assert ns[i := x][..i] == ns[..i] && ns[i := x][i + 1..] == ns[i + 1..];
    HoldsSlices(ns[i := x], i);
  }

  /** A node's own objects occur nowhere below it. */
  lemma OwnIsApart(n: Node, i: nat, o: object)
    requires Apart(n) && !n.NScalar? && i < |n.kids| && o in Own(n)
    ensures o !in FootAll(n.kids[..i]) && o !in Foot(n.kids[i]) && o !in FootAll(n.kids[i + 1..])
  {
    FootSlices(n.kids, i);
  }

  /** Document.Remove of a child, seen on the layout. */
  method RemoveKid(h: Handle, s: bytes, ghost d: Node, ghost k: nat) returns (h': Handle)
    requires d.NDoc? && RefOf(d) == HDoc(h) && Holds(d) && Apart(d)
    requires k < |d.kids| && k < |d.names| && d.names[k] == s
    modifies h.cell, h.keys
    ensures |d.names| == |d.kids| && Holds(WithoutKid(d, k)) && RefOf(WithoutKid(d, k)) == HDoc(h')
    ensures h'.cell == h.cell && h'.keys == h.keys
  {
    hide *;
    OpenKid(d, k);
    DocumentReady(d, k, h);
    assert allocated(FootAll(d.kids[..k])) && allocated(FootAll(d.kids[k + 1..]));
    h' := Remove(h, s);
    KidRemoved(d, k, h', old(h.cell.m));
  }

  lemma KidName(d: Node, s: bytes, k: nat)
    requires d.NDoc? && KidIndex(d, s) == Some(k)
    ensures k < |d.names| && k < |d.kids| && d.names[k] == s
  {
  }

  /** What a change of a document's own map and keys relies on. */
  lemma DocumentReady(d: Node, k: nat, h: Handle)
    requires d.NDoc? && RefOf(d) == HDoc(h) && OwnHolds(d) && Apart(d) && k < |d.kids|
    ensures |d.names| == |d.kids| && Agree(h) && KeysOf(h) == d.names && NoDup(d.names)
    ensures forall i :: 0 <= i < |d.names| ==> d.names[i] in h.cell.m && h.cell.m[d.names[i]] == RefOf(d.kids[i])
    ensures h.cell == d.cell && h.keys == d.keys && h.len == |d.names|
    ensures h.cell !in FootAll(d.kids[..k]) && h.cell !in Foot(d.kids[k]) && h.cell !in FootAll(d.kids[k + 1..])
    ensures h.keys !in FootAll(d.kids[..k]) && h.keys !in Foot(d.kids[k]) && h.keys !in FootAll(d.kids[k + 1..])
  {
    OwnIsApart(d, k, h.cell);
    OwnIsApart(d, k, h.keys);
    ContentsAgree(h, d.names, Refs(d.kids));
  }

  lemma RefsRemoved(ns: seq<Node>, k: nat)
    requires k < |ns|
    ensures Refs(RemoveAt(ns, k)) == RemoveAt(Refs(ns), k) && |RemoveAt(ns, k)| == |ns| - 1
  {
  }

  lemma KidRemoved(d: Node, k: nat, h: Handle, m: map<bytes, HVal>)
    requires d.NDoc? && |d.names| == |d.kids| && k < |d.kids| && NoDup(d.names) && h.cell == d.cell && h.keys == d.keys
    requires forall i :: 0 <= i < |d.names| ==> d.names[i] in m && m[d.names[i]] == RefOf(d.kids[i])
    requires Agree(h) && KeysOf(h) == RemoveKey(d.names, d.names[k]) && h.cell.m == m - {d.names[k]}
    requires HoldsAll(d.kids[..k]) && HoldsAll(d.kids[k + 1..])
    ensures Holds(WithoutKid(d, k)) && RefOf(WithoutKid(d, k)) == HDoc(h)
  {
    hide Agree, KeysOf, NoDup, RemoveKey, Contents, HoldsAll, RemoveAt;
    ContentsRemoved(h, m, d.names, Refs(d.kids), k);
    ContentsAgree(h, RemoveAt(d.names, k), RemoveAt(Refs(d.kids), k));
    HoldsRemoved(d.kids, k);
    RefsRemoved(d.kids, k);
  }

  lemma {:induction false} KidUpdated(p: Node, i: nat, x: Node, h: Handle, m: map<bytes, HVal>)
    requires p.NDoc? && |p.names| == |p.kids| && i < |p.kids| && NoDup(p.names) && RefOf(p) == HDoc(h)
    requires forall j :: 0 <= j < |p.names| ==> p.names[j] in m && m[p.names[j]] == RefOf(p.kids[j])
    requires Agree(h) && KeysOf(h) == p.names && h.cell.m == m[p.names[i] := RefOf(x)]
    requires HoldsAll(p.kids[..i]) && HoldsAll(p.kids[i + 1..]) && Holds(x)
    ensures Holds(WithKid(p, i, x))
  {
    hide Agree, KeysOf, NoDup, Contents;
    ContentsUpdated(h, m, p.names, Refs(p.kids), i, RefOf(x));
    HoldsUpdated(p.kids, i, x);
    assert Refs(p.kids[i := x]) == Refs(p.kids)[i := RefOf(x)];
  }

  /** Document.Set on an existing child. */
  method SetKid(h: Handle, s: bytes, v: HVal, ghost p: Node, ghost i: nat, ghost x: Node)
    requires p.NDoc? && RefOf(p) == HDoc(h) && Apart(p) && OwnHolds(p)
    requires i < |p.kids| && i < |p.names| && p.names[i] == s && RefOf(x) == v && Foot(x) <= Foot(p.kids[i])
    requires HoldsAll(p.kids[..i]) && HoldsAll(p.kids[i + 1..]) && Holds(x)
    modifies h.cell, h.keys
    ensures Holds(WithKid(p, i, x))
  {
    hide *;
    DocumentReady(p, i, h);
    assert allocated(FootAll(p.kids[..i])) && allocated(FootAll(p.kids[i + 1..])) && allocated(Foot(x));
    var r := HeapDocument.Set(h, s, v);
    KidUpdated(p, i, x, h, old(h.cell.m));
  }

  /** What the removal of a field of a child leaves in place around the child. */
  lemma {:induction false} OpenKid(p: Node, i: nat)
    requires !p.NScalar? && i < |p.kids| && Holds(p) && Apart(p)
    ensures OwnHolds(p) && HoldsAll(p.kids[..i]) && HoldsAll(p.kids[i + 1..])
    ensures Holds(p.kids[i]) && Apart(p.kids[i]) && Foot(p.kids[i]) <= Foot(p)
    ensures Own(p) !! Foot(p.kids[i])
    ensures FootAll(p.kids[..i]) !! Foot(p.kids[i]) && FootAll(p.kids[i + 1..]) !! Foot(p.kids[i])
  {
    HoldsSlices(p.kids, i);
    KidIsApart(p, i);
    SlicesApart(p.kids, i);
  }

  /** What a change of an array relies on. */
  lemma ArrayReady(p: Node, i: nat)
    requires p.NArr? && OwnHolds(p) && Apart(p) && i < |p.kids|
    ensures p.arr.s == p.store && p.arr.Valid() && p.arr.len == |p.kids| && p.arr.Elems() == Refs(p.kids)
    ensures p.arr !in FootAll(p.kids[..i]) && p.arr !in Foot(p.kids[i]) && p.arr !in FootAll(p.kids[i + 1..])
    ensures p.store !in FootAll(p.kids[..i]) && p.store !in Foot(p.kids[i]) && p.store !in FootAll(p.kids[i + 1..])
  {
    OwnIsApart(p, i, p.arr);
    OwnIsApart(p, i, p.store);
  }

  lemma ElemUpdated(p: Node, i: nat, x: Node)
    requires p.NArr? && i < |p.kids| && p.arr.s == p.store && p.arr.Valid()
    requires p.arr.Elems() == Refs(p.kids)[i := RefOf(x)]
    requires HoldsAll(p.kids[..i]) && HoldsAll(p.kids[i + 1..]) && Holds(x)
    ensures Holds(WithKid(p, i, x))
  {
    HoldsUpdated(p.kids, i, x);
    assert Refs(p.kids[i := x]) == Refs(p.kids)[i := RefOf(x)];
  }

  lemma ElemRemoved(p: Node, i: nat)
    requires p.NArr? && i < |p.kids| && p.arr.s == p.store && p.arr.Valid()
    requires p.arr.Elems() == RemoveAt(Refs(p.kids), i)
    requires HoldsAll(p.kids[..i]) && HoldsAll(p.kids[i + 1..])
    ensures Holds(WithoutKid(p, i)) && RefOf(WithoutKid(p, i)) == RefOf(p)
  {
    HoldsRemoved(p.kids, i);
    RefsRemoved(p.kids, i);
  }

  /** Array.Set. */
  method SetElem(a: ArrayCell, index: int, v: HVal, ghost p: Node, ghost i: nat, ghost x: Node)
    requires p.NArr? && p.arr == a && Apart(p) && OwnHolds(p)
    requires i == index < |p.kids| && RefOf(x) == v && Foot(x) <= Foot(p.kids[i])
    requires HoldsAll(p.kids[..i]) && HoldsAll(p.kids[i + 1..]) && Holds(x)
    modifies p.store
    ensures Holds(WithKid(p, i, x))
  {
    hide *;
    ArrayReady(p, i);
    assert allocated(FootAll(p.kids[..i])) && allocated(FootAll(p.kids[i + 1..])) && allocated(Foot(x));
    var ok := a.Set(index, v);
    ElemUpdated(p, i, x);
  }

  /** Array.Delete. */
  method DeleteElem(a: ArrayCell, index: nat, ghost p: Node)
    requires p.NArr? && p.arr == a && Apart(p) && Holds(p) && index < |p.kids|
    modifies a, p.store
    ensures Holds(WithoutKid(p, index)) && RefOf(WithoutKid(p, index)) == RefOf(p)
  {
    hide *;
    OpenKid(p, index);
    ArrayReady(p, index);
    assert allocated(FootAll(p.kids[..index])) && allocated(FootAll(p.kids[index + 1..]));
    var ok := a.Delete(index);
    ElemRemoved(p, index);
  }

  /** Where arrayCount is 0: the document that lost a field is set again in its parent document, which still has the
      old, longer copy. */
  method WriteBackToDocument(previousDoc: Handle, previousS: bytes, ppDoc: Handle, ppS: bytes,
                             ghost p: Node, ghost i: nat, ghost k: nat)
    requires p.NDoc? && RefOf(p) == HDoc(ppDoc) && Apart(p) && Holds(p) && KidIndex(p, ppS) == Some(i)
    requires p.kids[i].NDoc? && RefOf(p.kids[i]) == HDoc(previousDoc) && KidIndex(p.kids[i], previousS) == Some(k)
    modifies Foot(p)
    ensures |p.kids[i].names| == |p.kids[i].kids| && Holds(WithKid(p, i, WithoutKid(p.kids[i], k)))
  {
    hide Agree, KeysOf, Contents;
    ghost var d := p.kids[i];
    OpenKid(p, i);
    KidName(d, previousS, k);
    assert previousDoc.cell in Own(d) && previousDoc.keys in Own(d);
    assert allocated(FootAll(p.kids[..i])) && allocated(FootAll(p.kids[i + 1..]));
    var shrunk := RemoveKid(previousDoc, previousS, d, k);
    WithoutKidApart(d, k);
    SetKid(ppDoc, ppS, HDoc(shrunk), p, i, WithoutKid(d, k));
  }

  /** Where arrayCount is 1: the document that lost a field is set again in its array. */
  method WriteBackToArray(previousDoc: Handle, previousS: bytes, previousArray: ArrayCell, ppS: bytes,
                          ghost p: Node, ghost i: nat, ghost k: nat)
    requires p.NArr? && p.arr == previousArray && Apart(p) && Holds(p) && KidIndex(p, ppS) == Some(i)
    requires p.kids[i].NDoc? && RefOf(p.kids[i]) == HDoc(previousDoc) && KidIndex(p.kids[i], previousS) == Some(k)
    modifies Foot(p)
    ensures |p.kids[i].names| == |p.kids[i].kids| && Holds(WithKid(p, i, WithoutKid(p.kids[i], k)))
  {
    hide Agree, KeysOf, Contents;
    ghost var d := p.kids[i];
    OpenKid(p, i);
    KidName(d, previousS, k);
    assert previousDoc.cell in Own(d) && previousDoc.keys in Own(d);
    assert allocated(FootAll(p.kids[..i])) && allocated(FootAll(p.kids[i + 1..]));
    var shrunk := RemoveKid(previousDoc, previousS, d, k);
    WithoutKidApart(d, k);
    var sInt := Atoi(ppS);
    SetElem(previousArray, sInt.value, HDoc(shrunk), p, i, WithoutKid(d, k));
  }

  // ----- the walk

  /** The cursor variables after i parts of a dotted path: next is where the walk stands, the previous names belong to
      the step before, and arrayCount tells what the last two places were. */
  ghost predicate Cursor(n: Node, parts: seq<bytes>, i: nat, next: HVal, previousS: bytes, previousDoc: Handle,
                         previousArray: ArrayCell?, ppDoc: Handle, ppS: bytes, arrayCount: int)
  {
    && i <= |parts| && Reached(n, parts, i) && next == RefOf(Place(n, parts, i))
    && (i == 0 ==> arrayCount == 0)
    && (i >= 1 ==> Reached(n, parts, i - 1) && previousS == parts[i - 1]
                   && Owner(Place(n, parts, i - 1), previousDoc, previousArray, arrayCount == 2))
    && (i == 1 ==> arrayCount == 0 || arrayCount == 2)
    && (i >= 2 ==> Reached(n, parts, i - 2) && ppS == parts[i - 2]
                   && (arrayCount != 2 ==> 0 <= arrayCount <= 1
                                           && Owner(Place(n, parts, i - 2), ppDoc, previousArray, arrayCount == 1)))
  }

  predicate Reached(n: Node, parts: seq<bytes>, i: nat)
    requires i <= |parts|
  {
    At(n, parts[..i]).Some?
  }

  function Place(n: Node, parts: seq<bytes>, i: nat): Node
    requires i <= |parts| && Reached(n, parts, i)
  {
    At(n, parts[..i]).value
  }

  /** The place is the array of the cursor, or its document. */
  predicate Owner(p: Node, doc: Handle, arr: ArrayCell?, isArray: bool) {
    if isArray then p.NArr? && p.arr == arr else p.NDoc? && RefOf(p) == HDoc(doc)
  }

  /** Going one part further. */
  lemma {:induction false} OneFurther(n: Node, parts: seq<bytes>, i: nat)
    requires i < |parts| && Reached(n, parts, i)
    ensures var c := Place(n, parts, i);
            match KidIndex(c, parts[i])
            case Some(k) => Reached(n, parts, i + 1) && Place(n, parts, i + 1) == c.kids[k]
            case None => At(n, parts).None?
  {
    AtSnoc(n, parts[..i], parts[i]);
    assert parts[..i + 1] == parts[..i] + [parts[i]];
    if KidIndex(Place(n, parts, i), parts[i]).None? { AtPrefix(n, parts, i + 1); }
  }

  /** What Get finds in a document of the tree. */
  lemma Lookup(c: Node, h: Handle, s: bytes)
    requires Holds(c) && RefOf(c) == HDoc(h)
    ensures c.NDoc? && |c.names| == |c.kids|
    ensures KidIndex(c, s).None? <==> s !in h.cell.m || h.cell.m[s] == HScalar(Value.Null)
    ensures KidIndex(c, s).Some? ==> s in h.cell.m && h.cell.m[s] == RefOf(c.kids[KidIndex(c, s).value])
  {
    hide Agree, NoDup, KeysOf;
    ContentsAgree(h, c.names, Refs(c.kids));
    KeysAgree(h, c.names, s);
  }

  lemma KeysAgree(h: Handle, names: seq<bytes>, s: bytes)
    requires Agree(h) && KeysOf(h) == names
    ensures s in names <==> s in h.cell.m
  {
  }

  /** The walk goes through a document... */
  lemma ThroughDocument(n: Node, parts: seq<bytes>, i: nat, k: nat, j: Handle, previousS: bytes,
                        previousDoc: Handle, previousArray: ArrayCell?, ppDoc: Handle, ppS: bytes,
                        arrayCount: int)
    requires i < |parts| && Cursor(n, parts, i, HDoc(j), previousS, previousDoc, previousArray, ppDoc, ppS, arrayCount)
    requires Place(n, parts, i).NDoc? && KidIndex(Place(n, parts, i), parts[i]) == Some(k)
    ensures var next := RefOf(Place(n, parts, i).kids[k]);
            var count := if i > 0 && arrayCount > 0 then arrayCount - 1 else arrayCount;
            Cursor(n, parts, i + 1, next, parts[i], j, previousArray,
                   if i > 0 then previousDoc else ppDoc, if i > 0 then previousS else ppS, count)
  {
    OneFurther(n, parts, i);
  }

  /** ... or through an array. */
  lemma ThroughArray(n: Node, parts: seq<bytes>, i: nat, k: nat, j: ArrayCell, previousS: bytes,
                     previousDoc: Handle, previousArray: ArrayCell?, ppDoc: Handle, ppS: bytes,
                     arrayCount: int)
    requires 0 < i < |parts|
    requires Cursor(n, parts, i, HArr(j), previousS, previousDoc, previousArray, ppDoc, ppS, arrayCount)
    requires Place(n, parts, i).NArr? && KidIndex(Place(n, parts, i), parts[i]) == Some(k)
    ensures var next := RefOf(Place(n, parts, i).kids[k]);
            Cursor(n, parts, i + 1, next, parts[i], previousDoc, j, previousDoc, previousS, 2)
  {
    OneFurther(n, parts, i);
  }

  /** What Get finds in an array of the tree. */
  lemma LookupElem(c: Node, a: ArrayCell, s: bytes)
    requires Holds(c) && RefOf(c) == HArr(a)
    ensures c.NArr? && a.len == |c.kids| <= a.s.Length
    ensures KidIndex(c, s).Some? <==> Atoi(s).Some? && 0 <= Atoi(s).value < a.len
    ensures KidIndex(c, s).Some? ==>
              KidIndex(c, s).value == Atoi(s).value && a.s[Atoi(s).value] == RefOf(c.kids[Atoi(s).value])
  {
  }

  // ----- the end of the walk

  lemma ShrunkArrayTree(n: Node, parts: seq<bytes>, k: nat)
    requires parts != [] && Holds(n) && Reached(n, parts, |parts| - 1)
    requires Place(n, parts, |parts| - 1).NArr? && KidIndex(Place(n, parts, |parts| - 1), parts[|parts| - 1]) == Some(k)
    ensures Tree(ReplaceAt(n, parts[..|parts| - 1], WithoutKid(Place(n, parts, |parts| - 1), k)))
         == Exclude(Tree(n), parts)
  {
    hide Holds;
    var path, s := parts[..|parts| - 1], parts[|parts| - 1];
    var p := Place(n, parts, |parts| - 1);
    AtHolds(n, path);
    ExcludeKid(p, s);
    TreeReplaced(n, path, WithoutKid(p, k), [s]);
    assert path + [s] == parts;
  }

  lemma ShrunkKidTree(n: Node, parts: seq<bytes>, i: nat, k: nat)
    requires |parts| > 1 && Holds(n) && Reached(n, parts, |parts| - 2)
    requires KidIndex(Place(n, parts, |parts| - 2), parts[|parts| - 2]) == Some(i)
    requires var d := Place(n, parts, |parts| - 2).kids[i];
             d.NDoc? && |d.names| == |d.kids| && KidIndex(d, parts[|parts| - 1]) == Some(k)
    ensures var p := Place(n, parts, |parts| - 2);
            Tree(ReplaceAt(n, parts[..|parts| - 2], WithKid(p, i, WithoutKid(p.kids[i], k)))) == Exclude(Tree(n), parts)
  {
    hide Holds, Exclude, Tree, ReplaceAt;
    var path, pp, s := parts[..|parts| - 2], parts[|parts| - 2], parts[|parts| - 1];
    var p := Place(n, parts, |parts| - 2);
    AtHolds(n, path);
    KidHolds(p, i);
    ExcludeKid(p.kids[i], s);
    assert [pp, s][1..] == [s];
    ExcludeBelowKid(p, [pp, s], WithoutKid(p.kids[i], k));
    TreeReplaced(n, path, WithKid(p, i, WithoutKid(p.kids[i], k)), [pp, s]);
    assert path + [pp, s] == parts;
  }

  /** arrayCount is 2: the walk ended in an array element, which is deleted. */
  method DeleteFromArray(parts: seq<bytes>, previousArray: ArrayCell, ghost n: Node) returns (ghost n': Node)
    requires |parts| > 1 && Holds(n) && Apart(n) && Reached(n, parts, |parts| - 1) && Reached(n, parts, |parts|)
    requires Place(n, parts, |parts| - 1).NArr? && Place(n, parts, |parts| - 1).arr == previousArray
    modifies Foot(n)
    ensures Holds(n') && Apart(n') && RefOf(n') == RefOf(n) && Foot(n') <= Foot(n)
    ensures Tree(n') == Exclude(Tree(n), parts)
  {
    hide Agree, NoDup, KeysOf, Contents, OwnHolds, Exclude, Holds, Apart;
    ghost var path, p := parts[..|parts| - 1], Place(n, parts, |parts| - 1);
    var sInt := Atoi(parts[|parts| - 1]);
    OneFurther(n, parts, |parts| - 1);
    assert parts[..|parts|] == parts;
    ShrunkArrayTree(n, parts, sInt.value);
    AtInside(n, path);
    Open(n, path);
    assert allocated(Foot(n));
    WithoutKidApart(p, sInt.value);
    DeleteElem(previousArray, sInt.value, p);
    Close(n, path, WithoutKid(p, sInt.value));
    n' := ReplaceAt(n, path, WithoutKid(p, sInt.value));
  }

  /** arrayCount is 0 or 1: the walk ended in a field, which is removed from its document; the document is then written
      back to its own owner. */
  method ShrinkDocument(parts: seq<bytes>, previousDoc: Handle, previousArray: ArrayCell?, ppDoc: Handle,
                        arrayCount: int, ghost n: Node)
    returns (ghost n': Node)
    requires |parts| > 1 && Holds(n) && Apart(n) && 0 <= arrayCount <= 1
    requires Reached(n, parts, |parts| - 2) && Reached(n, parts, |parts| - 1) && Reached(n, parts, |parts|)
    requires Owner(Place(n, parts, |parts| - 2), ppDoc, previousArray, arrayCount == 1)
    requires Owner(Place(n, parts, |parts| - 1), previousDoc, previousArray, false)
    modifies Foot(n)
    ensures Holds(n') && Apart(n') && RefOf(n') == RefOf(n) && Foot(n') <= Foot(n)
    ensures Tree(n') == Exclude(Tree(n), parts)
  {
    hide Agree, NoDup, KeysOf, Contents, OwnHolds, Exclude, Holds, Apart;
    var ppS, previousS := parts[|parts| - 2], parts[|parts| - 1];
    ghost var path, p := parts[..|parts| - 2], Place(n, parts, |parts| - 2);
    OneFurther(n, parts, |parts| - 2);
    OneFurther(n, parts, |parts| - 1);
    assert parts[..|parts|] == parts;
    ghost var i := KidIndex(p, ppS).value;
    ghost var d := p.kids[i];
    ghost var k := KidIndex(d, previousS).value;
    AtInside(n, path);
    AtHolds(n, path);
    KidHolds(p, i);
    DocumentShape(d);
    ShrunkKidTree(n, parts, i, k);
    Open(n, path);
    assert allocated(Foot(n));
    ghost var x := WithKid(p, i, WithoutKid(d, k));
    OpenKid(p, i);
    WithoutKidApart(d, k);
    WithKidApart(p, i, WithoutKid(d, k));
    if arrayCount == 0 {
      WriteBackToDocument(previousDoc, previousS, ppDoc, ppS, p, i, k);
    } else {
      WriteBackToArray(previousDoc, previousS, previousArray, ppS, p, i, k);
    }
    Close(n, path, x);
    n' := ReplaceAt(n, path, x);
  }

  lemma DocumentShape(d: Node)
    requires d.NDoc? && Holds(d)
    ensures |d.names| == |d.kids|
  {
  }

  /** A dotted field of an exclusion. The result is the tree without what the path leads to; every document of it
      still has map and keys in agreement. */
  method ExcludePath(doc: Handle, parts: seq<bytes>, ghost n: Node) returns (ghost n': Node)
    requires |parts| > 1 && n.NDoc? && RefOf(n) == HDoc(doc) && Holds(n) && Apart(n)
    modifies Foot(n)
    ensures Holds(n') && Apart(n') && RefOf(n') == RefOf(n) && Foot(n') <= Foot(n)
    ensures Tree(n') == Exclude(Tree(n), parts)
  {
    hide Agree, NoDup, KeysOf, Contents, OwnHolds, Holds, Apart, Foot, Exclude;
    var next: HVal := HDoc(doc);
    var previousS, ppS: bytes := [], [];
    var previousDoc, ppDoc := doc, doc; // zero values in the source; both are assigned before they are used
    var previousArray: ArrayCell? := null;
    var arrayCount := 0;
    for i := 0 to |parts|
      invariant Cursor(n, parts, i, next, previousS, previousDoc, previousArray, ppDoc, ppS, arrayCount)
      invariant Holds(n)
    {
      var s := parts[i];
      ghost var c := Place(n, parts, i);
      AtHolds(n, parts[..i]);
      OneFurther(n, parts, i);
      match next {
        case HDoc(j) =>
          Lookup(c, j, s);
          if s !in j.cell.m || j.cell.m[s] == HScalar(Value.Null) {
            NotFoundNoChange(n, parts);
            return n;
          }
          ThroughDocument(n, parts, i, KidIndex(c, s).value, j, previousS, previousDoc, previousArray, ppDoc, ppS,
                          arrayCount);
          if i > 0 { ppDoc, ppS := previousDoc, previousS; }
          previousS, previousDoc := s, j;
          next := j.cell.m[s];
          if i > 0 && arrayCount > 0 { arrayCount := arrayCount - 1; }
        case HArr(j) =>
          LookupElem(c, j, s);
          var sInt := Atoi(s);
          if sInt.None? || !(0 <= sInt.value < j.len) {
            NotFoundNoChange(n, parts);
            return n;
          }
          ThroughArray(n, parts, i, sInt.value, j, previousS, previousDoc, previousArray, ppDoc, ppS, arrayCount);
          ppDoc, ppS := previousDoc, previousS;
          previousS, previousArray := s, j;
          next := j.s[sInt.value];
          arrayCount := 2;
        case HScalar(_) =>
          NotFoundNoChange(n, parts);
          return n;
      }
    }
    if arrayCount == 2 {
      n' := DeleteFromArray(parts, previousArray, n);
    } else {
      n' := ShrinkDocument(parts, previousDoc, previousArray, ppDoc, arrayCount, n);
    }
  }

  // ----- whole documents

  /** Document.Remove on the projected document itself; without the field it does nothing. */
  method RemoveTop(doc: Handle, field: bytes, ghost n: Node) returns (doc': Handle, ghost n': Node)
    requires n.NDoc? && RefOf(n) == HDoc(doc) && Holds(n) && Apart(n)
    modifies Foot(n)
    ensures n'.NDoc? && RefOf(n') == HDoc(doc') && Holds(n') && Apart(n') && Foot(n') <= Foot(n)
    ensures Tree(n).Document? && Tree(n') == Document(Without(Tree(n).fields, field))
  {
    hide *;
    OwnsItsParts(n, doc);
    if field in doc.cell.m {
      ghost var k := FieldPosition(n, field);
      doc' := RemoveKid(doc, field, n, k);
      n' := WithoutKid(n, k);
    } else {
      NoSuchField(n, field);
      doc', n' := doc, n;
    }
  }

  lemma {:induction false} FieldPosition(n: Node, field: bytes) returns (k: nat)
    requires n.NDoc? && Holds(n) && Apart(n) && field in n.names
    ensures k < |n.kids| == |n.names| && n.names[k] == field
    ensures Tree(n).Document? && Tree(WithoutKid(n, k)) == Document(Without(Tree(n).fields, field))
    ensures WithoutKid(n, k).NDoc? && Apart(WithoutKid(n, k)) && Foot(WithoutKid(n, k)) <= Foot(n)
  {
    hide Holds, Apart, Without;
    k := IndexOf(n.names, field).value;
    TreeOfDocument(n);
    FieldAt(Tree(n).fields, k);
    TreeWithoutKid(n, k);
    WithoutKidApart(n, k);
  }

  lemma {:induction false} NoSuchField(n: Node, field: bytes)
    requires n.NDoc? && Holds(n) && field !in n.names
    ensures Tree(n).Document? && Document(Without(Tree(n).fields, field)) == Tree(n)
  {
    TreeOfDocument(n);
    AbsentField(Tree(n).fields, field);
  }

  lemma OwnsItsParts(n: Node, h: Handle)
    requires n.NDoc? && RefOf(n) == HDoc(h) && Holds(n)
    ensures h.cell in Foot(n) && h.keys in Foot(n) && Agree(h)
    ensures forall s :: s in n.names <==> s in h.cell.m
  {
    ContentsAgree(h, n.names, Refs(n.kids));
  }

  /** One field of an exclusion. */
  method ProjectField(doc: Handle, f: Field, ghost n: Node) returns (doc': Handle, ghost n': Node)
    requires n.NDoc? && RefOf(n) == HDoc(doc) && Holds(n) && Apart(n)
    modifies Foot(n)
    ensures n'.NDoc? && RefOf(n') == HDoc(doc') && Holds(n') && Apart(n') && Foot(n') <= Foot(n)
    ensures Tree(n).Document? && Tree(n') == ExcludeOne(Tree(n).fields, RemovalOf(f))
    ensures Excludes(Tree(n).fields, [f], Tree(n').fields)
    ensures '.' in f.name ==> Tree(n') == Exclude(Tree(n), SplitDots(f.name))
  {
    hide Agree, NoDup, KeysOf, Contents, Holds, Apart, Foot, Exclude, Excludes;
    TreeOfDocument(n);
    OneFieldMeaning(Tree(n).fields, f);
    if '.' in f.name {
      DotMakesParts(f.name);
      n' := ExcludePath(doc, SplitDots(f.name), n);
      doc' := doc;
    } else {
      if f.name == "_id" {
        if f.value.Bool? && f.value.b { return doc, n; }
        if IsNumber(f.value) && !IsZero(f.value) { return doc, n; }
      }
      doc', n' := RemoveTop(doc, f.name, n);
    }
  }

  lemma {:induction false} DotMakesParts(key: bytes)
    requires '.' in key
    ensures |SplitDots(key)| > 1
  {
    if key[0] != '.' { DotMakesParts(key[1..]); }
  }

  /** projectDocument: the fields of the projection are taken in whatever order the map yields them. */
  method ProjectDocument(doc: Handle, projection: Fields, ghost n: Node)
    returns (doc': Handle, ghost n': Node, ghost order: seq<Removal>)
    requires n.NDoc? && RefOf(n) == HDoc(doc) && Holds(n) && Apart(n)
    modifies Foot(n)
    ensures n'.NDoc? && RefOf(n') == HDoc(doc') && Holds(n') && Apart(n') && Foot(n') <= Foot(n)
    ensures multiset(order) == multiset(Removals(projection))
    ensures Tree(n).Document? && Tree(n') == Document(ExcludeAll(Tree(n).fields, order))
    ensures AllPlain(Tree(n).fields, Removals(projection)) ==>
              Tree(n') == Document(ExcludeAll(Tree(n).fields, Removals(projection)))
    ensures Excludes(Tree(n).fields, projection, Tree(n').fields)
  {
    hide Excludes;
    hide Agree, NoDup, KeysOf, Contents, Holds, Apart, Foot, Exclude;
    TreeOfDocument(n);
    ghost var fs := Tree(n).fields;
    var rest := projection;
    doc', n', order := doc, n, [];
    assert multiset(order) + multiset(Removals(rest)) == multiset(Removals(projection));
    while rest != []
      invariant n'.NDoc? && RefOf(n') == HDoc(doc') && Holds(n') && Apart(n') && Foot(n') <= Foot(n)
      invariant multiset(order) + multiset(Removals(rest)) == multiset(Removals(projection))
      invariant Tree(n') == Document(ExcludeAll(fs, order))
      decreases |rest|
    {
      var k :| 0 <= k < |rest|;
      TakeField(rest, k, order);
      ExcludeAllSnoc(fs, order, RemovalOf(rest[k]));
      doc', n' := ProjectField(doc', rest[k], n');
      order := order + [RemovalOf(rest[k])];
      rest := rest[..k] + rest[k + 1..];
    }
    assert multiset(order) == multiset(Removals(projection));
    ExclusionMeaning(fs, projection, order);
    if AllPlain(fs, Removals(projection)) { OrderDoesNotMatter(fs, Removals(projection), order); }
  }

  lemma TakeField(rest: Fields, k: nat, order: seq<Removal>)
    requires k < |rest|
    ensures multiset(order + [RemovalOf(rest[k])]) + multiset(Removals(rest[..k] + rest[k + 1..]))
         == multiset(order) + multiset(Removals(rest))
  {
    var rs, r := Removals(rest), RemovalOf(rest[k]);
    assert rs == rs[..k] + [r] + rs[k + 1..];
    assert Removals(rest[..k] + rest[k + 1..]) == rs[..k] + rs[k + 1..];
    assert multiset(rs) == multiset(rs[..k]) + multiset([r]) + multiset(rs[k + 1..]);
    assert multiset(rs[..k] + rs[k + 1..]) == multiset(rs[..k]) + multiset(rs[k + 1..]);
    assert multiset(order + [r]) == multiset(order) + multiset([r]);
  }

  lemma {:induction false} ExcludeAllSnoc(fs: Fields, rs: seq<Removal>, r: Removal)
    ensures Document(ExcludeAll(fs, rs + [r])) == ExcludeOne(ExcludeAll(fs, rs), r)
    decreases |rs|
  {
    if rs == [] {
      assert (rs + [r])[1..] == [];
    } else {
      assert (rs + [r])[0] == rs[0] && (rs + [r])[1..] == rs[1..] + [r];
      ExcludeAllSnoc(ExcludeOne(fs, rs[0]).fields, rs[1..], r);
    }
  }

  /** One value is the other with the fields of the projection excluded, in some order; so what no field of the
      projection covers is still there. */
  ghost predicate IsProjection(v: Value, v': Value, projection: Fields) {
    v.Document?
    && v'.Document? && Excludes(v.fields, projection, v'.fields)
    && exists order :: multiset(order) == multiset(Removals(projection)) && v' == Document(ExcludeAll(v.fields, order))
  }

  /** The first done documents are projected, the others are as before. */
  ghost predicate Projected(n: Node, n': Node, projection: Fields, done: nat)
    requires n.NArr? && n'.NArr? && |n.kids| == |n'.kids| && done <= |n.kids|
  {
    && (forall i :: done <= i < |n.kids| ==> n'.kids[i] == n.kids[i])
    && (forall i :: 0 <= i < done ==> IsProjection(Tree(n.kids[i]), Tree(n'.kids[i]), projection))
  }

  lemma OneMoreProjected(n: Node, n': Node, projection: Fields, done: nat, x: Node, order: seq<Removal>)
    requires n.NArr? && n'.NArr? && |n.kids| == |n'.kids| && done < |n.kids|
    requires Projected(n, n', projection, done) && Tree(n.kids[done]).Document?
    requires multiset(order) == multiset(Removals(projection))
    requires Tree(x) == Document(ExcludeAll(Tree(n.kids[done]).fields, order))
    ensures Projected(n, WithKid(n', done, x), projection, done + 1)
  {
    ExclusionMeaning(Tree(n.kids[done]).fields, projection, order);
    assert IsProjection(Tree(n.kids[done]), Tree(x), projection);
  }

  /** ProjectDocuments: every retrieved document is replaced by its projection, until something else than a document
      turns up. */
  method ProjectDocuments(docs: ArrayCell, projection: Fields, ghost n: Node) returns (ok: bool, ghost n': Node)
    requires n.NArr? && n.arr == docs && Holds(n) && Apart(n)
    modifies Foot(n)
    ensures n'.NArr? && n'.arr == docs && Holds(n') && Apart(n') && |n'.kids| == |n.kids|
    ensures ok <==> forall i :: 0 <= i < |n.kids| ==> n.kids[i].NDoc?
    ensures ok ==> Projected(n, n', projection, |n.kids|)
  {
    n' := n;
    for i := 0 to docs.len
      invariant n'.NArr? && n'.arr == docs && Holds(n') && Apart(n') && Foot(n') <= Foot(n)
      invariant |n'.kids| == |n.kids| == docs.len && Projected(n, n', projection, i)
      invariant forall j :: 0 <= j < i ==> n.kids[j].NDoc?
    {
      ghost var before := n'.kids[i];
      OpenKid(n', i);
      assert docs.s[i] == RefOf(before);
      if !docs.s[i].HDoc? { return false, n'; }
      n' := ProjectElement(docs, i, projection, n', n);
    }
    ok := true;
  }

  /** *doc = docv through the pointer to the element. */
  method ProjectElement(docs: ArrayCell, i: nat, projection: Fields, ghost n': Node, ghost n: Node)
    returns (ghost n'': Node)
    requires n.NArr? && n'.NArr? && n'.arr == docs && Holds(n') && Apart(n')
    requires |n'.kids| == |n.kids| && i < |n.kids| && n'.kids[i].NDoc? && Projected(n, n', projection, i)
    modifies Foot(n')
    ensures n''.NArr? && n''.arr == docs && Holds(n'') && Apart(n'') && Foot(n'') <= Foot(n')
    ensures |n''.kids| == |n.kids| && Projected(n, n'', projection, i + 1)
  {
    hide Agree, NoDup, KeysOf, Contents;
    OpenKid(n', i);
    assert allocated(FootAll(n'.kids[..i])) && allocated(FootAll(n'.kids[i + 1..]));
    assert docs.s[i] == RefOf(n'.kids[i]);
    var docv, x, order := ProjectDocument(docs.s[i].h, projection, n'.kids[i]);
    SetElem(docs, i, HDoc(docv), n', i, x);
    WithKidApart(n', i, x);
    OneMoreProjected(n, n', projection, i, x, order);
    n'' := WithKid(n', i, x);
  }
}
