/** The tree that a document in memory stands for: which maps, key stores and arrays make it up, that no two parts of
    it share any of them, and what replacing one part does to the rest. */
module DocumentTree {
  import opened Types
  import opened Numerals
  import opened HeapDocument

  /** A layout: the objects of a document and what they are expected to hold. */
  datatype Node =
    | NScalar(v: Value)
    | NDoc(cell: MapCell, keys: array<bytes>, names: seq<bytes>, kids: seq<Node>)
    | NArr(arr: ArrayCell, store: array<HVal>, kids: seq<Node>)

  function RefOf(n: Node): HVal {
    match n
    case NScalar(v) => HScalar(v)
    case NDoc(cell, keys, names, _) => HDoc(Handle(cell, keys, |names|))
    case NArr(arr, _, _) => HArr(arr)
  }

  function Refs(ns: seq<Node>): (refs: seq<HVal>)
    ensures |refs| == |ns| && forall i :: 0 <= i < |ns| ==> refs[i] == RefOf(ns[i])
  {
    seq(|ns|, i requires 0 <= i < |ns| => RefOf(ns[i]))
  }

  // ----- footprints

  ghost function Own(n: Node): set<object> {
    match n
    case NScalar(_) => {}
    case NDoc(cell, keys, _, _) => {cell, keys}
    case NArr(arr, store, _) => {arr, store}
  }

  ghost function Foot(n: Node): set<object>
    decreases n, 1
  {
    if n.NScalar? then {} else Own(n) + FootAll(n.kids)
  }

  ghost function FootAll(ns: seq<Node>): set<object>
    decreases ns, 0
  {
    if ns == [] then {} else Foot(ns[0]) + FootAll(ns[1..])
  }

  lemma {:induction false} FootAt(ns: seq<Node>, i: nat)
    requires i < |ns|
    ensures Foot(ns[i]) <= FootAll(ns)
  {
    if i > 0 { FootAt(ns[1..], i - 1); }
  }

  lemma {:induction false} FootIn(ns: seq<Node>, o: object) returns (i: nat)
    requires o in FootAll(ns)
    ensures i < |ns| && o in Foot(ns[i])
  {
    if o in Foot(ns[0]) {
      i := 0;
    } else {
      i := FootIn(ns[1..], o);
      i := i + 1;
    }
  }

  /** No two parts share an object. */
  ghost predicate Apart(n: Node)
    decreases n
  {
    n.NScalar? || (Own(n) !! FootAll(n.kids) && ApartKids(n.kids))
  }

  ghost predicate ApartKids(ns: seq<Node>)
    decreases ns
  {
    && (forall i :: 0 <= i < |ns| ==> Apart(ns[i]))
    && (forall i, j :: 0 <= i < j < |ns| ==> Foot(ns[i]) !! Foot(ns[j]))
  }

  // ----- contents

  /** A node's own objects hold what the layout says; in a document, map and keys agree. */
  ghost predicate OwnHolds(n: Node)
    reads Own(n)
  {
    match n
    case NScalar(v) => !v.Document? && !v.Array?
    case NDoc(cell, keys, names, kids) => Contents(Handle(cell, keys, |names|), names, Refs(kids))
    case NArr(arr, store, kids) => arr.s == store && arr.len == |kids| <= store.Length && store[..arr.len] == Refs(kids)
  }

  ghost predicate Holds(n: Node)
    reads Foot(n)
    decreases n, 1
  {
    if n.NScalar? then OwnHolds(n) else OwnHolds(n) && HoldsAll(n.kids)
  }

  ghost predicate HoldsAll(ns: seq<Node>)
    reads FootAll(ns)
    decreases ns, 0
  {
    ns == [] || (Holds(ns[0]) && HoldsAll(ns[1..]))
  }

  lemma {:induction false} HoldsAllMeans(ns: seq<Node>)
    ensures HoldsAll(ns) <==> forall i :: 0 <= i < |ns| ==> Holds(ns[i])
  {
    if ns != [] {
      HoldsAllMeans(ns[1..]);
      assert forall i :: 0 <= i < |ns[1..]| ==> ns[1..][i] == ns[i + 1];
      assert forall i :: 0 < i < |ns| ==> ns[i] == ns[1..][i - 1];
    }
  }

  /** The document that a layout stands for. */
  function Tree(n: Node): Value
    decreases n
  {
    match n
    case NScalar(v) => v
    case NDoc(_, _, names, kids) =>
      Document(seq(|kids|, i requires 0 <= i < |kids| => Field(if i < |names| then names[i] else [], Tree(kids[i]))))
    case NArr(_, _, kids) => Array(seq(|kids|, i requires 0 <= i < |kids| => Tree(kids[i])))
  }

  // ----- walking

  function IndexOf(names: seq<bytes>, s: bytes): (i: Option<nat>)
    ensures i.Some? ==> i.value < |names| && names[i.value] == s
    ensures i.None? <==> s !in names
  {
    if names == [] then None
    else if names[0] == s then Some(0)
    else match IndexOf(names[1..], s) case Some(i) => Some(i + 1) case None => None
  }

  /** Where one part of a dotted path leads; a null field of a document leads nowhere. */
  function KidIndex(n: Node, s: bytes): (i: Option<nat>)
    ensures i.Some? ==> !n.NScalar? && i.value < |n.kids|
  {
    match n
    case NScalar(_) => None
    case NDoc(_, _, names, kids) =>
      (match IndexOf(names, s)
       case Some(i) => if i < |kids| && kids[i] != NScalar(Null) then Some(i) else None
       case None => None)
    case NArr(_, _, kids) =>
      (match Atoi(s)
       case Some(i) => if 0 <= i < |kids| then Some(i) else None
       case None => None)
  }

  function At(n: Node, path: seq<bytes>): Option<Node>
    decreases |path|
  {
    if path == [] then Some(n)
    else match KidIndex(n, path[0]) case Some(i) => At(n.kids[i], path[1..]) case None => None
  }

  lemma {:induction false} AtSnoc(n: Node, path: seq<bytes>, s: bytes)
    ensures At(n, path + [s])
         == match At(n, path)
            case None => None
            case Some(c) => match KidIndex(c, s) case Some(i) => Some(c.kids[i]) case None => None
    decreases |path|
  {
    if path == [] {
      assert [] + [s] == [s] && [s][1..] == [];
    } else {
      assert (path + [s])[0] == path[0] && (path + [s])[1..] == path[1..] + [s];
      if KidIndex(n, path[0]).Some? { AtSnoc(n.kids[KidIndex(n, path[0]).value], path[1..], s); }
    }
  }

  /** A path that leads nowhere is not continued. */
  lemma {:induction false} AtPrefix(n: Node, path: seq<bytes>, k: nat)
    requires k <= |path| && At(n, path[..k]).None?
    ensures At(n, path).None?
    decreases |path|
  {
    if k > 0 {
      assert path[..k][0] == path[0] && path[..k][1..] == path[1..][..k - 1];
      if KidIndex(n, path[0]).Some? { AtPrefix(n.kids[KidIndex(n, path[0]).value], path[1..], k - 1); }
    }
  }

  lemma {:induction false} AtInside(n: Node, path: seq<bytes>)
    requires At(n, path).Some?
    ensures Foot(At(n, path).value) <= Foot(n)
    ensures Apart(n) ==> Apart(At(n, path).value)
    decreases |path|
  {
    if path != [] {
      var i := KidIndex(n, path[0]).value;
      FootAt(n.kids, i);
      if Apart(n) { assert ApartKids(n.kids) && Apart(n.kids[i]); }
      AtInside(n.kids[i], path[1..]);
    }
  }

  lemma {:induction false} AtHolds(n: Node, path: seq<bytes>)
    requires At(n, path).Some? && Holds(n)
    ensures Holds(At(n, path).value)
    decreases |path|
  {
    if path != [] {
      var i := KidIndex(n, path[0]).value;
      HoldsAllMeans(n.kids);
      AtHolds(n.kids[i], path[1..]);
    }
  }

  // ----- replacing a part

  function WithKid(n: Node, i: nat, kid: Node): Node
    requires !n.NScalar? && i < |n.kids|
  {
    n.(kids := n.kids[i := kid])
  }

  function ReplaceAt(n: Node, path: seq<bytes>, x: Node): Node
    decreases |path|
  {
    if path == [] then x
    else
      match KidIndex(n, path[0])
      case Some(i) => WithKid(n, i, ReplaceAt(n.kids[i], path[1..], x))
      case None => n
  }

  lemma {:induction false} KidFoot(ns: seq<Node>, i: nat, x: Node)
    requires i < |ns| && Foot(x) <= Foot(ns[i])
    ensures FootAll(ns[i := x]) <= FootAll(ns)
  {
    if i == 0 {
      assert ns[0 := x][1..] == ns[1..];
    } else {
      assert ns[i := x][1..] == ns[1..][i - 1 := x];
      KidFoot(ns[1..], i - 1, x);
    }
  }

  lemma KidApart(ns: seq<Node>, i: nat, x: Node)
    requires ApartKids(ns) && i < |ns| && Foot(x) <= Foot(ns[i]) && Apart(x)
    ensures ApartKids(ns[i := x])
  {
    var r := ns[i := x];
    forall j, k | 0 <= j < k < |r| ensures Foot(r[j]) !! Foot(r[k]) {
      assert Foot(ns[j]) !! Foot(ns[k]);
      assert Foot(r[j]) <= Foot(ns[j]) && Foot(r[k]) <= Foot(ns[k]);
    }
  }

  /** A part may take the place of a child when it keeps to the child's objects. */
  lemma WithKidApart(n: Node, i: nat, x: Node)
    requires !n.NScalar? && i < |n.kids| && Apart(n) && Apart(x) && Foot(x) <= Foot(n.kids[i])
    ensures Apart(WithKid(n, i, x)) && Foot(WithKid(n, i, x)) <= Foot(n)
  {
    KidFoot(n.kids, i, x);
    KidApart(n.kids, i, x);
  }

  // ----- a tree with a hole

  lemma {:induction false} FootSlices(ns: seq<Node>, i: nat)
    requires i < |ns|
    ensures FootAll(ns) == FootAll(ns[..i]) + Foot(ns[i]) + FootAll(ns[i + 1..])
  {
    if i == 0 {
      assert ns[..0] == [];
    } else {
      FootSlices(ns[1..], i - 1);
      assert ns[..i][0] == ns[0] && ns[..i][1..] == ns[1..][..i - 1];
      assert ns[1..][i..] == ns[i + 1..];
    }
  }

  lemma {:induction false} SlicesApart(ns: seq<Node>, i: nat)
    requires ApartKids(ns) && i < |ns|
    ensures FootAll(ns[..i]) !! Foot(ns[i]) && FootAll(ns[i + 1..]) !! Foot(ns[i])
  {
    forall o | o in FootAll(ns[..i]) ensures o !in Foot(ns[i]) {
      var j := FootIn(ns[..i], o);
      assert Foot(ns[j]) !! Foot(ns[i]);
    }
    forall o | o in FootAll(ns[i + 1..]) ensures o !in Foot(ns[i]) {
      var j := FootIn(ns[i + 1..], o);
      assert Foot(ns[i]) !! Foot(ns[i + 1 + j]);
    }
  }

  /** What lies around a child is apart from the child. */
  lemma KidIsApart(n: Node, i: nat)
    requires Apart(n) && !n.NScalar? && i < |n.kids|
    ensures Apart(n.kids[i]) && Foot(n.kids[i]) <= Foot(n)
    ensures Own(n) + FootAll(n.kids[..i]) + FootAll(n.kids[i + 1..]) <= Foot(n) - Foot(n.kids[i])
  {
    assert ApartKids(n.kids);
    SlicesApart(n.kids, i);
    FootSlices(n.kids, i);
  }

  /** Everything but the part at the end of the path holds. */
  ghost predicate Around(n: Node, path: seq<bytes>)
    requires Apart(n) && At(n, path).Some?
    reads Foot(n) - Foot(At(n, path).value)
    decreases |path|
  {
    path == []
    || var i := KidIndex(n, path[0]).value;
       KidIsApart(n, i);
       AtInside(n.kids[i], path[1..]);
       OwnHolds(n) && HoldsAll(n.kids[..i]) && HoldsAll(n.kids[i + 1..]) && Around(n.kids[i], path[1..])
  }

  lemma {:induction false} HoldsSlices(ns: seq<Node>, i: nat)
    requires i < |ns|
    ensures HoldsAll(ns) <==> HoldsAll(ns[..i]) && Holds(ns[i]) && HoldsAll(ns[i + 1..])
  {
    hide Holds, HoldsAll;
    HoldsAllMeans(ns);
    HoldsAllMeans(ns[..i]);
    HoldsAllMeans(ns[i + 1..]);
    assert forall j :: 0 <= j < i ==> ns[j] == ns[..i][j];
    assert forall j :: i < j < |ns| ==> ns[j] == ns[i + 1..][j - i - 1];
  }

  /** A tree that holds can be opened at any part... */
  lemma {:induction false} Open(n: Node, path: seq<bytes>)
    requires Apart(n) && Holds(n) && At(n, path).Some?
    ensures Around(n, path) && Holds(At(n, path).value)
    decreases |path|
  {
    if path != [] {
      var i := KidIndex(n, path[0]).value;
      HoldsSlices(n.kids, i);
      KidIsApart(n, i);
      Open(n.kids[i], path[1..]);
    }
  }

  /** ... and closed with another part in its place, reached by the same reference and made of the same objects. */
  lemma {:induction false} Close(n: Node, path: seq<bytes>, x: Node)
    requires Apart(n) && At(n, path).Some? && Around(n, path)
    requires Holds(x) && Apart(x) && RefOf(x) == RefOf(At(n, path).value) && Foot(x) <= Foot(At(n, path).value)
    ensures var r := ReplaceAt(n, path, x); Holds(r) && Apart(r) && RefOf(r) == RefOf(n) && Foot(r) <= Foot(n)
    decreases |path|
  {
    if path != [] {
      hide Holds, HoldsAll;
      var i := KidIndex(n, path[0]).value;
      KidIsApart(n, i);
      Close(n.kids[i], path[1..], x);
      CloseKid(n, i, ReplaceAt(n.kids[i], path[1..], x));
    }
  }

  lemma CloseKid(n: Node, i: nat, kid: Node)
    requires Apart(n) && !n.NScalar? && i < |n.kids| && OwnHolds(n)
    requires HoldsAll(n.kids[..i]) && HoldsAll(n.kids[i + 1..]) && Holds(kid)
    requires Apart(kid) && RefOf(kid) == RefOf(n.kids[i]) && Foot(kid) <= Foot(n.kids[i])
    ensures var r := WithKid(n, i, kid); Holds(r) && Apart(r) && RefOf(r) == RefOf(n) && Foot(r) <= Foot(n)
  {
    hide Contents;
    var kids := n.kids[i := kid];
    WithKidApart(n, i, kid);
    assert kids[..i] == n.kids[..i] && kids[i + 1..] == n.kids[i + 1..];
    HoldsSlices(kids, i);
    assert Refs(kids) == Refs(n.kids);
  }
}
