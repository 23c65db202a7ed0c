/** What UPDATE ... SET and UNSET do to a document: the assumption about the database under which the update
    commands are studied, and the laws it satisfies. */
module RowUpdate {
  import opened Types
  import opened Sql
  import opened Rows

  /** A path can be assigned when it stays inside documents and existing array positions; missing documents on the
      way are created. */
  predicate Settable(v: Value, path: Path)
    decreases |path|
  {
    if path == [] then true
    else
      match (path[0], v)
      case (Name(n), Document(fs)) =>
        (match Get(fs, n)
         case Some(w) => Settable(w, path[1..])
         case None => path[1..] == [] || Settable(Document([]), path[1..]))
      case (Index(p), Array(es)) => 1 <= p <= |es| && Settable(es[p - 1], path[1..])
      case _ => false
  }

  function PutField(fs: seq<Field>, n: bytes, v: Value): seq<Field> {
    if Get(fs, n).Some? then Replace(fs, n, v) else fs + [Field(n, v)]
  }

  function Assign(v: Value, path: Path, x: Value): Value
    decreases |path|
  {
    if path == [] then x
    else
      match (path[0], v)
      case (Name(n), Document(fs)) =>
        (match Get(fs, n)
         case Some(w) => Document(PutField(fs, n, Assign(w, path[1..], x)))
         case None => Document(PutField(fs, n, Assign(Document([]), path[1..], x))))
      case (Index(p), Array(es)) => if 1 <= p <= |es| then Array(es[p - 1 := Assign(es[p - 1], path[1..], x)]) else v
      case _ => v
  }

  /** UNSET removes a field of a document. */
  function Unassign(v: Value, path: Path): Value
    decreases |path|
  {
    if path == [] then v
    else
      match (path[0], v)
      case (Name(n), Document(fs)) =>
        if |path| == 1 then Document(Without(fs, n))
        else
          (match Get(fs, n)
           case Some(w) => Document(Replace(fs, n, Unassign(w, path[1..])))
           case None => v)
      case (Index(p), Array(es)) => if 1 <= p <= |es| then Array(es[p - 1 := Unassign(es[p - 1], path[1..])]) else v
      case _ => v
  }

  predicate EndsInName(path: Path) { path != [] && path[|path| - 1].Name? }

  /** One path is a prefix of the other. */
  predicate Overlap(p: Path, q: Path) {
    p == [] || q == [] || (p[0] == q[0] && Overlap(p[1..], q[1..]))
  }

  lemma GetPut(fs: seq<Field>, n: bytes, v: Value, name: bytes)
    ensures Get(PutField(fs, n, v), name) == if name == n then Some(v) else Get(fs, name)
  {
    if Get(fs, n).Some? {
      GetReplace(fs, n, v, name);
    } else {
      GetAppend(fs, Field(n, v), name);
    }
  }

  /** What is below the name a path starts with; a missing document counts as empty. */
  function Below(fs: seq<Field>, n: bytes): Value {
    if Get(fs, n).Some? then Get(fs, n).value else Document([])
  }

  lemma AssignInDocument(fs: seq<Field>, path: Path, x: Value)
    requires path != [] && path[0].Name?
    ensures Assign(Document(fs), path, x)
         == Document(PutField(fs, path[0].name, Assign(Below(fs, path[0].name), path[1..], x)))
  {
  }

  lemma WalkPut(fs: seq<Field>, n: bytes, w: Value, q: Path)
    requires q != [] && q[0].Name?
    ensures SqlWalk(Document(PutField(fs, n, w)), q)
         == if q[0].name == n then SqlWalk(w, q[1..]) else SqlWalk(Document(fs), q)
  {
    GetPut(fs, n, w, q[0].name);
  }

  lemma {:induction false} AssignFound(v: Value, path: Path, x: Value)
    requires Settable(v, path)
    ensures SqlWalk(Assign(v, path, x), path) == Some(x)
    decreases |path|
  {
    if path != [] && v.Document? {
      var n := path[0].name;
      AssignInDocument(v.fields, path, x);
      WalkPut(v.fields, n, Assign(Below(v.fields, n), path[1..], x), path);
      if Settable(Below(v.fields, n), path[1..]) {
        AssignFound(Below(v.fields, n), path[1..], x);
      }
    } else if path != [] {
      AssignFound(v.elems[path[0].pos - 1], path[1..], x);
    }
  }

  /** An empty document has nothing below it. */
  lemma NothingInEmpty(q: Path)
    requires q != []
    ensures SqlWalk(Document([]), q) == None
  {
  }

  lemma {:induction false} AssignElsewhere(v: Value, p: Path, x: Value, q: Path)
    requires !Overlap(p, q) && Settable(v, p)
    ensures SqlWalk(Assign(v, p, x), q) == SqlWalk(v, q)
    decreases |p|
  {
    match v
    case Document(fs) =>
      var n := p[0].name;
      var w := if Get(fs, n).Some? then Get(fs, n).value else Document([]);
      if q[0].Name? {
        GetPut(fs, n, Assign(w, p[1..], x), q[0].name);
        if q[0].name == n {
          AssignElsewhere(w, p[1..], x, q[1..]);
          if Get(fs, n).None? { NothingInEmpty(q[1..]); }
        }
      }
    case Array(es) =>
      if q[0] == p[0] { AssignElsewhere(es[p[0].pos - 1], p[1..], x, q[1..]); }
    case _ =>
  }

  lemma {:induction false} AssignKeepsSettable(v: Value, p: Path, x: Value, q: Path)
    requires !Overlap(p, q) && Settable(v, p) && Settable(v, q)
    ensures Settable(Assign(v, p, x), q)
    decreases |p|
  {
    match v
    case Document(fs) =>
      var n := p[0].name;
      var w := if Get(fs, n).Some? then Get(fs, n).value else Document([]);
      if q[0].Name? {
        GetPut(fs, n, Assign(w, p[1..], x), q[0].name);
        if q[0].name == n { AssignKeepsSettable(w, p[1..], x, q[1..]); }
      }
    case Array(es) =>
      if q[0] == p[0] { AssignKeepsSettable(es[p[0].pos - 1], p[1..], x, q[1..]); }
    case _ =>
  }

  lemma {:induction false} UnassignGone(v: Value, path: Path)
    requires EndsInName(path)
    ensures SqlWalk(Unassign(v, path), path) == None
    decreases |path|, 1
  {
    if path[0].Name? && v.Document? {
      UnassignGoneInDocument(v.fields, path);
    } else if path[0].Index? && v.Array? {
      var p := path[0].pos;
      if 1 <= p <= |v.elems| { UnassignGone(v.elems[p - 1], path[1..]); }
    }
  }

  lemma {:induction false} UnassignGoneInDocument(fs: seq<Field>, path: Path)
    requires EndsInName(path) && path[0].Name?
    ensures SqlWalk(Unassign(Document(fs), path), path) == None
    decreases |path|, 0
  {
    var n := path[0].name;
    if |path| == 1 {
      GetWithout(fs, n, n);
    } else if Get(fs, n).Some? {
      UnassignGone(Get(fs, n).value, path[1..]);
      WalkReplaced(fs, n, Unassign(Get(fs, n).value, path[1..]), path);
    }
  }

  lemma {:induction false} WalkReplaced(fs: seq<Field>, n: bytes, w: Value, q: Path)
    requires q != [] && q[0].Name? && Get(fs, n).Some?
    ensures SqlWalk(Document(Replace(fs, n, w)), q)
         == if q[0].name == n then SqlWalk(w, q[1..]) else SqlWalk(Document(fs), q)
  {
    GetReplace(fs, n, w, q[0].name);
  }

  lemma {:induction false} UnassignElsewhere(v: Value, p: Path, q: Path)
    requires !Overlap(p, q)
    ensures SqlWalk(Unassign(v, p), q) == SqlWalk(v, q)
    decreases |p|, 1
  {
    if p[0].Name? && v.Document? {
      if q[0].Name? { UnassignElsewhereInDocument(v.fields, p, q); }
    } else if p[0].Index? && v.Array? {
      var i := p[0].pos;
      if 1 <= i <= |v.elems| && q[0] == p[0] { UnassignElsewhere(v.elems[i - 1], p[1..], q[1..]); }
    }
  }

  lemma {:induction false} UnassignElsewhereInDocument(fs: seq<Field>, p: Path, q: Path)
    requires !Overlap(p, q) && p[0].Name? && q[0].Name?
    ensures SqlWalk(Unassign(Document(fs), p), q) == SqlWalk(Document(fs), q)
    decreases |p|, 0
  {
    var n := p[0].name;
    if |p| == 1 {
      assert p[1..] == [];
      GetWithout(fs, n, q[0].name);
    } else if Get(fs, n).Some? {
      var w := Get(fs, n).value;
      WalkReplaced(fs, n, Unassign(w, p[1..]), q);
      if q[0].name == n { UnassignElsewhere(w, p[1..], q[1..]); }
    }
  }

  // ----- a whole update

  datatype Assignment = Assignment(path: Path, value: Value)

  function AssignAll(v: Value, sets: seq<Assignment>): Value
    decreases |sets|
  {
    if sets == [] then v else AssignAll(Assign(v, sets[0].path, sets[0].value), sets[1..])
  }

  function UnassignAll(v: Value, unsets: seq<Path>): Value
    decreases |unsets|
  {
    if unsets == [] then v else UnassignAll(Unassign(v, unsets[0]), unsets[1..])
  }

  function Apply(row: Value, sets: seq<Assignment>, unsets: seq<Path>): Value {
    UnassignAll(AssignAll(row, sets), unsets)
  }

  /** The targets do not overlap one another. */
  predicate Separate(sets: seq<Assignment>, unsets: seq<Path>) {
    && (forall i, j :: 0 <= i < j < |sets| ==> !Overlap(sets[i].path, sets[j].path))
    && (forall i, j :: 0 <= i < j < |unsets| ==> !Overlap(unsets[i], unsets[j]))
    && (forall i, j :: 0 <= i < |sets| && 0 <= j < |unsets| ==> !Overlap(unsets[j], sets[i].path))
  }

  predicate AllSettable(row: Value, sets: seq<Assignment>) {
    forall i :: 0 <= i < |sets| ==> Settable(row, sets[i].path)
  }

  lemma {:induction false} AssignAllElsewhere(v: Value, sets: seq<Assignment>, q: Path)
    requires AllSettable(v, sets) && Separate(sets, [])
    requires forall i :: 0 <= i < |sets| ==> !Overlap(sets[i].path, q)
    ensures SqlWalk(AssignAll(v, sets), q) == SqlWalk(v, q)
    decreases |sets|
  {
    if sets != [] {
      var Assignment(p, x) := sets[0];
      AssignElsewhere(v, p, x, q);
      TailSettable(v, sets);
      AssignAllElsewhere(Assign(v, p, x), sets[1..], q);
    }
  }

  lemma TailSettable(v: Value, sets: seq<Assignment>)
    requires sets != [] && AllSettable(v, sets) && Separate(sets, [])
    ensures AllSettable(Assign(v, sets[0].path, sets[0].value), sets[1..]) && Separate(sets[1..], [])
  {
    var rest := sets[1..];
    forall i | 0 <= i < |rest| ensures Settable(Assign(v, sets[0].path, sets[0].value), rest[i].path) {
      assert rest[i] == sets[i + 1];
      AssignKeepsSettable(v, sets[0].path, sets[0].value, rest[i].path);
    }
    forall i, j | 0 <= i < j < |rest| ensures !Overlap(rest[i].path, rest[j].path) {
      assert rest[i] == sets[i + 1] && rest[j] == sets[j + 1];
    }
  }

  lemma {:induction false} AssignAllFound(v: Value, sets: seq<Assignment>, k: nat)
    requires AllSettable(v, sets) && Separate(sets, []) && k < |sets|
    ensures SqlWalk(AssignAll(v, sets), sets[k].path) == Some(sets[k].value)
    decreases |sets|
  {
    var Assignment(p, x) := sets[0];
    TailSettable(v, sets);
    if k == 0 {
      AssignFound(v, p, x);
      forall i | 0 <= i < |sets[1..]| ensures !Overlap(sets[1..][i].path, p) {
        OverlapSymmetric(p, sets[i + 1].path);
      }
      AssignAllElsewhere(Assign(v, p, x), sets[1..], p);
    } else {
      AssignAllFound(Assign(v, p, x), sets[1..], k - 1);
    }
  }

  lemma {:induction false} OverlapSymmetric(p: Path, q: Path)
    ensures Overlap(p, q) == Overlap(q, p)
  {
    if p != [] && q != [] { OverlapSymmetric(p[1..], q[1..]); }
  }

  lemma {:induction false} UnassignAllElsewhere(v: Value, unsets: seq<Path>, q: Path)
    requires forall i :: 0 <= i < |unsets| ==> !Overlap(unsets[i], q)
    ensures SqlWalk(UnassignAll(v, unsets), q) == SqlWalk(v, q)
    decreases |unsets|
  {
    if unsets != [] {
      UnassignElsewhere(v, unsets[0], q);
      UnassignAllElsewhere(Unassign(v, unsets[0]), unsets[1..], q);
    }
  }

  lemma {:induction false} UnassignAllGone(v: Value, unsets: seq<Path>, k: nat)
    requires Separate([], unsets) && k < |unsets| && EndsInName(unsets[k])
    ensures SqlWalk(UnassignAll(v, unsets), unsets[k]) == None
    decreases |unsets|
  {
    if k == 0 {
      UnassignGone(v, unsets[0]);
      forall i | 0 <= i < |unsets[1..]| ensures !Overlap(unsets[1..][i], unsets[0]) {
        OverlapSymmetric(unsets[0], unsets[i + 1]);
      }
      UnassignAllElsewhere(Unassign(v, unsets[0]), unsets[1..], unsets[0]);
    } else {
      var rest := unsets[1..];
      forall i, j | 0 <= i < j < |rest| ensures !Overlap(rest[i], rest[j]) {
        assert rest[i] == unsets[i + 1] && rest[j] == unsets[j + 1];
      }
      UnassignAllGone(Unassign(v, unsets[0]), rest, k - 1);
    }
  }

  /** After an update every target holds what it was given, and every path away from the targets is as before. */
  lemma ApplyTargets(row: Value, sets: seq<Assignment>, unsets: seq<Path>)
    requires AllSettable(row, sets) && Separate(sets, unsets)
    requires forall j :: 0 <= j < |unsets| ==> EndsInName(unsets[j])
    ensures forall i :: 0 <= i < |sets| ==> SqlWalk(Apply(row, sets, unsets), sets[i].path) == Some(sets[i].value)
    ensures forall j :: 0 <= j < |unsets| ==> SqlWalk(Apply(row, sets, unsets), unsets[j]) == None
  {
    var mid := AssignAll(row, sets);
    forall i | 0 <= i < |sets| ensures SqlWalk(UnassignAll(mid, unsets), sets[i].path) == Some(sets[i].value) {
      AssignAllFound(row, sets, i);
      UnassignAllElsewhere(mid, unsets, sets[i].path);
    }
    forall j | 0 <= j < |unsets| ensures SqlWalk(UnassignAll(mid, unsets), unsets[j]) == None {
      UnassignAllGone(mid, unsets, j);
    }
  }

  lemma ApplyElsewhere(row: Value, sets: seq<Assignment>, unsets: seq<Path>, q: Path)
    requires AllSettable(row, sets) && Separate(sets, unsets)
    requires forall i :: 0 <= i < |sets| ==> !Overlap(sets[i].path, q)
    requires forall j :: 0 <= j < |unsets| ==> !Overlap(unsets[j], q)
    ensures SqlWalk(Apply(row, sets, unsets), q) == SqlWalk(row, q)
  {
    AssignAllElsewhere(row, sets, q);
    UnassignAllElsewhere(AssignAll(row, sets), unsets, q);
  }
}
