/** What an exclusion leaves of a document, said about the fields of the projection as they stand there. */
module ProjectionMeaning {
  import opened Types
  import opened Where
  import opened Exclusion

  // ----- dotted names

  /** strings.Join(parts, "."). */
  function Join(parts: seq<bytes>): bytes
    requires parts != []
  {
    if |parts| == 1 then parts[0] else parts[0] + "." + Join(parts[1..])
  }

  lemma {:induction false} JoinMore(c: byte, rest: seq<bytes>)
    requires rest != []
    ensures Join([[]] + rest) == "." + Join(rest)
    ensures Join([[c] + rest[0]] + rest[1..]) == [c] + Join(rest)
  {
    assert ([[]] + rest)[1..] == rest;
    var longer := [[c] + rest[0]] + rest[1..];
    assert longer[1..] == rest[1..];
    if |rest| > 1 {
      hide Join;
      Assoc([c] + rest[0], ".", Join(rest[1..]));
    }
  }

  /** A name is split at its dots and nowhere else. */
  lemma {:induction false} SplitsAtDots(s: bytes)
    ensures var parts := SplitDots(s);
            && Join(parts) == s && (|parts| > 1 <==> '.' in s)
            && forall i :: 0 <= i < |parts| ==> '.' !in parts[i]
  {
    if s != [] {
      HeadTail(s);
      SplitsAtDots(s[1..]);
      JoinMore(s[0], SplitDots(s[1..]));
    }
  }

  // ----- the fields that stay

  /** The values with which "_id" stays: true and the numbers other than zero. */
  predicate KeepsId(v: Value) {
    match v
    case Bool(b) => b
    case Int32(i) => i != 0
    case Int64(l) => l != 0
    case Double(bits) => bits != 0 && bits != 0x8000_0000_0000_0000
    case _ => false
  }

  /** The field of the projection takes the whole field away. */
  predicate Hides(f: Field, name: bytes) { '.' !in name && f.name == name && (name == "_id" ==> !KeepsId(f.value)) }

  /** The field of the projection leads into the field. */
  predicate LeadsInto(f: Field, name: bytes) {
    '.' !in name && |name| < |f.name| && f.name[..|name|] == name && f.name[|name|] == '.'
  }

  predicate Hidden(projection: Fields, name: bytes) {
    exists i :: 0 <= i < |projection| && Hides(projection[i], name)
  }

  predicate Untouched(projection: Fields, name: bytes) {
    forall i :: 0 <= i < |projection| ==> !Hides(projection[i], name) && !LeadsInto(projection[i], name)
  }

  function Visible(names: seq<bytes>, projection: Fields): seq<bytes> {
    if names == [] then []
    else (if Hidden(projection, names[0]) then [] else [names[0]]) + Visible(names[1..], projection)
  }

  /** The fields that no field of the projection takes away are still there, in their order, and those that none leads
      into have their values. */
  ghost predicate Excludes(fs: Fields, projection: Fields, left: Fields) {
    && Names(left) == Visible(Names(fs), projection)
    && (forall name :: Hidden(projection, name) ==> Get(left, name).None?)
    && (forall name :: Untouched(projection, name) ==> Get(left, name) == Get(fs, name))
  }

  // ----- one removal

  lemma {:induction false} RemovalMeaning(f: Field, name: bytes)
    ensures RemovalOf(f) == Top(name) <==> Hides(f, name)
    ensures RemovalOf(f).Deep? ==> RemovalOf(f).parts == SplitDots(f.name) && |SplitDots(f.name)| > 1
    ensures RemovalOf(f).Deep? && RemovalOf(f).parts[0] == name <==> LeadsInto(f, name)
  {
    if '.' in f.name {
      SplitsAtDots(f.name);
      FirstPart(f.name, name);
    }
  }

  lemma {:induction false} FirstPart(s: bytes, name: bytes)
    requires '.' in s
    ensures SplitDots(s)[0] == name <==> LeadsInto(Field(s, Null), name)
  {
    SplitsAtDots(s);
    var parts := SplitDots(s);
    var p := parts[0];
    assert s == p + "." + Join(parts[1..]);
    assert LeadsInto(Field(s, Null), p);
    assert forall k :: 0 <= k < |p| ==> s[k] == p[k] && s[k] != '.';
    if LeadsInto(Field(s, Null), name) {
      assert forall k :: 0 <= k < |name| ==> s[k] == name[k] && s[k] != '.';
      assert s[|p|] == '.' && s[|name|] == '.';
      assert |name| == |p|;
    }
  }

  predicate GoodRemovals(rs: seq<Removal>) { forall i :: 0 <= i < |rs| ==> rs[i].Deep? ==> |rs[i].parts| > 1 }

  predicate LeavesAlone(rs: seq<Removal>, name: bytes) {
    forall i :: 0 <= i < |rs| ==> rs[i] != Top(name) && (rs[i].Deep? ==> |rs[i].parts| > 1 && rs[i].parts[0] != name)
  }

  function Left(names: seq<bytes>, rs: seq<Removal>): seq<bytes> {
    if names == [] then []
    else (if Top(names[0]) in rs then [] else [names[0]]) + Left(names[1..], rs)
  }

  lemma {:induction false} WithoutNames(fs: Fields, name: bytes)
    ensures Names(Without(fs, name)) == Left(Names(fs), [Top(name)])
  {
    if fs != [] {
      WithoutNames(fs[1..], name);
      assert Names(fs)[1..] == Names(fs[1..]);
      assert Names(fs)[0] == fs[0].name;
    }
  }

  lemma {:induction false} NothingGoes(names: seq<bytes>, rs: seq<Removal>)
    requires forall i :: 0 <= i < |names| ==> Top(names[i]) !in rs
    ensures Left(names, rs) == names
  {
    if names != [] { NothingGoes(names[1..], rs); }
  }

  lemma {:induction false} OneRemoval(fs: Fields, r: Removal)
    requires r.Deep? ==> |r.parts| > 1
    ensures var left := ExcludeOne(fs, r).fields;
            && Names(left) == Left(Names(fs), [r])
            && forall name :: LeavesAlone([r], name) ==> Get(left, name) == Get(fs, name)
  {
    match r
    case Keep => NothingGoes(Names(fs), [r]);
    case Top(n) =>
      WithoutNames(fs, n);
      forall name | LeavesAlone([r], name) ensures Get(Without(fs, n), name) == Get(fs, name) {
        assert [r][0] == r;
        GetWithout(fs, n, name);
      }
    case Deep(parts) =>
      NothingGoes(Names(fs), [r]);
      ExcludeIsAct(fs, parts);
      forall name | LeavesAlone([r], name) ensures Get(ExcludeOne(fs, r).fields, name) == Get(fs, name) {
        assert [r][0] == r;
        GetAct(fs, parts[0], ChangeOf(Get(fs, parts[0]), parts), name);
      }
  }

  // ----- all removals

  lemma {:induction false} LeftTwice(names: seq<bytes>, r: Removal, rs: seq<Removal>)
    ensures Left(Left(names, [r]), rs) == Left(names, [r] + rs)
  {
    if names != [] {
      LeftTwice(names[1..], r, rs);
      var rest := Left(names[1..], [r]);
      assert ([names[0]] + rest)[1..] == rest && [] + rest == rest;
    }
  }

  lemma {:induction false} AllRemovals(fs: Fields, rs: seq<Removal>)
    requires GoodRemovals(rs)
    ensures var left := ExcludeAll(fs, rs);
            && Names(left) == Left(Names(fs), rs)
            && forall name :: LeavesAlone(rs, name) ==> Get(left, name) == Get(fs, name)
    decreases |rs|
  {
    if rs == [] {
      NothingGoes(Names(fs), rs);
    } else {
      var next := ExcludeOne(fs, rs[0]).fields;
      OneRemoval(fs, rs[0]);
      AllRemovals(next, rs[1..]);
      LeftTwice(Names(fs), rs[0], rs[1..]);
      HeadTail(rs);
      forall name | LeavesAlone(rs, name) ensures Get(ExcludeAll(fs, rs), name) == Get(fs, name) {
        assert LeavesAlone([rs[0]], name) && LeavesAlone(rs[1..], name);
      }
    }
  }

  lemma {:induction false} SameNamesLeft(names: seq<bytes>, rs: seq<Removal>, projection: Fields)
    requires forall name :: Top(name) in rs <==> Hidden(projection, name)
    ensures Left(names, rs) == Visible(names, projection)
  {
    if names != [] { SameNamesLeft(names[1..], rs, projection); }
  }

  lemma {:induction false} NamesOfGet(fs: Fields, name: bytes)
    ensures Get(fs, name).Some? <==> name in Names(fs)
  {
    if Get(fs, name).Some? {
      var i :| 0 <= i < |fs| && fs[i].name == name;
      assert Names(fs)[i] == name;
    }
  }

  lemma {:induction false} HiddenIsNotVisible(names: seq<bytes>, projection: Fields, name: bytes)
    ensures name in Visible(names, projection) ==> !Hidden(projection, name)
  {
    if names != [] { HiddenIsNotVisible(names[1..], projection, name); }
  }

  /** In whatever order the fields of the projection are taken. */
  lemma {:induction false} ExclusionMeaning(fs: Fields, projection: Fields, order: seq<Removal>)
    requires multiset(order) == multiset(Removals(projection))
    ensures Excludes(fs, projection, ExcludeAll(fs, order))
  {
    var left := ExcludeAll(fs, order);
    SameRemovals(projection, order);
    AllRemovals(fs, order);
    SameNamesLeft(Names(fs), order, projection);
    forall name | Hidden(projection, name) ensures Get(left, name).None? {
      NamesOfGet(left, name);
      HiddenIsNotVisible(Names(fs), projection, name);
    }
  }

  lemma {:induction false} OneFieldMeaning(fs: Fields, f: Field)
    ensures Excludes(fs, [f], ExcludeOne(fs, RemovalOf(f)).fields)
  {
    assert Removals([f]) == [RemovalOf(f)];
    ExclusionMeaning(fs, [f], [RemovalOf(f)]);
    var next := ExcludeOne(fs, RemovalOf(f)).fields;
    assert ExcludeAll(fs, [RemovalOf(f)]) == ExcludeAll(next, [RemovalOf(f)][1..]) == next;
  }

  lemma {:induction false} SameRemovals(projection: Fields, order: seq<Removal>)
    requires multiset(order) == multiset(Removals(projection))
    ensures GoodRemovals(order)
    ensures forall name :: Top(name) in order <==> Hidden(projection, name)
    ensures forall name :: Untouched(projection, name) ==> LeavesAlone(order, name)
  {
    var rs := Removals(projection);
    forall r: Removal ensures r in order <==> r in rs {
      assert r in order <==> r in multiset(order);
      assert r in rs <==> r in multiset(rs);
    }
    assert forall i :: 0 <= i < |order| ==> order[i] in order;
    forall i, name | 0 <= i < |projection|
      ensures rs[i] == Top(name) <==> Hides(projection[i], name)
      ensures rs[i].Deep? ==> |rs[i].parts| > 1
      ensures rs[i].Deep? && rs[i].parts[0] == name <==> LeadsInto(projection[i], name)
    {
      RemovalMeaning(projection[i], name);
    }
    forall i | 0 <= i < |order| ensures order[i].Deep? ==> |order[i].parts| > 1 {
      var j :| 0 <= j < |rs| && rs[j] == order[i];
      assert rs[j].Deep? ==> |rs[j].parts| > 1 by { RemovalMeaning(projection[j], ""); }
    }
    forall i, name | 0 <= i < |order| && Untouched(projection, name)
      ensures order[i] != Top(name) && (order[i].Deep? ==> |order[i].parts| > 1 && order[i].parts[0] != name)
    {
      var j :| 0 <= j < |rs| && rs[j] == order[i];
      RemovalMeaning(projection[j], name);
    }
  }
}
