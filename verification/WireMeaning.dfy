/** What document a message stands for, said about its sections: which messages are accepted, and which fields the
    document has. */
module WireMeaning {
  import opened Types
  import opened Wire

  // ----- the sections

  predicate IsBody(s: Section) { s.kind as int == 0 && |s.documents| == 1 }

  predicate IsSequence(s: Section) { s.kind as int == 1 && s.identifier != [] }

  /** The section adds a field with this name to the document; an invalid name is silently left out. */
  predicate Brings(s: Section, name: bytes) {
    && ValidKey(name)
    && if s.kind as int == 0 then |s.documents| == 1 && Get(s.documents[0], name).Some? else s.identifier == name
  }

  ghost predicate BringsSomething(s: Section) { exists name :: Brings(s, name) }

  /** A body follows nothing but empty bodies; a sequence follows a body that brought something, and its identifier is
      new. */
  ghost predicate FollowsWell(before: seq<Section>, s: Section) {
    if s.kind as int == 0 then IsBody(s) && forall j :: 0 <= j < |before| ==> !BringsSomething(before[j])
    else
      && IsSequence(s)
      && (exists j :: 0 <= j < |before| && BringsSomething(before[j]))
      && forall j :: 0 <= j < |before| ==> !Brings(before[j], s.identifier)
  }

  ghost predicate Mergeable(ss: seq<Section>) { forall i :: 0 <= i < |ss| ==> FollowsWell(ss[..i], ss[i]) }

  // ----- the document

  predicate DocumentsOf(v: Option<Value>, docs: seq<Doc>) {
    && v.Some? && v.value.Array? && |v.value.elems| == |docs|
    && forall i :: 0 <= i < |docs| ==> v.value.elems[i] == Document(docs[i])
  }

  ghost predicate SectionIsFound(s: Section, doc: Doc) {
    if s.kind as int == 0 then
      (IsBody(s) && NoDup(Names(s.documents[0])) ==> forall name :: Brings(s, name) ==>
         Get(doc, name) == Get(s.documents[0], name))
    else (ValidKey(s.identifier) ==> DocumentsOf(Get(doc, s.identifier), s.documents))
  }

  function ValidNames(names: seq<bytes>): seq<bytes> {
    if names == [] then [] else (if ValidKey(names[0]) then [names[0]] else []) + ValidNames(names[1..])
  }

  /** The names that a section adds, in order. */
  function SectionNames(s: Section): seq<bytes> {
    if s.kind as int != 0 then ValidNames([s.identifier])
    else if |s.documents| == 1 then ValidNames(Names(s.documents[0]))
    else []
  }

  function AllNames(ss: seq<Section>): seq<bytes> {
    if ss == [] then [] else AllNames(ss[..|ss| - 1]) + SectionNames(ss[|ss| - 1])
  }

  /** Bodies come from documents, where no name occurs twice. */
  ghost predicate DistinctBodies(ss: seq<Section>) {
    forall i :: 0 <= i < |ss| && IsBody(ss[i]) ==> NoDup(Names(ss[i].documents[0]))
  }

  /** The document has every field of the body and every sequence as an array, in the order of the sections, and
      nothing else. */
  ghost predicate StandsFor(doc: Doc, ss: seq<Section>) {
    && (forall i :: 0 <= i < |ss| ==> SectionIsFound(ss[i], doc))
    && (forall name :: Get(doc, name).Some? <==> exists i :: 0 <= i < |ss| && Brings(ss[i], name))
    && (DistinctBodies(ss) ==> Names(doc) == AllNames(ss))
  }

  // ----- bodies

  lemma {:induction false} SetMeaning(doc: Doc, key: bytes, v: Value, name: bytes)
    ensures Get(SetIgnoringError(doc, key, v), name) == if name == key && ValidKey(key) then Some(v) else Get(doc, name)
  {
    if ValidKey(key) {
      if Get(doc, key).None? { GetAppend(doc, Field(key, v), name); } else { GetReplace(doc, key, v, name); }
    }
  }

  lemma {:induction false} CopyMeaning(doc: Doc, fs: seq<Field>, name: bytes)
    ensures Get(CopyFields(doc, fs), name).Some? <==> Get(doc, name).Some? || (ValidKey(name) && Get(fs, name).Some?)
    ensures NoDup(Names(fs)) ==>
              Get(CopyFields(doc, fs), name)
              == if ValidKey(name) && Get(fs, name).Some? then Get(fs, name) else Get(doc, name)
    decreases |fs|
  {
    if fs != [] {
      var Field(n, v) := fs[0];
      SetMeaning(doc, n, v, name);
      CopyMeaning(SetIgnoringError(doc, n, v), fs[1..], name);
      if NoDup(Names(fs)) { FirstNameIsNew(fs); }
    }
  }

  lemma {:induction false} FirstNameIsNew(fs: seq<Field>)
    requires fs != [] && NoDup(Names(fs))
    ensures NoDup(Names(fs[1..])) && Get(fs[1..], fs[0].name).None?
  {
    var names, rest := Names(fs), Names(fs[1..]);
    assert forall i :: 0 <= i < |rest| ==> rest[i] == names[i + 1];
    assert forall i :: 0 <= i < |rest| ==> fs[1..][i].name == names[i + 1] && names[i + 1] != names[0];
  }

  lemma {:induction false} CopyNames(doc: Doc, fs: seq<Field>)
    requires NoDup(Names(fs)) && forall i :: 0 <= i < |fs| ==> Get(doc, fs[i].name).None?
    ensures Names(CopyFields(doc, fs)) == Names(doc) + ValidNames(Names(fs))
    decreases |fs|
  {
    if fs == [] {
      assert Names(doc) + [] == Names(doc);
    } else {
      var Field(n, v) := fs[0];
      var next := SetIgnoringError(doc, n, v);
      FirstNameIsNew(fs);
      forall i | 0 <= i < |fs[1..]| ensures Get(next, fs[1..][i].name).None? {
        assert fs[1..][i] == fs[i + 1] && Names(fs)[i + 1] != Names(fs)[0];
        SetMeaning(doc, n, v, fs[1..][i].name);
      }
      CopyNames(next, fs[1..]);
      assert Names(fs)[1..] == Names(fs[1..]);
      assert Names(next) == Names(doc) + if ValidKey(n) then [n] else [];
      Assoc(Names(doc), if ValidKey(n) then [n] else [], ValidNames(Names(fs[1..])));
    }
  }

  // ----- all sections

  lemma {:induction false} MergeMore(doc: Doc, ss: seq<Section>, s: Section)
    ensures MergeFrom(doc, ss + [s])
         == match MergeFrom(doc, ss) case Some(d) => MergeSection(d, s) case None => None
    decreases |ss|
  {
    if ss == [] {
      assert ss + [s] == [s] && [s][1..] == [];
    } else {
      assert (ss + [s])[1..] == ss[1..] + [s];
      if MergeSection(doc, ss[0]).Some? { MergeMore(MergeSection(doc, ss[0]).value, ss[1..], s); }
    }
  }

  /** One more section, behind sections that a document stands for. */
  lemma {:induction false} StepMeaning(before: seq<Section>, s: Section, doc: Doc)
    requires StandsFor(doc, before)
    ensures MergeSection(doc, s).Some? <==> FollowsWell(before, s)
    ensures MergeSection(doc, s).Some? ==> StandsFor(MergeSection(doc, s).value, before + [s])
  {
    EmptyExactly(before, doc);
    if MergeSection(doc, s).Some? {
      if s.kind as int == 0 { BodyStep(before, s, doc); } else { SequenceStep(before, s, doc); }
    }
  }

  lemma {:induction false} EmptyExactly(before: seq<Section>, doc: Doc)
    requires StandsFor(doc, before)
    ensures doc == [] <==> forall j :: 0 <= j < |before| ==> !BringsSomething(before[j])
  {
    if doc == [] {
      forall j, name | 0 <= j < |before| ensures !Brings(before[j], name) {
        assert Get(doc, name).None?;
      }
    } else {
      assert Get(doc, doc[0].name).Some?;
      var i :| 0 <= i < |before| && Brings(before[i], doc[0].name);
      assert BringsSomething(before[i]);
    }
  }

  /** What is found stays found when the document grows. */
  lemma {:induction false} StaysFound(s: Section, doc: Doc, next: Doc)
    requires SectionIsFound(s, doc)
    requires forall name :: Get(doc, name).Some? ==> Get(next, name) == Get(doc, name)
    ensures SectionIsFound(s, next)
  {
  }

  lemma {:induction false} Grows(before: seq<Section>, s: Section, doc: Doc, next: Doc)
    requires StandsFor(doc, before) && SectionIsFound(s, next)
    requires forall name :: Get(doc, name).Some? ==> Get(next, name) == Get(doc, name)
    requires forall name :: Get(next, name).Some? <==> Get(doc, name).Some? || Brings(s, name)
    requires DistinctBodies(before + [s]) ==> Names(next) == Names(doc) + SectionNames(s)
    ensures StandsFor(next, before + [s])
  {
    hide SectionIsFound, Brings;
    var all := before + [s];
    forall i | 0 <= i < |all| ensures SectionIsFound(all[i], next) {
      if i < |before| { StaysFound(before[i], doc, next); }
    }
    forall name ensures Get(next, name).Some? <==> exists i :: 0 <= i < |all| && Brings(all[i], name) {
      if i :| 0 <= i < |before| && Brings(before[i], name) { assert Brings(all[i], name); }
      if Brings(s, name) { assert Brings(all[|before|], name); }
    }
    if DistinctBodies(all) {
      assert forall i :: 0 <= i < |before| ==> before[i] == all[i];
      assert all[..|all| - 1] == before;
    }
  }

  lemma {:induction false} SequenceStep(before: seq<Section>, s: Section, doc: Doc)
    requires StandsFor(doc, before) && s.kind as int == 1 && MergeSection(doc, s).Some?
    ensures StandsFor(MergeSection(doc, s).value, before + [s])
  {
    var next, value := MergeSection(doc, s).value, Array(DocumentValues(s.documents));
    forall name
      ensures Get(next, name) == if name == s.identifier && ValidKey(name) then Some(value) else Get(doc, name)
    {
      SetMeaning(doc, s.identifier, value, name);
    }
    assert [s.identifier][1..] == [];
    assert Names(next) == Names(doc) + ValidNames([s.identifier]);
    Grows(before, s, doc, next);
  }

  lemma {:induction false} BodyStep(before: seq<Section>, s: Section, doc: Doc)
    requires StandsFor(doc, before) && s.kind as int == 0 && MergeSection(doc, s).Some?
    ensures StandsFor(MergeSection(doc, s).value, before + [s])
  {
    var next, fs := MergeSection(doc, s).value, s.documents[0];
    forall name
      ensures Get(next, name).Some? <==> ValidKey(name) && Get(fs, name).Some?
      ensures NoDup(Names(fs)) && ValidKey(name) && Get(fs, name).Some? ==> Get(next, name) == Get(fs, name)
    {
      CopyMeaning([], fs, name);
    }
    if NoDup(Names(fs)) { CopyNames([], fs); }
    assert (before + [s])[|before|] == s;
    Grows(before, s, doc, next);
  }

  /** A message is accepted exactly when every section follows well, and then its document has all fields of the body
      and all document sequences, in order, and nothing else. */
  lemma {:induction false} MergeMeaning(ss: seq<Section>)
    ensures Merge(ss).Some? <==> Mergeable(ss)
    ensures Merge(ss).Some? ==> StandsFor(Merge(ss).value, ss)
    decreases |ss|
  {
    if ss != [] {
      var before, s := ss[..|ss| - 1], ss[|ss| - 1];
      assert ss == before + [s];
      MergeMeaning(before);
      MergeMore([], before, s);
      assert forall i :: 0 <= i < |before| ==> ss[..i] == before[..i] && ss[i] == before[i];
      if Merge(before).Some? { StepMeaning(before, s, Merge(before).value); }
    }
  }
}
