/** What is read back from the text of a value has percent signs only where the value has them. */
module ReadClean {
  import opened Types
  import opened Storage
  import opened WrittenValues
  import opened WrittenText
  import JsonKeys
  import ReadBack
  import Statements

  /** No percent sign in any name or text. */
  predicate PercentlessJson(j: Json)
    decreases j
  {
    match j
    case JString(s) => '%' !in s
    case JArray(es) => forall i :: 0 <= i < |es| ==> PercentlessJson(es[i])
    case JObject(ms) => forall i :: 0 <= i < |ms| ==> '%' !in ms[i].name && PercentlessJson(ms[i].value)
    case _ => true
  }

  /** Percent signs only in texts below no array. */
  predicate CleanJson(j: Json)
    decreases j
  {
    match j
    case JString(_) => true
    case JObject(ms) => forall i :: 0 <= i < |ms| ==> '%' !in ms[i].name && CleanJson(ms[i].value)
    case _ => PercentlessJson(j)
  }

  /** Either of the two, as the place in the value asks for. */
  predicate CleanAt(j: Json, strict: bool) { if strict then PercentlessJson(j) else CleanJson(j) }

  predicate CleanValue(v: Value, strict: bool) { if strict then Percentless(v) else CleanField(v) }

  predicate CleanFields(fs: seq<Field>, strict: bool) { if strict then PercentlessFields(fs) else Clean(fs) }

  lemma {:induction false} CleanFieldsAt(fs: seq<Field>, strict: bool)
    ensures CleanFields(fs, strict)
            <==> forall i :: 0 <= i < |fs| ==> '%' !in fs[i].name && CleanValue(fs[i].value, strict)
  {
    if fs != [] {
      CleanFieldsAt(fs[1..], strict);
      assert forall i :: 0 <= i < |fs[1..]| ==> fs[1..][i] == fs[i + 1];
      assert forall i :: 0 < i < |fs| ==> fs[i] == fs[1..][i - 1];
    }
  }

  lemma {:induction false} CleanElemsAt(es: seq<Value>)
    ensures PercentlessElements(es) <==> forall i :: 0 <= i < |es| ==> Percentless(es[i])
  {
    if es != [] {
      CleanElemsAt(es[1..]);
      assert forall i :: 0 <= i < |es[1..]| ==> es[1..][i] == es[i + 1];
      assert forall i :: 0 < i < |es| ==> es[i] == es[1..][i - 1];
    }
  }

  // ----- writing

  lemma {:induction false} RepairAddsNone(s: bytes)
    requires '%' !in s
    ensures '%' !in Repaired(s)
    decreases |s|
  {
    if s != [] {
      if Width(s) == 0 { RepairAddsNone(s[1..]); } else { RepairAddsNone(s[Width(s)..]); }
    }
  }

  lemma {:induction false} SupportedParts(v: Value)
    requires Supported(v)
    ensures v.Document? ==> forall i :: 0 <= i < |v.fields| ==> Supported(v.fields[i].value)
    ensures v.Array? ==> forall i :: 0 <= i < |v.elems| ==> Supported(v.elems[i])
  {
    match v
    case Document(fs) => SupportedFieldsAt(fs);
    case Array(es) => SupportedElementsAt(es);
    case _ =>
  }

  lemma {:induction false} SupportedFieldsAt(fs: seq<Field>)
    requires SupportedFields(fs)
    ensures forall i :: 0 <= i < |fs| ==> Supported(fs[i].value)
  {
    if fs != [] {
      SupportedFieldsAt(fs[1..]);
      assert forall i :: 0 < i < |fs| ==> fs[i] == fs[1..][i - 1];
    }
  }

  lemma {:induction false} SupportedElementsAt(es: seq<Value>)
    requires SupportedElements(es)
    ensures forall i :: 0 <= i < |es| ==> Supported(es[i])
  {
    if es != [] {
      SupportedElementsAt(es[1..]);
      assert forall i :: 0 < i < |es| ==> es[i] == es[1..][i - 1];
    }
  }

  lemma {:induction false} MarshalElemsAt(es: seq<Value>, nums: Numbers, i: nat)
    requires MarshalElems(es, nums).Some? && i < |MarshalElems(es, nums).value|
    ensures i < |es| && Marshal(es[i], false, nums) == Some(MarshalElems(es, nums).value[i])
  {
    assert MarshalElems(es, nums).value[1..] == MarshalElems(es[1..], nums).value;
    if i > 0 { MarshalElemsAt(es[1..], nums, i - 1); }
  }

  lemma {:induction false} CleanIsWritten(v: Value, stored: bool, strict: bool, nums: Numbers)
    requires Supported(v) && CleanValue(v, strict) && Marshal(v, stored, nums).Some?
    ensures CleanAt(Marshal(v, stored, nums).value, strict)
    decreases v
  {
    var j := Marshal(v, stored, nums).value;
    match v
    case String(s) => if strict { RepairAddsNone(s); }
    case ObjectID(id) => HexHasNoPercent(id);
    case Array(es) =>
      SupportedParts(v);
      CleanElemsAt(es);
      forall i | 0 <= i < |j.elems| ensures PercentlessJson(j.elems[i]) {
        MarshalElemsAt(es, nums, i);
        CleanIsWritten(es[i], false, true, nums);
      }
    case Document(fs) =>
      forall i | 0 <= i < |j.members| ensures '%' !in j.members[i].name && CleanAt(j.members[i].value, strict) {
        var k := MemberAt(fs, stored, nums, i);
        SupportedParts(v);
        CleanFieldsAt(fs, strict);
        CleanIsWritten(fs[k].value, stored, strict, nums);
      }
    case _ =>
  }

  lemma MemberAt(fs: seq<Field>, stored: bool, nums: Numbers, i: nat) returns (k: nat)
    requires Marshal(Document(fs), stored, nums).Some? && i < |Marshal(Document(fs), stored, nums).value.members|
    ensures var m := Marshal(Document(fs), stored, nums).value.members[i];
            k < |fs| && fs[k].name == m.name && Marshal(fs[k].value, stored, nums) == Some(m.value)
  {
    MovedMembers(fs, stored, nums);
    var g := IdFirst(fs);
    k := WithoutAt(fs, i);
    MarshalFieldsAt(g, stored, i, nums);
  }

  // ----- the normal form

  lemma {:induction false} SupportedAll(fs: seq<Field>)
    requires forall i :: 0 <= i < |fs| ==> Supported(fs[i].value)
    ensures SupportedFields(fs)
  {
    if fs != [] { SupportedAll(fs[1..]); }
  }

  lemma {:induction false} NormalIsClean(v: Value, strict: bool, nums: Numbers)
    requires Supported(v) && CleanValue(v, strict)
    ensures Supported(Normal(v, nums)) && CleanValue(Normal(v, nums), strict)
    decreases v, 1
  {
    match v
    case String(s) => if strict { RepairAddsNone(s); }
    case Array(es) => NormalElemsAreClean(es, nums);
    case Document(fs) =>
      SupportedParts(v);
      CleanFieldsAt(fs, strict);
      var n := NormalFields(fs, nums);
      forall i | 0 <= i < |n|
        ensures Supported(n[i].value) && '%' !in n[i].name && CleanValue(n[i].value, strict)
      {
        NormalFieldsAt(fs, i, nums);
        NormalIsClean(fs[i].value, strict, nums);
      }
      MovedIsClean(n, strict);
    case _ =>
  }

  lemma {:induction false} NormalElemsAreClean(es: seq<Value>, nums: Numbers)
    requires SupportedElements(es) && PercentlessElements(es)
    ensures SupportedElements(NormalElems(es, nums)) && PercentlessElements(NormalElems(es, nums))
    decreases es, 0
  {
    if es != [] {
      NormalIsClean(es[0], true, nums);
      NormalElemsAreClean(es[1..], nums);
      assert NormalElems(es, nums)[1..] == NormalElems(es[1..], nums);
    }
  }

  lemma MovedIsClean(n: seq<Field>, strict: bool)
    requires forall i :: 0 <= i < |n| ==> Supported(n[i].value) && '%' !in n[i].name && CleanValue(n[i].value, strict)
    ensures SupportedFields(IdFirst(n)) && CleanFields(IdFirst(n), strict)
  {
    var g := IdFirst(n);
    forall i | 0 <= i < |g|
      ensures Supported(g[i].value) && '%' !in g[i].name && CleanValue(g[i].value, strict)
    {
      var k := WithoutAt(n, i);
    }
    SupportedAll(g);
    CleanFieldsAt(g, strict);
  }

  // ----- reading

  lemma {:induction false} CleanIsRead(j: Json, strict: bool, nums: Numbers)
    requires CleanAt(j, strict) && Unmarshal(j, nums).Some?
    ensures CleanValue(Unmarshal(j, nums).value, strict)
    decreases j, 1
  {
    match j
    case JArray(es) => CleanElemsAreRead(es, nums);
    case JObject(ms) =>
      ReadBack.ObjectRead(ms, nums);
      if Unmarshal(j, nums).value.Document? {
        KeysAreClean(JsonKeys.Keys(MembersToTree(ms, nums)), ms, [], strict, nums);
      } else {
        NoDocument(ms, nums);
      }
    case _ =>
  }

  lemma NoDocument(ms: seq<JMember>, nums: Numbers)
    ensures var r := Unmarshal(JObject(ms), nums);
            r.Some? ==> r.value.Document? || r.value.ObjectID? || r.value.DateTime? || r.value.Regex?
  {
    hide UnmarshalKeys, HasValue, HexDecode, Find;
  }

  lemma {:induction false} CleanElemsAreRead(es: seq<Json>, nums: Numbers)
    requires (forall i :: 0 <= i < |es| ==> PercentlessJson(es[i])) && UnmarshalElems(es, nums).Some?
    ensures PercentlessElements(UnmarshalElems(es, nums).value)
    decreases es, 0
  {
    if es != [] {
      CleanIsRead(es[0], true, nums);
      CleanElemsAreRead(es[1..], nums);
      assert UnmarshalElems(es, nums).value[1..] == UnmarshalElems(es[1..], nums).value;
    }
  }

  lemma {:induction false} KeysAreClean(keys: seq<bytes>, ms: seq<JMember>, acc: seq<Field>, strict: bool,
                                        nums: Numbers)
    requires forall i :: 0 <= i < |ms| ==> '%' !in ms[i].name && CleanAt(ms[i].value, strict)
    requires CleanFields(acc, strict) && UnmarshalKeys(keys, ms, acc, nums).Some?
    ensures CleanFields(UnmarshalKeys(keys, ms, acc, nums).value, strict)
    decreases ms, |keys|
  {
    if keys != [] {
      var i := Find(ms, keys[0]).value;
      CleanIsRead(ms[i].value, strict, nums);
      var v := Unmarshal(ms[i].value, nums).value;
      SetIsClean(acc, keys[0], v, strict);
      KeysAreClean(keys[1..], ms, Set(acc, keys[0], v).value, strict, nums);
    }
  }

  lemma SetIsClean(acc: seq<Field>, key: bytes, v: Value, strict: bool)
    requires CleanFields(acc, strict) && '%' !in key && CleanValue(v, strict) && Set(acc, key, v).Some?
    ensures CleanFields(Set(acc, key, v).value, strict)
  {
    hide CleanFields, CleanValue, Get, Replace;
    var r := Set(acc, key, v).value;
    CleanFieldsAt(acc, strict);
    CleanFieldsAt(r, strict);
    ReplacedFields(acc, key, v);
    forall i | 0 <= i < |r| ensures '%' !in r[i].name && CleanValue(r[i].value, strict) {
      if Get(acc, key).Some? { assert r[i] in [acc[i], Field(key, v)]; }
    }
  }

  lemma {:induction false} ReplacedFields(fs: seq<Field>, key: bytes, v: Value)
    ensures |Replace(fs, key, v)| == |fs|
    ensures forall i :: 0 <= i < |fs| ==> Replace(fs, key, v)[i] in [fs[i], Field(key, v)]
  {
    assert |Names(Replace(fs, key, v))| == |fs|;
    if fs != [] && fs[0].name != key {
      ReplacedFields(fs[1..], key, v);
      forall i | 0 <= i < |fs| ensures Replace(fs, key, v)[i] in [fs[i], Field(key, v)] {
        if i > 0 { assert Replace(fs, key, v)[i] == Replace(fs[1..], key, v)[i - 1]; }
      }
    }
  }

  // ----- ids

  /** What is read back for a clean id is written as it is, when it can be written. */
  lemma CleanIdIsWritten(id: Value, nums: Numbers)
    requires Supported(id) && CleanField(id) && ReadBack.ReadId(id, nums).Some?
    ensures var y := ReadBack.ReadId(id, nums).value;
            CleanField(y) && (WrittenField(y).Some? ==> WrittenField(y) == Some(y))
  {
    hide Unmarshal, Marshal;
    var doc := [Field(ID, id)];
    var j := Marshal(Document(doc), true, nums).value;
    var fs := Unmarshal(j, nums).value.fields;
    assert doc[1..] == [];
    CleanFieldsAt(doc, false);
    CleanIsWritten(Document(doc), true, false, nums);
    CleanIsRead(j, false, nums);
    CleanFieldsAt(fs, false);
    var y := ReadBack.ReadId(id, nums).value;
    Statements.WrittenIsSupported(y);
    if Supported(y) { WrittenFieldShrinks(y, bits => []); }
  }
}
