/** Which values read back from the storage as themselves: an exact condition on the value and the keys that the scanner
    finds in its JSON tree. */
module ReadBack {
  import opened Types
  import opened Storage
  import JsonKeys

  /** The parse tree of the JSON text that is written for a document. */
  function TreeOf(fs: seq<Field>, stored: bool, nums: Numbers): seq<JsonKeys.Member> {
    match Marshal(Document(fs), stored, nums)
    case Some(JObject(ms)) => MembersToTree(ms, nums)
    case _ => []
  }

  /** The value can be written, keeps its type and its text, and in every document of it the scanner finds exactly the
      keys of that document, each of them first in its place, and nothing makes the document look like another type. */
  ghost predicate Faithful(v: Value, stored: bool, nums: Numbers)
    decreases v
  {
    && Marshal(v, stored, nums).Some?
    && match v
       case Document(fs) =>
         && ValidFields(fs)
         && (forall i :: 0 <= i < |fs| ==> Faithful(fs[i].value, stored, nums))
         && (forall i :: 0 <= i < |fs| ==> Reserved(fs[i].name) ==> fs[i].value.Null?)
         && JsonKeys.FirstOnly(JsonKeys.Keys(TreeOf(fs, stored, nums))) == Names(fs)
       case Array(es) => forall i :: 0 <= i < |es| ==> Faithful(es[i], false, nums)
       case String(s) => ValidUtf8(s)
       case Regex(p, o) => ValidUtf8(p) && ValidUtf8(o)
       case Int64(l) => !(-0x8000_0000 <= l < 0x8000_0000)
       case Double(bits) => nums.whole(bits).None?
       case DateTime(nanos) =>
         nanos % 1_000_000 == 0 && -0x8000_0000_0000_0000 <= nanos / 1_000_000 < 0x8000_0000_0000_0000
       case _ => true
  }

  // ----- scalars and arrays

  lemma ScalarExactly(v: Value, stored: bool, nums: Numbers)
    requires !v.Document? && !v.Array? && Marshal(v, stored, nums).Some?
    ensures Unmarshal(Marshal(v, stored, nums).value, nums) == Some(v) <==> Faithful(v, stored, nums)
  {
    match v
    case String(s) => RepairKeepsUtf8(s);
    case ObjectID(id) => HexRoundTrip(id);
    case Regex(p, o) =>
      RegexRoundTrip(Repaired(p), Repaired(o), nums);
      RepairKeepsUtf8(p);
      RepairKeepsUtf8(o);
    case DateTime(nanos) => assert !HasValue([JMember(DATE, JInteger(nanos / 1_000_000))], OID);
    case _ =>
  }

  lemma {:induction false} ElemsExactly(es: seq<Value>, nums: Numbers)
    requires MarshalElems(es, nums).Some?
    ensures UnmarshalElems(MarshalElems(es, nums).value, nums) == Some(es)
            <==> forall i :: 0 <= i < |es| ==> Faithful(es[i], false, nums)
    decreases es, 0
  {
    if es != [] {
      var js := MarshalElems(es, nums).value;
      assert js[1..] == MarshalElems(es[1..], nums).value;
      ReadBackExactly(es[0], false, nums);
      ElemsExactly(es[1..], nums);
      HeadTail(es);
      assert forall i :: 0 <= i < |es[1..]| ==> es[1..][i] == es[i + 1];
      assert forall i :: 0 < i < |es| ==> es[i] == es[1..][i - 1];
      var r := UnmarshalElems(js, nums);
      if r.Some? { assert r.value[1..] == UnmarshalElems(js[1..], nums).value; }
    }
  }

  // ----- the loop over the keys

  /** What the loop sets for a key. */
  function Look(ms: seq<JMember>, key: bytes, nums: Numbers): Option<Value> {
    match Find(ms, key) case Some(i) => Unmarshal(ms[i].value, nums) case None => None
  }

  ghost predicate Reads(fs: seq<Field>, ms: seq<JMember>, nums: Numbers) {
    ValidFields(fs) && forall i :: 0 <= i < |fs| ==> Look(ms, fs[i].name, nums) == Some(fs[i].value)
  }

  /** One Set: a key that is there already keeps its place and, read from the same member, its value. */
  lemma SetRead(acc: seq<Field>, ms: seq<JMember>, key: bytes, nums: Numbers)
    requires Reads(acc, ms, nums) && Look(ms, key, nums).Some? && ValidKey(key)
    ensures var r := Set(acc, key, Look(ms, key, nums).value);
            && r.Some? && Reads(r.value, ms, nums)
            && Names(r.value) == if key in Names(acc) then Names(acc) else Names(acc) + [key]
  {
    var v := Look(ms, key, nums).value;
    if Get(acc, key).Some? {
      var k :| 0 <= k < |acc| && acc[k] == Field(key, Get(acc, key).value);
      assert Names(acc)[k] == key;
      ReplaceSame(acc, key, v);
    } else {
      assert forall i :: 0 <= i < |acc| ==> Names(acc)[i] != key;
      assert Names(acc + [Field(key, v)]) == Names(acc) + [key];
    }
  }

  /** The loop succeeds when every key is valid and reads as something, and then it has set the keys where they occur
      first. */
  lemma {:induction false} KeysLoop(keys: seq<bytes>, ms: seq<JMember>, acc: seq<Field>, nums: Numbers)
    requires Reads(acc, ms, nums)
    ensures var r := UnmarshalKeys(keys, ms, acc, nums);
            && (r.Some? <==> forall i :: 0 <= i < |keys| ==> ValidKey(keys[i]) && Look(ms, keys[i], nums).Some?)
            && (r.Some? ==> Reads(r.value, ms, nums) && Names(r.value) == JsonKeys.Including(Names(acc), keys))
    decreases |keys|
  {
    if keys != [] {
      var key := keys[0];
      assert forall i :: 0 <= i < |keys[1..]| ==> keys[1..][i] == keys[i + 1];
      assert forall i :: 0 < i < |keys| ==> keys[i] == keys[1..][i - 1];
      if ValidKey(key) && Look(ms, key, nums).Some? {
        SetRead(acc, ms, key, nums);
        KeysLoop(keys[1..], ms, Set(acc, key, Look(ms, key, nums).value).value, nums);
      }
    }
  }

  // ----- documents

  lemma InIdFirst(fs: seq<Field>, i: nat) returns (k: nat)
    requires ValidFields(fs) && i < |fs|
    ensures k < |IdFirst(fs)| && IdFirst(fs)[k] == fs[i]
  {
    var g := IdFirst(fs);
    if HasObjectId(fs) && fs[i].name == ID {
      var j :| 0 <= j < |fs| && fs[j] == Field(ID, Get(fs, ID).value);
      assert j == i;
      k := 0;
    } else if HasObjectId(fs) {
      assert fs[i] in fs;
      assert fs[i] in Without(fs, ID);
      var j :| 0 <= j < |Without(fs, ID)| && Without(fs, ID)[j] == fs[i];
      k := j + 1;
    } else {
      k := i;
    }
  }

  /** In what is written for a valid document, each key leads to what is written for its value. */
  lemma LookAt(fs: seq<Field>, stored: bool, nums: Numbers, i: nat)
    requires ValidFields(fs) && Marshal(Document(fs), stored, nums).Some? && i < |fs|
    ensures var ms := Marshal(Document(fs), stored, nums).value.members;
            && Marshal(fs[i].value, stored, nums).Some?
            && Find(ms, fs[i].name).Some?
            && ms[Find(ms, fs[i].name).value].value == Marshal(fs[i].value, stored, nums).value
  {
    hide Find;
    MarshalFieldsAt(fs, stored, i, nums);
    MovedMembers(fs, stored, nums);
    IdFirstIsValid(fs);
    var g := IdFirst(fs);
    var ms := MarshalFields(g, stored, nums).value;
    var k := InIdFirst(fs, i);
    MarshalFieldsAt(g, stored, k, nums);
    FindDistinct(ms, k);
  }

  lemma SameFields(a: seq<Field>, b: seq<Field>)
    requires Names(a) == Names(b) && forall i :: 0 <= i < |a| && i < |b| ==> a[i].value == b[i].value
    ensures a == b
  {
    assert |a| == |b|;
    forall i | 0 <= i < |a| ensures a[i] == b[i] {
      assert Names(a)[i] == a[i].name && Names(b)[i] == b[i].name;
    }
  }

  lemma OnlyNullIsNull(v: Value, stored: bool, nums: Numbers)
    ensures Marshal(v, stored, nums) == Some(JNull) <==> v.Null?
  {
  }

  /** Nothing is mistaken for another type exactly when the reserved names hold null. */
  lemma ReservedExactly(fs: seq<Field>, stored: bool, nums: Numbers)
    requires ValidFields(fs) && Marshal(Document(fs), stored, nums).Some?
    ensures var ms := Marshal(Document(fs), stored, nums).value.members;
            !HasValue(ms, OID) && !HasValue(ms, DATE) && !HasValue(ms, REGEX)
            <==> forall i :: 0 <= i < |fs| ==> Reserved(fs[i].name) ==> fs[i].value.Null?
  {
    var ms := Marshal(Document(fs), stored, nums).value.members;
    forall i | 0 <= i < |fs| ensures HasValue(ms, fs[i].name) <==> !fs[i].value.Null? {
      LookAt(fs, stored, nums, i);
      OnlyNullIsNull(fs[i].value, stored, nums);
    }
    MemberNamesOf(fs, stored, nums, OID);
    MemberNamesOf(fs, stored, nums, DATE);
    MemberNamesOf(fs, stored, nums, REGEX);
  }

  /** No name is written that the document does not have. */
  lemma MemberNamesOf(fs: seq<Field>, stored: bool, nums: Numbers, name: bytes)
    requires Marshal(Document(fs), stored, nums).Some?
    ensures Find(Marshal(Document(fs), stored, nums).value.members, name).Some? ==>
              exists i :: 0 <= i < |fs| && fs[i].name == name
  {
    MovedMembers(fs, stored, nums);
    var ms := Marshal(Document(fs), stored, nums).value.members;
    if Find(ms, name).Some? {
      var k := WithoutAt(fs, Find(ms, name).value);
      assert fs[k].name == name;
    }
  }

  lemma WrittenIsObject(fs: seq<Field>, stored: bool, nums: Numbers)
    requires Marshal(Document(fs), stored, nums).Some?
    ensures var j := Marshal(Document(fs), stored, nums).value;
            j.JObject? && TreeOf(fs, stored, nums) == MembersToTree(j.members, nums)
  {
  }

  lemma LookExactly(fs: seq<Field>, stored: bool, nums: Numbers, i: nat)
    requires ValidFields(fs) && Marshal(Document(fs), stored, nums).Some? && i < |fs|
    ensures Marshal(fs[i].value, stored, nums).Some?
    ensures Look(Marshal(Document(fs), stored, nums).value.members, fs[i].name, nums)
         == Unmarshal(Marshal(fs[i].value, stored, nums).value, nums)
  {
    LookAt(fs, stored, nums, i);
  }

  /** A document that is read has the scanned keys, each where it occurs first; so it is the document fs exactly when
      these are its names and each leads to its value. */
  lemma FieldsExactly(fs: seq<Field>, keys: seq<bytes>, ms: seq<JMember>, nums: Numbers)
    requires ValidFields(fs)
    ensures UnmarshalKeys(keys, ms, [], nums) == Some(fs)
            <==> (forall i :: 0 <= i < |fs| ==> Look(ms, fs[i].name, nums) == Some(fs[i].value))
                 && JsonKeys.FirstOnly(keys) == Names(fs)
  {
    hide UnmarshalKeys, Look, JsonKeys.Including;
    KeysLoop(keys, ms, [], nums);
    var r := UnmarshalKeys(keys, ms, [], nums);
    assert Names([]) == [];
    if (forall i :: 0 <= i < |fs| ==> Look(ms, fs[i].name, nums) == Some(fs[i].value))
       && JsonKeys.FirstOnly(keys) == Names(fs)
    {
      forall i | 0 <= i < |keys| ensures ValidKey(keys[i]) && Look(ms, keys[i], nums).Some? {
        JsonKeys.EveryKeyOccurs([], keys, i);
        var k :| 0 <= k < |fs| && Names(fs)[k] == keys[i];
        assert fs[k].name == keys[i];
      }
      forall i | 0 <= i < |fs| ensures r.value[i].value == fs[i].value {
        assert Names(r.value)[i] == Names(fs)[i];
      }
      SameFields(r.value, fs);
    }
  }

  /** What becomes of an object: it is a document exactly when no reserved name holds a value. */
  lemma ObjectRead(ms: seq<JMember>, nums: Numbers)
    ensures var r := Unmarshal(JObject(ms), nums);
            if HasValue(ms, OID) || HasValue(ms, DATE) || HasValue(ms, REGEX) then r.Some? ==> !r.value.Document?
            else r == match UnmarshalKeys(JsonKeys.Keys(MembersToTree(ms, nums)), ms, [], nums)
                      case Some(fs) => Some(Document(fs))
                      case None => None
  {
  }

  lemma OnlyValidIsRead(keys: seq<bytes>, ms: seq<JMember>, nums: Numbers)
    ensures var r := UnmarshalKeys(keys, ms, [], nums); r.Some? ==> ValidFields(r.value)
  {
    KeysLoop(keys, ms, [], nums);
  }

  lemma {:induction false} DocumentExactly(fs: seq<Field>, stored: bool, nums: Numbers)
    requires Marshal(Document(fs), stored, nums).Some?
    ensures Unmarshal(Marshal(Document(fs), stored, nums).value, nums) == Some(Document(fs))
            <==> Faithful(Document(fs), stored, nums)
    decreases Document(fs), 0
  {
    hide Find, Look, HasValue, UnmarshalKeys, Marshal, Unmarshal, TreeOf, ValidFields;
    var j := Marshal(Document(fs), stored, nums).value;
    var keys := JsonKeys.Keys(TreeOf(fs, stored, nums));
    WrittenIsObject(fs, stored, nums);
    ObjectRead(j.members, nums);
    OnlyValidIsRead(keys, j.members, nums);
    if ValidFields(fs) {
      ReservedExactly(fs, stored, nums);
      forall i | 0 <= i < |fs|
        ensures Look(j.members, fs[i].name, nums) == Some(fs[i].value) <==> Faithful(fs[i].value, stored, nums)
      {
        LookExactly(fs, stored, nums, i);
        ReadBackExactly(fs[i].value, stored, nums);
      }
      FieldsExactly(fs, keys, j.members, nums);
    }
  }

  lemma {:induction false} ReadBackExactly(v: Value, stored: bool, nums: Numbers)
    requires Marshal(v, stored, nums).Some?
    ensures Unmarshal(Marshal(v, stored, nums).value, nums) == Some(v) <==> Faithful(v, stored, nums)
    decreases v, 1
  {
    match v
    case Document(fs) => DocumentExactly(fs, stored, nums);
    case Array(es) => ElemsExactly(es, nums);
    case _ => ScalarExactly(v, stored, nums);
  }

  /** What the storage format can hold, and the scanner can read, is read back as itself exactly in normal form. */
  lemma NormalIsFaithful(v: Value, stored: bool, nums: Numbers)
    requires Storable(v) && Marshal(v, stored, nums).Some? && Readable(Marshal(v, stored, nums).value, nums)
    ensures Faithful(v, stored, nums) <==> Normal(v, nums) == v
  {
    RoundTrip(v, stored, nums);
    ReadBackExactly(v, stored, nums);
  }

  // ----- an id that is selected

  function IdValue(doc: seq<Field>): Value { match Get(doc, ID) case Some(v) => v case None => Null }

  /** The id that a handler gets from the selected {"_id": ...}; None where reading it is an error. */
  function ReadId(id: Value, nums: Numbers): Option<Value> {
    match Marshal(Document([Field(ID, id)]), true, nums)
    case None => None
    case Some(j) =>
      match Unmarshal(j, nums)
      case Some(Document(fs)) => Some(IdValue(fs))
      case _ => None
  }

  ghost predicate FaithfulId(id: Value, nums: Numbers) { Faithful(Document([Field(ID, id)]), true, nums) }

  /** No document that is read has a key that was not written. */
  lemma OnlyIdIsRead(id: Value, nums: Numbers, fs: seq<Field>)
    requires Marshal(Document([Field(ID, id)]), true, nums).Some?
    requires Unmarshal(Marshal(Document([Field(ID, id)]), true, nums).value, nums) == Some(Document(fs))
    ensures forall i :: 0 <= i < |fs| ==> fs[i].name == ID
    ensures ValidFields(fs)
  {
    hide Marshal, Unmarshal, UnmarshalKeys, HasValue, TreeOf;
    var doc := [Field(ID, id)];
    WrittenIsObject(doc, true, nums);
    var ms := Marshal(Document(doc), true, nums).value.members;
    ObjectRead(ms, nums);
    KeysLoop(JsonKeys.Keys(MembersToTree(ms, nums)), ms, [], nums);
    forall i | 0 <= i < |fs| ensures fs[i].name == ID {
      assert Look(ms, fs[i].name, nums).Some?;
      MemberNamesOf(doc, true, nums, fs[i].name);
    }
  }

  /** The handler gets the id itself exactly when {"_id": id} reads back as itself. */
  lemma ReadIdExactly(id: Value, nums: Numbers)
    requires !id.Null?
    ensures ReadId(id, nums) == Some(id) <==> FaithfulId(id, nums)
  {
    hide Marshal, Unmarshal;
    var doc := [Field(ID, id)];
    var j := Marshal(Document(doc), true, nums);
    if j.Some? {
      ReadBackExactly(Document(doc), true, nums);
      match Unmarshal(j.value, nums)
      case Some(Document(fs)) =>
        OnlyIdIsRead(id, nums, fs);
        OneId(fs, id);
      case _ =>
    }
  }

  lemma OneId(fs: seq<Field>, id: Value)
    requires !id.Null? && ValidFields(fs) && forall i :: 0 <= i < |fs| ==> fs[i].name == ID
    ensures IdValue(fs) == id <==> fs == [Field(ID, id)]
  {
    if |fs| > 1 { assert fs[0].name == fs[1].name; }
    if |fs| == 1 { assert fs == [fs[0]]; }
  }

  // ----- ids that are no documents

  /** The scanner takes nothing from the text of a single member. */
  lemma SingleKey(m: JsonKeys.Member)
    requires !JsonKeys.Bracket(m.name) && (m.value.Leaf? || JsonKeys.NoBrackets(m.value))
    ensures JsonKeys.Keys([m]) == [m.name]
  {
    var ms := [m];
    assert ms[1..] == [];
    if m.value.Leaf? {
      var st, name, text := JsonKeys.State(1, 0, 0, []), JsonKeys.Word(m.name), JsonKeys.Word(m.value.text);
      JsonKeys.KeysOfMembers(ms);
      assert JsonKeys.MemberTokens(ms) == [name] + [text] + [];
      assert [name] + [text] + [] == [name] + [text];
      JsonKeys.RunAppend(st, [name], [text]);
      JsonKeys.RunOne(st, name);
      JsonKeys.RunOne(JsonKeys.Step(st, name), text);
    } else {
      JsonKeys.KeysOfTree(ms);
      assert JsonKeys.KeysFrom(ms, 1) == [m.name] + [];
    }
  }

  lemma {:induction false} HexIsNoBracket(b: bytes)
    ensures forall i :: 0 <= i < |HexEncode(b)| ==> '0' <= HexEncode(b)[i] <= '9' || 'a' <= HexEncode(b)[i] <= 'f'
  {
    if b != [] {
      HexIsNoBracket(b[1..]);
      var s := HexEncode(b);
      assert s == [Digit(b[0] as int / 16), Digit(b[0] as int % 16)] + HexEncode(b[1..]);
    }
  }

  lemma ObjectIdTree(id: ObjectId, nums: Numbers)
    ensures JsonKeys.NoBrackets(ToTree(Marshal(ObjectID(id), true, nums).value, nums))
  {
    HexIsNoBracket(id);
    hide HexEncode;
    var jm := [JMember(OID, JString(HexEncode(id)))];
    var ms := MembersToTree(jm, nums);
    assert ToTree(JObject(jm), nums) == JsonKeys.Obj(ms);
    assert ms[0].value == ToTree(jm[0].value, nums) == JsonKeys.Leaf(HexEncode(id));
    assert JsonKeys.NoBrackets(ms[0].value);
    assert JsonKeys.NoBrackets(JsonKeys.Obj(ms));
  }

  /** The JSON of {"_id": id}. */
  lemma WrittenSingle(id: Value, j: Json, nums: Numbers)
    requires Marshal(id, true, nums) == Some(j)
    ensures Marshal(Document([Field(ID, id)]), true, nums) == Some(JObject([JMember(ID, j)]))
  {
    hide HexEncode;
    var doc, ms := [Field(ID, id)], [JMember(ID, j)];
    assert doc[1..] == [] && ms[1..] == [];
    assert MarshalFields(doc, true, nums) == Some(ms + []);
    assert ms + [] == ms;
    assert Others([], []) == [] && Others(doc, ms) == [] + [];
    assert ms + ([] + []) == ms;
    assert MoveIdFirst(doc, ms) == ms;
  }

  /** An id that is neither a document nor an array reads back as itself exactly when it keeps its type and its text on
      its own: always, for an ObjectID, an int32 or a boolean. */
  lemma ScalarIdExactly(id: Value, nums: Numbers)
    requires !id.Document? && !id.Array?
    ensures FaithfulId(id, nums) <==> Faithful(id, true, nums)
  {
    hide JsonKeys.Keys, MembersToTree, ToTree, HexEncode;
    var doc := [Field(ID, id)];
    var j := Marshal(id, true, nums);
    if j.Some? {
      WrittenSingle(id, j.value, nums);
      ScalarIdKeys(id, nums);
      assert Names(doc) == [ID];
      JsonKeys.IncludingDistinct([], [ID]);
      assert [] + [ID] == [ID];
      assert ValidFields(doc);
    } else {
      NotWritten(doc, true, nums);
    }
  }

  lemma NotWritten(doc: seq<Field>, stored: bool, nums: Numbers)
    requires doc != [] && Marshal(doc[0].value, stored, nums).None?
    ensures Marshal(Document(doc), stored, nums).None?
  {
  }

  lemma ScalarIdKeys(id: Value, nums: Numbers)
    requires !id.Document? && !id.Array? && Marshal(id, true, nums).Some?
    ensures JsonKeys.Keys(TreeOf([Field(ID, id)], true, nums)) == [ID]
  {
    hide JsonKeys.Keys;
    var j := Marshal(id, true, nums).value;
    WrittenSingle(id, j, nums);
    if id.ObjectID? { ObjectIdTree(id.id, nums); }
    var ts := MembersToTree([JMember(ID, j)], nums);
    assert ts == [JsonKeys.Member(ID, ToTree(j, nums))];
    SingleKey(ts[0]);
  }
}
