/** Ids that do not read back as themselves: a statement about one document then reaches another one, or fails. */
module WrongIds {
  import opened Types
  import opened Sql
  import opened Where
  import opened Filter
  import opened Rows
  import opened Update
  import opened UpdateMeaning
  import opened ReadBack
  import opened Sending
  import opened WrittenValues
  import opened Commands
  import opened CommandSafety
  import opened CommandMeaning
  import JsonKeys
  import Statements
  import Storage
  import WrittenText

  // ----- a filter and rows for it

  function Wanted(n: int32): Fields { [Field("f", Int32(n))] }

  function Row(id: Value, n: int32): Fields { [Field(ID, id), Field("f", Int32(n))] }

  lemma {:induction false} RowParts(id: Value, n: int32)
    ensures Get(Row(id, n), ID) == Some(id) && Get(Row(id, n), "f") == Some(Int32(n))
    ensures OrdinaryField("f", Row(id, n)) && IdValue(Row(id, n)) == id
    ensures !id.Null? ==> IdOf(Row(id, n)) == Val(id)
    ensures KeyWalk(Document(Row(id, n)), Parts("f")) == Some(Int32(n))
  {
    var row := Row(id, n);
    assert row[1..] == [Field("f", Int32(n))];
    assert ["f"][1..] == [];
  }

  lemma {:induction false} WantedMatches(id: Value, n: int32, m: int32, compare: Comparison)
    ensures ByFilter(Wanted(m), compare)(Row(id, n)) <==> compare(Int32(n), Int32(m)) == Equal
  {
    RowParts(id, n);
    var d := RowView(Row(id, n), compare);
    assert Wanted(m)[1..] == [] && MatchesPairs(Wanted(m)[1..], d);
    assert d.field("f") == Val(Int32(n));
    assert MatchesPair("f", Int32(m), d) <==> compare(Int32(n), Int32(m)) == Equal;
  }

  lemma {:induction false} WantedIsReadable(rows: seq<Fields>, m: int32)
    requires forall i :: 0 <= i < |rows| ==> OrdinaryField("f", rows[i])
    ensures Readable(rows, Wanted(m))
  {
    assert SupportedPair("f", Int32(m), false);
    assert Wanted(m)[1..] == [];
  }

  /** What an entry with a limit does: it takes some matching document by the id that arrives for it. */
  lemma {:induction false} DeleteOneTakesSome(before: seq<Fields>, entry: Fields, m: int32, db: Database,
                                              after: seq<Fields>, r: Result<nat>)
    requires var limit := Get(entry, "limit"); limit.Some? && limit.value.Int32? && limit.value.i != 0
    requires DeleteStep(before, entry, db, false, after, r) && DeletesBy(entry, Wanted(m))
    requires forall i :: 0 <= i < |before| ==> OrdinaryField("f", before[i])
    requires exists i :: 0 <= i < |before| && ByFilter(Wanted(m), db.compare)(before[i])
    ensures exists k :: 0 <= k < |before| && ByFilter(Wanted(m), db.compare)(before[k])
                        && match ArrivingId(before[k], db)
                           case None => after == before && r.Err?
                           case Some(id) => after == DeleteRows(before, ById(id, db.compare))
                                            && r == Ok(Count(before, ById(id, db.compare)))
  {
    hide WhereClause, Read, Readable, MatchesPairs, ArrivingId, OrdinaryField, Wanted, DeleteStep, ByFilter, BySql,
      ById, DeleteRows;
    WantedIsReadable(before, m);
    SqlChoosesMatches(before, Wanted(m), db);
    DeleteOneIsSent(before, entry, Wanted(m), db, after, r);
  }

  /** Reading {"_id": id} gives what reading the id alone gives. */
  lemma {:induction false} IdIsReadAlone(id: Value, nums: Storage.Numbers)
    requires id.Document? && Storage.Marshal(id, true, nums).Some?
    requires JsonKeys.NoBrackets(Storage.ToTree(Storage.Marshal(id, true, nums).value, nums))
    ensures ReadId(id, nums) == Storage.Unmarshal(Storage.Marshal(id, true, nums).value, nums)
  {
    hide Storage.Unmarshal;
    var j := Storage.Marshal(id, true, nums).value;
    WrittenSingle(id, j, nums);
    OnlyIdKey(j, nums);
    ReadSingle(j, nums);
  }

  lemma {:induction false} OnlyIdKey(j: Storage.Json, nums: Storage.Numbers)
    requires JsonKeys.NoBrackets(Storage.ToTree(j, nums))
    ensures JsonKeys.Keys(Storage.MembersToTree([Storage.JMember(ID, j)], nums)) == [ID]
  {
    var ts := Storage.MembersToTree([Storage.JMember(ID, j)], nums);
    JsonKeys.KeysOfTree(ts);
    assert ts[1..] == [];
    assert JsonKeys.KeysFrom(ts, 1) == [ID] + [];
  }

  lemma {:induction false} ReadSingle(j: Storage.Json, nums: Storage.Numbers)
    requires JsonKeys.Keys(Storage.MembersToTree([Storage.JMember(ID, j)], nums)) == [ID]
    ensures Storage.Unmarshal(Storage.JObject([Storage.JMember(ID, j)]), nums)
         == match Storage.Unmarshal(j, nums) case Some(v) => Some(Document([Field(ID, v)])) case None => None
  {
    var ms, keys := [Storage.JMember(ID, j)], [ID];
    assert ms[..0] == [] && keys[1..] == [];
    assert Storage.Find(ms, ID) == Some(0);
    match Storage.Unmarshal(j, nums)
    case Some(v) =>
      assert Set([], ID, v) == Some([] + [Field(ID, v)]);
      assert [] + [Field(ID, v)] == [Field(ID, v)];
      assert Storage.UnmarshalKeys([], ms, [Field(ID, v)], nums) == Some([Field(ID, v)]);
    case None =>
  }

  // ----- a key that is lost

  /** {a: [[]], b: ["x"]}: the scanner finds the key "a" only. */
  function LostKeyId(): Value { Document([Field("a", Array([Array([])])), Field("b", Array([String("x")]))]) }

  /** {a: [[]]}. */
  function ShorterId(): Value { Document([Field("a", Array([Array([])]))]) }

  lemma {:induction false} LostKeyIsRead(nums: Storage.Numbers)
    ensures ReadId(LostKeyId(), nums) == Some(ShorterId())
  {
    hide ReadId;
    LostKeyTree(nums);
    LostKeyShape(nums);
    IdIsReadAlone(LostKeyId(), nums);
    LostKeyMembers(nums);
  }

  /** {"a": [[]], "b": ["x"]}. */
  function LostKeyJson(): seq<Storage.JMember> {
    [Storage.JMember("a", Storage.JArray([Storage.JArray([])])),
     Storage.JMember("b", Storage.JArray([Storage.JString("x")]))]
  }

  lemma {:induction false} LostKeyTree(nums: Storage.Numbers)
    ensures Storage.Marshal(LostKeyId(), true, nums) == Some(Storage.JObject(LostKeyJson()))
  {
    var x, inner, fs := [String("x")], [Array([])], LostKeyId().fields;
    Ascii("x");
    hide Storage.Repaired;
    assert x[1..] == [] && inner[1..] == [] && fs[1..] == [fs[1]] && fs[1..][1..] == [];
    assert Storage.MarshalElems(x, nums) == Some([Storage.JString("x")] + []);
    assert Storage.MarshalElems(inner, nums) == Some([Storage.JArray([])] + []);
    assert [Storage.JString("x")] + [] == [Storage.JString("x")];
    assert [Storage.JArray([])] + [] == [Storage.JArray([])];
    assert Storage.MarshalFields(fs[1..], true, nums) == Some([LostKeyJson()[1]] + []);
    assert [LostKeyJson()[0]] + ([LostKeyJson()[1]] + []) == LostKeyJson();
    assert Storage.MarshalFields(fs, true, nums) == Some(LostKeyJson());
  }

  lemma {:induction false} LostKeyMembers(nums: Storage.Numbers)
    ensures Storage.Unmarshal(Storage.JObject(LostKeyJson()), nums) == Some(ShorterId())
  {
    var ms, keys: seq<bytes> := LostKeyJson(), ["a"];
    LostKeyKeys(nums);
    assert ms[..1] == [ms[0]] && ms[..1][..0] == [] && keys[1..] == [];
    assert Storage.Find(ms, "a") == Some(0);
    ArrayInArray(nums);
    var v := Array([Array([])]);
    assert Set([], "a", v) == Some([] + [Field("a", v)]);
    assert [] + [Field("a", v)] == [Field("a", v)];
    assert Storage.UnmarshalKeys([], ms, [Field("a", v)], nums) == Some([Field("a", v)]);
    assert Storage.UnmarshalKeys(keys, ms, [], nums) == Some([Field("a", v)]);
  }

  lemma {:induction false} ArrayInArray(nums: Storage.Numbers)
    ensures Storage.Unmarshal(Storage.JArray([Storage.JArray([])]), nums) == Some(Array([Array([])]))
  {
    var es := [Storage.JArray([])];
    assert es[1..] == [];
    assert Storage.UnmarshalElems(es, nums) == Some([Array([])] + []);
    assert [Array([])] + [] == [Array([])];
  }

  function LostKeyMember(): JsonKeys.Member { JsonKeys.Member("a", JsonKeys.Arr([JsonKeys.Arr([])])) }

  function LaterMember(): JsonKeys.Member { JsonKeys.Member("b", JsonKeys.Arr([JsonKeys.Leaf("x")])) }

  lemma {:induction false} LostKeyShape(nums: Storage.Numbers)
    ensures Storage.MembersToTree(LostKeyJson(), nums) == [LostKeyMember(), LaterMember()]
    ensures JsonKeys.NoBrackets(Storage.ToTree(Storage.JObject(LostKeyJson()), nums))
  {
    var ts := Storage.MembersToTree(LostKeyJson(), nums);
    var a, b := ts[0].value, ts[1].value;
    assert a.elems == [JsonKeys.Arr([])] by { assert a.elems[0].elems == []; }
    assert b.elems == [JsonKeys.Leaf("x")];
    assert JsonKeys.NoBrackets(a.elems[0]) && JsonKeys.NoBrackets(b.elems[0]);
    assert JsonKeys.NoBrackets(a) && JsonKeys.NoBrackets(b);
  }

  lemma {:induction false} LostKeyKeys(nums: Storage.Numbers)
    ensures JsonKeys.Keys(Storage.MembersToTree(LostKeyJson(), nums)) == ["a"]
  {
    hide Storage.MembersToTree, JsonKeys.Keys;
    var a, b := LostKeyMember(), LaterMember();
    LostKeyShape(nums);
    JsonKeys.KeysOfTree([a, b]);
    var es := [JsonKeys.Arr([])];
    assert es[1..] == [] && [a, b][1..] == [b] && [b][1..] == [];
    assert JsonKeys.After(JsonKeys.Arr(es), 2) == 4;
    assert JsonKeys.KeysFrom([b], 4) == [] + [];
    assert ["a"] + ([] + []) == ["a"];
  }

  /** Delete with a limit over {f: 1}: the matching document stays, and the other one, whose id is what is left of the
      first one's, goes. */
  lemma {:induction false} DeleteOneTakesTheWrongOne(entry: Fields, db: Database, after: seq<Fields>, r: Result<nat>)
    requires var limit := Get(entry, "limit"); limit.Some? && limit.value.Int32? && limit.value.i != 0
    requires DeletesBy(entry, Wanted(1))
    requires DeleteStep([Row(LostKeyId(), 1), Row(ShorterId(), 2)], entry, db, false, after, r)
    requires db.compare(Int32(1), Int32(1)) == Equal && db.compare(Int32(2), Int32(1)) != Equal
    requires db.compare(ShorterId(), ShorterId()) == Equal && db.compare(LostKeyId(), ShorterId()) != Equal
    ensures after == [Row(LostKeyId(), 1)] && r == Ok(1)
  {
    var first, second := Row(LostKeyId(), 1), Row(ShorterId(), 2);
    hide DeleteStep, DeletesBy, Row, ByFilter, Wanted, DeleteRows, Count, ReadId, ArrivingId, LostKeyId,
      ShorterId, OrdinaryField;
    RowParts(LostKeyId(), 1);
    RowParts(ShorterId(), 2);
    WantedMatches(LostKeyId(), 1, 1, db.compare);
    WantedMatches(ShorterId(), 2, 1, db.compare);
    NoNullIds();
    LostKeyArrives(first, db);
    DeleteTakesSecond(first, second, Val(ShorterId()), entry, 1, db, after, r);
  }

  lemma {:induction false} NoNullIds()
    ensures !LostKeyId().Null? && !ShorterId().Null?
  {
  }

  /** Two documents: the first one matches, and the second one has the id that arrives for the first. */
  lemma {:induction false} DeleteTakesSecond(first: Fields, second: Fields, id: Slot, entry: Fields, m: int32,
                                             db: Database, after: seq<Fields>, r: Result<nat>)
    requires var limit := Get(entry, "limit"); limit.Some? && limit.value.Int32? && limit.value.i != 0
    requires DeleteStep([first, second], entry, db, false, after, r) && DeletesBy(entry, Wanted(m))
    requires OrdinaryField("f", first) && OrdinaryField("f", second)
    requires ByFilter(Wanted(m), db.compare)(first) && !ByFilter(Wanted(m), db.compare)(second)
    requires ArrivingId(first, db) == Some(id) && ById(id, db.compare)(second) && !ById(id, db.compare)(first)
    ensures after == [first] && r == Ok(1)
  {
    hide DeleteStep, DeletesBy, ByFilter, Wanted, DeleteRows, Count, ArrivingId, ById, OrdinaryField;
    var before := [first, second];
    assert ByFilter(Wanted(m), db.compare)(before[0]);
    DeleteOneTakesSome(before, entry, m, db, after, r);
    DeleteJustOne(before, ById(id, db.compare), 1);
    assert before[..1] + before[2..] == [first];
  }

  lemma {:induction false} LostKeyArrives(row: Fields, db: Database)
    requires IdValue(row) == LostKeyId()
    ensures ArrivingId(row, db) == Some(Val(ShorterId()))
  {
    LostKeyIsRead(db.nums);
    ShorterIsItself();
    hide ReadId;
  }

  lemma {:induction false} ShorterIsItself()
    ensures UpdateValue(ShorterId()) == Ok(ShorterId()) && WrittenField(ShorterId()) == Some(ShorterId())
  {
    var fs, es := ShorterId().fields, [Array([])];
    assert fs[1..] == [] && es[1..] == [];
    assert SupportedElements(es) && WrittenText.CleanElements(es) && WrittenText.PercentlessElements(es);
    assert SupportedFields(fs) && WrittenText.Clean(fs);
    Statements.DocumentIsItself(fs);
    Statements.SupportedFieldsRender(fs);
  }

  // ----- a document that looks like an ObjectID

  /** {oid: 5}. */
  function UnreadableId(): Value { Document([Field("oid", Int32(5))]) }

  lemma {:induction false} UnreadableIdIsRefused(nums: Storage.Numbers)
    ensures ReadId(UnreadableId(), nums) == None
  {
    var ms, fs := [Storage.JMember("oid", Storage.JInteger(5))], [Field("oid", Int32(5))];
    assert fs[1..] == [] && ms[..0] == [];
    assert Storage.MarshalFields(fs, true, nums) == Some([ms[0]] + []);
    assert [ms[0]] + [] == ms;
    assert Storage.Find(ms, Storage.OID) == Some(0);
    var j := Storage.JObject(ms);
    assert Storage.Marshal(UnreadableId(), true, nums) == Some(j);
    assert Storage.Unmarshal(j, nums) == None;
    IdCannotBeRead(UnreadableId(), j, nums);
  }

  /** An id that cannot be read alone cannot be read. */
  lemma {:induction false} IdCannotBeRead(id: Value, j: Storage.Json, nums: Storage.Numbers)
    requires id.Document? && Storage.Marshal(id, true, nums) == Some(j) && Storage.Unmarshal(j, nums) == None
    ensures ReadId(id, nums) == None
  {
    var ms := [Storage.JMember(ID, j)];
    WrittenSingle(id, j, nums);
    var ts := Storage.MembersToTree(ms, nums);
    JsonKeys.FirstKeyIsTaken(ts);
    assert JsonKeys.Keys(ts)[0] == ID;
    assert ms[..0] == [];
    assert Storage.Find(ms, ID) == Some(0);
    assert Storage.UnmarshalKeys(JsonKeys.Keys(ts), ms, [], nums) == None;
  }

  /** Delete with a limit over {f: 1}, where the only match has such an id, is an error. */
  lemma {:induction false} DeleteOneFails(entry: Fields, db: Database, after: seq<Fields>, r: Result<nat>)
    requires var limit := Get(entry, "limit"); limit.Some? && limit.value.Int32? && limit.value.i != 0
    requires DeletesBy(entry, Wanted(1)) && db.compare(Int32(1), Int32(1)) == Equal
    requires DeleteStep([Row(UnreadableId(), 1)], entry, db, false, after, r)
    ensures after == [Row(UnreadableId(), 1)] && r.Err?
  {
    var row := Row(UnreadableId(), 1);
    hide DeleteStep, DeletesBy, Row, ByFilter, Wanted, ReadId, OrdinaryField;
    RowParts(UnreadableId(), 1);
    WantedMatches(UnreadableId(), 1, 1, db.compare);
    UnreadableIdIsRefused(db.nums);
    DeleteOfUnreadable(row, entry, 1, db, after, r);
  }

  lemma {:induction false} DeleteOfUnreadable(row: Fields, entry: Fields, m: int32, db: Database,
                                              after: seq<Fields>, r: Result<nat>)
    requires var limit := Get(entry, "limit"); limit.Some? && limit.value.Int32? && limit.value.i != 0
    requires DeleteStep([row], entry, db, false, after, r) && DeletesBy(entry, Wanted(m))
    requires OrdinaryField("f", row) && ByFilter(Wanted(m), db.compare)(row) && ReadId(IdValue(row), db.nums) == None
    ensures after == [row] && r.Err?
  {
    hide DeleteStep, DeletesBy, ByFilter, Wanted, ReadId, OrdinaryField, ById, DeleteRows;
    assert ArrivingId(row, db) == None;
    hide ArrivingId;
    var before := [row];
    assert ByFilter(Wanted(m), db.compare)(before[0]);
    DeleteOneTakesSome(before, entry, m, db, after, r);
  }
}
