/** The JSON that is stored, written out: how each scalar stands in it, where an ObjectID "_id" stands, and where the
    integer types meet. */
module StoredForms {
  import opened Types
  import opened Storage

  /** A scalar in a document; dates and regular expressions only stand below an array. A double with the largest
      exponent is infinite or no number. */
  lemma {:induction false} ScalarForms(v: Value, nums: Numbers)
    ensures match v
            case Null => Marshal(v, true, nums) == Some(JNull)
            case Bool(b) => Marshal(v, true, nums) == Some(JBool(b))
            case Int32(i) => Marshal(v, true, nums) == Some(JInteger(i))
            case Int64(l) => Marshal(v, true, nums) == Some(JInteger(l))
            case String(s) => ValidUtf8(s) ==> Marshal(v, true, nums) == Some(JString(s))
            case ObjectID(id) => Marshal(v, true, nums) == Some(JObject([JMember("oid", JString(HexEncode(id)))]))
            case DateTime(nanos) =>
              && Marshal(v, true, nums) == None
              && Marshal(v, false, nums) == Some(JObject([JMember("$da", JInteger(nanos / 1_000_000))]))
            case Regex(p, o) =>
              && Marshal(v, true, nums) == None
              && (ValidUtf8(p) && ValidUtf8(o) ==>
                    Marshal(v, false, nums) == Some(JObject([JMember("$r", JString(p)), JMember("o", JString(o))])))
            case Double(bits) =>
              if bits / 0x10_0000_0000_0000 % 0x800 == 0x7FF then Marshal(v, true, nums) == None
              else
                Marshal(v, true, nums)
                == (match nums.whole(bits) case Some(n) => Some(JInteger(n)) case None => Some(JFloat(bits)))
            case _ => true
  {
    match v
    case String(s) => RepairKeepsUtf8(s);
    case Regex(p, o) =>
      RepairKeepsUtf8(p);
      RepairKeepsUtf8(o);
    case _ =>
  }

  /** Lower-case digits, the upper half of a byte first. */
  lemma {:induction false} HexSample()
    ensures HexEncode([0x0A as char, 0xF7 as char]) == "0af7"
  {
    var b: bytes := [0x0A as char, 0xF7 as char];
    assert b[1..] == [0xF7 as char] && b[1..][1..] == [];
    assert HexEncode(b[1..]) == "f7";
  }

  /** {a: 1, _id: ObjectID(...)} is stored with the id in front. */
  lemma {:induction false} IdComesFirst(id: ObjectId, nums: Numbers)
    ensures var hex := JObject([JMember("oid", JString(HexEncode(id)))]);
            Marshal(Document([Field("a", Int32(1)), Field("_id", ObjectID(id))]), true, nums)
            == Some(JObject([JMember("_id", hex), JMember("a", JInteger(1))]))
  {
    hide HexEncode;
    var hex := JObject([JMember("oid", JString(HexEncode(id)))]);
    var fs, gs := [Field("a", Int32(1)), Field("_id", ObjectID(id))], [Field("_id", ObjectID(id))];
    var ms, ns := [JMember("a", JInteger(1)), JMember("_id", hex)], [JMember("_id", hex)];
    assert fs[1..] == gs && gs[1..] == [] && ms[1..] == ns && ns[1..] == [];
    assert MarshalFields([], true, nums) == Some([]);
    assert Marshal(gs[0].value, true, nums) == Some(hex);
    assert ns == [JMember(gs[0].name, hex)] + [];
    assert MarshalFields(gs, true, nums) == Some(ns);
    assert Marshal(fs[0].value, true, nums) == Some(JInteger(1));
    assert ms == [JMember(fs[0].name, JInteger(1))] + ns;
    assert MarshalFields(fs, true, nums) == Some(ms);
    assert Get(gs, ID) == Some(ObjectID(id)) && Get(fs, ID) == Some(ObjectID(id));
    assert Others(gs, ns) == [];
    assert Others(fs, ms) == [JMember("a", JInteger(1))];
    assert MoveIdFirst(fs, ms) == [JMember("_id", hex), JMember("a", JInteger(1))];
  }

  /** An integer comes back in 32 bits if they hold it, and in 64 bits otherwise. */
  lemma {:induction false} IntegersMeet(n: int64, nums: Numbers)
    ensures Unmarshal(JInteger(n), nums)
         == Some(if -2_147_483_648 <= n <= 2_147_483_647 then Int32(n) else Int64(n))
  {
  }

  /** An object with a reserved name that is not null is read as that type, and nothing else may stand beside it. */
  lemma {:induction false} ReservedAreStrict(ms: seq<JMember>, j: nat, nums: Numbers)
    requires j < |ms|
    requires || (HasValue(ms, "oid") && ms[j].name != "oid")
             || (!HasValue(ms, "oid") && HasValue(ms, "$da") && ms[j].name != "$da")
             || (!HasValue(ms, "oid") && !HasValue(ms, "$da") && HasValue(ms, "$r")
                 && ms[j].name != "$r" && ms[j].name != "o")
    ensures Unmarshal(JObject(ms), nums) == None
  {
  }
}
