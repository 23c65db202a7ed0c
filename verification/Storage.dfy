/** Storing a document as JSON and reading it back (package fjson). JSON texts are taken as trees; the key order of an
    object is recovered by the token scanner of module JsonKeys. */
module Storage {
  import opened Types
  import JsonKeys

  datatype Json =
    | JNull
    | JBool(b: bool)
    | JInteger(n: int)
    | JFloat(bits: uint64)
    | JString(s: bytes)
    | JArray(elems: seq<Json>)
    | JObject(members: seq<JMember>)

  datatype JMember = JMember(name: bytes, value: Json)

  /** What is not looked into: how a number token prints, and the integer that the text of a double reads as, if it has
      neither a fraction nor an exponent and fits 64 bits. */
  datatype Numbers = Numbers(show: Json -> bytes, whole: uint64 -> Option<int64>)

  const NULL_TEXT: bytes := ['<', 'n', 'i', 'l', '>']
  const TRUE_TEXT: bytes := ['t', 'r', 'u', 'e']
  const FALSE_TEXT: bytes := ['f', 'a', 'l', 's', 'e']

  function ToTree(j: Json, nums: Numbers): JsonKeys.Tree
    decreases j
  {
    match j
    case JNull => JsonKeys.Leaf(NULL_TEXT)
    case JBool(b) => JsonKeys.Leaf(if b then TRUE_TEXT else FALSE_TEXT)
    case JString(s) => JsonKeys.Leaf(s)
    case JArray(es) => JsonKeys.Arr(seq(|es|, i requires 0 <= i < |es| => ToTree(es[i], nums)))
    case JObject(ms) => JsonKeys.Obj(MembersToTree(ms, nums))
    case _ => JsonKeys.Leaf(nums.show(j))
  }

  function MembersToTree(ms: seq<JMember>, nums: Numbers): (ts: seq<JsonKeys.Member>)
    ensures |ts| == |ms|
    ensures forall i :: 0 <= i < |ms| ==> ts[i].name == ms[i].name
    decreases ms
  {
    seq(|ms|, i requires 0 <= i < |ms| => JsonKeys.Member(ms[i].name, ToTree(ms[i].value, nums)))
  }

  // ----- ObjectID as 24 hexadecimal digits

  function Digit(n: nat): byte
    requires n < 16
  {
    if n < 10 then ('0' as int + n) as char else ('a' as int + n - 10) as char
  }

  function Nibble(c: byte): Option<nat> {
    if '0' <= c <= '9' then Some(c as int - '0' as int)
    else if 'a' <= c <= 'f' then Some(c as int - 'a' as int + 10)
    else if 'A' <= c <= 'F' then Some(c as int - 'A' as int + 10)
    else None
  }

  function HexEncode(b: bytes): (s: bytes)
    ensures |s| == 2 * |b|
  {
    if b == [] then [] else [Digit(b[0] as int / 16), Digit(b[0] as int % 16)] + HexEncode(b[1..])
  }

  function HexDecode(s: bytes): Option<bytes> {
    if s == [] then Some([])
    else if |s| == 1 then None
    else
      match (Nibble(s[0]), Nibble(s[1]), HexDecode(s[2..]))
      case (Some(h), Some(l), Some(rest)) => Some([(16 * h + l) as char] + rest)
      case _ => None
  }

  lemma {:induction false} HexRoundTrip(b: bytes)
    ensures HexDecode(HexEncode(b)) == Some(b)
  {
    if b != [] {
      HexRoundTrip(b[1..]);
      assert HexEncode(b)[2..] == HexEncode(b[1..]);
      assert b == [b[0]] + b[1..];
    }
  }

  // ----- texts and numbers

  /** How many bytes the character at the front takes; 0 where the bytes are no character (section 4 of RFC 3629). */
  function Width(s: bytes): (n: nat)
    ensures n <= |s|
  {
    if s == [] then 0
    else if Between(s[0], 0x00, 0x7F) then 1
    else if Between(s[0], 0xC2, 0xDF) then (if |s| >= 2 && Between(s[1], 0x80, 0xBF) then 2 else 0)
    else if Between(s[0], 0xE0, 0xEF) then
      (if && |s| >= 3
          && Between(s[1], if s[0] as int == 0xE0 then 0xA0 else 0x80, if s[0] as int == 0xED then 0x9F else 0xBF)
          && Between(s[2], 0x80, 0xBF)
       then 3 else 0)
    else if Between(s[0], 0xF0, 0xF4) then
      (if && |s| >= 4
          && Between(s[1], if s[0] as int == 0xF0 then 0x90 else 0x80, if s[0] as int == 0xF4 then 0x8F else 0xBF)
          && Between(s[2], 0x80, 0xBF)
          && Between(s[3], 0x80, 0xBF)
       then 4 else 0)
    else 0
  }

  const REPLACEMENT: bytes := [0xEF as char, 0xBF as char, 0xBD as char]

  /** A text as json.Marshal writes it and the reader gets it back: each byte that is no character becomes U+FFFD. */
  function Repaired(s: bytes): (r: bytes)
    ensures |r| >= |s|
    decreases |s|
  {
    if s == [] then []
    else if Width(s) == 0 then REPLACEMENT + Repaired(s[1..])
    else s[..Width(s)] + Repaired(s[Width(s)..])
  }

  lemma {:induction false} ValidByWidth(s: bytes)
    ensures s != [] ==> (ValidUtf8(s) <==> Width(s) > 0 && ValidUtf8(s[Width(s)..]))
  {
  }

  /** Exactly the texts in UTF-8 are kept. */
  lemma {:induction false} RepairKeepsUtf8(s: bytes)
    ensures Repaired(s) == s <==> ValidUtf8(s)
    ensures !ValidUtf8(s) ==> |Repaired(s)| > |s|
    decreases |s|
  {
    if s != [] {
      ValidByWidth(s);
      if Width(s) > 0 {
        RepairKeepsUtf8(s[Width(s)..]);
        Split(s, Width(s));
      }
    }
  }

  lemma {:induction false} WidthOfPrefix(s: bytes, t: bytes)
    requires Width(s) == |s| > 0
    ensures Width(s + t) == |s|
  {
    assert forall i :: 0 <= i < |s| ==> (s + t)[i] == s[i];
  }

  lemma {:induction false} RepairedIsUtf8(s: bytes)
    ensures ValidUtf8(Repaired(s)) && Repaired(Repaired(s)) == Repaired(s)
    decreases |s|
  {
    if s != [] {
      var c := if Width(s) == 0 then REPLACEMENT else s[..Width(s)];
      var rest := if Width(s) == 0 then s[1..] else s[Width(s)..];
      RepairedIsUtf8(rest);
      assert Width(c) == |c|;
      WidthOfPrefix(c, Repaired(rest));
      assert (c + Repaired(rest))[|c|..] == Repaired(rest);
      ValidByWidth(c + Repaired(rest));
    }
    RepairKeepsUtf8(Repaired(s));
  }

  /** Neither infinite nor no number at all (section 3.4 of IEEE 754-2008). */
  predicate Finite(bits: uint64) { bits / 0x10_0000_0000_0000 % 0x800 != 0x7FF }

  /** The integer in the smallest type that holds it. */
  function Integer(n: int64): Value { if -0x8000_0000 <= n < 0x8000_0000 then Int32(n) else Int64(n) }

  // ----- writing

  const ID: bytes := ['_', 'i', 'd']
  const OID: bytes := ['o', 'i', 'd']
  const DATE: bytes := ['$', 'd', 'a']
  const REGEX: bytes := ['$', 'r']
  const OPTIONS: bytes := ['o']

  /** The fields in the order in which they are written: an ObjectID in "_id" comes first. */
  function IdFirst(fs: seq<Field>): seq<Field> {
    if Get(fs, ID).Some? && Get(fs, ID).value.ObjectID? then [Field(ID, Get(fs, ID).value)] + Without(fs, ID) else fs
  }

  /** MarshalHANA; below an array it becomes Marshal, which also knows dates and regular expressions. */
  function Marshal(v: Value, stored: bool, nums: Numbers): Option<Json>
    decreases v
  {
    match v
    case Null => Some(JNull)
    case Bool(b) => Some(JBool(b))
    case Int32(i) => Some(JInteger(i))
    case Int64(l) => Some(JInteger(l))
    case Double(bits) =>
      if !Finite(bits) then None
      else (match nums.whole(bits) case Some(n) => Some(JInteger(n)) case None => Some(JFloat(bits)))
    case String(s) => Some(JString(Repaired(s)))
    case ObjectID(id) => Some(JObject([JMember(OID, JString(HexEncode(id)))]))
    case DateTime(nanos) => if stored then None else Some(JObject([JMember(DATE, JInteger(nanos / 1_000_000))]))
    case Regex(p, o) =>
      if stored then None
      else Some(JObject([JMember(REGEX, JString(Repaired(p))), JMember(OPTIONS, JString(Repaired(o)))]))
    case Array(es) =>
      (match MarshalElems(es, nums) case Some(js) => Some(JArray(js)) case None => None)
    case Document(fs) =>
      (match MarshalFields(fs, stored, nums)
       case Some(ms) => Some(JObject(MoveIdFirst(fs, ms)))
       case None => None)
  }

  function MarshalElems(es: seq<Value>, nums: Numbers): Option<seq<Json>>
    decreases es
  {
    if es == [] then Some([])
    else
      match (Marshal(es[0], false, nums), MarshalElems(es[1..], nums))
      case (Some(j), Some(js)) => Some([j] + js)
      case _ => None
  }

  function MarshalFields(fs: seq<Field>, stored: bool, nums: Numbers): (r: Option<seq<JMember>>)
    ensures r.Some? ==> |r.value| == |fs| && forall i :: 0 <= i < |fs| ==> r.value[i].name == fs[i].name
    decreases fs
  {
    if fs == [] then Some([])
    else
      match (Marshal(fs[0].value, stored, nums), MarshalFields(fs[1..], stored, nums))
      case (Some(j), Some(ms)) => Some([JMember(fs[0].name, j)] + ms)
      case _ => None
  }

  /** The members ms of the fields fs, with the member of an ObjectID "_id" moved to the front. */
  function MoveIdFirst(fs: seq<Field>, ms: seq<JMember>): seq<JMember>
    requires |ms| == |fs|
  {
    if Get(fs, ID).Some? && Get(fs, ID).value.ObjectID? then
      [JMember(ID, JObject([JMember(OID, JString(HexEncode(Get(fs, ID).value.id)))]))] + Others(fs, ms)
    else ms
  }

  function Others(fs: seq<Field>, ms: seq<JMember>): seq<JMember>
    requires |ms| == |fs|
  {
    if fs == [] then []
    else (if fs[0].name == ID then [] else [ms[0]]) + Others(fs[1..], ms[1..])
  }

  // ----- reading

  function Find(ms: seq<JMember>, name: bytes): (i: Option<nat>)
    ensures i.Some? ==> i.value < |ms| && ms[i.value].name == name
    ensures i.None? ==> forall k :: 0 <= k < |ms| ==> ms[k].name != name
  {
    if ms == [] then None
    else if ms[|ms| - 1].name == name then Some(|ms| - 1)
    else Find(ms[..|ms| - 1], name)
  }

  predicate HasValue(ms: seq<JMember>, name: bytes) {
    Find(ms, name).Some? && !ms[Find(ms, name).value].value.JNull?
  }

  /** decoderNumber on an integer: the smallest of int32, int64 and float64 that holds it. */
  function Number(n: int): Option<Value> {
    if -0x8000_0000_0000_0000 <= n < 0x8000_0000_0000_0000 then Some(Integer(n))
    else None // becomes a float; the layer writes no such number
  }

  /** A strict decoder: no other members than these. */
  predicate OnlyMembers(ms: seq<JMember>, names: set<bytes>) {
    forall i :: 0 <= i < |ms| ==> ms[i].name in names
  }

  function UnmarshalObjectID(ms: seq<JMember>): Option<Value> {
    match Find(ms, OID)
    case None => None
    case Some(i) =>
      if !OnlyMembers(ms, {OID}) || !ms[i].value.JString? then None
      else
        match HexDecode(ms[i].value.s)
        case Some(b) => if |b| == 12 then Some(ObjectID(b)) else None
        case None => None
  }

  function UnmarshalDate(ms: seq<JMember>): Option<Value> {
    match Find(ms, DATE)
    case None => None
    case Some(i) =>
      if !OnlyMembers(ms, {DATE}) || !ms[i].value.JInteger? then None
      else if -0x8000_0000_0000_0000 <= ms[i].value.n < 0x8000_0000_0000_0000 then
        Some(DateTime(ms[i].value.n * 1_000_000))
      else None
  }

  function UnmarshalRegex(ms: seq<JMember>): Option<Value> {
    match Find(ms, REGEX)
    case None => None
    case Some(i) =>
      if !OnlyMembers(ms, {REGEX, OPTIONS}) || !ms[i].value.JString? then None
      else
        match Find(ms, OPTIONS)
        case None => Some(Regex(ms[i].value.s, []))
        case Some(k) =>
          if ms[k].value.JString? then Some(Regex(ms[i].value.s, ms[k].value.s))
          else if ms[k].value.JNull? then Some(Regex(ms[i].value.s, []))
          else None
  }

  function Unmarshal(j: Json, nums: Numbers): Option<Value>
    decreases j, 0
  {
    match j
    case JNull => Some(Null)
    case JBool(b) => Some(Bool(b))
    case JInteger(n) => Number(n)
    case JFloat(bits) => Some(Double(bits))
    case JString(s) => Some(String(s))
    case JArray(es) =>
      (match UnmarshalElems(es, nums) case Some(vs) => Some(Array(vs)) case None => None)
    case JObject(ms) =>
      if HasValue(ms, OID) then UnmarshalObjectID(ms)
      else if HasValue(ms, DATE) then UnmarshalDate(ms)
      else if HasValue(ms, REGEX) then UnmarshalRegex(ms)
      else
        match UnmarshalKeys(JsonKeys.Keys(MembersToTree(ms, nums)), ms, [], nums)
        case Some(fs) => Some(Document(fs))
        case None => None
  }

  function UnmarshalElems(es: seq<Json>, nums: Numbers): Option<seq<Value>>
    decreases es, 0
  {
    if es == [] then Some([])
    else
      match (Unmarshal(es[0], nums), UnmarshalElems(es[1..], nums))
      case (Some(v), Some(vs)) => Some([v] + vs)
      case _ => None
  }

  /** The loop of UnmarshalJSON over the scanned keys: each must be a member, and is Set in the new document. */
  function UnmarshalKeys(keys: seq<bytes>, ms: seq<JMember>, acc: seq<Field>, nums: Numbers): Option<seq<Field>>
    decreases ms, |keys|
  {
    if keys == [] then Some(acc)
    else
      match Find(ms, keys[0])
      case None => None
      case Some(i) =>
        match Unmarshal(ms[i].value, nums)
        case None => None
        case Some(v) =>
          match Set(acc, keys[0], v)
          case None => None
          case Some(acc') => UnmarshalKeys(keys[1..], ms, acc', nums)
  }

  // ----- the normal form

  function NormalElems(es: seq<Value>, nums: Numbers): (r: seq<Value>)
    ensures |r| == |es|
    decreases es
  {
    if es == [] then [] else [Normal(es[0], nums)] + NormalElems(es[1..], nums)
  }

  function NormalFields(fs: seq<Field>, nums: Numbers): (r: seq<Field>)
    ensures |r| == |fs| && forall i :: 0 <= i < |fs| ==> r[i].name == fs[i].name
    decreases fs
  {
    if fs == [] then [] else [Field(fs[0].name, Normal(fs[0].value, nums))] + NormalFields(fs[1..], nums)
  }

  /** An ObjectID "_id" in front, every number in the smallest type that holds its text, and every text in UTF-8. */
  function Normal(v: Value, nums: Numbers): Value
    decreases v
  {
    match v
    case Document(fs) => Document(IdFirst(NormalFields(fs, nums)))
    case Array(es) => Array(NormalElems(es, nums))
    case Int64(l) => Integer(l)
    case Double(bits) => (match nums.whole(bits) case Some(n) => Integer(n) case None => v)
    case String(s) => String(Repaired(s))
    case Regex(p, o) => Regex(Repaired(p), Repaired(o))
    case _ => v
  }

  // ----- the round trip

  predicate Reserved(name: bytes) { name == OID || name == DATE || name == REGEX }

  /** What the storage format can hold: valid documents in which the reserved names occur at most with null, and dates
      in whole milliseconds. */
  ghost predicate Storable(v: Value)
    decreases v
  {
    match v
    case Document(fs) =>
      && ValidFields(fs)
      && (forall i :: 0 <= i < |fs| ==> Storable(fs[i].value) && (Reserved(fs[i].name) ==> fs[i].value.Null?))
    case Array(es) => forall i :: 0 <= i < |es| ==> Storable(es[i])
    case DateTime(nanos) =>
      nanos % 1_000_000 == 0 && -0x8000_0000_0000_0000 <= nanos / 1_000_000 < 0x8000_0000_0000_0000
    case _ => true
  }

  /** The scanner's side condition, at every document in the text. */
  ghost predicate Readable(j: Json, nums: Numbers)
    decreases j
  {
    match j
    case JArray(es) => forall i :: 0 <= i < |es| ==> Readable(es[i], nums)
    case JObject(ms) =>
      HasValue(ms, OID) || HasValue(ms, DATE) || HasValue(ms, REGEX)
      || (&& JsonKeys.InOrder(MembersToTree(ms, nums))
          && forall i :: 0 <= i < |ms| ==> Readable(ms[i].value, nums))
    case _ => true
  }

  lemma {:induction false} MarshalFieldsAt(fs: seq<Field>, stored: bool, i: nat, nums: Numbers)
    requires MarshalFields(fs, stored, nums).Some? && i < |fs|
    ensures Marshal(fs[i].value, stored, nums) == Some(MarshalFields(fs, stored, nums).value[i].value)
  {
    if i > 0 {
      MarshalFieldsAt(fs[1..], stored, i - 1, nums);
      assert MarshalFields(fs, stored, nums).value[i] == MarshalFields(fs[1..], stored, nums).value[i - 1];
    }
  }

  lemma {:induction false} NormalFieldsAt(fs: seq<Field>, i: nat, nums: Numbers)
    requires i < |fs|
    ensures NormalFields(fs, nums)[i] == Field(fs[i].name, Normal(fs[i].value, nums))
  {
    if i > 0 {
      NormalFieldsAt(fs[1..], i - 1, nums);
    }
  }

  lemma {:induction false} FindDistinct(ms: seq<JMember>, i: nat)
    requires i < |ms| && forall j, k :: 0 <= j < k < |ms| ==> ms[j].name != ms[k].name
    ensures Find(ms, ms[i].name) == Some(i)
  {
    if i < |ms| - 1 {
      FindDistinct(ms[..|ms| - 1], i);
    }
  }

  /** Reading the keys in order rebuilds the fields, one Set after the other. */
  lemma {:induction false} KeysRebuild(ms: seq<JMember>, fs: seq<Field>, nums: Numbers, n: nat)
    requires ValidFields(fs) && |ms| == |fs| && n <= |fs|
    requires forall i :: 0 <= i < |fs| ==> ms[i].name == fs[i].name
    requires forall i :: 0 <= i < |fs| ==> Unmarshal(ms[i].value, nums) == Some(fs[i].value)
    ensures UnmarshalKeys(Names(fs)[n..], ms, fs[..n], nums) == Some(fs)
    decreases |fs| - n
  {
    if n == |fs| {
      assert fs[..n] == fs;
    } else {
      var keys := Names(fs)[n..];
      var key := fs[n].name;
      assert keys[0] == key && keys[1..] == Names(fs)[n + 1..];
      FindDistinct(ms, n);
      SetNew(fs, n);
      KeysRebuild(ms, fs, nums, n + 1);
    }
  }

  lemma SetNew(fs: seq<Field>, n: nat)
    requires ValidFields(fs) && n < |fs|
    ensures Set(fs[..n], fs[n].name, fs[n].value) == Some(fs[..n + 1])
  {
    assert forall i :: 0 <= i < n ==> fs[..n][i].name == fs[i].name;
    assert fs[..n] + [Field(fs[n].name, fs[n].value)] == fs[..n + 1];
  }

  // ----- moving "_id" to the front

  predicate HasObjectId(fs: seq<Field>) { Get(fs, ID).Some? && Get(fs, ID).value.ObjectID? }

  lemma WithoutAt(fs: seq<Field>, i: nat) returns (k: nat)
    requires i < |IdFirst(fs)|
    ensures k < |fs| && fs[k] == IdFirst(fs)[i]
  {
    if HasObjectId(fs) && i == 0 {
      k :| 0 <= k < |fs| && fs[k] == Field(ID, Get(fs, ID).value);
    } else if HasObjectId(fs) {
      assert IdFirst(fs)[i] == Without(fs, ID)[i - 1];
      assert IdFirst(fs)[i] in fs;
      k :| 0 <= k < |fs| && fs[k] == IdFirst(fs)[i];
    } else {
      k := i;
    }
  }

  lemma {:induction false} WithoutDistinct(fs: seq<Field>)
    requires ValidFields(fs)
    ensures ValidFields(Without(fs, ID))
  {
    if fs != [] {
      WithoutDistinct(fs[1..]);
      var r := Without(fs[1..], ID);
      forall i | 0 <= i < |r| ensures r[i].name != fs[0].name {
        assert r[i] in r && r[i] in fs[1..];
      }
      assert Without(fs, ID) == (if fs[0].name == ID then [] else [fs[0]]) + r;
    }
  }

  lemma IdFirstIsValid(fs: seq<Field>)
    requires ValidFields(fs)
    ensures ValidFields(IdFirst(fs))
  {
    if HasObjectId(fs) {
      WithoutDistinct(fs);
      var r := Without(fs, ID);
      assert forall i :: 0 <= i < |r| ==> r[i] in r;
      PutFirstIsValid(Field(ID, Get(fs, ID).value), r);
    }
  }

  lemma PutFirstIsValid(f: Field, fs: seq<Field>)
    requires ValidFields(fs) && f.name == ID && forall i :: 0 <= i < |fs| ==> fs[i].name != ID
    ensures ValidFields([f] + fs)
  {
    var g := [f] + fs;
    assert ValidKey(ID);
    assert forall i :: 0 < i < |g| ==> g[i] == fs[i - 1];
  }

  lemma {:induction false} OthersAreWithout(fs: seq<Field>, stored: bool, nums: Numbers)
    requires MarshalFields(fs, stored, nums).Some?
    ensures MarshalFields(Without(fs, ID), stored, nums) == Some(Others(fs, MarshalFields(fs, stored, nums).value))
  {
    hide Marshal;
    if fs != [] {
      var f, rest := fs[0], fs[1..];
      OthersAreWithout(rest, stored, nums);
      assert MarshalFields(fs, stored, nums).value[1..] == MarshalFields(rest, stored, nums).value;
      var r, others := Without(rest, ID), Others(rest, MarshalFields(rest, stored, nums).value);
      if f.name == ID {
        assert [] + r == r && [] + others == others;
      } else {
        assert ([f] + r)[1..] == r;
      }
    }
  }

  /** The members that are written are the members of the reordered document. */
  lemma {:induction false} MovedMembers(fs: seq<Field>, stored: bool, nums: Numbers)
    requires MarshalFields(fs, stored, nums).Some?
    ensures MarshalFields(IdFirst(fs), stored, nums) == Some(MoveIdFirst(fs, MarshalFields(fs, stored, nums).value))
  {
    hide MarshalFields, Without, Others;
    if HasObjectId(fs) {
      OthersAreWithout(fs, stored, nums);
      MarshalCons(Field(ID, Get(fs, ID).value), Without(fs, ID), stored, nums);
    }
  }

  lemma MarshalCons(f: Field, fs: seq<Field>, stored: bool, nums: Numbers)
    requires Marshal(f.value, stored, nums).Some? && MarshalFields(fs, stored, nums).Some?
    ensures MarshalFields([f] + fs, stored, nums)
         == Some([JMember(f.name, Marshal(f.value, stored, nums).value)] + MarshalFields(fs, stored, nums).value)
  {
    assert ([f] + fs)[1..] == fs;
  }

  lemma NormalCons(f: Field, fs: seq<Field>, nums: Numbers)
    ensures NormalFields([f] + fs, nums) == [Field(f.name, Normal(f.value, nums))] + NormalFields(fs, nums)
  {
    assert ([f] + fs)[1..] == fs;
  }

  lemma {:induction false} NormalGet(fs: seq<Field>, nums: Numbers)
    ensures HasObjectId(NormalFields(fs, nums)) == HasObjectId(fs)
    ensures HasObjectId(fs) ==> Get(NormalFields(fs, nums), ID) == Get(fs, ID)
  {
    if fs != [] {
      assert NormalFields(fs, nums)[1..] == NormalFields(fs[1..], nums);
      NormalGet(fs[1..], nums);
    }
  }

  lemma {:induction false} NormalWithout(fs: seq<Field>, nums: Numbers)
    ensures Without(NormalFields(fs, nums), ID) == NormalFields(Without(fs, ID), nums)
  {
    if fs != [] {
      assert NormalFields(fs, nums)[1..] == NormalFields(fs[1..], nums);
      NormalWithout(fs[1..], nums);
      var r := Without(fs[1..], ID);
      assert ([fs[0]] + r)[1..] == r && [] + r == r;
      assert [] + NormalFields(r, nums) == NormalFields(r, nums);
    }
  }

  lemma {:induction false} NormalOfIdFirst(fs: seq<Field>, nums: Numbers)
    ensures NormalFields(IdFirst(fs), nums) == IdFirst(NormalFields(fs, nums))
  {
    NormalGet(fs, nums);
    if HasObjectId(fs) {
      NormalOfMoved(fs, NormalFields(fs, nums), Get(fs, ID).value, nums);
    }
  }

  lemma {:induction false} NormalOfMoved(fs: seq<Field>, n: seq<Field>, id: Value, nums: Numbers)
    requires n == NormalFields(fs, nums) && Get(fs, ID) == Get(n, ID) == Some(id) && id.ObjectID?
    ensures NormalFields(IdFirst(fs), nums) == IdFirst(n)
  {
    hide NormalFields, Without, IdFirst, Get;
    var w, f := Without(fs, ID), Field(ID, id);
    assert NormalFields(w, nums) == Without(n, ID) by { NormalWithout(fs, nums); }
    assert NormalFields([f] + w, nums) == [f] + NormalFields(w, nums) by { NormalCons(f, w, nums); }
    assert IdFirst(fs) == [f] + w by { IdFirstShape(fs, id); }
    assert IdFirst(n) == [f] + Without(n, ID) by { IdFirstShape(n, id); }
  }

  lemma IdFirstShape(fs: seq<Field>, id: Value)
    requires Get(fs, ID) == Some(id) && id.ObjectID?
    ensures IdFirst(fs) == [Field(ID, id)] + Without(fs, ID)
  {
  }

  lemma {:induction false} WithoutTwice(fs: seq<Field>)
    ensures Without(Without(fs, ID), ID) == Without(fs, ID)
  {
    if fs != [] {
      WithoutTwice(fs[1..]);
      var r := Without(fs[1..], ID);
      assert ([fs[0]] + r)[1..] == r && [] + r == r;
    }
  }

  /** Moving "_id" to the front twice is moving it once. */
  lemma AlreadyFirst(fs: seq<Field>)
    ensures IdFirst(IdFirst(fs)) == IdFirst(fs)
  {
    if HasObjectId(fs) {
      var id := Field(ID, Get(fs, ID).value);
      var g := [id] + Without(fs, ID);
      assert g[1..] == Without(fs, ID);
      assert Get(g, ID) == Some(id.value);
      assert Without(g, ID) == [] + Without(Without(fs, ID), ID);
      WithoutTwice(fs);
      assert [] + Without(fs, ID) == Without(fs, ID);
    }
  }

  // ----- the theorems

  lemma ScalarRoundTrip(v: Value, stored: bool, nums: Numbers)
    requires !v.Document? && !v.Array? && Storable(v) && Marshal(v, stored, nums).Some?
    ensures Unmarshal(Marshal(v, stored, nums).value, nums) == Some(Normal(v, nums))
  {
    match v
    case ObjectID(id) => HexRoundTrip(id);
    case DateTime(nanos) => assert !HasValue([JMember(DATE, JInteger(nanos / 1_000_000))], OID);
    case Regex(p, o) => RegexRoundTrip(Repaired(p), Repaired(o), nums);
    case _ =>
  }

  lemma RegexRoundTrip(p: bytes, o: bytes, nums: Numbers)
    ensures Unmarshal(JObject([JMember(REGEX, JString(p)), JMember(OPTIONS, JString(o))]), nums) == Some(Regex(p, o))
  {
    var ms := [JMember(REGEX, JString(p)), JMember(OPTIONS, JString(o))];
    assert ms[..1] == [ms[0]] && ms[..1][..0] == [];
    assert Find(ms, OPTIONS) == Some(1) && Find(ms, REGEX) == Some(0);
    assert Find(ms, OID) == None && Find(ms, DATE) == None;
  }

  /** Reading back what was stored gives the normal form. */
  lemma {:induction false} RoundTrip(v: Value, stored: bool, nums: Numbers)
    requires Storable(v) && Marshal(v, stored, nums).Some? && Readable(Marshal(v, stored, nums).value, nums)
    ensures Unmarshal(Marshal(v, stored, nums).value, nums) == Some(Normal(v, nums))
    decreases v, 1
  {
    match v
    case Document(fs) => DocumentRoundTrip(fs, stored, nums);
    case Array(es) => ElemsRoundTrip(es, nums);
    case _ => ScalarRoundTrip(v, stored, nums);
  }

  lemma {:induction false} ElemsRoundTrip(es: seq<Value>, nums: Numbers)
    requires forall i :: 0 <= i < |es| ==> Storable(es[i])
    requires MarshalElems(es, nums).Some?
    requires forall i :: 0 <= i < |MarshalElems(es, nums).value| ==> Readable(MarshalElems(es, nums).value[i], nums)
    ensures UnmarshalElems(MarshalElems(es, nums).value, nums) == Some(NormalElems(es, nums))
    decreases es, 0
  {
    if es != [] {
      var js := MarshalElems(es, nums).value;
      assert js[1..] == MarshalElems(es[1..], nums).value;
      assert Readable(js[0], nums);
      RoundTrip(es[0], false, nums);
      ElemsRoundTrip(es[1..], nums);
    }
  }

  lemma NormalIsValid(g: seq<Field>, nums: Numbers)
    requires ValidFields(g)
    ensures ValidFields(NormalFields(g, nums))
  {
  }

  /** A stored document is not mistaken for an ObjectID, a date or a regular expression. */
  lemma NotReserved(g: seq<Field>, stored: bool, name: bytes, nums: Numbers)
    requires MarshalFields(g, stored, nums).Some? && Reserved(name)
    requires forall i :: 0 <= i < |g| ==> g[i].name == name ==> g[i].value.Null?
    ensures !HasValue(MarshalFields(g, stored, nums).value, name)
  {
    var ms := MarshalFields(g, stored, nums).value;
    if Find(ms, name).Some? {
      MarshalFieldsAt(g, stored, Find(ms, name).value, nums);
    }
  }

  lemma {:induction false} DocumentRoundTrip(fs: seq<Field>, stored: bool, nums: Numbers)
    requires Storable(Document(fs)) && Marshal(Document(fs), stored, nums).Some?
    requires Readable(Marshal(Document(fs), stored, nums).value, nums)
    ensures Unmarshal(Marshal(Document(fs), stored, nums).value, nums) == Some(Normal(Document(fs), nums))
    decreases Document(fs), 0
  {
    var g := IdFirst(fs);
    MovedMembers(fs, stored, nums);
    IdFirstIsValid(fs);
    var ms := MarshalFields(g, stored, nums).value;
    forall i | 0 <= i < |g|
      ensures Reserved(g[i].name) ==> g[i].value.Null?
      ensures Readable(ms[i].value, nums) ==> Unmarshal(ms[i].value, nums) == Some(Normal(g[i].value, nums))
    {
      var k := WithoutAt(fs, i);
      MarshalFieldsAt(g, stored, i, nums);
      if Readable(ms[i].value, nums) { RoundTrip(fs[k].value, stored, nums); }
    }
    MembersRoundTrip(g, stored, nums);
    NormalOfIdFirst(fs, nums);
  }

  lemma {:induction false} MembersRoundTrip(g: seq<Field>, stored: bool, nums: Numbers)
    requires ValidFields(g) && MarshalFields(g, stored, nums).Some?
    requires Readable(JObject(MarshalFields(g, stored, nums).value), nums)
    requires forall i :: 0 <= i < |g| ==> Reserved(g[i].name) ==> g[i].value.Null?
    requires var ms := MarshalFields(g, stored, nums).value;
             forall i :: 0 <= i < |g| ==>
               Readable(ms[i].value, nums) ==> Unmarshal(ms[i].value, nums) == Some(Normal(g[i].value, nums))
    ensures Unmarshal(JObject(MarshalFields(g, stored, nums).value), nums) == Some(Document(NormalFields(g, nums)))
  {
    var ms := MarshalFields(g, stored, nums).value;
    NotReserved(g, stored, OID, nums);
    NotReserved(g, stored, DATE, nums);
    NotReserved(g, stored, REGEX, nums);
    var n := NormalFields(g, nums);
    NormalIsValid(g, nums);
    forall i | 0 <= i < |n| ensures Unmarshal(ms[i].value, nums) == Some(n[i].value) {
      NormalFieldsAt(g, i, nums);
    }
    JsonKeys.KeysInOrderExactly(MembersToTree(ms, nums));
    assert JsonKeys.MemberNames(MembersToTree(ms, nums)) == Names(n);
    KeysRebuild(ms, n, nums, 0);
    assert Names(n)[0..] == Names(n) && n[..0] == [];
  }

  lemma {:induction false} SameMove(n: seq<Field>, fs: seq<Field>, ms: seq<JMember>, nums: Numbers)
    requires n == NormalFields(fs, nums) && |ms| == |fs|
    ensures MoveIdFirst(n, ms) == MoveIdFirst(fs, ms)
  {
    NormalGet(fs, nums);
    SameOthers(n, fs, ms);
  }

  lemma {:induction false} SameOthers(n: seq<Field>, fs: seq<Field>, ms: seq<JMember>)
    requires |n| == |fs| == |ms| && forall i :: 0 <= i < |fs| ==> n[i].name == fs[i].name
    ensures Others(n, ms) == Others(fs, ms)
  {
    if fs != [] { SameOthers(n[1..], fs[1..], ms[1..]); }
  }

  /** A document and its normal form are written alike, so a second trip changes nothing. */
  lemma {:induction false} NormalIsWrittenAlike(v: Value, stored: bool, nums: Numbers)
    requires Marshal(v, stored, nums).Some? && Storable(v)
    ensures Marshal(Normal(v, nums), stored, nums) == Marshal(v, stored, nums)
    decreases v
  {
    match v
    case Document(fs) =>
      NormalFieldsWrittenAlike(fs, stored, nums);
      NormalOfIdFirst(fs, nums);
      var n := NormalFields(fs, nums);
      var ms := MarshalFields(fs, stored, nums).value;
      MovedMembers(n, stored, nums);
      SameMove(n, fs, ms, nums);
      AlreadyFirst(n);
      MovedMembers(IdFirst(n), stored, nums);
    case Array(es) => NormalElemsWrittenAlike(es, nums);
    case String(s) => RepairedIsUtf8(s);
    case Regex(p, o) =>
      RepairedIsUtf8(p);
      RepairedIsUtf8(o);
    case _ =>
  }

  lemma {:induction false} NormalFieldsWrittenAlike(fs: seq<Field>, stored: bool, nums: Numbers)
    requires MarshalFields(fs, stored, nums).Some? && forall i :: 0 <= i < |fs| ==> Storable(fs[i].value)
    ensures MarshalFields(NormalFields(fs, nums), stored, nums) == MarshalFields(fs, stored, nums)
    decreases fs
  {
    if fs != [] {
      NormalIsWrittenAlike(fs[0].value, stored, nums);
      NormalFieldsWrittenAlike(fs[1..], stored, nums);
      assert NormalFields(fs, nums)[1..] == NormalFields(fs[1..], nums);
    }
  }

  lemma {:induction false} NormalElemsWrittenAlike(es: seq<Value>, nums: Numbers)
    requires MarshalElems(es, nums).Some? && forall i :: 0 <= i < |es| ==> Storable(es[i])
    ensures MarshalElems(NormalElems(es, nums), nums) == MarshalElems(es, nums)
    decreases es
  {
    if es != [] {
      NormalIsWrittenAlike(es[0], false, nums);
      NormalElemsWrittenAlike(es[1..], nums);
      assert NormalElems(es, nums)[1..] == NormalElems(es[1..], nums);
    }
  }

  lemma {:induction false} SecondTripChangesNothing(v: Value, stored: bool, nums: Numbers)
    requires Storable(v) && Marshal(v, stored, nums).Some? && Readable(Marshal(v, stored, nums).value, nums)
    ensures Marshal(Normal(v, nums), stored, nums).Some?
    ensures Unmarshal(Marshal(Normal(v, nums), stored, nums).value, nums) == Some(Normal(v, nums))
  {
    NormalIsWrittenAlike(v, stored, nums);
    RoundTrip(v, stored, nums);
  }

  // ----- the loops

  /** The member list of what Marshal writes for a document. */
  ghost function Written(fs: seq<Field>, stored: bool, nums: Numbers): Option<seq<JMember>> {
    match Marshal(Document(fs), stored, nums)
    case Some(j) => Some(j.members)
    case None => None
  }

  /** The members that the loop adds, when it skips "_id" or not. */
  ghost function Remaining(fs: seq<Field>, stored: bool, idInserted: bool, nums: Numbers): Option<seq<JMember>> {
    match MarshalFields(fs, stored, nums)
    case Some(ms) => Some(if idInserted then Others(fs, ms) else ms)
    case None => None
  }

  ghost function After(buf: seq<JMember>, rest: Option<seq<JMember>>): Option<seq<JMember>> {
    if rest.Some? then Some(buf + rest.value) else None
  }

  lemma RemainingStep(fs: seq<Field>, stored: bool, idInserted: bool, buf: seq<JMember>, nums: Numbers)
    requires fs != []
    ensures Marshal(fs[0].value, stored, nums).None? ==> Remaining(fs, stored, idInserted, nums).None?
    ensures Marshal(fs[0].value, stored, nums).Some? ==>
              var m := JMember(fs[0].name, Marshal(fs[0].value, stored, nums).value);
              After(buf, Remaining(fs, stored, idInserted, nums))
              == After(if fs[0].name == ID && idInserted then buf else buf + [m],
                       Remaining(fs[1..], stored, idInserted, nums))
  {
    if MarshalFields(fs, stored, nums).Some? {
      var ms := MarshalFields(fs, stored, nums).value;
      assert ms[1..] == MarshalFields(fs[1..], stored, nums).value;
      HeadTail(ms);
      RemainingMembers(fs, ms, idInserted, buf);
    }
  }

  lemma {:induction false} RemainingMembers(fs: seq<Field>, ms: seq<JMember>, idInserted: bool, buf: seq<JMember>)
    requires fs != [] && |ms| == |fs|
    ensures idInserted ==>
              buf + Others(fs, ms) == (if fs[0].name == ID then buf else buf + [ms[0]]) + Others(fs[1..], ms[1..])
    ensures buf + ms == buf + [ms[0]] + ms[1..]
  {
    HeadTail(ms);
    Assoc(buf, [ms[0]], ms[1..]);
    var rest := Others(fs[1..], ms[1..]);
    Assoc(buf, [ms[0]], rest);
    assert [] + rest == rest;
  }

  lemma IdIsWritten(fs: seq<Field>, i: nat, stored: bool, nums: Numbers)
    requires ValidFields(fs) && i < |fs| && fs[i].name == ID
    requires Get(fs, ID).Some? && Get(fs, ID).value.ObjectID?
    ensures Marshal(fs[i].value, stored, nums).Some?
  {
    var k :| 0 <= k < |fs| && fs[k] == Field(ID, Get(fs, ID).value);
    assert k == i;
  }

  /** Document.MarshalJSON and MarshalJSONHANA. */
  method MarshalDocument(fs: seq<Field>, stored: bool, nums: Numbers) returns (r: Option<seq<JMember>>)
    requires ValidFields(fs)
    ensures r == Written(fs, stored, nums)
  {
    hide Marshal, Written, ValidFields;
    var buf: seq<JMember> := [];
    var idInserted := false;
    var objectId := Get(fs, ID);
    if objectId.Some? && objectId.value.ObjectID? {
      buf := [JMember(ID, JObject([JMember(OID, JString(HexEncode(objectId.value.id)))]))];
      idInserted := true;
    }
    StartWriting(fs, stored, buf, idInserted, nums);
    for i := 0 to |fs|
      invariant Written(fs, stored, nums) == After(buf, Remaining(fs[i..], stored, idInserted, nums))
    {
      ghost var tail := fs[i..];
      assert tail[1..] == fs[i + 1..];
      RemainingStep(tail, stored, idInserted, buf, nums);
      if fs[i].name == ID && idInserted {
        IdIsWritten(fs, i, stored, nums);
        continue;
      }
      var b := Marshal(fs[i].value, stored, nums);
      if b.None? { return None; }
      buf := buf + [JMember(fs[i].name, b.value)];
    }
    assert buf + [] == buf;
    r := Some(buf);
  }

  lemma StartWriting(fs: seq<Field>, stored: bool, buf: seq<JMember>, idInserted: bool, nums: Numbers)
    requires idInserted == HasObjectId(fs)
    requires buf == if !idInserted then []
                    else [JMember(ID, JObject([JMember(OID, JString(HexEncode(Get(fs, ID).value.id)))]))]
    ensures Written(fs, stored, nums) == After(buf, Remaining(fs, stored, idInserted, nums))
  {
    if MarshalFields(fs, stored, nums).Some? {
      var ms := MarshalFields(fs, stored, nums).value;
      assert [] + ms == ms;
    }
  }

  /** Document.UnmarshalJSON: recover the keys, then set one field after the other. */
  method UnmarshalDocument(ms: seq<JMember>, nums: Numbers) returns (r: Option<seq<Field>>)
    ensures r == UnmarshalKeys(JsonKeys.Keys(MembersToTree(ms, nums)), ms, [], nums)
  {
    var jsonKeys := JsonKeys.GetJSONKeys(JsonKeys.Tokens(JsonKeys.Obj(MembersToTree(ms, nums))));
    var td: seq<Field> := [];
    for i := 0 to |jsonKeys|
      invariant UnmarshalKeys(jsonKeys, ms, [], nums) == UnmarshalKeys(jsonKeys[i..], ms, td, nums)
    {
      ghost var tail := jsonKeys[i..];
      assert tail[1..] == jsonKeys[i + 1..];
      var k := Find(ms, jsonKeys[i]);
      if k.None? { return None; }
      var value := Unmarshal(ms[k.value].value, nums);
      if value.None? { return None; }
      var next := Set(td, jsonKeys[i], value.value);
      if next.None? { return None; }
      td := next.value;
    }
    r := Some(td);
  }
}
