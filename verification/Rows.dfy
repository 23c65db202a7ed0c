/** Paths on real documents: SQL paths with positions from 1, filter keys with positions from 0, and the filter
    theorem for documents rather than for abstract lookups. */
module Rows {
  import opened Types
  import opened Numerals
  import opened Sql
  import opened Where
  import opened Filter
  import opened FilterMeaning
  import Like

  function SlotOf(v: Option<Value>): Slot {
    match v
    case None => Unset
    case Some(x) => if x.Null? then Slot.Null else Val(x)
  }

  /** What a SQL path finds below a value. */
  function SqlWalk(v: Value, path: Path): Option<Value>
    decreases |path|
  {
    if path == [] then Some(v)
    else
      match (path[0], v)
      case (Name(n), Document(fs)) =>
        (match Get(fs, n) case Some(w) => SqlWalk(w, path[1..]) case None => None)
      case (Index(p), Array(es)) => if 1 <= p <= |es| then SqlWalk(es[p - 1], path[1..]) else None
      case _ => None
  }

  /** What a dotted key finds: a part names a field of a document, or a position in an array. */
  function KeyWalk(v: Value, parts: seq<bytes>): Option<Value>
    decreases |parts|
  {
    if parts == [] then Some(v)
    else
      match v
      case Document(fs) =>
        (match Get(fs, parts[0]) case Some(w) => KeyWalk(w, parts[1..]) case None => None)
      case Array(es) =>
        (match Atoi(parts[0])
         case Some(n) => if 0 <= n < |es| then KeyWalk(es[n], parts[1..]) else None
         case None => None)
      case _ => None
  }

  function Parts(key: bytes): seq<bytes> { if '.' in key then SplitDots(key) else [key] }

  /** A numeric part of a dotted key meets a document, where it would be a field name. */
  predicate NumberMeetsDocument(v: Value, parts: seq<bytes>)
    decreases |parts|
  {
    parts != []
    && match v
       case Document(fs) =>
         Atoi(parts[0]).Some?
         || (match Get(fs, parts[0]) case Some(w) => NumberMeetsDocument(w, parts[1..]) case None => false)
       case Array(es) =>
         (match Atoi(parts[0])
          case Some(n) => 0 <= n < |es| && NumberMeetsDocument(es[n], parts[1..])
          case None => false)
       case _ => false
  }

  lemma {:induction false} StepsWalkLikeParts(v: Value, parts: seq<bytes>, afterIndex: bool)
    requires PathSteps(parts, afterIndex).Ok?
    ensures SqlWalk(v, PathSteps(parts, afterIndex).value)
         == if NumberMeetsDocument(v, parts) then None else KeyWalk(v, parts)
    decreases |parts|
  {
    if parts != [] {
      var path := PathSteps(parts, afterIndex).value;
      assert path[1..] == PathSteps(parts[1..], Atoi(parts[0]).Some?).value;
      match v
      case Document(fs) =>
        if Get(fs, parts[0]).Some? && Atoi(parts[0]).None? {
          StepsWalkLikeParts(Get(fs, parts[0]).value, parts[1..], false);
        }
      case Array(es) =>
        if Atoi(parts[0]).Some? && 0 <= Atoi(parts[0]).value < |es| {
          StepsWalkLikeParts(es[Atoi(parts[0]).value], parts[1..], true);
        }
      case _ =>
    }
  }

  /** The index shift is right: path and key find the same, unless a numeric part would name a field of a document
      and the key does find something there. */
  lemma PathFindsWhatKeyFinds(row: Fields, key: bytes)
    requires WhereKey(key).Ok?
    ensures (SqlWalk(Document(row), WhereKey(key).value) == KeyWalk(Document(row), Parts(key)))
            <==> !('.' in key && NumberMeetsDocument(Document(row), Parts(key)))
                 || KeyWalk(Document(row), Parts(key)).None?
  {
    if '.' in key {
      StepsWalkLikeParts(Document(row), SplitDots(key), false);
    } else {
      assert [key][1..] == [] && [Name(key)][1..] == [];
    }
  }

  function ValueEnv(v: Value, compare: (Value, Value) -> Order): Env {
    Env(path => SlotOf(SqlWalk(v, path)), compare)
  }

  function RowEnv(row: Fields, compare: (Value, Value) -> Order): Env { ValueEnv(Document(row), compare) }

  function RowView(row: Fields, compare: (Value, Value) -> Order): View {
    View(key => SlotOf(KeyWalk(Document(row), Parts(key))), compare)
  }

  /** A mentioned field of a document is ordinary: no numeric part meets a document, and what is found is neither
      null nor an array nor a text of several lines. */
  ghost predicate OrdinaryField(key: bytes, row: Fields) {
    var found := KeyWalk(Document(row), Parts(key));
    && ('.' in key ==> !NumberMeetsDocument(Document(row), Parts(key)))
    && (found.Some? ==> !found.value.Null? && !found.value.Array?
                        && (found.value.String? ==> Like.OneLine(found.value.s)))
  }

  ghost predicate OrdinaryFields(fs: Fields, row: Fields)
    decreases fs, 1
  {
    forall i :: 0 <= i < |fs| ==>
      if IsOperator(fs[i].name) then
        fs[i].value.Array? ==> OrdinaryMembersOf(fs[i].value.elems, row)
      else OrdinaryField(fs[i].name, row)
  }

  ghost predicate OrdinaryMembersOf(es: seq<Value>, row: Fields)
    decreases es, 0
  {
    forall i :: 0 <= i < |es| ==> es[i].Document? ==> OrdinaryFields(es[i].fields, row)
  }

  lemma {:induction false} FieldsAreOrdinary(fs: Fields, row: Fields, compare: (Value, Value) -> Order, nor: bool)
    requires SupportedPairs(fs, nor) && OrdinaryFields(fs, row)
    ensures OrdinaryPairs(fs, RowEnv(row, compare), RowView(row, compare))
    decreases fs, 1
  {
    if fs != [] {
      var Field(k, v) := fs[0];
      if IsOperator(k) {
        MembersAreOrdinary(v.elems, row, compare, nor || LogicOpOf(k).value.LogicNor?);
      } else {
        PathFindsWhatKeyFinds(row, k);
      }
      assert forall i :: 0 <= i < |fs[1..]| ==> fs[1..][i] == fs[i + 1];
      FieldsAreOrdinary(fs[1..], row, compare, nor);
    }
  }

  lemma {:induction false} MembersAreOrdinary(es: seq<Value>, row: Fields, compare: (Value, Value) -> Order, nor: bool)
    requires SupportedMembers(es, nor) && OrdinaryMembersOf(es, row)
    ensures OrdinaryMembers(es, RowEnv(row, compare), RowView(row, compare))
    decreases es, 0
  {
    if es != [] {
      FieldsAreOrdinary(es[0].fields, row, compare, nor);
      assert forall i :: 0 <= i < |es[1..]| ==> es[1..][i] == es[i + 1];
      MembersAreOrdinary(es[1..], row, compare, nor);
    }
  }

  /** The documents that a query returns are the documents that its filter matches. */
  lemma {:induction false} QueryReturnsMatches(filter: Fields, row: Fields, compare: (Value, Value) -> Order)
    requires SupportedPairs(filter, false) && OrdinaryFields(filter, row)
    ensures WhereClause(filter, false).Ok?
    ensures ParseWhere(WhereClause(filter, false).value).Some?
    ensures Selects(ParseWhere(WhereClause(filter, false).value).value, RowEnv(row, compare))
            <==> MatchesPairs(filter, RowView(row, compare))
  {
    FieldsAreOrdinary(filter, row, compare, false);
    ClauseMeansFilter(filter, RowEnv(row, compare), RowView(row, compare));
  }
}
