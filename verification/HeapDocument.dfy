/** Documents as they lie in memory (package types). A document is a small record that is copied freely; its copies
    share one map and one store of keys, in which Remove shifts the later keys in place. Arrays are shared by
    reference. */
module HeapDocument {
  import opened Types

  class MapCell {
    var m: map<bytes, HVal>

    constructor (m: map<bytes, HVal>)
      ensures this.m == m
    {
      this.m := m;
    }
  }

  /** An array: the first len elements of a store. */
  class ArrayCell {
    var s: array<HVal>
    var len: nat

    ghost predicate Valid()
      reads this
    {
      len <= s.Length
    }

    function Elems(): seq<HVal>
      reads this, s
    {
      if len <= s.Length then s[..len] else []
    }

    constructor (s: array<HVal>)
      ensures Valid() && this.s == s && Elems() == s[..]
    {
      this.s, len := s, s.Length;
    }

    /** Array.Set. */
    method Set(index: int, v: HVal) returns (ok: bool)
      requires Valid()
      modifies s
      ensures ok == (0 <= index < len)
      ensures Elems() == if ok then old(Elems())[index := v] else old(Elems())
    {
      ok := 0 <= index < len;
      if ok { s[index] := v; }
    }

    /** Array.Delete: the later elements move down in the store; a negative index would panic. */
    method Delete(index: nat) returns (ok: bool)
      requires Valid()
      modifies this`len, s
      ensures Valid() && ok == (index < old(len))
      ensures Elems() == if ok then RemoveAt(old(Elems()), index) else old(Elems())
    {
      ok := index < len;
      if ok {
        CloseGap(s, index, len);
        len := len - 1;
      }
    }
  }

  /** A document: its map, and the first len entries of a store of keys. */
  datatype Handle = Handle(cell: MapCell, keys: array<bytes>, len: nat)

  datatype HVal = HDoc(h: Handle) | HArr(a: ArrayCell) | HScalar(v: Value)

  // ----- one document

  function KeysOf(h: Handle): seq<bytes>
    reads h.keys
  {
    if h.len <= h.keys.Length then h.keys[..h.len] else []
  }

  /** Map and keys agree: the keys are valid, occur once, and are exactly the keys of the map. */
  ghost predicate Agree(h: Handle)
    reads h.cell, h.keys
  {
    && h.len <= h.keys.Length
    && NoDup(KeysOf(h))
    && (forall k :: k in KeysOf(h) ==> ValidKey(k))
    && (forall k :: k in KeysOf(h) <==> k in h.cell.m)
  }

  /** The document holds these keys, in this order, with these values. */
  ghost predicate Contents(h: Handle, names: seq<bytes>, refs: seq<HVal>)
    reads h.cell, h.keys
  {
    && Agree(h) && KeysOf(h) == names && |refs| == |names|
    && forall i :: 0 <= i < |names| ==> names[i] in h.cell.m && h.cell.m[names[i]] == refs[i]
  }

  function RemoveAt<T>(s: seq<T>, i: nat): seq<T>
    requires i < |s|
  {
    s[..i] + s[i + 1..]
  }

  /** The keys without one of them, in order. */
  function RemoveKey(keys: seq<bytes>, key: bytes): (r: seq<bytes>)
    ensures key !in keys ==> r == keys
  {
    if keys == [] then []
    else if keys[0] == key then keys[1..]
    else [keys[0]] + RemoveKey(keys[1..], key)
  }

  lemma {:induction false} RemoveKeyAt(keys: seq<bytes>, i: nat)
    requires NoDup(keys) && i < |keys|
    ensures RemoveKey(keys, keys[i]) == keys[..i] + keys[i + 1..]
  {
    if i > 0 {
      RemoveKeyAt(keys[1..], i - 1);
      assert keys[..i] == [keys[0]] + keys[1..][..i - 1];
      assert keys[1..][i..] == keys[i + 1..];
    } else {
      assert keys[..0] + keys[1..] == keys[1..];
    }
  }

  lemma {:induction false} RemovedKeys(keys: seq<bytes>, i: nat)
    requires NoDup(keys) && i < |keys|
    ensures NoDup(keys[..i] + keys[i + 1..])
    ensures forall k :: k in keys[..i] + keys[i + 1..] <==> k in keys && k != keys[i]
  {
    var r := keys[..i] + keys[i + 1..];
    assert forall j :: 0 <= j < |r| ==> r[j] == keys[if j < i then j else j + 1];
    forall k | k in keys && k != keys[i] ensures k in r {
      var j :| 0 <= j < |keys| && keys[j] == k;
      assert r[if j < i then j else j - 1] == k;
    }
  }

  /** Document.Remove: deletes the map entry and closes the gap in the shared store of keys. The end of the loop, where
      the source panics, is not reached. */
  method Remove(h: Handle, key: bytes) returns (h': Handle)
    requires Agree(h)
    modifies h.cell, h.keys
    ensures h'.cell == h.cell && h'.keys == h.keys && Agree(h')
    ensures KeysOf(h') == RemoveKey(old(KeysOf(h)), key)
    ensures h.cell.m == old(h.cell.m) - {key}
    ensures key !in old(h.cell.m) ==> h' == h && h.cell.m == old(h.cell.m)
  {
    ghost var keys, m := KeysOf(h), h.cell.m;
    if key !in h.cell.m {
      assert h.cell.m - {key} == h.cell.m && key !in keys;
      return h;
    }
    assert key in keys;
    h.cell.m := h.cell.m - {key};
    for i := 0 to h.len
      invariant h.cell.m == m - {key} && KeysOf(h) == keys && h.keys[..] == old(h.keys[..])
      invariant forall j :: 0 <= j < i ==> keys[j] != key
    {
      if h.keys[i] == key {
        CloseGap(h.keys, i, h.len);
        h' := Handle(h.cell, h.keys, h.len - 1);
        KeysAfterGap(h', keys, m, i);
        return;
      }
    }
    assert false;
  }

  lemma {:induction false} KeysAfterGap(h: Handle, keys: seq<bytes>, m: map<bytes, HVal>, i: nat)
    requires i < |keys| && NoDup(keys) && h.len == |keys| - 1 <= h.keys.Length
    requires (forall k :: k in keys ==> ValidKey(k)) && (forall k :: k in keys <==> k in m)
    requires h.keys[..h.len] == keys[..i] + keys[i + 1..] && h.cell.m == m - {keys[i]}
    ensures Agree(h) && KeysOf(h) == RemoveKey(keys, keys[i])
  {
    RemoveKeyAt(keys, i);
    RemovedKeysAgree(keys, i, KeysOf(h));
  }

  lemma {:induction false} RemovedKeysAgree(keys: seq<bytes>, i: nat, r: seq<bytes>)
    requires NoDup(keys) && i < |keys| && r == keys[..i] + keys[i + 1..]
    requires forall k :: k in keys ==> ValidKey(k)
    ensures NoDup(r) && forall k :: k in r <==> k in keys && k != keys[i]
    ensures forall k :: k in r ==> ValidKey(k)
  {
    RemovedKeys(keys, i);
  }

  /** append(a[:i], a[i+1:]...): the later elements move down by one, in place. */
  method CloseGap<T>(a: array<T>, i: nat, len: nat)
    requires i < len <= a.Length
    modifies a
    ensures a[..len - 1] == old(a[..i]) + old(a[i + 1..len])
  {
    for j := i to len - 1
      invariant forall k :: 0 <= k < i ==> a[k] == old(a[k])
      invariant forall k :: i <= k < j ==> a[k] == old(a[k + 1])
      invariant forall k :: j <= k < a.Length ==> a[k] == old(a[k])
    {
      a[j] := a[j + 1];
    }
  }

  /** append(keys, key): into the store when it has room, else into a larger copy. */
  method AppendKey(keys: array<bytes>, len: nat, key: bytes) returns (keys': array<bytes>)
    requires len <= keys.Length
    modifies keys
    ensures keys' == keys || fresh(keys')
    ensures len < keys'.Length && keys'[..len + 1] == old(keys[..len]) + [key]
  {
    if len < keys.Length {
      keys' := keys;
    } else {
      keys' := new bytes[2 * len + 1](
        i requires 0 <= i < 2 * len + 1 reads keys => if i < keys.Length then keys[i] else []);
    }
    keys'[len] := key;
  }

  /** Document.Set: an invalid key is refused, an existing key keeps its position, a new one goes to the end. */
  method Set(h: Handle, key: bytes, v: HVal) returns (r: Option<Handle>)
    requires Agree(h)
    modifies h.cell, h.keys
    ensures r.Some? <==> ValidKey(key)
    ensures r.None? ==> Agree(h) && KeysOf(h) == old(KeysOf(h)) && h.cell.m == old(h.cell.m)
    ensures r.Some? ==>
              && r.value.cell == h.cell && (r.value.keys == h.keys || fresh(r.value.keys)) && Agree(r.value)
              && h.cell.m == old(h.cell.m)[key := v]
              && KeysOf(r.value) == old(KeysOf(h)) + if key in old(h.cell.m) then [] else [key]
    ensures key in old(h.cell.m) ==> r == Some(h) && h.keys[..] == old(h.keys[..])
  {
    ghost var before := KeysOf(h);
    if !ValidKey(key) { return None; }
    var h' := h;
    if key !in h.cell.m {
      var keys := AppendKey(h.keys, h.len, key);
      h' := Handle(h.cell, keys, h.len + 1);
      assert KeysOf(h') == before + [key];
    }
    h.cell.m := h.cell.m[key := v];
    assert key in before ==> before + [] == before;
    r := Some(h');
  }

  /** Document.add: like Set, but an existing key is refused. */
  method Add(h: Handle, key: bytes, v: HVal) returns (r: Option<Handle>)
    requires Agree(h)
    modifies h.cell, h.keys
    ensures r.Some? <==> ValidKey(key) && key !in old(h.cell.m)
    ensures r.None? ==> Agree(h) && KeysOf(h) == old(KeysOf(h)) && h.cell.m == old(h.cell.m)
    ensures r.Some? ==>
              && r.value.cell == h.cell && (r.value.keys == h.keys || fresh(r.value.keys)) && Agree(r.value)
              && h.cell.m == old(h.cell.m)[key := v] && KeysOf(r.value) == old(KeysOf(h)) + [key]
  {
    if key in h.cell.m { return None; }
    r := Set(h, key, v);
  }

  // ----- any sequence of operations

  datatype Operation = DoAdd(key: bytes, v: HVal) | DoSet(key: bytes, v: HVal) | DoRemove(key: bytes)

  /** The keys after one operation: refused keys change nothing, new keys go to the end, removal keeps the order. */
  function KeysAfterOne(keys: seq<bytes>, op: Operation): seq<bytes> {
    match op
    case DoRemove(key) => RemoveKey(keys, key)
    case _ => if ValidKey(op.key) && op.key !in keys then keys + [op.key] else keys
  }

  function KeysAfter(keys: seq<bytes>, ops: seq<Operation>): seq<bytes>
    decreases |ops|
  {
    if ops == [] then keys else KeysAfter(KeysAfterOne(keys, ops[0]), ops[1..])
  }

  /** One operation on a handle; a refused one leaves the handle as it is. */
  method Perform(h: Handle, op: Operation) returns (h': Handle)
    requires Agree(h)
    modifies h.cell, h.keys
    ensures h'.cell == h.cell && (h'.keys == h.keys || fresh(h'.keys))
    ensures Agree(h') && KeysOf(h') == KeysAfterOne(old(KeysOf(h)), op)
  {
    match op {
      case DoAdd(key, v) =>
        var r := Add(h, key, v);
        h' := if r.Some? then r.value else h;
      case DoSet(key, v) =>
        var r := Set(h, key, v);
        h' := if r.Some? then r.value else h;
        assert forall keys: seq<bytes> :: keys + [] == keys;
      case DoRemove(key) => h' := Remove(h, key);
    }
  }

  /** After any sequence of operations on one handle, map and keys agree, and the keys are where they belong. */
  method PerformAll(h: Handle, ops: seq<Operation>) returns (h': Handle)
    requires Agree(h)
    modifies h.cell, h.keys
    ensures h'.cell == h.cell && Agree(h') && KeysOf(h') == KeysAfter(old(KeysOf(h)), ops)
  {
    h' := h;
    for i := 0 to |ops|
      invariant h'.cell == h.cell && (h'.keys == h.keys || fresh(h'.keys)) && Agree(h')
      invariant KeysAfter(old(KeysOf(h)), ops) == KeysAfter(KeysOf(h'), ops[i..])
    {
      ghost var tail := ops[i..];
      assert tail[1..] == ops[i + 1..];
      h' := Perform(h', ops[i]);
    }
  }

  // ----- keys and values together

  lemma {:induction false} ContentsAgree(h: Handle, names: seq<bytes>, refs: seq<HVal>)
    requires Contents(h, names, refs)
    ensures Agree(h) && KeysOf(h) == names && |names| == |refs| == h.len && NoDup(names)
    ensures forall i :: 0 <= i < |names| ==> names[i] in h.cell.m && h.cell.m[names[i]] == refs[i]
  {
  }

  lemma {:induction false} ContentsRemoved(h: Handle, m: map<bytes, HVal>, names: seq<bytes>, refs: seq<HVal>, k: nat)
    requires NoDup(names) && |names| == |refs| && k < |names|
    requires forall i :: 0 <= i < |names| ==> names[i] in m && m[names[i]] == refs[i]
    requires Agree(h) && KeysOf(h) == RemoveKey(names, names[k]) && h.cell.m == m - {names[k]}
    ensures Contents(h, RemoveAt(names, k), RemoveAt(refs, k))
  {
    hide Agree, KeysOf, RemoveKey;
    RemoveKeyAt(names, k);
    var names', refs' := RemoveAt(names, k), RemoveAt(refs, k);
    forall j | 0 <= j < |names'| ensures names'[j] in h.cell.m && h.cell.m[names'[j]] == refs'[j] {
      var i := if j < k then j else j + 1;
      assert names'[j] == names[i] && refs'[j] == refs[i];
    }
  }

  lemma {:induction false} ContentsUpdated(h: Handle, m: map<bytes, HVal>, names: seq<bytes>, refs: seq<HVal>,
                                           k: nat, v: HVal)
    requires NoDup(names) && |names| == |refs| && k < |names|
    requires forall i :: 0 <= i < |names| ==> names[i] in m && m[names[i]] == refs[i]
    requires Agree(h) && KeysOf(h) == names && h.cell.m == m[names[k] := v]
    ensures Contents(h, names, refs[k := v])
  {
  }
}
