/** binary.LittleEndian and two's complement: the one codec behind every fixed-width integer of the wire format. */
module LittleEndian {
  import opened Types

  function Pow256(k: nat): (p: nat)
    ensures p > 0
  {
    if k == 0 then 1 else 256 * Pow256(k - 1)
  }

  /** The k low-order bytes of n, least significant first. */
  function Put(n: nat, k: nat): (b: bytes)
    ensures |b| == k
    decreases k, n
  {
    if k == 0 then [] else [(n % 256) as char] + Put(n / 256, k - 1)
  }

  function Value(b: bytes): (n: nat) {
    if b == [] then 0 else b[0] as int + 256 * Value(b[1..])
  }

  lemma {:induction false} ValueOfPut(n: nat, k: nat)
    requires n < Pow256(k)
    ensures Value(Put(n, k)) == n
    decreases k
  {
    if k > 0 {
      assert n / 256 < Pow256(k - 1);
      ValueOfPut(n / 256, k - 1);
      assert Put(n, k)[1..] == Put(n / 256, k - 1);
    }
  }

  lemma {:induction false} PutOfValue(b: bytes)
    ensures Put(Value(b), |b|) == b
    ensures Value(b) < Pow256(|b|)
  {
    if b != [] {
      PutOfValue(b[1..]);
      assert Value(b) % 256 == b[0] as int && Value(b) / 256 == Value(b[1..]);
    }
  }

  lemma Widths()
    ensures Pow256(4) == 0x1_0000_0000 && Pow256(8) == 0x1_0000_0000_0000_0000
  {
    assert Pow256(2) == 0x1_0000;
    assert Pow256(4) == 256 * (256 * Pow256(2));
    assert Pow256(6) == 256 * (256 * Pow256(4));
    assert Pow256(8) == 256 * (256 * Pow256(6));
  }

  /** The bit pattern of a signed number, and the signed reading of a bit pattern, at a width of 256^k. */
  function Unsigned(n: int, k: nat): (u: nat)
    ensures u < Pow256(k)
  {
    n % Pow256(k)
  }

  function Signed(u: nat, k: nat): (n: int)
  {
    if 2 * u < Pow256(k) then u else u - Pow256(k)
  }

  function PutInt32(n: int): (b: bytes)
    ensures |b| == 4
  {
    Put(Unsigned(n, 4), 4)
  }

  function GetInt32(b: bytes): (n: int32)
    requires |b| == 4
  {
    PutOfValue(b);
    Widths();
    Signed(Value(b), 4)
  }

  function PutInt64(n: int): (b: bytes)
    ensures |b| == 8
  {
    Put(Unsigned(n, 8), 8)
  }

  function GetInt64(b: bytes): (n: int64)
    requires |b| == 8
  {
    PutOfValue(b);
    Widths();
    Signed(Value(b), 8)
  }

  lemma Int32RoundTrip(n: int32)
    ensures GetInt32(PutInt32(n)) == n
  {
    Widths();
    ValueOfPut(Unsigned(n, 4), 4);
  }

  lemma Int32Canonical(b: bytes)
    requires |b| == 4
    ensures PutInt32(GetInt32(b)) == b
  {
    Widths();
    PutOfValue(b);
    assert Unsigned(GetInt32(b), 4) == Value(b);
  }

  lemma Int64RoundTrip(n: int64)
    ensures GetInt64(PutInt64(n)) == n
  {
    Widths();
    ValueOfPut(Unsigned(n, 8), 8);
  }

  lemma {:induction false} Int64Canonical(b: bytes)
    requires |b| == 8
    ensures PutInt64(GetInt64(b)) == b
  {
    Widths();
    PutOfValue(b);
    assert Unsigned(GetInt64(b), 8) == Value(b);
  }
}
