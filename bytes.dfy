/** Byte-level vocabulary shared by every field codec: bytes, the fixed
    machine widths the C side uses, the two byte orders in play, and the
    "write these bytes into the record at this offset" primitive that every
    setter reduces to. */
module Bytes {

  type byte = b: int | 0 <= b < 256
  type uint16 = x: int | 0 <= x < 0x1_0000
  type uint32 = x: int | 0 <= x < 0x1_0000_0000
  type uint64 = x: int | 0 <= x < 0x1_0000_0000_0000_0000

  const UINT32_MOD: nat := 0x1_0000_0000
  const UINT64_MOD: nat := 0x1_0000_0000_0000_0000

  /** 256^w: the number of values a w-byte slot can hold. */
  function Pow256(w: nat): (r: nat)
    ensures r >= 1
  {
    if w == 0 then 1 else 256 * Pow256(w - 1)
  }

  function Pow2(k: nat): (r: nat)
    ensures r >= 1
  {
    if k == 0 then 1 else 2 * Pow2(k - 1)
  }

  function Pow10(k: nat): (r: nat)
    ensures r >= 1
  {
    if k == 0 then 1 else 10 * Pow10(k - 1)
  }

  lemma Pow256Widths()
    ensures Pow256(1) == 0x100 && Pow256(2) == 0x1_0000
    ensures Pow256(4) == UINT32_MOD && Pow256(8) == UINT64_MOD
  {
    assert Pow256(3) == 0x100_0000;
    assert Pow256(6) == 0x1_0000_0000_0000;
  }

  /** Eight doublings make one byte: 2^(8w) == 256^w. */
  lemma {:induction false} Pow2Bytes(w: nat)
    ensures Pow2(8 * w) == Pow256(w)
  {
    if w > 0 {
      Pow2Bytes(w - 1);
      var k := 8 * (w - 1);
      assert Pow2(k + 8) == 2 * Pow2(k + 7) == 4 * Pow2(k + 6) == 8 * Pow2(k + 5) == 16 * Pow2(k + 4);
      assert Pow2(k + 4) == 2 * Pow2(k + 3) == 4 * Pow2(k + 2) == 8 * Pow2(k + 1) == 16 * Pow2(k);
    }
  }

  /** All-zero bytes, as `bzero`/`memset(…, 0, …)` leave them. */
  function Zeros(n: nat): (r: seq<byte>)
    ensures |r| == n && forall i :: 0 <= i < n ==> r[i] == 0
  {
    seq(n, _ => 0)
  }

  /** All-0xFF bytes, as `memset(…, 0xFF, …)` leaves them. */
  function Ones(n: nat): (r: seq<byte>)
    ensures |r| == n && forall i :: 0 <= i < n ==> r[i] == 0xFF
  {
    seq(n, _ => 0xFF)
  }

  /*** Little-endian integers (the assumed host byte order of numeric slots) ***/

  function LeValue(s: seq<byte>): (r: nat)
    ensures r < Pow256(|s|)
  {
    if s == [] then 0 else s[0] + 256 * LeValue(s[1..])
  }

  /** The w bytes a C store of an unsigned integer of width w writes: the
      value is truncated to w bytes, as the cast `(NT)v` does. */
  function LeBytes(v: nat, w: nat): (r: seq<byte>)
    ensures |r| == w
  {
    if w == 0 then [] else [v % 256] + LeBytes(v / 256, w - 1)
  }

  /** Euclidean division is unique; the step every byte-order proof needs. */
  lemma DivModUnique(v: int, d: int, q: int, b: int)
    requires d > 0 && 0 <= b < d && v == d * q + b
    ensures v / d == q && v % d == b
  {
    var q', b' := v / d, v % d;
    assert d * q' + b' == d * q + b;
    if q' > q {
      assert d * q' >= d * (q + 1) by { MulMono(d, q + 1, q'); }
    } else if q' < q {
      assert d * q >= d * (q' + 1) by { MulMono(d, q' + 1, q); }
    }
  }

  lemma MulMono(d: int, x: int, y: int)
    requires d > 0 && x <= y
    ensures d * x <= d * y
  {
  }

  /** v mod (256·P) splits into the low byte and the rest mod P. */
  lemma ModSplit(v: nat, p: nat)
    requires p >= 1
    ensures v % (256 * p) == v % 256 + 256 * ((v / 256) % p)
    ensures v / (256 * p) == (v / 256) / p
  {
    var q, b := v / 256, v % 256;
    var q1, q0 := q / p, q % p;
    assert v == 256 * q + b;
    assert q == p * q1 + q0;
    assert v == (256 * p) * q1 + (256 * q0 + b);
    assert 256 * q0 + b < 256 * p by {
      assert q0 <= p - 1;
      MulMono(256, q0, p - 1);
    }
    DivModUnique(v, 256 * p, q1, 256 * q0 + b);
  }

  lemma {:induction false} LeRoundTrip(v: nat, w: nat)
    ensures LeValue(LeBytes(v, w)) == v % Pow256(w)
  {
    if w > 0 {
      var s := LeBytes(v, w);
      assert s[1..] == LeBytes(v / 256, w - 1);
      LeRoundTrip(v / 256, w - 1);
      ModSplit(v, Pow256(w - 1));
    }
  }

  lemma {:induction false} LeBytesOfValue(s: seq<byte>)
    ensures LeBytes(LeValue(s), |s|) == s
  {
    if s != [] {
      var v := LeValue(s);
      assert v == s[0] + 256 * LeValue(s[1..]);
      DivModUnique(v, 256, LeValue(s[1..]), s[0]);
      LeBytesOfValue(s[1..]);
    }
  }

  /** Reading back what a store of width w wrote gives the stored value
      truncated to w bytes; reading and re-storing changes nothing. */
  lemma LeStoreLoad(v: nat, w: nat)
    requires v < Pow256(w)
    ensures LeValue(LeBytes(v, w)) == v
  {
    LeRoundTrip(v, w);
  }

  /*** Big-endian value of a byte string (the order string codecs compare in) ***/

  function BeValue(s: seq<byte>): (r: nat)
    ensures r < Pow256(|s|)
  {
    if s == [] then 0
    else
      var p := BeValue(s[..|s| - 1]);
      assert p * 256 + s[|s| - 1] < Pow256(|s| - 1) * 256 by {
        MulMono(256, p, Pow256(|s| - 1) - 1);
      }
      p * 256 + s[|s| - 1]
  }

  /** The leading byte of a big-endian string dominates the rest. */
  lemma {:induction false} BeValueHead(s: seq<byte>)
    requires s != []
    ensures BeValue(s) == s[0] * Pow256(|s| - 1) + BeValue(s[1..])
    decreases |s|
  {
    var n := |s|;
    if n == 1 {
      assert s[..0] == [];
      assert s[1..] == [];
    } else {
      var init, tail := s[..n - 1], s[1..];
      assert init[1..] == tail[..n - 2];
      assert tail[n - 2] == s[n - 1];
      BeValueHead(init);
      var x := BeValue(init[1..]);
      assert BeValue(tail) == x * 256 + s[n - 1];
      assert BeValue(s) == BeValue(init) * 256 + s[n - 1];
      ShiftByte(s[0], Pow256(n - 2), x);
    }
  }

  lemma ShiftByte(h: int, p: int, x: int)
    ensures (h * p + x) * 256 == h * (256 * p) + x * 256
  {
  }

  /*** Bitwise or on unbounded naturals (Ruby's `|`, C's `|` on unsigned) ***/

  function BitOr(a: nat, b: nat): (r: nat)
    ensures a <= r && b <= r && r <= a + b
    decreases a + b
  {
    if a == 0 then b
    else if b == 0 then a
    else 2 * BitOr(a / 2, b / 2) + (if a % 2 == 1 || b % 2 == 1 then 1 else 0)
  }

  /** When b lives entirely below bit k and a has no bit below k, `a | b`
      is `a + b`. */
  lemma {:induction false} BitOrDisjoint(a: nat, b: nat, k: nat)
    requires a % Pow2(k) == 0 && b < Pow2(k)
    ensures BitOr(a, b) == a + b
    decreases k
  {
    if k > 0 && a != 0 && b != 0 {
      var p := Pow2(k - 1);
      var q := a / (2 * p);
      DivModUnique(a, 2 * p, q, 0);
      assert a == 2 * (p * q);
      DivModUnique(a, 2, p * q, 0);
      DivModUnique(a / 2, p, q, 0);
      assert b / 2 < p;
      BitOrDisjoint(a / 2, b / 2, k - 1);
    }
  }

  /** Or-ing in bits a already has changes nothing. */
  lemma {:induction false} BitOrLowBits(a: nat, k: nat)
    ensures BitOr(a, a % Pow2(k)) == a
    decreases k
  {
    var b := a % Pow2(k);
    if k > 0 && a != 0 && b != 0 {
      var p := Pow2(k - 1);
      ModHalf(a, p);
      BitOrLowBits(a / 2, k - 1);
    }
  }

  lemma ModHalf(a: nat, p: nat)
    requires p >= 1
    ensures (a % (2 * p)) / 2 == (a / 2) % p && (a % (2 * p)) % 2 == a % 2
  {
    var q, r := a / 2, a % 2;
    var q1, q0 := q / p, q % p;
    assert a == (2 * p) * q1 + (2 * q0 + r);
    assert 2 * q0 + r < 2 * p;
    DivModUnique(a, 2 * p, q1, 2 * q0 + r);
    DivModUnique(2 * q0 + r, 2, q0, r);
  }

  /*** Writing a slot inside a record buffer ***/

  /** The record bytes s with the slot at off replaced by slot. */
  function Splice(s: seq<byte>, off: nat, slot: seq<byte>): (r: seq<byte>)
    requires off + |slot| <= |s|
    ensures |r| == |s| && r[off..off + |slot|] == slot
    ensures forall k :: 0 <= k < |s| && !(off <= k < off + |slot|) ==> r[k] == s[k]
  {
    s[..off] + slot + s[off + |slot|..]
  }

  /** Splicing in the bytes already at off changes nothing. */
  lemma SpliceSame(s: seq<byte>, off: nat, slot: seq<byte>)
    requires off + |slot| <= |s| && s[off..off + |slot|] == slot
    ensures Splice(s, off, slot) == s
  {
    var r := Splice(s, off, slot);
    forall k | off <= k < off + |slot| ensures r[k] == s[k] {
      assert r[k] == r[off..off + |slot|][k - off];
      assert s[k] == s[off..off + |slot|][k - off];
    }
  }

  /** A second splice at the same place overwrites the first. */
  lemma SpliceOver(s: seq<byte>, off: nat, x: seq<byte>, y: seq<byte>)
    requires off + |x| <= |s| && |y| == |x|
    ensures Splice(Splice(s, off, x), off, y) == Splice(s, off, y)
  {
    var r := Splice(Splice(s, off, x), off, y);
    var t := Splice(s, off, y);
    forall k | off <= k < off + |y| ensures r[k] == t[k] {
      assert r[k] == r[off..off + |y|][k - off];
      assert t[k] == t[off..off + |y|][k - off];
    }
  }

  /** Writing byte i of a spliced slot is splicing the updated slot. */
  lemma SpliceUpdate(s: seq<byte>, off: nat, slot: seq<byte>, i: nat, v: byte)
    requires off + |slot| <= |s| && i < |slot|
    ensures Splice(s, off, slot)[off + i] == slot[i]
    ensures Splice(s, off, slot)[off + i := v] == Splice(s, off, slot[i := v])
  {
    var r := Splice(s, off, slot);
    assert r[off + i] == r[off..off + |slot|][i];
    var t := Splice(s, off, slot[i := v]);
    forall k | off <= k < off + |slot| ensures r[off + i := v][k] == t[k] {
      assert r[k] == r[off..off + |slot|][k - off];
      assert t[k] == t[off..off + |slot|][k - off];
    }
  }

  /** Bytes that agree with slot inside it and with s outside it are the splice. */
  lemma SpliceOf(s: seq<byte>, t: seq<byte>, off: nat, slot: seq<byte>)
    requires |t| == |s| && off + |slot| <= |s|
    requires forall k :: 0 <= k < |slot| ==> t[off + k] == slot[k]
    requires forall k :: 0 <= k < |s| && !(off <= k < off + |slot|) ==> t[k] == s[k]
    ensures t == Splice(s, off, slot)
  {
    var r := Splice(s, off, slot);
    forall k | off <= k < off + |slot| ensures t[k] == r[k] {
      assert r[k] == r[off..off + |slot|][k - off];
      assert t[off + (k - off)] == slot[k - off];
    }
  }

  /** memcpy of the slot into the record at off. */
  method WriteSlot(a: array<byte>, off: nat, slot: seq<byte>)
    requires off + |slot| <= a.Length
    modifies a
    ensures a[..] == Splice(old(a[..]), off, slot)
  {
    var i := 0;
    while i < |slot|
      invariant 0 <= i <= |slot|
      invariant forall k :: 0 <= k < a.Length ==>
        a[k] == if off <= k < off + i then slot[k - off] else old(a[k])
    {
      a[off + i] := slot[i];
      i := i + 1;
    }
    ghost var r := Splice(old(a[..]), off, slot);
    assert forall k :: 0 <= k < a.Length ==> a[..][k] == r[k];
  }
}
