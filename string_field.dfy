/** Fixed-length byte-string fields (RM_String, and its raw-text variant
    RM_STR). The slot is `size` bytes at `offset`; strings compare as
    unsigned bytes, first byte most significant. */
module StringField {
  import opened Bytes
  import opened Errors

  /** A string field: `_offset` and `_size` (a uint8_t). */
  datatype Field = Field(offset: uint16, size: byte)
  {
    predicate Fits(a: array<byte>) { offset + size <= a.Length }
  }

  function Slot(f: Field, a: array<byte>): (s: seq<byte>)
    reads a
    requires f.Fits(a)
    ensures |s| == f.size
  {
    a[f.offset..f.offset + f.size]
  }

  /*** Successor of a byte string ***/

  /** inc as a function of the slot: the last byte below 0xFF is bumped and
      every 0xFF after it becomes 0; an all-0xFF string becomes all zero. */
  function IncBytes(s: seq<byte>): (r: seq<byte>)
    ensures |r| == |s|
  {
    if s == [] then []
    else if s[|s| - 1] < 0xFF then s[..|s| - 1] + [s[|s| - 1] + 1]
    else IncBytes(s[..|s| - 1]) + [0]
  }

  lemma MulModShift(x: nat, p: nat)
    requires p >= 1
    ensures (x * 256) % (256 * p) == 256 * (x % p)
  {
    DivModUnique(x * 256, 256, x, 0);
    ModSplit(x * 256, p);
  }

  lemma BeValueSnoc(s: seq<byte>, b: byte)
    ensures BeValue(s + [b]) == BeValue(s) * 256 + b
  {
    assert (s + [b])[..|s|] == s;
  }

  /** inc adds one to the big-endian value of the slot, modulo 256^size. */
  lemma {:induction false} IncBytesValue(s: seq<byte>)
    ensures BeValue(IncBytes(s)) == (BeValue(s) + 1) % Pow256(|s|)
  {
    if s != [] {
      var init, last := s[..|s| - 1], s[|s| - 1];
      assert s == init + [last];
      BeValueSnoc(init, last);
      var p := Pow256(|s| - 1);
      if last < 0xFF {
        BeValueSnoc(init, last + 1);
        assert BeValue(init) * 256 + last + 1 < p * 256 by {
          MulMono(256, BeValue(init), p - 1);
        }
        DivModUnique(BeValue(s) + 1, Pow256(|s|), 0, BeValue(s) + 1);
      } else {
        IncBytesValue(init);
        BeValueSnoc(IncBytes(init), 0);
        assert BeValue(s) + 1 == (BeValue(init) + 1) * 256;
        MulModShift(BeValue(init) + 1, p);
      }
    }
  }

  /** The string at all-0xFF wraps to all zero. */
  lemma {:induction false} IncAllOnes(n: nat)
    ensures IncBytes(Ones(n)) == Zeros(n)
  {
    if n > 0 {
      assert Ones(n)[..n - 1] == Ones(n - 1);
      IncAllOnes(n - 1);
      assert Zeros(n - 1) + [0] == Zeros(n);
    }
  }

  /** The shape inc computes: bytes after position i were 0xFF and become
      0, byte i was below 0xFF and is bumped, bytes before i are kept. */
  lemma {:induction false} IncBytesAt(s: seq<byte>, i: nat)
    requires i < |s| && s[i] < 0xFF
    requires forall j :: i < j < |s| ==> s[j] == 0xFF
    ensures IncBytes(s) == s[..i] + [s[i] + 1] + Zeros(|s| - 1 - i)
  {
    if i < |s| - 1 {
      var init := s[..|s| - 1];
      assert init[..i] == s[..i];
      IncBytesAt(init, i);
      assert Zeros(|s| - 2 - i) + [0] == Zeros(|s| - 1 - i);
    }
  }

  lemma {:induction false} IncBytesAllFF(s: seq<byte>)
    requires forall j :: 0 <= j < |s| ==> s[j] == 0xFF
    ensures IncBytes(s) == Zeros(|s|)
  {
    assert s == Ones(|s|);
    IncAllOnes(|s|);
  }

  /*** Comparison ***/

  /** compare_pointers: the first differing byte decides, unsigned. */
  function ComparePointers(a: seq<byte>, b: seq<byte>): (r: int)
    requires |a| == |b|
    ensures r == -1 || r == 0 || r == 1
    ensures r == 0 <==> a == b
  {
    if a == [] then 0
    else if a[0] < b[0] then -1
    else if a[0] > b[0] then 1
    else
      var r := ComparePointers(a[1..], b[1..]);
      assert r == 0 ==> a == [a[0]] + a[1..] == [b[0]] + b[1..] == b;
      r
  }

  /** compare_pointers is the order of the strings read as big-endian
      unsigned numbers. */
  lemma {:induction false} CompareIsNumeric(a: seq<byte>, b: seq<byte>)
    requires |a| == |b|
    ensures ComparePointers(a, b) == -1 <==> BeValue(a) < BeValue(b)
    ensures ComparePointers(a, b) == 1 <==> BeValue(a) > BeValue(b)
  {
    if a != [] {
      BeValueHead(a);
      BeValueHead(b);
      var p := Pow256(|a| - 1);
      if a[0] < b[0] {
        HeadDominates(a[0], b[0], p, BeValue(a[1..]), BeValue(b[1..]));
      } else if a[0] > b[0] {
        HeadDominates(b[0], a[0], p, BeValue(b[1..]), BeValue(a[1..]));
      } else {
        CompareIsNumeric(a[1..], b[1..]);
      }
    }
  }

  /** A smaller leading digit wins whatever follows it. */
  lemma HeadDominates(x: nat, y: nat, p: nat, t1: nat, t2: nat)
    requires x < y && t1 < p
    ensures x * p + t1 < y * p + t2
  {
    MulMono(p, x + 1, y);
    assert x * p + t1 < (x + 1) * p;
  }

  /** compare_pointers is lexicographic: -1 exactly when a has the smaller
      byte at the first position where the two differ. */
  lemma {:induction false} CompareIsLexicographic(a: seq<byte>, b: seq<byte>)
    requires |a| == |b|
    ensures ComparePointers(a, b) == -1 <==>
      exists k :: 0 <= k < |a| && a[..k] == b[..k] && a[k] < b[k]
  {
    if a != [] {
      CompareIsLexicographic(a[1..], b[1..]);
      if a[0] == b[0] {
        if ComparePointers(a, b) == -1 {
          var k :| 0 <= k < |a| - 1 && a[1..][..k] == b[1..][..k] && a[1..][k] < b[1..][k];
          assert a[..k + 1] == [a[0]] + a[1..][..k];
          assert b[..k + 1] == [b[0]] + b[1..][..k];
          assert a[k + 1] < b[k + 1];
        }
        if exists k :: 0 <= k < |a| && a[..k] == b[..k] && a[k] < b[k] {
          var k :| 0 <= k < |a| && a[..k] == b[..k] && a[k] < b[k];
          assert k > 0;
          assert a[1..][..k - 1] == a[..k][1..] == b[..k][1..] == b[1..][..k - 1];
          assert a[1..][k - 1] < b[1..][k - 1];
        }
      } else if a[0] < b[0] {
        assert a[..0] == b[..0];
      } else {
        forall k | 0 < k < |a| && a[..k] == b[..k] ensures false {
        }
      }
    }
  }

  /** One scan of between_pointers: does x sort strictly before y?
      (`if (x[k] < y[k]) return …; if (x[k] > y[k]) break;`) */
  function Precedes(x: seq<byte>, y: seq<byte>): bool
    requires |x| == |y|
  {
    if x == [] then false
    else if x[0] < y[0] then true
    else if x[0] > y[0] then false
    else Precedes(x[1..], y[1..])
  }

  lemma {:induction false} PrecedesIsCompare(x: seq<byte>, y: seq<byte>)
    requires |x| == |y|
    ensures Precedes(x, y) <==> ComparePointers(x, y) == -1
    ensures Precedes(y, x) <==> ComparePointers(x, y) == 1
  {
    if x != [] {
      PrecedesIsCompare(x[1..], y[1..]);
    }
  }

  /** between_pointers: -1 when c sorts before l, 1 when it sorts after r,
      0 when l <= c <= r, all by compare_pointers. */
  function BetweenPointers(c: seq<byte>, l: seq<byte>, r: seq<byte>): (res: int)
    requires |c| == |l| == |r|
    ensures res == -1 <==> ComparePointers(c, l) < 0
    ensures res == 1 <==> ComparePointers(c, l) >= 0 && ComparePointers(c, r) > 0
    ensures res == 0 <==> ComparePointers(c, l) >= 0 && ComparePointers(c, r) <= 0
  {
    PrecedesIsCompare(c, l);
    PrecedesIsCompare(c, r);
    if Precedes(c, l) then -1
    else if Precedes(r, c) then 1
    else 0
  }

  /** Away from all-0xFF, inc moves a string strictly later in sort order. */
  lemma {:induction false} IncIsLater(s: seq<byte>)
    requires s != Ones(|s|)
    ensures ComparePointers(IncBytes(s), s) == 1
  {
    var v, p := BeValue(s), Pow256(|s|);
    if v + 1 == p {
      OnesIsTop(s);
    }
    assert v + 1 < p;
    IncBytesValue(s);
    DivModUnique(v + 1, p, 0, v + 1);
    CompareIsNumeric(IncBytes(s), s);
  }

  /** Only all-0xFF reaches the top big-endian value. */
  lemma {:induction false} OnesIsTop(s: seq<byte>)
    requires BeValue(s) + 1 == Pow256(|s|)
    ensures s == Ones(|s|)
  {
    if s != [] {
      var init, last := s[..|s| - 1], s[|s| - 1];
      BeValueSnoc(init, last);
      assert s == init + [last];
      var p := Pow256(|s| - 1);
      var v := BeValue(s);
      assert v == 256 * (p - 1) + 255;
      DivModUnique(v, 256, p - 1, 255);
      DivModUnique(v, 256, BeValue(init), last);
      OnesIsTop(init);
      assert Ones(|s| - 1) + [0xFF] == Ones(|s|);
    }
  }

  /*** The codec operations on a record buffer ***/

  /** set_default: bzero of the slot. */
  method SetDefault(f: Field, a: array<byte>)
    requires f.Fits(a)
    modifies a
    ensures a[..] == Splice(old(a[..]), f.offset, Zeros(f.size))
  {
    WriteSlot(a, f.offset, Zeros(f.size));
  }

  /** set_min: all zero bytes, the first string in sort order. */
  method SetMin(f: Field, a: array<byte>)
    requires f.Fits(a)
    modifies a
    ensures a[..] == Splice(old(a[..]), f.offset, Zeros(f.size))
    ensures forall t: seq<byte> :: |t| == f.size ==> ComparePointers(Slot(f, a), t) <= 0
  {
    WriteSlot(a, f.offset, Zeros(f.size));
    assert Slot(f, a) == Zeros(f.size);
    forall t: seq<byte> | |t| == f.size ensures ComparePointers(Slot(f, a), t) <= 0 {
      CompareIsNumeric(Zeros(f.size), t);
      ZerosValue(f.size);
    }
  }

  /** set_max: all 0xFF bytes, the last string in sort order. */
  method SetMax(f: Field, a: array<byte>)
    requires f.Fits(a)
    modifies a
    ensures a[..] == Splice(old(a[..]), f.offset, Ones(f.size))
    ensures forall t: seq<byte> :: |t| == f.size ==> ComparePointers(t, Slot(f, a)) <= 0
  {
    WriteSlot(a, f.offset, Ones(f.size));
    assert Slot(f, a) == Ones(f.size);
    forall t: seq<byte> | |t| == f.size ensures ComparePointers(t, Slot(f, a)) <= 0 {
      CompareIsNumeric(t, Ones(f.size));
      OnesValue(f.size);
    }
  }

  lemma {:induction false} ZerosValue(n: nat)
    ensures BeValue(Zeros(n)) == 0
  {
    if n > 0 {
      assert Zeros(n)[..n - 1] == Zeros(n - 1);
      ZerosValue(n - 1);
    }
  }

  lemma {:induction false} OnesValue(n: nat)
    ensures BeValue(Ones(n)) == Pow256(n) - 1
  {
    if n > 0 {
      assert Ones(n)[..n - 1] == Ones(n - 1);
      OnesValue(n - 1);
    }
  }

  /** set_from_memory: memcpy of size bytes into the slot. */
  method SetFromMemory(f: Field, a: array<byte>, mem: seq<byte>)
    requires f.Fits(a) && |mem| >= f.size
    modifies a
    ensures a[..] == Splice(old(a[..]), f.offset, mem[..f.size])
  {
    WriteSlot(a, f.offset, mem[..f.size]);
  }

  /** copy_to_memory: memcpy of the slot to the start of mem. */
  method CopyToMemory(f: Field, a: array<byte>, mem: array<byte>)
    requires f.Fits(a) && mem.Length >= f.size
    modifies mem
    ensures mem[..] == Splice(old(mem[..]), 0, old(Slot(f, a)))
  {
    WriteSlot(mem, 0, Slot(f, a));
  }

  /** copy: memcpy of record b's slot into record a's. */
  method Copy(f: Field, a: array<byte>, b: array<byte>)
    requires f.Fits(a) && f.Fits(b)
    modifies a
    ensures a[..] == Splice(old(a[..]), f.offset, old(Slot(f, b)))
  {
    WriteSlot(a, f.offset, Slot(f, b));
  }

  /** inc: the slot, read as a big-endian number, goes up by one, wrapping
      to all zero from all 0xFF; nothing outside the slot changes. */
  method Inc(f: Field, a: array<byte>)
    requires f.Fits(a)
    modifies a
    ensures a[..] == Splice(old(a[..]), f.offset, IncBytes(old(Slot(f, a))))
    ensures BeValue(Slot(f, a)) == (BeValue(old(Slot(f, a))) + 1) % Pow256(f.size)
  {
    ghost var before, s := a[..], Slot(f, a);
    Carry(f, a, s);
    SlotOfSplice(f, a, before, IncBytes(s));
    IncBytesValue(s);
  }

  /** inc's loop, from the last byte of the slot towards the first: each
      0xFF becomes 0 and the carry moves left; the first byte below 0xFF
      is bumped and the carry stops. */
  method Carry(f: Field, a: array<byte>, ghost s: seq<byte>)
    requires f.Fits(a) && s == Slot(f, a)
    modifies a
    ensures a[..] == Splice(old(a[..]), f.offset, IncBytes(s))
  {
    var off, n := f.offset as int, f.size as int;
    var i := n - 1;
    while i >= 0 && a[off + i] == 0xFF
      invariant -1 <= i < n
      invariant forall j :: i < j < n ==> s[j] == 0xFF
      invariant forall k :: 0 <= k < a.Length ==>
        a[k] == if off + i < k < off + n then 0 else old(a[k])
    {
      a[off + i] := 0;
      i := i - 1;
    }
    if i >= 0 {
      a[off + i] := a[off + i] + 1;
    }
    IncInPlace(old(a[..]), a[..], off, s, i);
  }

  /** The slot of a record whose bytes are a splice at the field's offset. */
  lemma SlotOfSplice(f: Field, a: array<byte>, before: seq<byte>, w: seq<byte>)
    requires f.Fits(a) && |w| == f.size && |before| == a.Length
    requires a[..] == Splice(before, f.offset, w)
    ensures Slot(f, a) == w
  {
    assert Slot(f, a) == a[..][f.offset..f.offset + f.size];
  }

  /** IncBytes byte by byte, given where the carry stopped. */
  lemma IncBytesElem(s: seq<byte>, i: int)
    requires -1 <= i < |s| && (i >= 0 ==> s[i] < 0xFF)
    requires forall j :: i < j < |s| ==> s[j] == 0xFF
    ensures forall k :: 0 <= k < |s| ==>
      IncBytes(s)[k] == if k < i then s[k] else if k == i then s[i] + 1 else 0
  {
    if i >= 0 {
      IncBytesAt(s, i);
      assert IncBytes(s) == s[..i] + [s[i] + 1] + Zeros(|s| - 1 - i);
    } else {
      IncBytesAllFF(s);
    }
  }

  /** The bytes inc's loop leaves behind are the record with IncBytes of
      the slot spliced in. */
  lemma IncInPlace(before: seq<byte>, after: seq<byte>, off: nat, s: seq<byte>, i: int)
    requires |after| == |before| && off + |s| <= |before| && before[off..off + |s|] == s
    requires -1 <= i < |s| && (i >= 0 ==> s[i] < 0xFF)
    requires forall j :: i < j < |s| ==> s[j] == 0xFF
    requires forall k :: 0 <= k < |before| ==>
      after[k] == if i >= 0 && k == off + i then s[i] + 1
                  else if off + i < k < off + |s| then 0 else before[k]
    ensures after == Splice(before, off, IncBytes(s))
  {
    IncBytesElem(s, i);
    forall k | 0 <= k < |s| ensures after[off + k] == IncBytes(s)[k] {
      if k < i { assert before[off + k] == s[k]; }
    }
    SpliceOf(before, after, off, IncBytes(s));
  }

  /** compare: compare_pointers on the two records' slots. */
  function Compare(f: Field, a: array<byte>, b: array<byte>): (r: int)
    reads a, b
    requires f.Fits(a) && f.Fits(b)
    ensures r == 0 <==> Slot(f, a) == Slot(f, b)
    ensures r == -1 <==> BeValue(Slot(f, a)) < BeValue(Slot(f, b))
  {
    CompareIsNumeric(Slot(f, a), Slot(f, b));
    ComparePointers(Slot(f, a), Slot(f, b))
  }

  /** compare_with_memory: as compare, with raw bytes on the right. */
  function CompareWithMemory(f: Field, a: array<byte>, mem: seq<byte>): (r: int)
    reads a
    requires f.Fits(a) && |mem| >= f.size
    ensures r == 0 <==> Slot(f, a) == mem[..f.size]
    ensures r == -1 <==> BeValue(Slot(f, a)) < BeValue(mem[..f.size])
  {
    CompareIsNumeric(Slot(f, a), mem[..f.size]);
    ComparePointers(Slot(f, a), mem[..f.size])
  }

  /** between: between_pointers on the three records' slots. */
  function Between(f: Field, c: array<byte>, l: array<byte>, r: array<byte>): (res: int)
    reads c, l, r
    requires f.Fits(c) && f.Fits(l) && f.Fits(r)
    ensures res == 0 <==> BeValue(Slot(f, l)) <= BeValue(Slot(f, c)) <= BeValue(Slot(f, r))
    ensures res == -1 <==> BeValue(Slot(f, c)) < BeValue(Slot(f, l))
  {
    CompareIsNumeric(Slot(f, c), Slot(f, l));
    CompareIsNumeric(Slot(f, c), Slot(f, r));
    BetweenPointers(Slot(f, c), Slot(f, l), Slot(f, r))
  }

  /** memory_between: as between, with the raw bytes in the middle. */
  function MemoryBetween(f: Field, mem: seq<byte>, l: array<byte>, r: array<byte>): (res: int)
    reads l, r
    requires |mem| >= f.size && f.Fits(l) && f.Fits(r)
    ensures res == 0 <==> BeValue(Slot(f, l)) <= BeValue(mem[..f.size]) <= BeValue(Slot(f, r))
    ensures res == -1 <==> BeValue(mem[..f.size]) < BeValue(Slot(f, l))
  {
    CompareIsNumeric(mem[..f.size], Slot(f, l));
    CompareIsNumeric(mem[..f.size], Slot(f, r));
    BetweenPointers(mem[..f.size], Slot(f, l), Slot(f, r))
  }

  /*** RM_STR: raw text ***/

  /** parse_string: input longer than the field is rejected with
      RM_ERR_STR_TOO_LONG and nothing is written; otherwise the input is
      copied and the rest of the slot zero-filled. */
  method ParseString(f: Field, a: array<byte>, str: seq<byte>) returns (err: Err)
    requires f.Fits(a)
    modifies a
    ensures err == if |str| > f.size then StrTooLong else Ok
    ensures err != Ok ==> a[..] == old(a[..])
    ensures err == Ok ==> a[..] == Splice(old(a[..]), f.offset, str + Zeros(f.size - |str|))
  {
    if |str| > f.size {
      return StrTooLong;
    }
    ghost var want := str + Zeros(f.size - |str|);
    var i := 0;
    while i < f.size
      invariant 0 <= i <= f.size
      invariant forall k :: 0 <= k < a.Length ==>
        a[k] == if f.offset <= k < f.offset + i then want[k - f.offset] else old(a[k])
    {
      a[f.offset + i] := if i < |str| then str[i] else 0;
      i := i + 1;
    }
    assert forall k :: 0 <= k < a.Length ==> a[..][k] == Splice(old(a[..]), f.offset, want)[k];
    err := Ok;
  }
}
