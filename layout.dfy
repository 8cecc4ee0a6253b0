/** The C side of a record model (RecordModel.cc): the layout that
    `initialize` computes from the key and value descriptors, and the
    bounds-checked `[]`/`[]=` accessors of an instance.

    A descriptor is a uint32 packing a field's byte offset in the high 16
    bits and its type code in the low 16, the low 8 of which are the
    field's width in bytes (the decoding macros live in a header outside
    this model; this is the packing the Ruby side builds). */
module Layout {
  import opened Bytes

  /** Type codes of the accessors (the Ruby TYPES table uses the same). */
  const RMT_UINT64: nat := 0x0008
  const RMT_UINT32: nat := 0x0004
  const RMT_DOUBLE: nat := 0x0108

  /** RecordModelOffset, RecordModelType, RecordModelTypeSize. */
  function Offset(d: uint32): (r: nat)
    ensures r < 0x1_0000
  {
    d / 0x1_0000
  }

  function Type(d: uint32): (r: nat)
    ensures r < 0x1_0000
  {
    d % 0x1_0000
  }

  function TypeSize(d: uint32): (r: byte)
  {
    d % 0x100
  }

  /** The packing is a bijection between descriptors and
      (offset, type) pairs, and the width is the type's low byte. */
  lemma DescriptorParts(d: uint32)
    ensures d == Offset(d) * 0x1_0000 + Type(d)
    ensures TypeSize(d) == Type(d) % 0x100
  {
    DivModUnique(d, 0x1_0000, Offset(d), Type(d));
    ModSplitAt(d, 0x100, 0x100);
  }

  lemma ModSplitAt(v: nat, p: nat, q: nat)
    requires p >= 1 && q >= 1
    ensures (v % (p * q)) % p == v % p
  {
    var a, b := v / (p * q), v % (p * q);
    var c, e := b / p, b % p;
    assert v == p * (q * a + c) + e;
    DivModUnique(v, p, q * a + c, e);
  }

  /** The word initialize stores for a descriptor placed at offset: the
      offset's low 16 bits (the shift on uint32 loses the rest) above the
      descriptor's type. */
  function Word(offset: uint32, d: uint32): (w: uint32)
  {
    (offset % 0x1_0000) * 0x1_0000 + Type(d)
  }

  /** Word is `(offset << 16) | RecordModelType(desc)` in uint32
      arithmetic. */
  lemma WordIsOr(offset: uint32, d: uint32)
    ensures Word(offset, d) == BitOr((offset * 0x1_0000) % UINT32_MOD, Type(d))
  {
    var o := offset % 0x1_0000;
    var hi := (offset * 0x1_0000) % UINT32_MOD;
    DivModUnique(offset, 0x1_0000, offset / 0x1_0000, o);
    assert offset * 0x1_0000 == UINT32_MOD * (offset / 0x1_0000) + o * 0x1_0000;
    DivModUnique(offset * 0x1_0000, UINT32_MOD, offset / 0x1_0000, o * 0x1_0000);
    assert hi == o * 0x1_0000;
    assert Pow2(16) == 0x1_0000 by { Pow2Bytes(2); Pow256Widths(); }
    DivModUnique(hi, 0x1_0000, o, 0);
    BitOrDisjoint(hi, Type(d), 16);
  }

  /** A stored descriptor decodes to the offset it was given (modulo the
      16 bits the shift keeps) and keeps the type, hence the width. */
  lemma WordDecodes(offset: uint32, d: uint32)
    ensures Offset(Word(offset, d)) == offset % 0x1_0000
    ensures Type(Word(offset, d)) == Type(d)
    ensures TypeSize(Word(offset, d)) == TypeSize(d)
  {
    var w := Word(offset, d);
    DivModUnique(w, 0x1_0000, offset % 0x1_0000, Type(d));
    DescriptorParts(d);
    DescriptorParts(w);
  }

  /*** The offset walk ***/

  /** The running offset after walking ds from start: each descriptor
      advances it by its width, in uint32 arithmetic. */
  function Advance(ds: seq<uint32>, start: uint32): (r: uint32)
  {
    if ds == [] then start
    else (Advance(ds[..|ds| - 1], start) + TypeSize(ds[|ds| - 1])) % UINT32_MOD
  }

  /** Sum of the widths, without wrap-around. */
  function Widths(ds: seq<uint32>): nat {
    if ds == [] then 0 else Widths(ds[..|ds| - 1]) + TypeSize(ds[|ds| - 1])
  }

  /** While the total stays below 2^32 the walk is plain addition. */
  lemma {:induction false} AdvanceIsSum(ds: seq<uint32>, start: uint32)
    requires start + Widths(ds) < UINT32_MOD
    ensures Advance(ds, start) == start + Widths(ds)
  {
    if ds != [] {
      AdvanceIsSum(ds[..|ds| - 1], start);
    }
  }

  /** Descriptor i is placed where the walk stands after descriptors
      0 … i-1; the next one starts right after it. */
  function Place(ds: seq<uint32>, start: uint32, i: nat): uint32
    requires i <= |ds|
  {
    Advance(ds[..i], start)
  }

  lemma PlaceNext(ds: seq<uint32>, start: uint32, i: nat)
    requires i < |ds|
    ensures Place(ds, start, i + 1) == (Place(ds, start, i) + TypeSize(ds[i])) % UINT32_MOD
    ensures Place(ds, start, |ds|) == Advance(ds, start)
  {
    assert ds[..i + 1][..i] == ds[..i];
    assert ds[..|ds|] == ds;
  }

  /** Fields are contiguous: without wrap-around, descriptor i is at start
      plus the widths of the ones before it. */
  lemma Contiguous(ds: seq<uint32>, start: uint32, i: nat)
    requires i <= |ds| && start + Widths(ds) < UINT32_MOD
    ensures Place(ds, start, i) == start + Widths(ds[..i])
  {
    WidthsPrefix(ds, i);
    AdvanceIsSum(ds[..i], start);
  }

  lemma {:induction false} WidthsPrefix(ds: seq<uint32>, i: nat)
    requires i <= |ds|
    ensures Widths(ds[..i]) <= Widths(ds)
    decreases |ds|
  {
    if i < |ds| {
      assert ds[..|ds| - 1][..i] == ds[..i];
      WidthsPrefix(ds[..|ds| - 1], i);
    } else {
      assert ds[..i] == ds;
    }
  }

  /** initialize's assert: a descriptor's own offset is 0 (unplaced) or
      the offset the walk gives it. */
  predicate Accepts(ds: seq<uint32>, start: uint32) {
    forall i :: 0 <= i < |ds| ==> Offset(ds[i]) == 0 || Offset(ds[i]) == Place(ds, start, i)
  }

  /** The words initialize stores for ds walked from start. */
  function Stored(ds: seq<uint32>, start: uint32): (r: seq<uint32>)
    ensures |r| == |ds|
  {
    seq(|ds|, i requires 0 <= i < |ds| => Word(Place(ds, start, i), ds[i]))
  }

  /** Every stored word, read back, names the offset the walk gave the
      field and keeps the field's type; with no wrap-around and a record
      under 64 KiB, each field lies inside the walked range. */
  lemma StoredDecodes(ds: seq<uint32>, start: uint32, i: nat)
    requires i < |ds| && start + Widths(ds) < 0x1_0000
    ensures Offset(Stored(ds, start)[i]) == start + Widths(ds[..i])
    ensures Type(Stored(ds, start)[i]) == Type(ds[i])
    ensures Offset(Stored(ds, start)[i]) + TypeSize(Stored(ds, start)[i]) <= Advance(ds, start)
  {
    var p := Place(ds, start, i);
    assert Stored(ds, start)[i] == Word(p, ds[i]);
    Contiguous(ds, start, i);
    WordDecodes(p, ds[i]);
    WidthsStep(ds, i);
    WidthsPrefix(ds, i + 1);
    AdvanceIsSum(ds, start);
  }

  lemma WidthsStep(ds: seq<uint32>, i: nat)
    requires i < |ds|
    ensures Widths(ds[..i + 1]) == Widths(ds[..i]) + TypeSize(ds[i])
  {
    assert ds[..i + 1][..i] == ds[..i];
  }

  /** Descriptors that already carry the offsets the walk gives them, as
      the Ruby side builds them. */
  predicate Placed(ds: seq<uint32>, start: uint32) {
    forall i :: 0 <= i < |ds| ==> Offset(ds[i]) == Place(ds, start, i)
  }

  /** initialize accepts placed descriptors and stores them unchanged. */
  lemma PlacedAccepted(ds: seq<uint32>, start: uint32)
    requires Placed(ds, start)
    ensures Accepts(ds, start) && Stored(ds, start) == ds
  {
    forall i | 0 <= i < |ds| ensures Stored(ds, start)[i] == ds[i] {
      WordSelf(ds[i]);
    }
  }

  lemma WordSelf(d: uint32)
    ensures Word(Offset(d), d) == d
  {
    DescriptorParts(d);
  }

  /** Appending a descriptor placed at the end of the walk keeps the list
      placed and adds its width. */
  lemma AppendPlaced(ds: seq<uint32>, start: uint32, d: uint32)
    requires Placed(ds, start) && start + Widths(ds) < UINT32_MOD
    requires Offset(d) == start + Widths(ds)
    ensures Placed(ds + [d], start) && Widths(ds + [d]) == Widths(ds) + TypeSize(d)
  {
    var e := ds + [d];
    assert e[..|e| - 1] == ds;
    forall i | 0 <= i < |e| ensures Offset(e[i]) == Place(e, start, i) {
      if i < |ds| {
        assert e[..i] == ds[..i];
      } else {
        assert e[..i] == ds;
        AdvanceIsSum(ds, start);
      }
    }
  }

  /** The model object: one array of words holding the key descriptors,
      a 0, the value descriptors and a 0 (`m.keys` is items[0..] and
      `m.values` is items[keyCount + 1..]); keysize is the width of the
      key part, size that of the whole record. */
  class RecordModel {
    const items: array<uint32>
    const keyCount: nat
    const keysize: uint32
    const size: uint32

    /** initialize (RecordModel__allocate's fresh model, then the two
        descriptor walks). A descriptor whose offset the walk does not
        accept is a failed C assert, here a precondition. */
    constructor (keys: seq<uint32>, values: seq<uint32>)
      requires Accepts(keys, 0) && Accepts(values, Advance(keys, 0))
      ensures fresh(items) && keyCount == |keys|
      ensures items[..] == Stored(keys, 0) + [0] + Stored(values, keysize) + [0]
      ensures keysize == Advance(keys, 0) && size == Advance(values, keysize)
    {
      var n := |keys| + |values| + 2;
      var arr := new uint32[n];
      var offset := WriteDescriptors(arr, 0, keys, 0);
      arr[|keys|] := 0;
      var ks := offset;
      offset := WriteDescriptors(arr, |keys| + 1, values, ks);
      arr[n - 1] := 0;
      items, keyCount, keysize, size := arr, |keys|, ks, offset;
      new;
      assert items[..] == Stored(keys, 0) + [0] + Stored(values, keysize) + [0] by {
        forall k | 0 <= k < n
          ensures items[k] == (Stored(keys, 0) + [0] + Stored(values, keysize) + [0])[k]
        {
        }
      }
    }
  }

  /** One of initialize's two loops: descriptor i of ds goes, re-based at
      the running offset, to arr[base + i]; returns the final offset. */
  method WriteDescriptors(arr: array<uint32>, base: nat, ds: seq<uint32>, start: uint32) returns (offset: uint32)
    requires base + |ds| <= arr.Length && Accepts(ds, start)
    modifies arr
    ensures offset == Advance(ds, start)
    ensures forall k :: 0 <= k < arr.Length ==>
      arr[k] == if base <= k < base + |ds| then Stored(ds, start)[k - base] else old(arr[k])
  {
    ghost var out := Stored(ds, start);
    offset := start;
    var i := 0;
    while i < |ds|
      invariant 0 <= i <= |ds| && offset == Place(ds, start, i)
      invariant forall k :: 0 <= k < arr.Length ==>
        arr[k] == if base <= k < base + i then out[k - base] else old(arr[k])
    {
      var desc := ds[i];
      assert Offset(desc) == 0 || Offset(desc) == offset;
      assert out[i] == Word(offset, desc);
      arr[base + i] := Word(offset, desc);
      PlaceNext(ds, start, i);
      offset := (offset + TypeSize(desc)) % UINT32_MOD;
      i := i + 1;
    }
    assert ds[..|ds|] == ds;
  }

  /** keysize is the sum of the key widths and size adds the value
      widths to it, as long as the record is under 4 GiB. */
  lemma LayoutSums(keys: seq<uint32>, values: seq<uint32>)
    requires Widths(keys) + Widths(values) < UINT32_MOD
    ensures Advance(keys, 0) == Widths(keys)
    ensures Advance(values, Advance(keys, 0)) == Widths(keys) + Widths(values)
  {
    AdvanceIsSum(keys, 0);
    AdvanceIsSum(values, Widths(keys) as uint32);
  }

  /*** Instances: the `[]` and `[]=` accessors ***/

  /** What `[]` returns: an integer for the uint64 and uint32 types, the
      eight bytes of a double (not interpreted), nil for any other type. */
  datatype Value = Num(n: nat) | Double(bits: seq<byte>) | Nil

  /** The accessor's width for each type code it handles. */
  function Width(d: uint32): (w: nat)
    ensures Type(d) == RMT_UINT64 || Type(d) == RMT_DOUBLE ==> w == 8 == TypeSize(d)
    ensures Type(d) == RMT_UINT32 ==> w == 4 == TypeSize(d)
  {
    DescriptorParts(d);
    if Type(d) == RMT_UINT64 || Type(d) == RMT_DOUBLE then 8
    else if Type(d) == RMT_UINT32 then 4
    else 0
  }

  /** The model's assert before touching a field. */
  predicate InRecord(d: uint32, size: nat) {
    Offset(d) + TypeSize(d) <= size
  }

  /** The value `[]` reads from record bytes s (ptr_to_field is taken to
      be the record's start plus the descriptor's offset). */
  function Fetch(s: seq<byte>, d: uint32): (r: Value)
    requires InRecord(d, |s|)
    ensures r.Nil? <==> Width(d) == 0
    ensures r.Num? ==> (Type(d) != RMT_DOUBLE && r.n < Pow256(Width(d)) &&
      LeBytes(r.n, Width(d)) == s[Offset(d)..Offset(d) + Width(d)])
    ensures r.Double? ==> Type(d) == RMT_DOUBLE && r.bits == s[Offset(d)..Offset(d) + 8]
  {
    var off := Offset(d);
    if Type(d) == RMT_UINT64 || Type(d) == RMT_UINT32 then
      LeBytesOfValue(s[off..off + Width(d)]);
      Num(LeValue(s[off..off + Width(d)]))
    else if Type(d) == RMT_DOUBLE then Double(s[off..off + 8])
    else Nil
  }

  /** The value `[]=` may store under d: one that fits the field's type. */
  predicate Storable(d: uint32, v: Value) {
    if Type(d) == RMT_UINT64 then v.Num? && v.n < UINT64_MOD
    else if Type(d) == RMT_UINT32 then v.Num? && v.n < UINT32_MOD
    else if Type(d) == RMT_DOUBLE then v.Double? && |v.bits| == 8
    else true
  }

  /** The bytes `[]=` writes at the field's offset; nothing for a type it
      does not handle. */
  function Store(d: uint32, v: Value): (r: seq<byte>)
    requires Storable(d, v)
    ensures |r| == Width(d)
  {
    Pow256Widths();
    if Type(d) == RMT_UINT64 || Type(d) == RMT_UINT32 then LeBytes(v.n, Width(d))
    else if Type(d) == RMT_DOUBLE then v.bits
    else []
  }

  /** `[]=` then `[]` gives back the stored value, and nil for a type
      neither handles. */
  lemma FetchStore(s: seq<byte>, d: uint32, v: Value)
    requires InRecord(d, |s|) && Storable(d, v)
    ensures Fetch(Splice(s, Offset(d), Store(d, v)), d) == if Width(d) == 0 then Nil else v
  {
    var t := Splice(s, Offset(d), Store(d, v));
    Pow256Widths();
    if Type(d) == RMT_UINT64 || Type(d) == RMT_UINT32 {
      assert t[Offset(d)..Offset(d) + Width(d)] == Store(d, v);
      LeStoreLoad(v.n, Width(d));
    }
  }

  /** `[]=` under d leaves every field whose bytes lie apart from d's as
      it was. */
  lemma StoreFrame(s: seq<byte>, d: uint32, v: Value, e: uint32)
    requires InRecord(d, |s|) && Storable(d, v) && InRecord(e, |s|)
    requires Offset(e) + TypeSize(e) <= Offset(d) || Offset(d) + TypeSize(d) <= Offset(e)
    ensures Fetch(Splice(s, Offset(d), Store(d, v)), e) == Fetch(s, e)
  {
    var t := Splice(s, Offset(d), Store(d, v));
    var off, w := Offset(e), Width(e);
    if w > 0 {
      assert t[off..off + w] == s[off..off + w];
    }
  }

  /** A record instance: the model it was created from and its bytes. */
  class Instance {
    const model: RecordModel
    const data: array<byte>

    /** An instance holds exactly model.size bytes. */
    predicate Valid() {
      data.Length == model.size
    }

    /** create_instance is not part of this model: the instance takes a
        buffer of the model's size. */
    constructor (m: RecordModel, buf: array<byte>)
      requires buf.Length == m.size
      ensures model == m && data == buf && Valid()
    {
      model, data := m, buf;
    }

    /** `[]`: the field under d, which must lie inside the record. */
    function Get(d: uint32): (r: Value)
      reads data
      requires Valid() && InRecord(d, model.size)
      ensures r.Nil? <==> Width(d) == 0
      ensures r.Num? ==> (Type(d) != RMT_DOUBLE && r.n < Pow256(Width(d)) &&
        LeBytes(r.n, Width(d)) == data[..][Offset(d)..Offset(d) + Width(d)])
      ensures r.Double? ==> Type(d) == RMT_DOUBLE && r.bits == data[..][Offset(d)..Offset(d) + 8]
    {
      Fetch(data[..], d)
    }

    /** `[]=`: writes v into the field under d, which must lie inside the
        record; a type code it does not handle changes nothing. */
    method Set(d: uint32, v: Value)
      requires Valid() && InRecord(d, model.size) && Storable(d, v)
      modifies data
      ensures data[..] == Splice(old(data[..]), Offset(d), Store(d, v))
      ensures Get(d) == if Width(d) == 0 then Nil else v
    {
      WriteSlot(data, Offset(d), Store(d, v));
      FetchStore(old(data[..]), d, v);
    }
  }
}
