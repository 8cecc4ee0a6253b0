/** Fixed-width unsigned integer fields, ascending or descending
    (RM_UInt<NT, order> and its six instantiations RM_UINT8 … RM_UINT64,
    RM_TIMESTAMP, RM_TIMESTAMP_DESC). A field sits at `offset` bytes from the
    start of a record; its slot holds NT in little-endian order. */
module UIntField {
  import opened Bytes
  import opened Errors
  import Conversion

  datatype Kind = UInt8 | UInt16 | UInt32 | UInt64 | Timestamp | TimestampDesc

  /** sizeof(NT). */
  function Width(k: Kind): (w: nat)
    ensures w == 1 || w == 2 || w == 4 || w == 8
  {
    match k
    case UInt8 => 1
    case UInt16 => 2
    case UInt32 => 4
    case _ => 8
  }

  /** The template's `order` flag: only the descending timestamp sorts downwards. */
  predicate Ascending(k: Kind) {
    k != TimestampDesc
  }

  /** numeric_limits<NT>::max() + 1: every slot value lies below it. */
  function Limit(k: Kind): (l: nat)
    ensures l == Pow256(Width(k)) && l > 1
  {
    Pow256(Width(k))
  }

  /** A field: its codec kind, its `_offset` in the record and its `_default`. */
  datatype Field = Field(kind: Kind, offset: uint16, default: uint64)
  {
    function Size(): nat { Width(kind) }
    /** The bytes of the record this field occupies. */
    predicate Fits(a: array<byte>) { offset + Size() <= a.Length }
  }

  /** element(a): the field's value in record a. */
  function Element(f: Field, a: array<byte>): (v: nat)
    reads a
    requires f.Fits(a)
    ensures v < Limit(f.kind)
  {
    LeValue(a[f.offset..f.offset + f.Size()])
  }

  /*** Order: cmp, betw and the sentinels ***/

  /** cmp: three-way comparison in the field's sort direction. */
  function Cmp(asc: bool, x: nat, y: nat): (r: int)
    ensures r == -1 || r == 0 || r == 1
    ensures r == 0 <==> x == y
    ensures r == -1 <==> (if asc then x < y else y < x)
  {
    if asc then (if x < y then -1 else if x > y then 1 else 0)
    else (if x > y then -1 else if x < y then 1 else 0)
  }

  /** betw: -1 when c sorts before l, 1 when it sorts after r, 0 when it is
      within [l, r] (both ends included), in the field's direction. */
  function Betw(asc: bool, c: nat, l: nat, r: nat): (res: int)
    ensures res == -1 <==> Cmp(asc, c, l) < 0
    ensures res == 1 <==> Cmp(asc, c, l) >= 0 && Cmp(asc, c, r) > 0
    ensures res == 0 <==> Cmp(asc, c, l) >= 0 && Cmp(asc, c, r) <= 0
  {
    if asc then (if c < l then -1 else if c > r then 1 else 0)
    else (if c > l then -1 else if c < r then 1 else 0)
  }

  /** Descending order is ascending order negated. */
  lemma CmpDescending(x: nat, y: nat)
    ensures Cmp(false, x, y) == -Cmp(true, x, y)
  {
  }

  /** cmp is a total order: antisymmetric and transitive. */
  lemma CmpTotalOrder(asc: bool, x: nat, y: nat, z: nat)
    ensures Cmp(asc, x, y) == -Cmp(asc, y, x)
    ensures Cmp(asc, x, y) <= 0 && Cmp(asc, y, z) <= 0 ==> Cmp(asc, x, z) <= 0
  {
  }

  /** set_min writes `order ? min : max`: the first value in sort order. */
  function SortMin(k: Kind): (m: nat)
    ensures m < Limit(k)
    ensures forall v: nat :: v < Limit(k) ==> Cmp(Ascending(k), m, v) <= 0
  {
    if Ascending(k) then 0 else Limit(k) - 1
  }

  /** set_max writes `order ? max : min`: the last value in sort order. */
  function SortMax(k: Kind): (m: nat)
    ensures m < Limit(k)
    ensures forall v: nat :: v < Limit(k) ==> Cmp(Ascending(k), v, m) <= 0
  {
    if Ascending(k) then Limit(k) - 1 else 0
  }

  /** The sentinels swap with the direction. */
  lemma SentinelsSwap(k: Kind)
    requires k == TimestampDesc
    ensures SortMin(k) == SortMax(Timestamp) && SortMax(k) == SortMin(Timestamp)
  {
  }

  /*** inc and add on values ***/

  /** inc: ++ for ascending and -- for descending, wrapping modulo 2^(8·w). */
  function IncValue(k: Kind, v: nat): (r: nat)
    ensures r < Limit(k)
  {
    if Ascending(k) then (v + 1) % Limit(k) else (v - 1) % Limit(k)
  }

  /** Away from the last value in sort order, inc yields the immediate
      successor: strictly after v, with nothing in between. */
  lemma IncIsSuccessor(k: Kind, v: nat)
    requires v < Limit(k) && v != SortMax(k)
    ensures Cmp(Ascending(k), IncValue(k, v), v) == 1
    ensures forall u: nat :: u < Limit(k) ==>
              !(Cmp(Ascending(k), v, u) < 0 && Cmp(Ascending(k), u, IncValue(k, v)) < 0)
  {
  }

  /** At the last value in sort order inc wraps to the first. */
  lemma IncWraps(k: Kind)
    ensures IncValue(k, SortMax(k)) == SortMin(k)
  {
  }

  /** add: `element(a) += element(b)` on NT, wrapping. */
  function AddValue(k: Kind, x: nat, y: nat): (r: nat)
    ensures r < Limit(k)
    ensures x + y < Limit(k) ==> r == x + y
  {
    (x + y) % Limit(k)
  }

  /*** Parsing text ***/

  /** What set_from_string parses: timestamps go through str_to_uint2 with
      three implied decimals, the other kinds through str_to_uint. */
  function TextValue(k: Kind, s: seq<byte>): nat {
    if k == Timestamp || k == TimestampDesc
    then Conversion.Rescale(Conversion.DigitsValue(s) % UINT64_MOD, Conversion.PostDigits(s), 3)
    else Conversion.DigitsValue(s) % UINT64_MOD
  }

  function TextError(k: Kind, s: seq<byte>): Err {
    if k == Timestamp || k == TimestampDesc
    then (if Conversion.ValidDecimal(s) then Ok else IntInv)
    else (if Conversion.AllDigits(s) then Ok else IntInv)
  }

  /*** The codec operations on a record buffer ***/

  /** _set_uint: a value beyond numeric_limits<NT>::max() is rejected with
      RM_ERR_INT_RANGE and the record is left alone; otherwise exactly the
      value is stored and only the field's bytes change. */
  method SetUint(f: Field, a: array<byte>, v: uint64) returns (err: Err)
    requires f.Fits(a)
    modifies a
    ensures err == if v < Limit(f.kind) then Ok else IntRange
    ensures err == Ok ==> a[..] == Splice(old(a[..]), f.offset, LeBytes(v, f.Size()))
    ensures err == Ok ==> Element(f, a) == v
    ensures err != Ok ==> a[..] == old(a[..])
  {
    if v >= Limit(f.kind) {
      return IntRange;
    }
    WriteSlot(a, f.offset, LeBytes(v, f.Size()));
    LeStoreLoad(v, f.Size());
    assert a[f.offset..f.offset + f.Size()] == LeBytes(v, f.Size());
    err := Ok;
  }

  /** set_default: the field's constructor-given default, cast to NT. */
  method SetDefault(f: Field, a: array<byte>)
    requires f.Fits(a)
    modifies a
    ensures a[..] == Splice(old(a[..]), f.offset, LeBytes(f.default, f.Size()))
    ensures Element(f, a) == f.default % Limit(f.kind)
  {
    WriteSlot(a, f.offset, LeBytes(f.default, f.Size()));
    LeRoundTrip(f.default, f.Size());
    assert a[f.offset..f.offset + f.Size()] == LeBytes(f.default, f.Size());
  }

  /** set_from_string: a parse error is returned as is and nothing is
      written; a parsed value goes through _set_uint. */
  method SetFromString(f: Field, a: array<byte>, s: seq<byte>) returns (err: Err)
    requires f.Fits(a)
    modifies a
    ensures TextError(f.kind, s) != Ok ==> err == TextError(f.kind, s) && a[..] == old(a[..])
    ensures TextError(f.kind, s) == Ok ==>
      err == (if TextValue(f.kind, s) < Limit(f.kind) then Ok else IntRange)
    ensures err == Ok ==> Element(f, a) == TextValue(f.kind, s)
    ensures err == Ok ==> a[..] == Splice(old(a[..]), f.offset, LeBytes(TextValue(f.kind, s), f.Size()))
    ensures err != Ok ==> a[..] == old(a[..])
  {
    var v: uint64, e: Err;
    if f.kind == Timestamp || f.kind == TimestampDesc {
      v, e := Conversion.StrToUint2(s, 3);
    } else {
      v, e := Conversion.StrToUint(s);
    }
    if e != Ok {
      return e;
    }
    err := SetUint(f, a, v);
  }

  /** set_from_memory: the first sizeof(NT) bytes at ptr, verbatim. */
  method SetFromMemory(f: Field, a: array<byte>, mem: seq<byte>)
    requires f.Fits(a) && |mem| >= f.Size()
    modifies a
    ensures a[..] == Splice(old(a[..]), f.offset, mem[..f.Size()])
    ensures Element(f, a) == LeValue(mem[..f.Size()])
  {
    WriteSlot(a, f.offset, mem[..f.Size()]);
    assert a[f.offset..f.offset + f.Size()] == mem[..f.Size()];
  }

  /** copy_to_memory: the slot's bytes, verbatim, to the start of mem. */
  method CopyToMemory(f: Field, a: array<byte>, mem: array<byte>)
    requires f.Fits(a) && mem.Length >= f.Size()
    modifies mem
    ensures mem[..] == Splice(old(mem[..]), 0, old(a[f.offset..f.offset + f.Size()]))
  {
    WriteSlot(mem, 0, a[f.offset..f.offset + f.Size()]);
  }

  /** set_min: the first value in the field's sort order. */
  method SetMin(f: Field, a: array<byte>)
    requires f.Fits(a)
    modifies a
    ensures a[..] == Splice(old(a[..]), f.offset, LeBytes(SortMin(f.kind), f.Size()))
    ensures Element(f, a) == SortMin(f.kind)
  {
    WriteSlot(a, f.offset, LeBytes(SortMin(f.kind), f.Size()));
    LeStoreLoad(SortMin(f.kind), f.Size());
    assert a[f.offset..f.offset + f.Size()] == LeBytes(SortMin(f.kind), f.Size());
  }

  /** set_max: the last value in the field's sort order. */
  method SetMax(f: Field, a: array<byte>)
    requires f.Fits(a)
    modifies a
    ensures a[..] == Splice(old(a[..]), f.offset, LeBytes(SortMax(f.kind), f.Size()))
    ensures Element(f, a) == SortMax(f.kind)
  {
    WriteSlot(a, f.offset, LeBytes(SortMax(f.kind), f.Size()));
    LeStoreLoad(SortMax(f.kind), f.Size());
    assert a[f.offset..f.offset + f.Size()] == LeBytes(SortMax(f.kind), f.Size());
  }

  /** inc: the sort-order successor, wrapping at the end of the range. */
  method Inc(f: Field, a: array<byte>)
    requires f.Fits(a)
    modifies a
    ensures a[..] == Splice(old(a[..]), f.offset, LeBytes(IncValue(f.kind, old(Element(f, a))), f.Size()))
    ensures Element(f, a) == IncValue(f.kind, old(Element(f, a)))
  {
    var v := IncValue(f.kind, Element(f, a));
    WriteSlot(a, f.offset, LeBytes(v, f.Size()));
    LeStoreLoad(v, f.Size());
    assert a[f.offset..f.offset + f.Size()] == LeBytes(v, f.Size());
  }

  /** add: the field of record b is added into the field of record a. */
  method Add(f: Field, a: array<byte>, b: array<byte>)
    requires f.Fits(a) && f.Fits(b)
    modifies a
    ensures Element(f, a) == AddValue(f.kind, old(Element(f, a)), old(Element(f, b)))
    ensures a[..] == Splice(old(a[..]), f.offset,
      LeBytes(AddValue(f.kind, old(Element(f, a)), old(Element(f, b))), f.Size()))
  {
    var v := AddValue(f.kind, Element(f, a), Element(f, b));
    WriteSlot(a, f.offset, LeBytes(v, f.Size()));
    LeStoreLoad(v, f.Size());
    assert a[f.offset..f.offset + f.Size()] == LeBytes(v, f.Size());
  }

  /** copy: the field of record b into the field of record a. */
  method Copy(f: Field, a: array<byte>, b: array<byte>)
    requires f.Fits(a) && f.Fits(b)
    modifies a
    ensures a[..] == Splice(old(a[..]), f.offset, old(b[f.offset..f.offset + f.Size()]))
    ensures Element(f, a) == old(Element(f, b))
  {
    WriteSlot(a, f.offset, b[f.offset..f.offset + f.Size()]);
    assert a[f.offset..f.offset + f.Size()] == old(b[f.offset..f.offset + f.Size()]);
  }

  /*** Read-only comparisons on records ***/

  /** Two slots hold the same value exactly when they hold the same bytes. */
  lemma SameValueSameBytes(s: seq<byte>, t: seq<byte>)
    requires |s| == |t|
    ensures LeValue(s) == LeValue(t) <==> s == t
  {
    if LeValue(s) == LeValue(t) {
      LeBytesOfValue(s);
      LeBytesOfValue(t);
    }
  }

  /** compare: the records' fields in sort order; 0 exactly when the two
      slots hold the same bytes. */
  function Compare(f: Field, a: array<byte>, b: array<byte>): (r: int)
    reads a, b
    requires f.Fits(a) && f.Fits(b)
    ensures r == 0 <==> a[f.offset..f.offset + f.Size()] == b[f.offset..f.offset + f.Size()]
    ensures r == -1 <==>
      if Ascending(f.kind) then Element(f, a) < Element(f, b) else Element(f, a) > Element(f, b)
    ensures r == 1 <==>
      if Ascending(f.kind) then Element(f, a) > Element(f, b) else Element(f, a) < Element(f, b)
    ensures r in {-1, 0, 1}
  {
    SameValueSameBytes(a[f.offset..f.offset + f.Size()], b[f.offset..f.offset + f.Size()]);
    Cmp(Ascending(f.kind), Element(f, a), Element(f, b))
  }

  /** compare_with_memory: as compare, with raw encoded bytes on the right. */
  function CompareWithMemory(f: Field, a: array<byte>, mem: seq<byte>): (r: int)
    reads a
    requires f.Fits(a) && |mem| >= f.Size()
    ensures r == 0 <==> a[f.offset..f.offset + f.Size()] == mem[..f.Size()]
    ensures r == -1 <==> Cmp(Ascending(f.kind), Element(f, a), LeValue(mem[..f.Size()])) == -1
    ensures r == 1 <==> Cmp(Ascending(f.kind), Element(f, a), LeValue(mem[..f.Size()])) == 1
    ensures r in {-1, 0, 1}
  {
    SameValueSameBytes(a[f.offset..f.offset + f.Size()], mem[..f.Size()]);
    Cmp(Ascending(f.kind), Element(f, a), LeValue(mem[..f.Size()]))
  }

  /** between: where record c's field lies relative to records l and r. */
  function Between(f: Field, c: array<byte>, l: array<byte>, r: array<byte>): (res: int)
    reads c, l, r
    requires f.Fits(c) && f.Fits(l) && f.Fits(r)
    ensures res == 0 <==>
      Compare(f, c, l) >= 0 && Compare(f, c, r) <= 0
    ensures res == -1 <==> Compare(f, c, l) < 0
    ensures res == 1 <==> Compare(f, c, l) >= 0 && Compare(f, c, r) > 0
    ensures res in {-1, 0, 1}
  {
    Betw(Ascending(f.kind), Element(f, c), Element(f, l), Element(f, r))
  }

  /** memory_between: as between, with the raw encoded value on the left. */
  function MemoryBetween(f: Field, mem: seq<byte>, l: array<byte>, r: array<byte>): (res: int)
    reads l, r
    requires |mem| >= f.Size() && f.Fits(l) && f.Fits(r)
    ensures res == -1 <==> Cmp(Ascending(f.kind), LeValue(mem[..f.Size()]), Element(f, l)) < 0
    ensures res == 1 <==>
      Cmp(Ascending(f.kind), LeValue(mem[..f.Size()]), Element(f, l)) >= 0 &&
      Cmp(Ascending(f.kind), LeValue(mem[..f.Size()]), Element(f, r)) > 0
    ensures res == 0 <==>
      Cmp(Ascending(f.kind), LeValue(mem[..f.Size()]), Element(f, l)) >= 0 &&
      Cmp(Ascending(f.kind), LeValue(mem[..f.Size()]), Element(f, r)) <= 0
    ensures res in {-1, 0, 1}
  {
    Betw(Ascending(f.kind), LeValue(mem[..f.Size()]), Element(f, l), Element(f, r))
  }
}
