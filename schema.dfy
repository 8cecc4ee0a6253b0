/** The Ruby side of a record model (lib/RecordModel.rb): the type table,
    descriptor packing, the offset walk of `define`, the Builder's field
    declarations, the 128-bit split accessor, the bounds of a range query
    and the descriptors of a line parser.

    Ruby integers are unbounded, so descriptors here are `nat`; they meet
    the C side's uint32 descriptors when `RecordModel.new` converts them. */
module Schema {
  import opened Bytes
  import Layout

  /** The exception classes the code can raise (a bare `raise` is a
      RuntimeError; `nil.first` is a NoMethodError, `x | nil` and
      `x | false` are TypeErrors, NUM2UINT of a too-large value is a
      RangeError). */
  datatype Exc = RuntimeError | ArgumentError | TypeError | NoMethodError | RangeError

  datatype Result<T> = Success(value: T) | Failure(error: Exc)

  datatype Option<T> = None | Some(value: T)

  /** The type symbols; any other symbol is Unknown. */
  datatype TypeName = UInt64 | UInt32 | UInt16 | UInt8 | Double | HexStr | Unknown(name: string)

  /** TYPES: the type code of each symbol, nil for the others. The low
      byte is the width of a fixed-width type and 0 for hexstr; the C
      accessors' codes are the same. */
  function Types(t: TypeName): (r: Option<nat>)
    ensures r.Some? <==> !t.Unknown?
    ensures r.Some? ==> r.value < 0x1_0000 && (r.value % 0x100 == 0 <==> t == HexStr)
    ensures t == UInt64 ==> r == Some(Layout.RMT_UINT64)
    ensures t == UInt32 ==> r == Some(Layout.RMT_UINT32)
    ensures t == Double ==> r == Some(Layout.RMT_DOUBLE)
  {
    match t
    case UInt64 => Some(0x0008)
    case UInt32 => Some(0x0004)
    case UInt16 => Some(0x0002)
    case UInt8 => Some(0x0001)
    case Double => Some(0x0108)
    case HexStr => Some(0x0200)
    case Unknown(_) => None
  }

  /** What type_size returns: a width, or `false` for a symbol TYPES does
      not know (`nil & 0xFF` is false in Ruby, and false is not 0). */
  datatype Size = Int(n: nat) | False

  /** type_size: the width of a field of type t declared with size sz. */
  function TypeSize(t: TypeName, sz: Option<nat>): (r: Result<Size>)
    ensures r.Failure? ==> r.error == RuntimeError
    ensures r.Success? <==> (if t.Unknown? then sz.None? else
      (t == HexStr ==> sz.Some?) && (t != HexStr && sz.Some? ==> sz.value == Types(t).value % 0x100))
    ensures r.Success? ==> (r.value.False? <==> t.Unknown?)
    ensures r.Success? && t == HexStr ==> r.value == Int(sz.value)
    ensures r.Success? && t != HexStr && !t.Unknown? ==> 0 < r.value.n == Types(t).value % 0x100
  {
    match Types(t)
    case None => if sz.Some? then Failure(RuntimeError) else Success(False)
    case Some(code) =>
      if code % 0x100 == 0 then
        if sz.None? then Failure(RuntimeError) else Success(Int(sz.value))
      else if sz.Some? && code % 0x100 != sz.value then Failure(RuntimeError)
      else Success(Int(code % 0x100))
  }

  /** def_descr as written: `(offset << 16) | TYPES[type] | type_size`,
      evaluated from the left, so an unknown type raises on `| nil`
      before type_size runs. */
  function DefDescrAsWritten(offset: nat, t: TypeName, sz: Option<nat>): (r: Result<nat>)
    ensures t.Unknown? ==> r == Failure(TypeError)
    ensures !t.Unknown? ==> (r.Success? <==> TypeSize(t, sz).Success?)
    ensures r.Failure? && !t.Unknown? ==> r.error == RuntimeError
  {
    match Types(t)
    case None => Failure(TypeError)
    case Some(code) =>
      match TypeSize(t, sz)
      case Failure(e) => Failure(e)
      case Success(False) => Failure(TypeError)
      case Success(Int(n)) => Success(BitOr(BitOr(offset * 0x1_0000, code), n))
  }

  /** A hexstr of 256 bytes gets a descriptor whose width byte is 0 and
      whose type is 0x300: ORing the size into the type spills into the
      type code, and the C side then lays out the record with other
      widths than the Ruby side. */
  lemma WideHexDescr()
    ensures TypeSize(HexStr, Some(256)) == Success(Int(256))
    ensures DefDescrAsWritten(0, HexStr, Some(256)) == Success(0x300)
    ensures Layout.TypeSize(0x300) == 0 && Layout.Type(0x300) != 0x0200
  {
    assert BitOr(0, 0x200) == 0x200;
    Pow2Bytes(1);
    Pow256Widths();
    assert Pow2(9) == 512;
    BitOrDisjoint(0x200, 0x100, 9);
  }

  /** def_descr with the width checked: a width that does not fit the
      descriptor's size byte raises instead of corrupting the type. */
  function DefDescr(offset: nat, t: TypeName, sz: Option<nat>): (r: Result<nat>)
    ensures r.Success? <==> !t.Unknown? && TypeSize(t, sz).Success? && TypeSize(t, sz).value.n < 0x100
    ensures r.Success? ==> r == DefDescrAsWritten(offset, t, sz)
    ensures r.Failure? ==> r.error == (if t.Unknown? then TypeError else RuntimeError)
  {
    match TypeSize(t, sz)
    case Success(Int(n)) => if n < 0x100 then DefDescrAsWritten(offset, t, sz) else Failure(RuntimeError)
    case _ => DefDescrAsWritten(offset, t, sz)
  }

  /** A descriptor packs the offset above 16 bits, the type code with the
      width in its low byte, exactly as the C side decodes it. */
  lemma DescrParts(offset: nat, t: TypeName, sz: Option<nat>)
    requires DefDescr(offset, t, sz).Success?
    ensures var d, code, n := DefDescr(offset, t, sz).value, Types(t).value, TypeSize(t, sz).value.n;
      d / 0x1_0000 == offset && d % 0x1_0000 == 0x100 * (code / 0x100) + n &&
      (d % 0x1_0000) % 0x100 == n && (d % 0x1_0000) / 0x100 == code / 0x100
  {
    var code, n := Types(t).value, TypeSize(t, sz).value.n;
    assert DefDescr(offset, t, sz).value == BitOr(BitOr(offset * 0x1_0000, code), n);
    PackOr(offset, code, n);
    PackSplit(offset, code / 0x100, n);
  }

  /** `(offset << 16) | code | n` is a sum once the width byte n replaces
      the code's low byte (0, or n already). */
  lemma PackOr(offset: nat, code: nat, n: nat)
    requires code < 0x1_0000 && n < 0x100 && (code % 0x100 == 0 || code % 0x100 == n)
    ensures BitOr(BitOr(offset * 0x1_0000, code), n) == offset * 0x1_0000 + 0x100 * (code / 0x100) + n
  {
    var hi := offset * 0x1_0000;
    Pow2Bytes(1);
    Pow2Bytes(2);
    Pow256Widths();
    DivModUnique(hi, 0x1_0000, offset, 0);
    BitOrDisjoint(hi, code, 16);
    var x := hi + code;
    assert x == 0x100 * (offset * 0x100 + code / 0x100) + code % 0x100;
    DivModUnique(x, 0x100, offset * 0x100 + code / 0x100, code % 0x100);
    LowByteOr(x, n);
  }

  lemma PackSplit(offset: nat, h: nat, n: nat)
    requires h < 0x100 && n < 0x100
    ensures var d := offset * 0x1_0000 + 0x100 * h + n;
      d / 0x1_0000 == offset && d % 0x1_0000 == 0x100 * h + n &&
      (d % 0x1_0000) % 0x100 == n && (d % 0x1_0000) / 0x100 == h
  {
    DivModUnique(offset * 0x1_0000 + 0x100 * h + n, 0x1_0000, offset, 0x100 * h + n);
    DivModUnique(0x100 * h + n, 0x100, h, n);
  }

  /** ORing a byte n into x whose low byte is 0 or already n replaces
      the low byte by n. */
  lemma LowByteOr(x: nat, n: nat)
    requires n < 0x100 && (x % 0x100 == 0 || x % 0x100 == n)
    requires Pow2(8) == 0x100
    ensures BitOr(x, n) == x - x % 0x100 + n
  {
    if x % 0x100 == 0 {
      BitOrDisjoint(x, n, 8);
    } else {
      BitOrLowBits(x, 8);
    }
  }

  /*** define: the offset walk ***/

  datatype Kind = Key | Val

  /** One `key`/`val` declaration of the Builder. */
  datatype Attr = Attr(id: string, kind: Kind, t: TypeName, sz: Option<nat>)

  /** One INFO entry: the field's id, descriptor and kind. */
  datatype Entry = Entry(id: string, desc: nat, kind: Kind)

  /** What one pass of `define` over the declarations collects. */
  datatype Walked = Walked(descs: seq<nat>, entries: seq<Entry>, offset: nat)

  /** The pass for kind k over attrs, from offset start: each declaration
      of kind k gets a descriptor at the running offset, which then
      advances by the field's width; the first error raises. */
  function Walk(attrs: seq<Attr>, k: Kind, start: nat): Result<Walked>
  {
    if attrs == [] then Success(Walked([], [], start))
    else
      match Walk(attrs[..|attrs| - 1], k, start)
      case Failure(e) => Failure(e)
      case Success(w) =>
        var a := attrs[|attrs| - 1];
        if a.kind != k then Success(w)
        else
          match DefDescr(w.offset, a.t, a.sz)
          case Failure(e) => Failure(e)
          case Success(d) =>
            Success(Walked(w.descs + [d], w.entries + [Entry(a.id, d, k)], w.offset + TypeSize(a.t, a.sz).value.n))
  }

  /** A failure in a prefix is the failure of the whole pass. */
  lemma {:induction false} WalkFails(attrs: seq<Attr>, k: Kind, start: nat, i: nat)
    requires i <= |attrs| && Walk(attrs[..i], k, start).Failure?
    ensures Walk(attrs, k, start) == Walk(attrs[..i], k, start)
    decreases |attrs| - i
  {
    if i < |attrs| {
      assert attrs[..i + 1][..i] == attrs[..i];
      WalkFails(attrs, k, start, i + 1);
    } else {
      assert attrs[..i] == attrs;
    }
  }

  /** One `b.attrs.each` pass of `define` for kind k. */
  method Pass(attrs: seq<Attr>, k: Kind, start: nat) returns (r: Result<Walked>)
    ensures r == Walk(attrs, k, start)
  {
    var descs: seq<nat>, entries: seq<Entry>, offset: nat := [], [], start;
    var i := 0;
    assert attrs[..0] == [];
    while i < |attrs|
      invariant 0 <= i <= |attrs|
      invariant Walk(attrs[..i], k, start) == Success(Walked(descs, entries, offset))
    {
      var a := attrs[i];
      assert attrs[..i + 1][..i] == attrs[..i];
      if a.kind == k {
        var desc := DefDescr(offset, a.t, a.sz);
        if desc.Failure? {
          WalkFails(attrs, k, start, i + 1);
          return Failure(desc.error);
        }
        offset := offset + TypeSize(a.t, a.sz).value.n;
        descs := descs + [desc.value];
        entries := entries + [Entry(a.id, desc.value, k)];
      }
      i := i + 1;
    }
    assert attrs[..i] == attrs;
    r := Success(Walked(descs, entries, offset));
  }

  /** NUM2UINT accepts each descriptor. */
  predicate Words(ds: seq<nat>) {
    forall j :: 0 <= j < |ds| ==> ds[j] < UINT32_MOD
  }

  function ToWords(ds: seq<nat>): (ws: seq<uint32>)
    requires Words(ds)
    ensures |ws| == |ds| && forall j :: 0 <= j < |ds| ==> ws[j] == ds[j]
  {
    seq(|ds|, j requires 0 <= j < |ds| => ds[j] as uint32)
  }

  /** The descriptors a pass builds are exactly what initialize expects:
      each carries the offset the C walk reaches, so initialize accepts
      and stores them unchanged, and the pass ends where the C walk does. */
  lemma {:induction false} WalkPlaced(attrs: seq<Attr>, k: Kind, start: nat)
    requires start < UINT32_MOD && Walk(attrs, k, start).Success?
    requires Words(Walk(attrs, k, start).value.descs)
    ensures var w := Walk(attrs, k, start).value;
      w.offset < UINT32_MOD && w.offset == start + Layout.Widths(ToWords(w.descs)) &&
      Layout.Placed(ToWords(w.descs), start)
    decreases |attrs|
  {
    if attrs != [] {
      var init, a := attrs[..|attrs| - 1], attrs[|attrs| - 1];
      WalkLast(attrs, k, start);
      var v := Walk(init, k, start).value;
      if a.kind == k {
        var d := DefDescr(v.offset, a.t, a.sz).value;
        WordsPrefix(v.descs, d);
        WalkPlaced(init, k, start);
        DescrParts(v.offset, a.t, a.sz);
        PlacedSnoc(v.descs, start, d, v.offset);
      } else {
        WalkPlaced(init, k, start);
      }
    }
  }

  /** How the last declaration extends a successful pass. */
  lemma WalkLast(attrs: seq<Attr>, k: Kind, start: nat)
    requires attrs != [] && Walk(attrs, k, start).Success?
    ensures var init, a := attrs[..|attrs| - 1], attrs[|attrs| - 1];
      Walk(init, k, start).Success? &&
      var v, w := Walk(init, k, start).value, Walk(attrs, k, start).value;
      (a.kind != k ==> w == v) &&
      (a.kind == k ==> (DefDescr(v.offset, a.t, a.sz).Success? &&
        w.descs == v.descs + [DefDescr(v.offset, a.t, a.sz).value] &&
        w.offset == v.offset + TypeSize(a.t, a.sz).value.n))
  {
  }

  lemma WordsPrefix(ds: seq<nat>, d: nat)
    requires Words(ds + [d])
    ensures Words(ds) && d < UINT32_MOD
  {
    assert forall j :: 0 <= j < |ds| ==> ds[j] == (ds + [d])[j];
    assert d == (ds + [d])[|ds|];
  }

  /** A descriptor packed at the end of a placed list keeps it placed. */
  lemma PlacedSnoc(ds: seq<nat>, start: nat, d: nat, offset: nat)
    requires Words(ds + [d]) && Words(ds) && start < UINT32_MOD && d < UINT32_MOD
    requires Layout.Placed(ToWords(ds), start) && offset == start + Layout.Widths(ToWords(ds))
    requires d / 0x1_0000 == offset && (d % 0x1_0000) % 0x100 < 0x100
    ensures var n := (d % 0x1_0000) % 0x100;
      offset + n < UINT32_MOD && offset + n == start + Layout.Widths(ToWords(ds + [d])) &&
      Layout.Placed(ToWords(ds + [d]), start)
  {
    var ws := ToWords(ds);
    assert ToWords(ds + [d]) == ws + [d as uint32];
    Layout.DescriptorParts(d as uint32);
    Layout.AppendPlaced(ws, start as uint32, d as uint32);
  }

  /** What `define` hands to the C side and keeps as INFO. */
  datatype Defined = Defined(keys: seq<uint32>, vals: seq<uint32>, info: seq<Entry>, model: Layout.RecordModel)

  /** The two passes of `define`, keys from offset 0 and values from
      where the keys end, and the NUM2UINT check initialize applies. */
  function Passes(attrs: seq<Attr>): Result<(Walked, Walked)>
  {
    match Walk(attrs, Key, 0)
    case Failure(e) => Failure(e)
    case Success(kw) =>
      match Walk(attrs, Val, kw.offset)
      case Failure(e) => Failure(e)
      case Success(vw) =>
        if Words(kw.descs) && Words(vw.descs) then Success((kw, vw)) else Failure(RangeError)
  }

  /** define, without the generated accessor methods: lays out all key
      fields and then all value fields, builds the C model from the
      descriptors and the INFO entries in declaration order. */
  method Define(attrs: seq<Attr>) returns (r: Result<Defined>)
    requires DistinctIds(attrs)
    ensures r.Success? <==> Passes(attrs).Success?
    ensures r.Failure? ==> r.error == Passes(attrs).error
    ensures r.Success? ==>
      var kw, vw, m := Passes(attrs).value.0, Passes(attrs).value.1, r.value.model;
      r.value.keys == ToWords(kw.descs) && r.value.vals == ToWords(vw.descs) &&
      r.value.info == kw.entries + vw.entries &&
      m.keyCount == |r.value.keys| &&
      m.items[..] == r.value.keys + [0] + r.value.vals + [0] &&
      m.keysize == kw.offset && m.size == vw.offset &&
      (forall j :: 0 <= j < |r.value.keys| ==> Layout.Offset(r.value.keys[j]) == Layout.Place(r.value.keys, 0, j)) &&
      (forall j :: 0 <= j < |r.value.vals| ==> Layout.Offset(r.value.vals[j]) == Layout.Place(r.value.vals, m.keysize, j))
  {
    var kw := Pass(attrs, Key, 0);
    if kw.Failure? {
      return Failure(kw.error);
    }
    var vw := Pass(attrs, Val, kw.value.offset);
    if vw.Failure? {
      return Failure(vw.error);
    }
    if !(Words(kw.value.descs) && Words(vw.value.descs)) {
      return Failure(RangeError);
    }
    WalkPlaced(attrs, Key, 0);
    WalkPlaced(attrs, Val, kw.value.offset);
    var keys, vals := ToWords(kw.value.descs), ToWords(vw.value.descs);
    Layout.PlacedAccepted(keys, 0);
    Layout.PlacedAccepted(vals, kw.value.offset as uint32);
    Layout.AdvanceIsSum(keys, 0);
    Layout.AdvanceIsSum(vals, kw.value.offset as uint32);
    var m := new Layout.RecordModel(keys, vals);
    r := Success(Defined(keys, vals, kw.value.entries + vw.value.entries, m));
  }

  /** Every field accessor `define` generates passes the C side's bound
      check: its bytes lie inside the record. */
  lemma FieldsInRecord(ds: seq<uint32>, start: uint32, j: nat)
    requires Layout.Placed(ds, start) && start + Layout.Widths(ds) < UINT32_MOD && j < |ds|
    ensures Layout.InRecord(ds[j], start + Layout.Widths(ds))
  {
    Layout.Contiguous(ds, start, j);
    Layout.WidthsStep(ds, j);
    Layout.WidthsPrefix(ds, j + 1);
  }

  /*** Builder ***/

  /** `@attrs.assoc(id)`: is id declared already? */
  predicate Declared(attrs: seq<Attr>, id: string) {
    exists j :: 0 <= j < |attrs| && attrs[j].id == id
  }

  predicate DistinctIds(attrs: seq<Attr>) {
    forall i, j :: 0 <= i < j < |attrs| ==> attrs[i].id != attrs[j].id
  }

  /** The acc kinds; only uint64_x2 is handled. */
  datatype AccType = UInt64X2 | OtherAcc(name: string)

  /** A uint64_x2 accessor over the fields named hi and lo (nil when
      fewer arguments were given). */
  datatype Accessor = X2(hi: Option<string>, lo: Option<string>)

  datatype Status = Done | Raised(error: Exc)

  function Arg(args: seq<Option<string>>, i: nat): Option<string> {
    if i < |args| then args[i] else None
  }

  class Builder {
    var attrs: seq<Attr>
    var accs: map<string, Accessor>

    /** No field id is declared twice. */
    predicate Valid()
      reads this
    {
      DistinctIds(attrs)
    }

    constructor ()
      ensures attrs == [] && accs == map[] && Valid()
    {
      attrs, accs := [], map[];
    }

    /** `key`: declares a key field, raising if the id is taken. */
    method Key(id: string, t: TypeName, sz: Option<nat>) returns (s: Status)
      requires Valid()
      modifies this
      ensures Valid() && accs == old(accs)
      ensures s == if Declared(old(attrs), id) then Raised(RuntimeError) else Done
      ensures attrs == if s.Done? then old(attrs) + [Attr(id, Kind.Key, t, sz)] else old(attrs)
    {
      if exists j :: 0 <= j < |attrs| && attrs[j].id == id {
        return Raised(RuntimeError);
      }
      attrs := attrs + [Attr(id, Kind.Key, t, sz)];
      s := Done;
    }

    /** `val`: declares a value field, raising if the id is taken. */
    method Val(id: string, t: TypeName, sz: Option<nat>) returns (s: Status)
      requires Valid()
      modifies this
      ensures Valid() && accs == old(accs)
      ensures s == if Declared(old(attrs), id) then Raised(RuntimeError) else Done
      ensures attrs == if s.Done? then old(attrs) + [Attr(id, Kind.Val, t, sz)] else old(attrs)
    {
      if exists j :: 0 <= j < |attrs| && attrs[j].id == id {
        return Raised(RuntimeError);
      }
      attrs := attrs + [Attr(id, Kind.Val, t, sz)];
      s := Done;
    }

    /** `acc`: registers a uint64_x2 accessor over two fields; a third
        non-nil argument or any other kind raises. */
    method Acc(id: string, t: AccType, args: seq<Option<string>>) returns (s: Status)
      modifies this
      ensures attrs == old(attrs)
      ensures s.Done? <==> t == UInt64X2 && Arg(args, 2).None?
      ensures s.Raised? ==> s.error == RuntimeError
      ensures accs == if s.Done? then old(accs)[id := X2(Arg(args, 0), Arg(args, 1))] else old(accs)
    {
      if t != UInt64X2 || Arg(args, 2).Some? {
        return Raised(RuntimeError);
      }
      accs := accs[id := X2(Arg(args, 0), Arg(args, 1))];
      s := Done;
    }
  }

  /*** The uint64_x2 accessor ***/

  /** The reader: `(hi << 64) | lo` over two uint64 fields, which is the
      128-bit number whose high half is hi and whose low half is lo. */
  function X2Get(hi: uint64, lo: uint64): (v: nat)
    ensures v == hi * UINT64_MOD + lo < UINT64_MOD * UINT64_MOD
  {
    Pow2Bytes(8);
    Pow256Widths();
    DivModUnique(hi * UINT64_MOD, Pow2(64), hi, 0);
    BitOrDisjoint(hi * UINT64_MOD, lo, 64);
    BitOr(hi * UINT64_MOD, lo)
  }

  /** The writer: `(v >> 64) & mask` and `v & mask` (Ruby's shift floors,
      its `&` takes two's-complement bits, so both are floor division and
      remainder). The two halves are the high and low 64 bits of v's
      residue modulo 2^128. */
  function X2Set(v: int): (parts: (uint64, uint64))
    ensures parts.0 * UINT64_MOD + parts.1 == v % (UINT64_MOD * UINT64_MOD)
  {
    var hi, lo := (v / UINT64_MOD) % UINT64_MOD, v % UINT64_MOD;
    var q := v / UINT64_MOD;
    assert v == UINT64_MOD * q + lo;
    assert q == UINT64_MOD * (q / UINT64_MOD) + hi;
    assert v == (UINT64_MOD * UINT64_MOD) * (q / UINT64_MOD) + (hi * UINT64_MOD + lo);
    DivModUnique(v, UINT64_MOD * UINT64_MOD, q / UINT64_MOD, hi * UINT64_MOD + lo);
    (hi, lo)
  }

  /** The reader sees the writer's value modulo 2^128 … */
  lemma X2RoundTrip(v: int)
    ensures X2Get(X2Set(v).0, X2Set(v).1) == v % (UINT64_MOD * UINT64_MOD)
  {
  }

  /** … and the writer splits the reader's value back into the same two
      fields. */
  lemma X2Join(hi: uint64, lo: uint64)
    ensures X2Set(X2Get(hi, lo)) == (hi, lo)
  {
    var v := X2Get(hi, lo);
    DivModUnique(v, UINT64_MOD, hi, lo);
    DivModUnique(hi, UINT64_MOD, 0, hi);
  }

  /*** build_query ***/

  /** A query value for one key: a point or a Range. */
  datatype QArg = Point(v: int) | Range(first: int, last: int, excludeEnd: bool)

  /** What a query bound instance holds in one key field: the field's
      minimum or maximum (set_min_or_max) or a given value. */
  datatype Bound = Min | Max | Exact(v: int)

  function Lower(q: QArg): Bound {
    if q.Range? then Exact(q.first) else Exact(q.v)
  }

  function Upper(q: QArg): Bound {
    if q.Range? then Exact(q.last) else Exact(q.v)
  }

  predicate IsKeyId(info: seq<Entry>, id: string) {
    exists j :: 0 <= j < |info| && info[j].kind == Key && info[j].id == id
  }

  lemma KeyIdSnoc(info: seq<Entry>, i: nat)
    requires i < |info|
    ensures forall id :: IsKeyId(info[..i + 1], id) <==>
      (IsKeyId(info[..i], id) || (info[i].kind == Key && info[i].id == id))
  {
    forall id ensures IsKeyId(info[..i + 1], id) <==>
      (IsKeyId(info[..i], id) || (info[i].kind == Key && info[i].id == id))
    {
      if IsKeyId(info[..i + 1], id) {
        var j :| 0 <= j < i + 1 && info[..i + 1][j].kind == Key && info[..i + 1][j].id == id;
        if j < i {
          assert info[..i][j] == info[j];
        }
      }
      if IsKeyId(info[..i], id) {
        var j :| 0 <= j < i && info[..i][j].kind == Key && info[..i][j].id == id;
        assert info[..i + 1][j] == info[j];
      }
      if info[i].kind == Key && info[i].id == id {
        assert info[..i + 1][i] == info[i];
      }
    }
  }

  /** build_query raises exactly when a key's query is an exclusive Range
      or the query names something that is not a key. */
  predicate QueryOk(info: seq<Entry>, query: map<string, QArg>) {
    (forall j :: 0 <= j < |info| && info[j].kind == Key && info[j].id in query ==>
      !(query[info[j].id].Range? && query[info[j].id].excludeEnd)) &&
    (forall id :: id in query ==> IsKeyId(info, id))
  }

  /** The from and to bounds, keyed by descriptor, after the key entries
      of info have been visited in order. */
  function QueryBounds(info: seq<Entry>, query: map<string, QArg>): (map<nat, Bound>, map<nat, Bound>)
  {
    if info == [] then (map[], map[])
    else
      var b := QueryBounds(info[..|info| - 1], query);
      var e := info[|info| - 1];
      if e.kind != Key then b
      else if e.id in query then (b.0[e.desc := Lower(query[e.id])], b.1[e.desc := Upper(query[e.id])])
      else (b.0[e.desc := Min], b.1[e.desc := Max])
  }

  /** build_query: the two bound instances of a range query over the key
      fields, in INFO order. */
  method BuildQuery(info: seq<Entry>, query: map<string, QArg>) returns (r: Result<(map<nat, Bound>, map<nat, Bound>)>)
    ensures r.Success? <==> QueryOk(info, query)
    ensures r.Failure? ==> r.error == ArgumentError
    ensures r.Success? ==> r.value == QueryBounds(info, query)
  {
    var from: map<nat, Bound>, to: map<nat, Bound> := map[], map[];
    var used: set<string> := {};
    var i := 0;
    assert info[..0] == [];
    while i < |info|
      invariant 0 <= i <= |info|
      invariant (from, to) == QueryBounds(info[..i], query)
      invariant forall j :: 0 <= j < i && info[j].kind == Key && info[j].id in query ==>
        !(query[info[j].id].Range? && query[info[j].id].excludeEnd)
      invariant forall id :: id in used <==> id in query && IsKeyId(info[..i], id)
    {
      var e := info[i];
      assert info[..i + 1][..i] == info[..i];
      KeyIdSnoc(info, i);
      if e.kind == Key {
        if e.id in query {
          used := used + {e.id};
          var q := query[e.id];
          if q.Range? && q.excludeEnd {
            return Failure(ArgumentError);
          }
          from, to := from[e.desc := Lower(q)], to[e.desc := Upper(q)];
        } else {
          from, to := from[e.desc := Min], to[e.desc := Max];
        }
      }
      i := i + 1;
    }
    assert info[..i] == info;
    if !(forall id | id in query :: id in used) {
      return Failure(ArgumentError);
    }
    r := Success((from, to));
  }

  /** The bound a key field ends up with: min and max when the query does
      not name it, the point for both bounds when it names a point, the
      Range's ends otherwise — unless a later key entry shares its
      descriptor and overwrites it. */
  lemma {:induction false} QueryFieldBounds(info: seq<Entry>, query: map<string, QArg>, j: nat)
    requires j < |info| && info[j].kind == Key
    requires forall m :: j < m < |info| && info[m].kind == Key ==> info[m].desc != info[j].desc
    ensures var b, e := QueryBounds(info, query), info[j];
      e.desc in b.0 && e.desc in b.1 &&
      (e.id !in query ==> b.0[e.desc] == Min && b.1[e.desc] == Max) &&
      (e.id in query && query[e.id].Point? ==> b.0[e.desc] == b.1[e.desc] == Exact(query[e.id].v)) &&
      (e.id in query && query[e.id].Range? ==>
        b.0[e.desc] == Exact(query[e.id].first) && b.1[e.desc] == Exact(query[e.id].last))
    decreases |info|
  {
    if j < |info| - 1 {
      QueryFieldBounds(info[..|info| - 1], query, j);
    }
  }

  /** Both bounds hold a value for exactly the key fields. */
  lemma {:induction false} QueryDomain(info: seq<Entry>, query: map<string, QArg>)
    ensures var b := QueryBounds(info, query);
      b.0.Keys == b.1.Keys == set j | 0 <= j < |info| && info[j].kind == Key :: info[j].desc
    decreases |info|
  {
    if info != [] {
      var init := info[..|info| - 1];
      QueryDomain(init, query);
      assert forall j :: 0 <= j < |init| ==> init[j] == info[j];
    }
  }

  /*** def_parse_descr ***/

  /** An argument of def_parse_descr: nil, a field symbol, an
      `[id, type, extra]` array, or anything else. */
  datatype ParseArg = Skip | Named(id: string) | Tuple(id: string, t: string, extra: nat) | OtherArg

  /** `__info[id].first`: the descriptor of the first entry named id. */
  function Find(info: seq<Entry>, id: string): (r: Option<nat>)
    ensures r.Some? <==> exists j :: 0 <= j < |info| && info[j].id == id
    ensures r.Some? ==> exists j :: 0 <= j < |info| && info[j].id == id && info[j].desc == r.value
  {
    if info == [] then None
    else if info[0].id == id then Some(info[0].desc)
    else
      var r := Find(info[1..], id);
      assert forall j :: 1 <= j < |info| ==> info[1..][j - 1] == info[j];
      r
  }

  /** The parse descriptor of one argument: 0 to skip, a field's own
      descriptor, or a fixint descriptor over a field; a name that is not
      declared raises on `nil.first`, any other argument ArgumentError. */
  function ParseDescr(arg: ParseArg, info: seq<Entry>): (r: Result<nat>)
    ensures r.Success? <==> (arg.Skip? || (arg.Named? && Find(info, arg.id).Some?) ||
      (arg.Tuple? && arg.t == "fixint" && Find(info, arg.id).Some?))
    ensures r.Failure? ==> (r.error == ArgumentError <==> arg.OtherArg? || (arg.Tuple? && arg.t != "fixint"))
    ensures r.Failure? ==> r.error in {ArgumentError, NoMethodError}
    ensures arg.Skip? ==> r == Success(0)
    ensures arg.Named? && r.Success? ==> r.value == Find(info, arg.id).value
    ensures arg.Tuple? && r.Success? && Find(info, arg.id).value < UINT32_MOD ==>
      r.value / UINT32_MOD == arg.extra * 0x100 + 1 && r.value % UINT32_MOD == Find(info, arg.id).value
  {
    match arg
    case Skip => Success(0)
    case Named(id) =>
      if Find(info, id).Some? then Success(Find(info, id).value) else Failure(NoMethodError)
    case Tuple(id, t, extra) =>
      if t != "fixint" then Failure(ArgumentError)
      else if Find(info, id).None? then Failure(NoMethodError)
      else
        var desc := Find(info, id).value;
        if desc < UINT32_MOD then FixintParts(extra, desc); Success(BitOr(BitOr(extra * 0x100, 1) * UINT32_MOD, desc))
        else Success(BitOr(BitOr(extra * 0x100, 1) * UINT32_MOD, desc))
    case OtherArg => Failure(ArgumentError)
  }

  /** A fixint descriptor keeps the field's descriptor in its low 32 bits
      and `(extra << 8) | 1` above them. */
  lemma FixintParts(extra: nat, desc: nat)
    requires desc < UINT32_MOD
    ensures var r := BitOr(BitOr(extra * 0x100, 1) * UINT32_MOD, desc);
      r / UINT32_MOD == extra * 0x100 + 1 && r % UINT32_MOD == desc
  {
    Pow2Bytes(1);
    Pow2Bytes(4);
    Pow256Widths();
    DivModUnique(extra * 0x100, 0x100, extra, 0);
    BitOrDisjoint(extra * 0x100, 1, 8);
    var hi := (extra * 0x100 + 1) * UINT32_MOD;
    DivModUnique(hi, UINT32_MOD, extra * 0x100 + 1, 0);
    BitOrDisjoint(hi, desc, 32);
    DivModUnique(hi + desc, UINT32_MOD, extra * 0x100 + 1, desc);
  }

  /** def_parse_descr: maps every argument, raising at the first one that
      fails. */
  function DefParseDescr(args: seq<ParseArg>, info: seq<Entry>): (r: Result<seq<nat>>)
    ensures r.Success? <==> forall j :: 0 <= j < |args| ==> ParseDescr(args[j], info).Success?
    ensures r.Success? ==> (|r.value| == |args| &&
      forall j :: 0 <= j < |args| ==> r.value[j] == ParseDescr(args[j], info).value)
    ensures r.Failure? ==> exists j :: (0 <= j < |args| && ParseDescr(args[j], info) == Failure(r.error) &&
      forall k :: 0 <= k < j ==> ParseDescr(args[k], info).Success?)
  {
    if args == [] then Success([])
    else
      match ParseDescr(args[0], info)
      case Failure(e) => Failure(e)
      case Success(d) =>
        var rest := DefParseDescr(args[1..], info);
        assert forall j :: 1 <= j < |args| ==> args[1..][j - 1] == args[j];
        match rest
        case Failure(e) => Failure(e)
        case Success(ds) => Success([d] + ds)
  }
}
