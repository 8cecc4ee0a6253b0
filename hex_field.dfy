/** Hex-string fields (RM_HEXSTR): a string field of `size` bytes whose text
    form is 2·size hex digits, right-aligned, upper case on output and either
    case on input. */
module HexField {
  import opened Bytes
  import opened Errors
  import opened StringField

  type nibble = x: int | 0 <= x < 16

  predicate IsHexChar(c: byte) {
    ('0' as int <= c <= '9' as int) || ('a' as int <= c <= 'f' as int) || ('A' as int <= c <= 'F' as int)
  }

  predicate AllHex(s: seq<byte>) {
    forall i :: 0 <= i < |s| ==> IsHexChar(s[i])
  }

  /** from_hex_digit: the digit's value, or -1 for a non-hex character. */
  function FromHexDigit(c: byte): (d: int)
    ensures -1 <= d < 16
    ensures d == -1 <==> !IsHexChar(c)
  {
    if '0' as int <= c <= '9' as int then c - '0' as int
    else if 'a' as int <= c <= 'f' as int then c - 'a' as int + 10
    else if 'A' as int <= c <= 'F' as int then c - 'A' as int + 10
    else -1
  }

  /** to_hex_digit: '0'…'9', 'A'…'F' for 0…15, '#' beyond. Reading its
      output back gives the digit again. */
  function ToHexDigit(v: byte): (c: byte)
    ensures v < 16 ==> IsHexChar(c) && FromHexDigit(c) == v
    ensures v < 16 ==> !('a' as int <= c <= 'f' as int)
    ensures v >= 16 ==> c == '#' as int
  {
    if v <= 9 then '0' as int + v
    else if 10 <= v <= 15 then 'A' as int + v - 10
    else '#' as int
  }

  /** The upper-case spelling of a hex character: what the field prints
      back for a digit it parsed. */
  function Canonical(s: seq<byte>): (r: seq<byte>)
    requires AllHex(s)
    ensures |r| == |s|
    ensures forall i :: 0 <= i < |s| ==> r[i] == ToHexDigit(FromHexDigit(s[i]))
  {
    seq(|s|, i requires 0 <= i < |s| => ToHexDigit(FromHexDigit(s[i])))
  }

  /** Digit values of an all-hex string. */
  function Nibbles(s: seq<byte>): (r: seq<nibble>)
    requires AllHex(s)
    ensures |r| == |s|
    ensures forall i :: 0 <= i < |s| ==> r[i] == FromHexDigit(s[i])
  {
    seq(|s|, i requires 0 <= i < |s| => FromHexDigit(s[i]) as nibble)
  }

  /** Byte j of a slot into which the digits p have been shifted from the
      left, two per byte: both nibbles when both have been read, only the
      first (still in the low half) when one has, 0 otherwise. */
  function PackByte(p: seq<nibble>, j: nat): byte {
    if 2 * j + 1 < |p| then 16 * (p[2 * j] as int) + p[2 * j + 1] as int
    else if 2 * j < |p| then p[2 * j] as int
    else 0
  }

  function Packed(p: seq<nibble>, n: nat): (r: seq<byte>)
    ensures |r| == n && forall j :: 0 <= j < n ==> r[j] == PackByte(p, j)
  {
    seq(n, (j: int) requires 0 <= j => PackByte(p, j))
  }

  /** Index of the first non-hex character, |s| when there is none. */
  function FirstNonHex(s: seq<byte>): (i: nat)
    ensures i <= |s| && AllHex(s[..i])
    ensures i < |s| ==> !IsHexChar(s[i])
    ensures i == |s| <==> AllHex(s)
  {
    if s == [] then 0
    else if !IsHexChar(s[0]) then 0
    else
      var i := FirstNonHex(s[1..]);
      assert s[..i + 1] == [s[0]] + s[1..][..i];
      assert i == |s| - 1 ==> s[1..][..i] == s[1..];
      i + 1
  }

  /** The field's text form (to_ruby): two upper-case hex digits per byte,
      high nibble first. */
  function HexText(s: seq<byte>): (r: seq<byte>)
    ensures |r| == 2 * |s|
    ensures forall j :: 0 <= j < |s| ==> r[2 * j] == ToHexDigit(s[j] / 16) && r[2 * j + 1] == ToHexDigit(s[j] % 16)
  {
    seq(2 * |s|, q requires 0 <= q < 2 * |s| =>
      if q % 2 == 0 then ToHexDigit(s[q / 2] / 16) else ToHexDigit(s[q / 2] % 16))
  }

  /** The slot parse_hexstring leaves for text of at most 2·n characters:
      the digits before the first non-hex character, right-aligned as if
      the whole text were valid. */
  function ParsedSlot(str: seq<byte>, n: nat): (r: seq<byte>)
    requires |str| <= 2 * n
    ensures |r| == n
  {
    Shifted(str, FirstNonHex(str), n)
  }

  /** The slot after the first i characters of str have been shifted in,
      one digit at a time as parse_hexstring's loop does: digit i lands in
      byte (2·n − |str| + i) / 2. ShiftedPacked says what it amounts to. */
  function Shifted(str: seq<byte>, i: nat, n: nat): (r: seq<byte>)
    requires i <= |str| <= 2 * n && AllHex(str[..i])
    ensures |r| == n
    decreases i
  {
    if i == 0 then Zeros(n)
    else
      PrefixHex(str, i - 1);
      var prev := Shifted(str, i - 1, n);
      var idx := (2 * n - |str| + i - 1) / 2;
      prev[idx := ShiftDigit(prev[idx], FromHexDigit(str[i - 1]))]
  }

  /** A prefix one shorter of an all-hex prefix is all hex, and so is the
      character between them. */
  lemma PrefixHex(str: seq<byte>, i: nat)
    requires i < |str| && AllHex(str[..i + 1])
    ensures AllHex(str[..i]) && IsHexChar(str[i])
  {
    assert str[..i + 1][i] == str[i];
    assert forall j :: 0 <= j < i ==> str[..i][j] == str[..i + 1][j];
  }

  /** The slot after i digits is the digits read so far, right-aligned
      behind 2·n − |str| zero digits, packed two per byte. */
  lemma {:induction false} ShiftedPacked(str: seq<byte>, i: nat, n: nat)
    requires i <= |str| <= 2 * n && AllHex(str[..i])
    ensures Shifted(str, i, n) == Packed(Zeros(2 * n - |str|) + Nibbles(str[..i]), n)
    decreases i
  {
    var iOff := 2 * n - |str|;
    if i == 0 {
      assert str[..0] == [];
      assert Zeros(iOff) + Nibbles(str[..0]) == Zeros(iOff);
    } else {
      PrefixHex(str, i - 1);
      ShiftedPacked(str, i - 1, n);
      var ds := Zeros(iOff) + Nibbles(str[..i - 1]);
      var d := FromHexDigit(str[i - 1]) as nibble;
      NextDigit(str, i - 1, iOff);
      ShiftIn(ds, d, n);
      var p := Packed(ds, n);
      assert Shifted(str, i, n) == p[|ds| / 2 := ShiftDigit(p[|ds| / 2], d)];
    }
  }

  /** parse_hexstring into the field's slot (set_from_string, set_from_ruby):
      text longer than 2·size is rejected with RM_ERR_HEX_INV_SIZE and the
      slot left alone; otherwise the slot is zeroed and the digits are
      shifted in right-aligned, stopping with RM_ERR_HEX_INV_DIGIT at the
      first non-hex character. */
  method ParseHexString(f: Field, a: array<byte>, str: seq<byte>) returns (err: Err)
    requires f.Fits(a)
    modifies a
    ensures |str| > 2 * f.size ==> err == HexInvSize && a[..] == old(a[..])
    ensures |str| <= 2 * f.size ==>
      && err == (if AllHex(str) then Ok else HexInvDigit)
      && a[..] == Splice(old(a[..]), f.offset, ParsedSlot(str, f.size))
  {
    var maxSz := 2 * f.size as int;
    if |str| > maxSz {
      return HexInvSize;
    }
    WriteSlot(a, f.offset, Zeros(f.size));
    var i := ShiftDigits(f, a, str);
    SpliceOver(old(a[..]), f.offset, Zeros(f.size), ParsedSlot(str, f.size));
    err := if i == |str| then Ok else HexInvDigit;
  }

  /** The digit loop of parse_hexstring, over a slot that is already
      zeroed: returns where it stopped. */
  method ShiftDigits(f: Field, a: array<byte>, str: seq<byte>) returns (i: nat)
    requires f.Fits(a) && |str| <= 2 * f.size
    requires a[f.offset..f.offset + f.size] == Zeros(f.size)
    modifies a
    ensures (i == |str|) == AllHex(str)
    ensures a[..] == Splice(old(a[..]), f.offset, ParsedSlot(str, f.size))
  {
    ZeroSlot(a[..], f.offset, f.size);
    i := ShiftLoop(f, a, str);
    StopsAt(str, f.size, i);
  }

  /** The loop itself: i is where it stopped, and the slot holds the
      digits before i shifted in. */
  method ShiftLoop(f: Field, a: array<byte>, str: seq<byte>) returns (i: nat)
    requires f.Fits(a) && |str| <= 2 * f.size
    requires forall k :: f.offset <= k < f.offset + f.size ==> a[k] == 0
    modifies a
    ensures i <= |str| && AllHex(str[..i]) && (i < |str| ==> !IsHexChar(str[i]))
    ensures a[..] == Splice(old(a[..]), f.offset, Shifted(str, i, f.size))
  {
    var off, n := f.offset as int, f.size as int;
    var iOff := 2 * n - |str|;
    assert str[..0] == [];
    i := 0;
    ghost var cur := Zeros(n);
    while i < |str| && FromHexDigit(str[i]) >= 0
      invariant 0 <= i <= |str| && AllHex(str[..i])
      invariant cur == Shifted(str, i, n)
      invariant forall k :: 0 <= k < a.Length ==>
        a[k] == if off <= k < off + n then cur[k - off] else old(a[k])
    {
      var digit := FromHexDigit(str[i]);
      var idx := (iOff + i) / 2;
      ShiftedNext(str, i, n, cur);
      var b := ShiftDigit(a[off + idx], digit);
      a[off + idx] := b;
      cur := cur[idx := b];
      i := i + 1;
    }
    SpliceOf(old(a[..]), a[..], off, cur);
  }

  lemma ZeroSlot(s: seq<byte>, off: nat, n: nat)
    requires off + n <= |s| && s[off..off + n] == Zeros(n)
    ensures forall k :: off <= k < off + n ==> s[k] == 0
  {
    assert forall k :: off <= k < off + n ==> s[k] == s[off..off + n][k - off];
  }

  /** One more digit: the byte it lands on is shifted, nothing else. */
  lemma ShiftedNext(str: seq<byte>, i: nat, n: nat, cur: seq<byte>)
    requires i < |str| <= 2 * n && AllHex(str[..i]) && IsHexChar(str[i])
    requires cur == Shifted(str, i, n)
    ensures AllHex(str[..i + 1])
    ensures var idx := (2 * n - |str| + i) / 2;
      Shifted(str, i + 1, n) == cur[idx := ShiftDigit(cur[idx], FromHexDigit(str[i]))]
  {
    NextDigit(str, i, 0);
    PrefixHex(str, i);
    assert str[..i + 1][..i] == str[..i];
  }

  /** The loop ends at the first non-hex character, or at the end, with
      the slot it has packed so far being ParsedSlot. */
  lemma StopsAt(str: seq<byte>, n: nat, i: nat)
    requires |str| <= 2 * n && i <= |str| && AllHex(str[..i])
    requires i < |str| ==> !IsHexChar(str[i])
    ensures AllHex(str) <==> i == |str|
    ensures ParsedSlot(str, n) == Shifted(str, i, n)
  {
    FirstNonHexAt(str, i);
  }

  lemma NextDigit(str: seq<byte>, i: nat, iOff: nat)
    requires i < |str| && AllHex(str[..i]) && IsHexChar(str[i])
    ensures AllHex(str[..i + 1])
    ensures Zeros(iOff) + Nibbles(str[..i + 1]) == Zeros(iOff) + Nibbles(str[..i]) + [FromHexDigit(str[i]) as nibble]
  {
    assert str[..i + 1] == str[..i] + [str[i]];
    NibblesSnoc(str[..i], str[i]);
  }

  lemma NibblesSnoc(s: seq<byte>, c: byte)
    requires AllHex(s) && IsHexChar(c)
    ensures AllHex(s + [c]) && Nibbles(s + [c]) == Nibbles(s) + [FromHexDigit(c) as nibble]
  {
    assert AllHex(s + [c]);
  }

  lemma FirstNonHexAt(s: seq<byte>, i: nat)
    requires i <= |s| && AllHex(s[..i]) && (i < |s| ==> !IsHexChar(s[i]))
    ensures FirstNonHex(s) == i
    decreases |s|
  {
    if i > 0 {
      assert s[..i][0] == s[0];
      assert s[1..][..i - 1] == s[..i][1..];
      FirstNonHexAt(s[1..], i - 1);
    }
  }

  /** `v = (v << 4) | digit` on a uint8_t: the low nibble moves up, the
      high nibble falls off and the digit fills the low nibble. */
  function ShiftDigit(v: byte, d: nibble): (r: byte)
    ensures r == (v % 16) * 16 + d
  {
    DivModUnique(v * 16, 256, v / 16, (v % 16) * 16);
    (v * 16) % 256 + d
  }

  /** One step of the loop: shifting digit d into the byte it lands on
      yields the packing of one more digit. */
  lemma ShiftIn(ds: seq<nibble>, d: nibble, n: nat)
    requires |ds| < 2 * n
    ensures var idx := |ds| / 2;
      && ShiftDigit(PackByte(ds, idx), d) == PackByte(ds + [d], idx)
      && forall j :: 0 <= j < n && j != idx ==> PackByte(ds + [d], j) == PackByte(ds, j)
  {
    var idx := |ds| / 2;
    var e := ds + [d];
    if |ds| % 2 == 1 {
      assert PackByte(ds, idx) == ds[2 * idx];
      assert PackByte(e, idx) == 16 * ds[2 * idx] + d;
    }
    forall j | 0 <= j < n && j != idx ensures PackByte(e, j) == PackByte(ds, j) {
      if j < idx {
        assert e[2 * j] == ds[2 * j] && e[2 * j + 1] == ds[2 * j + 1];
      }
    }
  }

  /*** Round trips between the slot and its text ***/

  /** Printing a successfully parsed slot gives the input, upper-cased and
      left-padded with '0' to exactly 2·size digits. */
  lemma TextOfParsed(str: seq<byte>, n: nat)
    requires AllHex(str) && |str| <= 2 * n
    ensures HexText(ParsedSlot(str, n)) == ZeroChars(2 * n - |str|) + Canonical(str)
  {
    var t, w := HexText(ParsedSlot(str, n)), ZeroChars(2 * n - |str|) + Canonical(str);
    forall q | 0 <= q < 2 * n ensures t[q] == w[q] {
      ParsedDigit(str, n, q);
    }
    SameBytes(t, w);
  }

  lemma SameBytes(t: seq<byte>, w: seq<byte>)
    requires |t| == |w| && forall q :: 0 <= q < |t| ==> t[q] == w[q]
    ensures t == w
  {
  }

  /** Digit q of the printed form of a parsed slot. */
  lemma ParsedDigit(str: seq<byte>, n: nat, q: nat)
    requires AllHex(str) && |str| <= 2 * n && q < 2 * n
    ensures HexText(ParsedSlot(str, n))[q] == (ZeroChars(2 * n - |str|) + Canonical(str))[q]
  {
    var p := Zeros(2 * n - |str|) + Nibbles(str);
    assert str[..|str|] == str;
    FirstNonHexAt(str, |str|);
    ShiftedPacked(str, |str|, n);
    TextDigit(p, n, q);
    PaddedDigit(str, 2 * n - |str|, q);
  }

  /** Digit q of the padded text, read and then printed again. */
  lemma PaddedDigit(str: seq<byte>, off: nat, q: nat)
    requires AllHex(str) && q < off + |str|
    ensures ToHexDigit((Zeros(off) + Nibbles(str))[q]) == (ZeroChars(off) + Canonical(str))[q]
  {
    var p := Zeros(off) + Nibbles(str);
    var w := ZeroChars(off) + Canonical(str);
    if q < off {
      assert p[q] == Zeros(off)[q] == 0;
      assert w[q] == ZeroChars(off)[q];
    } else {
      var c := str[q - off];
      assert p[q] == Nibbles(str)[q - off] == FromHexDigit(c);
      assert w[q] == Canonical(str)[q - off];
    }
  }

  /** A run of '0' characters. */
  function ZeroChars(n: nat): (r: seq<byte>)
    ensures |r| == n && forall i :: 0 <= i < n ==> r[i] == '0' as int
  {
    seq(n, _ => '0' as int)
  }

  /** Digit q of the printed form of a fully packed slot is digit q of
      what was packed. */
  lemma TextDigit(p: seq<nibble>, n: nat, q: nat)
    requires |p| == 2 * n && q < 2 * n
    ensures HexText(Packed(p, n))[q] == ToHexDigit(p[q])
  {
    var j := q / 2;
    var b := PackByte(p, j);
    assert b == Packed(p, n)[j];
    DivModUnique(b, 16, p[2 * j], p[2 * j + 1]);
    if q % 2 == 0 {
      assert q == 2 * j;
    } else {
      assert q == 2 * j + 1;
    }
  }

  /** Parsing the printed form of any slot gives the slot back, with no
      error and no padding. */
  lemma ParsedOfText(s: seq<byte>)
    ensures AllHex(HexText(s)) && |HexText(s)| == 2 * |s|
    ensures Packed(Zeros(0) + Nibbles(HexText(s)), |s|) == s
    ensures ParsedSlot(HexText(s), |s|) == s
  {
    TextIsHex(s);
    var t := HexText(s);
    assert t[..|t|] == t;
    FirstNonHexAt(t, |t|);
    ShiftedPacked(t, |t|, |s|);
    var p := Nibbles(HexText(s));
    assert Zeros(0) + p == p;
    forall j | 0 <= j < |s| ensures PackByte(p, j) == s[j] {
      TextByte(s, j);
    }
  }

  /** Every character of the printed form is a hex digit. */
  lemma TextIsHex(s: seq<byte>)
    ensures AllHex(HexText(s))
  {
    forall q | 0 <= q < |HexText(s)| ensures IsHexChar(HexText(s)[q]) {
      TextChar(s, q);
    }
  }

  /** The two digits printed for byte j pack back into byte j. */
  lemma TextByte(s: seq<byte>, j: nat)
    requires j < |s| && AllHex(HexText(s))
    ensures PackByte(Nibbles(HexText(s)), j) == s[j]
  {
    var t := HexText(s);
    var hi, lo := s[j] / 16, s[j] % 16;
    assert t[2 * j] == ToHexDigit(hi) && t[2 * j + 1] == ToHexDigit(lo);
    var p := Nibbles(t);
    assert p[2 * j] == hi && p[2 * j + 1] == lo;
  }

  lemma TextChar(s: seq<byte>, q: nat)
    requires q < 2 * |s|
    ensures IsHexChar(HexText(s)[q])
  {
    var j := q / 2;
    var t := HexText(s);
    assert s[j] / 16 < 16;
    if q % 2 == 0 {
      assert q == 2 * j && t[q] == ToHexDigit(s[j] / 16);
    } else {
      assert q == 2 * j + 1 && t[q] == ToHexDigit(s[j] % 16);
    }
  }
}
