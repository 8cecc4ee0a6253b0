# RecordModel in Dafny

RecordModel describes fixed-layout binary records. A Ruby schema declares
key fields and value fields. The Ruby side packs each field into a 32-bit
descriptor: the byte offset sits in the high 16 bits and the type code in
the low 16 bits, and the low byte of the type code is the field's width. A
C extension then lays the fields out contiguously and reads and writes
them in a record buffer. A closed family of field codecs gives every field
type its default, its min/max sentinels, a successor (`inc`), `add`, a
three-way compare and an inclusive `between`. The codecs also parse
fields from text.

This project models that core and proves what it promises:

- `Bytes`: bytes, the machine widths, little-endian numbers (the assumed
  host order of numeric slots), big-endian byte strings, Ruby's `|` on
  non-negative integers, and "splice a slot into a record". Every setter
  reduces to the splice.
- `Errors`: the `RM_ERR_*` codes.
- `Conversion`: `str_to_uint` and `str_to_uint2`, as loops over the token
  with uint64 wrap-around.
- `UIntField`: `RM_UInt<NT, order>` for the ascending 1-, 2-, 4- and
  8-byte integers, the ascending timestamp and the descending timestamp. The codecs
  are methods over an `array<byte>` record.
- `StringField`: `RM_String` (raw byte strings compared unsigned and
  lexicographically, with a carrying `inc`) and `RM_STR::parse_string`.
- `HexField`: `RM_HEXSTR`, which parses right-aligned hex text into the
  slot and prints the slot back as upper-case hex.
- `Layout`: `RecordModel_initialize` (the descriptor walk, the sentinel
  words, `keysize` and `size`) and the bounds-checked `[]` and `[]=` of an
  instance.
- `Schema`: the Ruby side. It covers `TYPES`, `type_size`, `def_descr`,
  the offset walk of `define`, `Builder#key`/`val`/`acc`, the `uint64_x2`
  accessor, `build_query` and `def_parse_descr`.

Assumptions:

- **Descriptor macros.** `RecordModelOffset(d)` is `d >> 16`,
  `RecordModelType(d)` is `d & 0xFFFF` and `RecordModelTypeSize(d)` is
  `d & 0xFF`. These are the packing that `def_descr` builds; the header
  that defines them is not part of this model.
- **Accessor type codes.** `RMT_UINT64`, `RMT_UINT32` and `RMT_DOUBLE` are
  0x0008, 0x0004 and 0x0108, the codes of the Ruby `TYPES` table.
- **Field address.** `ptr_to_field(mi, desc)` is the instance's bytes
  starting at `RecordModelOffset(desc)`.
- **Byte order.** Numeric slots are little-endian.

The C `assert`s of `initialize`, `[]` and `[]=` are preconditions.

Two loops are restructured without changing what they compute:

- **`RM_String::inc`.** The source's for-loop with `break` becomes a loop
  that clears trailing 0xFF bytes, followed by a bump of the byte where it
  stopped (`StringField.Carry`).
- **`parse_hexstring`.** The early `return` at a non-hex digit becomes
  the loop guard (`HexField.ShiftLoop`).

## Model

| member | source | states |
|---|---|---|
| `Errors.Code` | include/RM_Types.h:13-18 | the code is 0 exactly for success |
| `Errors.CodeInjective` | include/RM_Types.h:13-18 | distinct errors have distinct codes |
| `Bytes.LeStoreLoad` | include/RM_Types.h:150-152 | a value below 256^w stored in w little-endian bytes reads back unchanged |
| `Bytes.LeRoundTrip` | include/RM_Types.h:172 | storing any value in w bytes keeps it modulo 256^w (the cast to NT) |
| `Bytes.LeBytesOfValue` | include/RM_Types.h:194-197 | any w bytes are the encoding of the value they read as |
| `Bytes.Splice` | include/RM_Types.h:443-444 | writing a slot at an offset puts exactly the slot there and keeps every other byte of the record |
| `Bytes.WriteSlot` | include/RM_Types.h:462-465 | the record becomes the old record with the slot spliced in |
| `Bytes.BitOr` | lib/RecordModel.rb:87 | Ruby `\|` on non-negative integers is at least each operand and at most their sum |
| `Bytes.BitOrDisjoint` | lib/RecordModel.rb:87 | `\|` of a multiple of 2^k and a number below 2^k is their sum |
| `Bytes.BitOrLowBits` | lib/RecordModel.rb:87 | `\|` of a number with its own low k bits is the number |
| `Conversion.StrToUint` | include/RM_Types.h:22-41 | the result is the value of the token's digits modulo 2^64; the error is RM_ERR_INT_INV exactly when some character is not a digit, and the loop still consumes every character |
| `Conversion.StrToUint2` | include/RM_Types.h:43-87 | the result is the digits' value modulo 2^64, rescaled from post_digits to the precision; the error is RM_ERR_INT_INV exactly when a non-digit other than a single '.' appears |
| `Conversion.PostDigitsSign` | include/RM_Types.h:46-69 | post_digits is negative exactly until the first '.', and never below -1 |
| `Conversion.RescaleUp` | include/RM_Types.h:76-79 | scaling up multiplies by 10^(precision-post) modulo 2^64 |
| `Conversion.RescaleDown` | include/RM_Types.h:81-84 | scaling down truncates by 10^(post-precision) |
| `Conversion.DigitsValueAppend` | include/RM_Types.h:27-39 | the value of a + b is the value of a shifted by b's digit count plus the value of b |
| `Conversion.AllDigitsCount` | include/RM_Types.h:49-58 | an all-digit token has its length as digit count, no '.', and post_digits -1 |
| `Conversion.PostDigitsAfterDot` | include/RM_Types.h:52-64 | after "a.b", post_digits is the number of digits in b |
| `Conversion.StrToUint2NoDot` | include/RM_Types.h:76-79 | a token without '.' is scaled by 10^(precision+1), because post_digits starts at -1 |
| `Conversion.StrToUint2Fraction` | include/RM_Types.h:76-84 | "a.b" with k fractional digits is scaled up by 10^(precision-k) when k ≤ precision and truncated by 10^(k-precision) otherwise |
| `Conversion.StrToUint2SecondDot` | include/RM_Types.h:59-69 | a second '.' makes the token invalid |
| `Conversion.DotCountAppend` | include/RM_Types.h:59-69 | the '.' count of a concatenation is the sum of the counts |
| `UIntField.Width` | include/RM_Types.h:154 | sizeof(NT) is 1, 2, 4 or 8 |
| `UIntField.Limit` | include/RM_Types.h:168-169 | defines `numeric_limits<NT>::max() + 1` as 256^sizeof(NT); the bound on slot values is proved in `UIntField.Element` |
| `UIntField.Element` | include/RM_Types.h:150-152 | element(a) is a value of NT |
| `UIntField.Cmp` | include/RM_Types.h:245-258 | three-way: 0 exactly on equality, -1 exactly when x sorts first in the field's direction |
| `UIntField.Betw` | include/RM_Types.h:230-243 | -1 exactly below l, 1 exactly above r and not below l, 0 exactly within [l, r] inclusive, all in the field's direction |
| `UIntField.CmpDescending` | include/RM_Types.h:245-258 | descending compare is ascending compare negated |
| `UIntField.CmpTotalOrder` | include/RM_Types.h:245-258 | cmp is antisymmetric and transitive |
| `UIntField.SortMin` | include/RM_Types.h:204-207 | set_min's value is the first in the field's sort order |
| `UIntField.SortMax` | include/RM_Types.h:209-212 | set_max's value is the last in the field's sort order |
| `UIntField.SentinelsSwap` | include/RM_Types.h:204-212 | for the descending timestamp the sentinels are the ascending ones swapped |
| `UIntField.IncValue` | include/RM_Types.h:219-223 | inc stays a value of NT |
| `UIntField.IncIsSuccessor` | include/RM_Types.h:219-223 | away from the last value, inc gives the immediate successor in sort order |
| `UIntField.IncWraps` | include/RM_Types.h:219-223 | at the last value, inc wraps to the first |
| `UIntField.AddValue` | include/RM_Types.h:214-217 | add wraps in NT and is exact when the sum fits |
| `UIntField.SetUint` | include/RM_Types.h:166-174 | a value beyond NT's maximum gives RM_ERR_INT_RANGE and leaves the record; otherwise exactly the value is stored and only the field's bytes change |
| `UIntField.SetDefault` | include/RM_Types.h:176-179 | the default, cast to NT, is stored in the field's bytes only |
| `UIntField.SetFromString` | include/RM_Types.h:186-192 | a parse error is returned and nothing is written; otherwise the parsed value goes through _set_uint (the timestamps parse with str_to_uint2 and precision 3) |
| `UIntField.SetFromMemory` | include/RM_Types.h:194-197 | the first sizeof(NT) bytes of the memory are copied verbatim |
| `UIntField.CopyToMemory` | include/RM_Types.h:199-202 | the slot's bytes are copied verbatim to the memory |
| `UIntField.SetMin` | include/RM_Types.h:204-207 | the field holds the first value in sort order (its maximum when descending) |
| `UIntField.SetMax` | include/RM_Types.h:209-212 | the field holds the last value in sort order (its minimum when descending) |
| `UIntField.Inc` | include/RM_Types.h:219-223 | the field holds the sort-order successor, wrapping, and nothing else changes |
| `UIntField.Add` | include/RM_Types.h:214-217 | a's field holds the wrapped sum with b's field, and nothing else changes |
| `UIntField.Copy` | include/RM_Types.h:225-228 | a's field holds b's field's bytes |
| `UIntField.SameValueSameBytes` | include/RM_Types.h:270-273 | two slots hold equal values exactly when they hold equal bytes |
| `UIntField.Compare` | include/RM_Types.h:270-273 | always -1, 0 or 1: 0 exactly when the slots are equal, -1 exactly when a's value sorts first, 1 exactly when it sorts last |
| `UIntField.CompareWithMemory` | include/RM_Types.h:275-278 | as compare, with raw bytes on the right |
| `UIntField.Between` | include/RM_Types.h:260-263 | always -1, 0 or 1: 0 exactly when c lies within [l, r], -1 exactly when it sorts before l, 1 exactly when it is not before l and sorts after r |
| `UIntField.MemoryBetween` | include/RM_Types.h:265-268 | as between, with raw bytes in the middle |
| `StringField.Slot` | include/RM_Types.h:443-444 | the field's bytes are size bytes |
| `StringField.IncBytes` | include/RM_Types.h:488-505 | inc keeps the string's length |
| `StringField.IncBytesValue` | include/RM_Types.h:488-505 | inc adds one to the big-endian value modulo 256^size |
| `StringField.IncAllOnes` | include/RM_Types.h:488-505 | the all-0xFF string wraps to all zero |
| `StringField.IncBytesAt` | include/RM_Types.h:491-504 | the last byte below 0xFF is bumped, the 0xFF bytes after it become 0, and the bytes before it are kept |
| `StringField.IncIsLater` | include/RM_Types.h:488-505 | away from all-0xFF, inc moves a string strictly later in sort order |
| `StringField.OnesIsTop` | include/RM_Types.h:477-480 | only all-0xFF has the top big-endian value |
| `StringField.ComparePointers` | include/RM_Types.h:538-546 | three-way, 0 exactly on equal bytes |
| `StringField.CompareIsNumeric` | include/RM_Types.h:538-546 | compare_pointers is the order of the strings as big-endian unsigned numbers |
| `StringField.CompareIsLexicographic` | include/RM_Types.h:538-546 | -1 exactly when a has the smaller byte at the first difference |
| `StringField.PrecedesIsCompare` | include/RM_Types.h:515-524 | each scan of between_pointers decides "strictly before" as compare_pointers does |
| `StringField.BetweenPointers` | include/RM_Types.h:512-526 | -1 exactly before l, 1 exactly after r and not before l, 0 exactly within [l, r] |
| `StringField.SetDefault` | include/RM_Types.h:453-456 | the slot is zeroed and nothing else changes |
| `StringField.SetMin` | include/RM_Types.h:472-475 | the slot is all zero, the first string in sort order |
| `StringField.SetMax` | include/RM_Types.h:477-480 | the slot is all 0xFF, the last string in sort order |
| `StringField.SetFromMemory` | include/RM_Types.h:462-465 | size bytes of the memory are copied into the slot |
| `StringField.CopyToMemory` | include/RM_Types.h:467-470 | the slot is copied to the memory |
| `StringField.Copy` | include/RM_Types.h:507-510 | b's slot is copied into a's |
| `StringField.Inc` | include/RM_Types.h:488-505 | the slot's big-endian value goes up by one modulo 256^size, and nothing outside the slot changes |
| `StringField.Carry` | include/RM_Types.h:491-504 | the carry loop leaves the record with the incremented slot spliced in |
| `StringField.IncInPlace` | include/RM_Types.h:491-504 | the bytes the carry loop leaves, byte by byte, are the incremented slot |
| `StringField.Compare` | include/RM_Types.h:548-551 | 0 exactly on equal slots, -1 exactly when a's slot is numerically smaller |
| `StringField.CompareWithMemory` | include/RM_Types.h:553-556 | as compare, with raw bytes on the right |
| `StringField.Between` | include/RM_Types.h:528-531 | 0 exactly when l ≤ c ≤ r numerically, -1 exactly when c < l |
| `StringField.MemoryBetween` | include/RM_Types.h:533-536 | as between, with raw bytes in the middle |
| `StringField.ParseString` | include/RM_Types.h:637-648 | input longer than the field gives RM_ERR_STR_TOO_LONG with nothing written; otherwise the input is copied and zero-padded to exactly size bytes |
| `HexField.FromHexDigit` | include/RM_Types.h:570-576 | the digit's value for a hex character of either case, -1 exactly for any other character |
| `HexField.ToHexDigit` | include/RM_Types.h:563-568 | an upper-case digit that reads back as the same value, '#' beyond 15 |
| `HexField.Canonical` | include/RM_Types.h:563-568 | each character becomes the upper-case spelling of its digit |
| `HexField.Nibbles` | include/RM_Types.h:592 | each character becomes its digit value |
| `HexField.Packed` | include/RM_Types.h:599 | n bytes, each packing its two digits |
| `HexField.FirstNonHex` | include/RM_Types.h:590-597 | the loop's stopping point: all hex before it, not hex at it, at the end exactly for all-hex text |
| `HexField.HexText` | include/RM_Types.h:604-618 | two upper-case digits per byte, high nibble first |
| `HexField.Shifted` | include/RM_Types.h:590-600 | the slot after i digits keeps its size |
| `HexField.ShiftedPacked` | include/RM_Types.h:580-600 | after i digits the slot holds them right-aligned behind 2·size − strlen zero digits, two per byte |
| `HexField.ParseHexString` | include/RM_Types.h:578-602 | text longer than 2·size gives RM_ERR_HEX_INV_SIZE with the slot unchanged; otherwise the slot is zeroed and filled with the digits before the first non-hex character, and RM_ERR_HEX_INV_DIGIT is returned exactly when there is one |
| `HexField.ShiftDigits` | include/RM_Types.h:590-601 | over a zeroed slot the loop runs to the end exactly for all-hex text and leaves the parsed slot |
| `HexField.ShiftLoop` | include/RM_Types.h:590-600 | the loop stops at the first non-hex character or the end, with the digits before it shifted in |
| `HexField.ShiftedNext` | include/RM_Types.h:599 | one more digit changes only the byte it lands on |
| `HexField.StopsAt` | include/RM_Types.h:590-601 | where the loop stops, the slot it packed is the parsed slot |
| `HexField.ShiftDigit` | include/RM_Types.h:599 | `(v << 4) \| digit` on a byte drops the high nibble and appends the digit |
| `HexField.ShiftIn` | include/RM_Types.h:599 | shifting a digit into its byte gives the packing of one more digit and leaves the other bytes |
| `HexField.TextOfParsed` | include/RM_Types.h:578-618 | printing a parsed slot gives the input upper-cased and left-padded with '0' to 2·size digits |
| `HexField.ParsedOfText` | include/RM_Types.h:578-618 | parsing the printed form of any slot (the parser's own result, `ParsedSlot`) gives the slot back |
| `HexField.TextIsHex` | include/RM_Types.h:604-618 | the printed form is all hex digits |
| `HexField.TextByte` | include/RM_Types.h:613-614 | the two digits printed for a byte pack back into it |
| `HexField.TextDigit` | include/RM_Types.h:613-614 | digit q of a printed packed slot is digit q of what was packed |
| `Layout.DescriptorParts` | ext/RecordModel/RecordModel.cc:56-59 | a descriptor is its offset times 2^16 plus its type, and its width is the type's low byte |
| `Layout.WordIsOr` | ext/RecordModel/RecordModel.cc:58 | the stored word is `(offset << 16) \| type` in uint32 arithmetic |
| `Layout.WordDecodes` | ext/RecordModel/RecordModel.cc:58 | a stored word decodes to the offset (its low 16 bits), the descriptor's type and its width |
| `Layout.AdvanceIsSum` | ext/RecordModel/RecordModel.cc:53-60 | without uint32 wrap-around the running offset is the start plus the widths |
| `Layout.PlaceNext` | ext/RecordModel/RecordModel.cc:59 | each field starts where the previous one ends |
| `Layout.Contiguous` | ext/RecordModel/RecordModel.cc:53-62 | field i starts at the start plus the widths of the fields before it |
| `Layout.StoredDecodes` | ext/RecordModel/RecordModel.cc:53-74 | every stored word names the offset the walk gave its field, keeps its type, and lies inside the walked range |
| `Layout.PlacedAccepted` | ext/RecordModel/RecordModel.cc:56 | descriptors that already carry their walk offsets pass the assert and are stored unchanged |
| `Layout.AppendPlaced` | ext/RecordModel/RecordModel.cc:56-59 | a descriptor placed at the end of the walk keeps the list placed and adds its width |
| `Layout.WriteDescriptors` | ext/RecordModel/RecordModel.cc:53-60 | the loop stores each descriptor re-based at the running offset and returns the final offset |
| `Layout.RecordModel.constructor` | ext/RecordModel/RecordModel.cc:34-77 | items holds the key words, a 0, the value words and a 0; keysize is where the key walk ends and size where the value walk, started there, ends |
| `Layout.LayoutSums` | ext/RecordModel/RecordModel.cc:61-74 | keysize is the sum of the key widths and size adds the value widths |
| `Layout.Width` | ext/RecordModel/RecordModel.cc:124-140 | the accessor reads 8 bytes for uint64 and double and 4 for uint32, which is the descriptor's width |
| `Layout.Store` | ext/RecordModel/RecordModel.cc:155-172 | `[]=` writes exactly the field's width |
| `Layout.Fetch` | ext/RecordModel/RecordModel.cc:112-141 | `[]` gives nil exactly for a type it does not handle; an integer is the one whose little-endian encoding is the field's bytes (below 2^64 or 2^32); a double is the field's eight bytes |
| `Layout.FetchStore` | ext/RecordModel/RecordModel.cc:112-174 | `[]` after `[]=` returns the stored value for uint64, uint32 and double, and nil for other types |
| `Layout.StoreFrame` | ext/RecordModel/RecordModel.cc:143-174 | `[]=` leaves every field whose bytes are apart from the written one as it was |
| `Layout.Instance.constructor` | ext/RecordModel/RecordModel.cc:90-98 | an instance of a model wraps a record of exactly model.size bytes |
| `Layout.Instance.Get` | ext/RecordModel/RecordModel.cc:112-141 | `[]` on an instance: nil exactly for unhandled types; for uint64 and uint32 the number below 2^(8·width) whose little-endian encoding is the field's bytes; for a double the field's eight bytes |
| `Layout.Instance.Set` | ext/RecordModel/RecordModel.cc:143-174 | only the field's bytes change, and `[]` then returns the value (nil for other types) |
| `Schema.Types` | lib/RecordModel.rb:100-107 | each known symbol has a 16-bit code whose low byte is 0 only for hexstr; the uint64, uint32 and double codes are the C accessors' |
| `Schema.TypeSize` | lib/RecordModel.rb:90-98 | fixed-width types give their low byte and raise on a different explicit size; hexstr raises without a size and otherwise gives it; an unknown type gives `false` without a size and raises with one; every error is a RuntimeError |
| `Schema.DefDescrAsWritten` | lib/RecordModel.rb:86-88 | an unknown type raises TypeError on `\| nil` before type_size runs; for a known type a descriptor exists exactly when type_size succeeds, and otherwise type_size's RuntimeError propagates |
| `Schema.WideHexDescr` | lib/RecordModel.rb:86-88 | a 256-byte hexstr gets descriptor 0x300, whose width byte is 0 and whose type is no longer hexstr |
| `Schema.DefDescr` | lib/RecordModel.rb:86-88 | with the width checked, a descriptor exists exactly for a known type whose type_size is a width below 256, and it is the source's descriptor; an unknown type raises TypeError, anything else RuntimeError |
| `Schema.DescrParts` | lib/RecordModel.rb:86-88 | the descriptor carries the offset above 16 bits, the type code's high byte and the width in the low byte |
| `Schema.PackOr` | lib/RecordModel.rb:87 | the packing `\|` is a sum once the width replaces the code's low byte |
| `Schema.WalkFails` | lib/RecordModel.rb:54-63 | an error in a declaration aborts the pass with that error |
| `Schema.Pass` | lib/RecordModel.rb:55-62 | one pass collects the descriptors and INFO entries of one kind, in declaration order, at the running offset |
| `Schema.WalkPlaced` | lib/RecordModel.rb:54-65 | the descriptors of a pass carry exactly the offsets the C walk gives them, and the pass ends where the C walk ends |
| `Schema.PlacedSnoc` | lib/RecordModel.rb:57-59 | a descriptor built at the running offset extends a placed list |
| `Schema.Define` | lib/RecordModel.rb:44-65 | keys are laid out from 0 and then values; the C model stores exactly these descriptors; its keysize and size are the Ruby offsets; INFO lists keys then values; the ids must be distinct, as the Builder keeps them |
| `Schema.FieldsInRecord` | lib/RecordModel.rb:68-72 | every generated field accessor passes the C bound assert |
| `Schema.Builder.constructor` | lib/RecordModel.rb:9-13 | a new builder has no declarations and no accessors |
| `Schema.Builder.Key` | lib/RecordModel.rb:15-18 | a taken id raises and changes nothing; otherwise a key declaration is appended, and ids stay distinct |
| `Schema.Builder.Val` | lib/RecordModel.rb:20-23 | a taken id raises and changes nothing; otherwise a value declaration is appended, and ids stay distinct |
| `Schema.Builder.Acc` | lib/RecordModel.rb:25-40 | only uint64_x2 without a third non-nil argument registers an accessor; everything else raises |
| `Schema.X2Get` | lib/RecordModel.rb:31 | the reader `(hi << 64) \| lo` is hi·2^64 + lo, a number below 2^128 |
| `Schema.X2Set` | lib/RecordModel.rb:32-35 | the writer's two fields are the high and low 64 bits of v modulo 2^128 |
| `Schema.X2RoundTrip` | lib/RecordModel.rb:30-35 | reading after writing v gives v modulo 2^128 |
| `Schema.X2Join` | lib/RecordModel.rb:30-35 | the writer splits the reader's value back into the same hi and lo |
| `Schema.BuildQuery` | lib/RecordModel.rb:177-203 | raises ArgumentError exactly on an exclusive Range for a key or a query name that is not a key; otherwise gives the bounds of QueryBounds |
| `Schema.QueryFieldBounds` | lib/RecordModel.rb:183-198 | an absent key gets min and max, a point gets itself in both bounds, a Range its first and last |
| `Schema.QueryDomain` | lib/RecordModel.rb:183-198 | both bounds hold a value for exactly the key fields |
| `Schema.Find` | lib/RecordModel.rb:231 | the INFO lookup finds a descriptor exactly when the id is declared |
| `Schema.FixintParts` | lib/RecordModel.rb:235 | a fixint descriptor has the field descriptor in its low 32 bits and `(extra << 8) \| 1` above |
| `Schema.ParseDescr` | lib/RecordModel.rb:226-242 | nil gives 0; a declared symbol gives its descriptor; `[id, :fixint, extra]` over a declared id gives `(extra << 8) \| 1` above the field's 32-bit descriptor; an undeclared id raises NoMethodError; any other argument raises ArgumentError |
| `Schema.DefParseDescr` | lib/RecordModel.rb:225-243 | succeeds exactly when every argument maps, then maps each in order; a failure is the error of the first argument that fails |

## Left out

- RM_DOUBLE (include/RM_Types.h:322-433): IEEE floating point and `atof`. An accessor on a double field reads or writes its eight raw bytes without interpreting them.
- Ruby value conversions (`to_ruby`, `set_from_ruby`, `equal_ruby`, `NUM2ULONG`, `NUM2UINT`, `rb_str_*`) are calls into the Ruby runtime. Values are given as integers or byte sequences. The only conversion error modelled is the range error when `RecordModel.new` converts a descriptor.
- Layout.Instance.Set: a value of the wrong type, or an integer out of the field's range (2^64 or more for uint64, 2^32 or more for uint32, where NUM2ULONG and NUM2UINT raise RangeError), is excluded by its precondition, because the Ruby conversion that would raise is not modelled.
- Ruby class plumbing (`__allocate`, `__free`, `Data_Wrap_Struct`, `rb_cvar_*`, `to_class`, `Init_RecordModelExt`, `RecordModel_size`) is binding glue.
- `zero_instance`, `copy_instance`, `sum_instance`, `ptr_to_field` and `create_instance` are not part of this model. Their header is not available, so `zero!`, `dup` and `sum_values!` are missing too. The instance constructor takes a buffer of the model's size.
- `set_min_or_max` is not part of this model. In `build_query` its effect is the abstract bounds `Min` and `Max`.
- `class_eval` in `define`: the generated methods are not modelled. The INFO entries and descriptors they close over are.
- `RecordModel::LineParser`, `db_query`, `db_query_into` and `RecordModelInstanceArray` use threads, IO and an external database.
- `int_encoded_str` (include/RM_Types.h:90-104) depends on the host byte order.
- `RM_String::add` and `RM_String::equal_ruby` are `assert(false)`. String fields have neither operation.
- Host byte order: numeric slots are taken to be little-endian.
- Schema.TypeSize: an explicit size is taken to be a non-negative Integer or nil. Other Ruby objects, and `false` as a size, are not modelled.
- Schema.Builder.Acc: the accessor source that `acc` generates is modelled as the pair of field names (`Schema.X2Get`, `Schema.X2Set` give its meaning). Accessors over nil names are not checked, because the source does not check them.
- Schema.BuildQuery: the `from` and `to` instances are modelled as maps from each key descriptor to its bound, not as record bytes.
- Schema.BuildQuery: a bound records the value the query assigns. Whether the C `[]=` then stores it depends on the field's type, as `Layout.Instance.Set` states.
- Schema.QueryFieldBounds: it requires that no later key field has the same descriptor. Otherwise the later field's bound overwrites the earlier one, just as in the record.
- Schema.Define: it raises on a hexstr wider than 255 bytes (see Findings). The source instead builds the corrupted descriptor.
- The `Check_Type` calls and the `m.items == NULL` asserts of `initialize` are not modelled: a fresh model always passes them.

## Findings

| source | as written | input that shows it | evidently intended | confidence | as-written member | corrected member |
|---|---|---|---|---|---|---|
| lib/RecordModel.rb:86-98 | the declared width of a hexstr is ORed into the descriptor unbounded, though the descriptor keeps the width in 8 bits | `key :h, :hexstr, 256`: the descriptor is 0x300, the C side reads width 0 and type 0x300, so for every field declared after it the C offsets differ from the Ruby offsets and the initialize assert fails on the next one; declared alone, the key passes initialize with keysize 0 instead of 256 | widths above 255 are rejected | medium, not executed | `Schema.DefDescrAsWritten` (shown by `Schema.WideHexDescr`) | `Schema.DefDescr` (proved by `Schema.DescrParts`, used by `Schema.Walk`) |
