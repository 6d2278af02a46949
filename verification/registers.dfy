/**
 * The register-value helpers behind the "Values" window of main.py: byte
 * reordering, the conversions of `convert_register_value`, which bytes each
 * register reads in `update_register_values`, and which registers
 * `on_row_selected` marks as reserved.
 */
module Registers {
  import opened Common

  // ---------------------------------------------------------------- byte order

  /**
   * `reorder_bytes`: puts a 4-byte group given in the named order into big-endian
   * (ABCD) order. CDAB swaps the two registers, BADC swaps the bytes inside each
   * register, DCBA reverses all four; ABCD and any other name leave it unchanged.
   */
  function ReorderBytes(b: seq<bv8>, order: string): (r: seq<bv8>)
    requires |b| == 4
    ensures |r| == 4
    ensures order == "CDAB" ==> r[..2] == b[2..] && r[2..] == b[..2]
    ensures order == "BADC" ==> forall k :: 0 <= k < 2 ==> r[2 * k] == b[2 * k + 1] && r[2 * k + 1] == b[2 * k]
    ensures order == "DCBA" ==> forall i :: 0 <= i < 4 ==> r[i] == b[3 - i]
    ensures order != "CDAB" && order != "BADC" && order != "DCBA" ==> r == b
  {
    var r :=
      if order == "ABCD" then b
      else if order == "CDAB" then [b[2], b[3], b[0], b[1]]
      else if order == "BADC" then [b[1], b[0], b[3], b[2]]
      else if order == "DCBA" then [b[3], b[2], b[1], b[0]]
      else b;
    r
  }

  /** Every ordering is its own inverse: reordering twice gives the bytes back. */
  lemma ReorderInvolution(b: seq<bv8>, order: string)
    requires |b| == 4
    ensures ReorderBytes(ReorderBytes(b, order), order) == b
  {
    var r := ReorderBytes(b, order);
    var rr := ReorderBytes(r, order);
    assert rr == [rr[0], rr[1], rr[2], rr[3]];
    assert b == [b[0], b[1], b[2], b[3]];
    if order == "CDAB" {
      assert rr[..2] == r[2..] && rr[2..] == r[..2];
      assert r[..2] == b[2..] && r[2..] == b[..2];
      assert rr == rr[..2] + rr[2..];
      assert b == b[..2] + b[2..];
    }
  }

  /** Reversing all four bytes is swapping the registers and then the bytes within them. */
  lemma DcbaIsCdabThenBadc(b: seq<bv8>)
    requires |b| == 4
    ensures ReorderBytes(ReorderBytes(b, "CDAB"), "BADC") == ReorderBytes(b, "DCBA")
  {
    var c := ReorderBytes(b, "CDAB");
    var d := ReorderBytes(c, "BADC");
    var e := ReorderBytes(b, "DCBA");
    assert c[..2] == b[2..] && c[2..] == b[..2];
    assert c[0] == b[2] && c[1] == b[3] && c[2] == b[0] && c[3] == b[1];
    assert d[0] == c[1] && d[1] == c[0] && d[2] == c[3] && d[3] == c[2];
    assert d == [d[0], d[1], d[2], d[3]];
    assert e == [e[0], e[1], e[2], e[3]];
  }

  // ---------------------------------------------------------------- integer values

  /** The unsigned value of bytes read most significant first. */
  function BigEndian(b: seq<bv8>): nat
    decreases |b|
  {
    if |b| == 0 then 0 else BigEndian(b[..|b| - 1]) * 256 + b[|b| - 1] as nat
  }

  function Pow256(n: nat): nat
  {
    if n == 0 then 1 else 256 * Pow256(n - 1)
  }

  lemma {:induction false} BigEndianBound(b: seq<bv8>)
    ensures BigEndian(b) < Pow256(|b|)
    decreases |b|
  {
    if |b| > 0 {
      BigEndianBound(b[..|b| - 1]);
    }
  }

  /** Two's complement reading of `b` (struct's `>h` for two bytes, `>l` for four). */
  function SignedBigEndian(b: seq<bv8>): (v: int)
    requires |b| > 0
    ensures -(Pow256(|b|) as int) <= 2 * v < Pow256(|b|)
    ensures v % Pow256(|b|) == BigEndian(b)
    ensures v < 0 <==> b[0] >= 0x80
  {
    var u := BigEndian(b);
    BigEndianBound(b);
    TopByteSign(b);
    ModOfShifted(u, Pow256(|b|));
    if b[0] >= 0x80 then u - Pow256(|b|) else u
  }

  lemma ModOfShifted(u: int, p: int)
    requires 0 <= u < p
    ensures u % p == u && (u - p) % p == u
  {
  }

  /** The most significant byte is at least 0x80 exactly when the value is in the upper half. */
  lemma {:induction false} TopByteSign(b: seq<bv8>)
    requires |b| > 0
    ensures b[0] >= 0x80 <==> 2 * BigEndian(b) >= Pow256(|b|)
    decreases |b|
  {
    var front := b[..|b| - 1];
    if |b| == 1 {
      assert front == [];
    } else {
      assert front[0] == b[0];
      TopByteSign(front);
      BigEndianBound(front);
      var f := BigEndian(front);
      var k := Pow256(|front| - 1);
      assert Pow256(|front|) == 256 * k;
      assert BigEndian(b) == f * 256 + b[|b| - 1] as nat;
      if 2 * f >= 256 * k {
        assert 2 * BigEndian(b) >= 512 * f;
      } else {
        assert f <= 128 * k - 1;
      }
    }
  }

  // ---------------------------------------------------------------- text renderings

  /** An upper-case hexadecimal digit. */
  function HexChar(d: nat): char
    requires d < 16
  {
    if d < 10 then (48 + d) as char else (55 + d) as char
  }

  function HexCharValue(c: char): nat
  {
    if '0' <= c <= '9' then c as nat - 48 else if 'A' <= c <= 'F' then c as nat - 55 else 0
  }

  /** `n` written with `width` hexadecimal digits (`{n:0<width>X}`). */
  function HexDigits(n: nat, width: nat): string
    decreases width
  {
    if width == 0 then [] else HexDigits(n / 16, width - 1) + [HexChar(n % 16)]
  }

  /** Reads hexadecimal digits back. */
  function ParseHex(s: string): nat
    decreases |s|
  {
    if |s| == 0 then 0 else ParseHex(s[..|s| - 1]) * 16 + HexCharValue(s[|s| - 1])
  }

  function BitChar(d: nat): char
  {
    if d == 1 then '1' else '0'
  }

  /** `n` written with `width` binary digits (`{n:0<width>b}`). */
  function BinaryDigits(n: nat, width: nat): string
    decreases width
  {
    if width == 0 then [] else BinaryDigits(n / 2, width - 1) + [BitChar(n % 2)]
  }

  predicate IsHexDigit(c: char)
  {
    '0' <= c <= '9' || 'A' <= c <= 'F'
  }

  predicate IsBit(c: char)
  {
    c == '0' || c == '1'
  }

  /** `HexDigits` writes exactly `width` upper-case hexadecimal digits. */
  lemma {:induction false} HexDigitsAreDigits(n: nat, width: nat)
    ensures |HexDigits(n, width)| == width
    ensures forall i :: 0 <= i < width ==> IsHexDigit(HexDigits(n, width)[i])
    decreases width
  {
    if width > 0 {
      HexDigitsAreDigits(n / 16, width - 1);
      var h := HexDigits(n / 16, width - 1);
      assert HexDigits(n, width) == h + [HexChar(n % 16)];
      assert forall i :: 0 <= i < width - 1 ==> HexDigits(n, width)[i] == h[i];
    }
  }

  /** `BinaryDigits` writes exactly `width` binary digits. */
  lemma {:induction false} BinaryDigitsAreBits(n: nat, width: nat)
    ensures |BinaryDigits(n, width)| == width
    ensures forall i :: 0 <= i < width ==> IsBit(BinaryDigits(n, width)[i])
    decreases width
  {
    if width > 0 {
      BinaryDigitsAreBits(n / 2, width - 1);
      var h := BinaryDigits(n / 2, width - 1);
      assert BinaryDigits(n, width) == h + [BitChar(n % 2)];
      assert forall i :: 0 <= i < width - 1 ==> BinaryDigits(n, width)[i] == h[i];
    }
  }

  function ParseBinary(s: string): nat
    decreases |s|
  {
    if |s| == 0 then 0 else ParseBinary(s[..|s| - 1]) * 2 + (if s[|s| - 1] == '1' then 1 else 0)
  }

  function Pow(base: nat, n: nat): nat
  {
    if n == 0 then 1 else base * Pow(base, n - 1)
  }

  lemma {:induction false} HexRoundTrip(n: nat, width: nat)
    requires n < Pow(16, width)
    ensures |HexDigits(n, width)| == width
    ensures ParseHex(HexDigits(n, width)) == n
    decreases width
  {
    if width > 0 {
      var s := HexDigits(n, width);
      HexRoundTrip(n / 16, width - 1);
      assert s[..|s| - 1] == HexDigits(n / 16, width - 1);
    }
  }

  lemma {:induction false} BinaryRoundTrip(n: nat, width: nat)
    requires n < Pow(2, width)
    ensures |BinaryDigits(n, width)| == width
    ensures ParseBinary(BinaryDigits(n, width)) == n
    decreases width
  {
    if width > 0 {
      var s := BinaryDigits(n, width);
      BinaryRoundTrip(n / 2, width - 1);
      assert s[..|s| - 1] == BinaryDigits(n / 2, width - 1);
    }
  }

  lemma DivMod16(x: nat, q: nat, r: nat)
    requires x == 16 * q + r && r < 16
    ensures x / 16 == q && x % 16 == r
  {
  }

  /** A number below 16 written with one hex digit. */
  lemma OneHexDigit(d: nat)
    requires d < 16
    ensures HexDigits(d, 1) == [HexChar(d)]
  {
    DivMod16(d, 0, d);
  }

  /** Two bytes each written with two hex digits read as one four-digit number. */
  lemma HexOfPair(hi: nat, lo: nat)
    requires hi < 256 && lo < 256
    ensures HexDigits(hi, 2) + HexDigits(lo, 2) == HexDigits(hi * 256 + lo, 4)
  {
    var l1, l0 := lo / 16, lo % 16;
    DivMod16(lo, l1, l0);
    var n := hi * 256 + lo;
    var n1 := hi * 16 + l1;
    DivMod16(n, n1, l0);
    DivMod16(n1, hi, l1);
    OneHexDigit(l1);
    var h := HexDigits(hi, 2);
    assert HexDigits(n1, 3) == h + [HexChar(l1)];
    assert HexDigits(n, 4) == (h + [HexChar(l1)]) + [HexChar(l0)];
    assert HexDigits(lo, 2) == [HexChar(l1)] + [HexChar(l0)];
  }

  /** The value of two bytes read most significant first. */
  lemma BigEndianTwo(b: seq<bv8>)
    requires |b| == 2
    ensures BigEndian(b) == b[0] as int * 256 + b[1] as int
    ensures Pow256(|b|) == 0x1_0000
  {
    assert b[..1][..0] == [];
    assert BigEndian(b[..1]) == b[0] as int;
  }

  // ---------------------------------------------------------------- conversion

  /** What the Values window shows for a register. */
  datatype Shown =
    | Number(value: int)          // `str(value)` of an integer
    | Text(text: string)          // a formatted string
    | FloatBits(bytes: seq<bv8>)  // the four big-endian bytes struct reads as `>f`

  const UnknownType: string := "Неизвестный тип"
  const IndexErrorText: string := "Ошибка: list index out of range"

  predicate StartsWith(s: string, prefix: string)
  {
    |prefix| <= |s| && s[..|prefix|] == prefix
  }

  /** Position of the first `c` in `s`. */
  function IndexOf(s: string, c: char): (r: Option<nat>)
    ensures r.Some? ==> r.value < |s| && s[r.value] == c && c !in s[..r.value]
    ensures r.None? ==> c !in s
    decreases |s|
  {
    if |s| == 0 then None
    else if s[0] == c then Some(0)
    else match IndexOf(s[1..], c)
      case None => None
      case Some(k) => assert s[..k + 1] == [s[0]] + s[1..][..k]; Some(k + 1)
  }

  /** The longest prefix of `s` with neither parenthesis in it. */
  function TakeUntilParen(s: string): (r: string)
    ensures |r| <= |s| && r == s[..|r|]
    ensures '(' !in r && ')' !in r
    ensures |r| < |s| ==> s[|r|] == '(' || s[|r|] == ')'
    decreases |s|
  {
    if |s| == 0 || s[0] == '(' || s[0] == ')' then []
    else [s[0]] + TakeUntilParen(s[1..])
  }

  /**
   * `reg_type.split("(")[1].split(")")[0]`: the text after the first '(' up to the
   * next parenthesis; there is no item 1 when `reg_type` has no '('.
   */
  function ParseOrder(regType: string): (r: Option<string>)
    ensures r.None? <==> '(' !in regType
  {
    match IndexOf(regType, '(')
    case None => None
    case Some(k) => Some(TakeUntilParen(regType[k + 1..]))
  }

  /** struct's `>h`: a 16-bit two's complement value. */
  function Signed16(b: seq<bv8>): (v: int)
    requires |b| == 2
    ensures -0x8000 <= v < 0x8000 && v % 0x1_0000 == b[0] as int * 256 + b[1] as int
  {
    BigEndianTwo(b);
    SignedBigEndian(b)
  }

  /** struct's `>H`: a 16-bit unsigned value. */
  function Unsigned16(b: seq<bv8>): (v: int)
    requires |b| == 2
    ensures 0 <= v < 0x1_0000 && v == b[0] as int * 256 + b[1] as int
  {
    BigEndianTwo(b);
    BigEndianBound(b);
    BigEndian(b)
  }

  /** struct's `>l`: a 32-bit two's complement value. */
  function Signed32(b: seq<bv8>): (v: int)
    requires |b| == 4
    ensures -0x8000_0000 <= v < 0x8000_0000 && v % 0x1_0000_0000 == BigEndian(b)
  {
    assert Pow256(|b|) == 0x1_0000_0000 by { assert Pow256(2) == 0x1_0000; }
    SignedBigEndian(b)
  }

  /** `text` is "0x" and four hexadecimal digits that read back as `value`. */
  predicate ShowsHex(text: string, value: nat)
  {
    |text| == 6 && text[..2] == "0x" && (forall i :: 2 <= i < 6 ==> IsHexDigit(text[i])) &&
    ParseHex(text[2..]) == value
  }

  /** `text` is two groups of eight binary digits, reading back as `hi` and `lo`, joined by a space. */
  predicate ShowsBinary(text: string, hi: nat, lo: nat)
  {
    |text| == 17 && text[8] == ' ' && (forall i :: 0 <= i < 17 && i != 8 ==> IsBit(text[i])) &&
    ParseBinary(text[..8]) == hi && ParseBinary(text[9..]) == lo
  }

  /** `f"0x{b0:02X}{b1:02X}"`: reading the four digits back gives the register value. */
  function HexText(hi: nat, lo: nat): (t: string)
    requires hi < 256 && lo < 256
    ensures ShowsHex(t, hi * 256 + lo)
  {
    var n: nat := hi * 256 + lo;
    var digits := HexDigits(hi, 2) + HexDigits(lo, 2);
    HexOfPair(hi, lo);
    assert Pow(16, 4) == 0x1_0000 by { assert Pow(16, 2) == 256; }
    HexRoundTrip(n, 4);
    HexDigitsAreDigits(hi, 2);
    HexDigitsAreDigits(lo, 2);
    var t := "0x" + digits;
    assert t[2..] == digits;
    assert forall i :: 2 <= i < 4 ==> t[i] == HexDigits(hi, 2)[i - 2];
    assert forall i :: 4 <= i < 6 ==> t[i] == HexDigits(lo, 2)[i - 4];
    t
  }

  /** `f"{b0:08b} {b1:08b}"`: each half reads back as its byte. */
  function BinaryText(hi: nat, lo: nat): (t: string)
    requires hi < 256 && lo < 256
    ensures ShowsBinary(t, hi, lo)
  {
    assert Pow(2, 8) == 256 by { assert Pow(2, 4) == 16; }
    BinaryRoundTrip(hi, 8);
    BinaryRoundTrip(lo, 8);
    BinaryDigitsAreBits(hi, 8);
    BinaryDigitsAreBits(lo, 8);
    var t := BinaryDigits(hi, 8) + " " + BinaryDigits(lo, 8);
    assert forall i :: 0 <= i < 8 ==> t[i] == BinaryDigits(hi, 8)[i];
    assert forall i :: 9 <= i < 17 ==> t[i] == BinaryDigits(lo, 8)[i - 9];
    assert t[..8] == BinaryDigits(hi, 8);
    assert t[9..] == BinaryDigits(lo, 8);
    t
  }

  /** How `convert_register_value` reads a type name: exact names, then the "float"/"long" prefixes. */
  datatype RegType =
    | Signed | Unsigned | Hex | Binary
    | Float(order: Option<string>)   // the order in parentheses, None when there is no '('
    | Long(order: Option<string>)
    | Unknown

  function TypeOf(regType: string): (r: RegType)
    ensures r == Signed <==> regType == "Signed"
    ensures r == Unsigned <==> regType == "Unsigned"
    ensures r == Hex <==> regType == "HEX"
    ensures r == Binary <==> regType == "Binary"
    ensures r.Float? <==> StartsWith(regType, "float")
    ensures r.Long? <==> StartsWith(regType, "long")
    ensures r.Float? || r.Long? ==> r.order == ParseOrder(regType)
  {
    if regType == "Signed" then assert regType[0] == 'S'; Signed
    else if regType == "Unsigned" then assert regType[0] == 'U'; Unsigned
    else if regType == "HEX" then assert regType[0] == 'H'; Hex
    else if regType == "Binary" then assert regType[0] == 'B'; Binary
    else if StartsWith(regType, "float") then Float(ParseOrder(regType))
    else if StartsWith(regType, "long") then Long(ParseOrder(regType))
    else Unknown
  }

  /** The number of bytes each conversion accepts; any other length is an unknown type. */
  function ExpectedLength(t: RegType): nat
  {
    match t
    case Signed | Unsigned | Hex | Binary => 2
    case Float(_) | Long(_) => 4
    case Unknown => 0
  }

  /**
   * `convert_register_value` for a type name already read by `TypeOf`, except that
   * the float case stops at the reordered bytes.
   */
  function ConvertRegisterValue(bytes: seq<bv8>, t: RegType): (r: Shown)
    ensures t == Signed && |bytes| == 2 ==>
      r.Number? && -0x8000 <= r.value < 0x8000 && r.value % 0x1_0000 == bytes[0] as int * 256 + bytes[1] as int
    ensures t == Unsigned && |bytes| == 2 ==>
      r.Number? && 0 <= r.value < 0x1_0000 && r.value == bytes[0] as int * 256 + bytes[1] as int
    ensures t == Hex && |bytes| == 2 ==> r.Text? && ShowsHex(r.text, bytes[0] as nat * 256 + bytes[1] as nat)
    ensures t == Binary && |bytes| == 2 ==> r.Text? && ShowsBinary(r.text, bytes[0] as nat, bytes[1] as nat)
    ensures t.Long? && t.order.Some? && |bytes| == 4 ==>
      r.Number? && -0x8000_0000 <= r.value < 0x8000_0000 &&
      r.value % 0x1_0000_0000 == BigEndian(ReorderBytes(bytes, t.order.value))
    ensures t.Float? && t.order.Some? && |bytes| == 4 ==> r == FloatBits(ReorderBytes(bytes, t.order.value))
    ensures (t.Float? || t.Long?) && t.order.None? && |bytes| == 4 ==> r == Text(IndexErrorText)
    ensures |bytes| != ExpectedLength(t) ==> r == Text(UnknownType)
  {
    if |bytes| != ExpectedLength(t) then Text(UnknownType)
    else match t
      case Signed => Number(Signed16(bytes))
      case Unsigned => Number(Unsigned16(bytes))
      case Hex => Text(HexText(bytes[0] as nat, bytes[1] as nat))
      case Binary => Text(BinaryText(bytes[0] as nat, bytes[1] as nat))
      case Float(order) =>
        if order.None? then Text(IndexErrorText) else FloatBits(ReorderBytes(bytes, order.value))
      case Long(order) =>
        if order.None? then Text(IndexErrorText) else Number(Signed32(ReorderBytes(bytes, order.value)))
      case Unknown => Text(UnknownType)
  }

  // ---------------------------------------------------------------- register layout

  /** The register types that take two registers (four bytes). */
  const FourByteTypes: seq<string> := [
    "float (ABCD)", "float (CDAB)", "float (BADC)", "float (DCBA)",
    "long (ABCD)", "long (CDAB)", "long (BADC)", "long (DCBA)"]

  predicate IsFourByte(regType: string)
  {
    regType in FourByteTypes
  }

  function Width(regType: string): nat
  {
    if IsFourByte(regType) then 4 else 2
  }

  /** The bytes register `i` reads: from byte 2i, four of them for a 4-byte type, else two. */
  function RegisterBytes(data: seq<bv8>, i: nat, regType: string): (r: Option<seq<bv8>>)
    ensures r.Some? <==> 2 * i + Width(regType) <= |data|
    ensures r.Some? ==> |r.value| == Width(regType) && r.value == data[2 * i..2 * i + Width(regType)]
  {
    var start := 2 * i;
    if IsFourByte(regType) then
      if start + 3 < |data| then Some(data[start..start + 4]) else None
    else
      if start + 1 < |data| then Some(data[start..start + 2]) else None
  }

  /** The value column of one register row. */
  datatype RegisterCell =
    | PartOfPrevious            // "(часть предыдущего регистра)"
    | Blank                     // no type stored for it: the cell keeps its empty text
    | NotEnoughData             // "Недостаточно данных"
    | Value(shown: Shown)

  /** Register `j` is the second half of a 4-byte value that starts at register `j - 1`. */
  predicate FollowsFourByte(types: seq<string>, j: nat)
  {
    0 < j && j - 1 < |types| && IsFourByte(types[j - 1])
  }

  /**
   * What `update_register_values` puts in the value column of register `i`: the
   * type stored for it decides how many bytes from byte 2i it reads and how they
   * are shown.
   */
  function RegisterCellAt(data: seq<bv8>, types: seq<string>, i: nat): (r: RegisterCell)
    ensures r == PartOfPrevious <==> FollowsFourByte(types, i)
    ensures r == Blank <==> !FollowsFourByte(types, i) && |types| <= i
    ensures r == NotEnoughData <==> !FollowsFourByte(types, i) && i < |types| && |data| < 2 * i + Width(types[i])
    ensures r.Value? ==>
      i < |types| && 2 * i + Width(types[i]) <= |data| &&
      r.shown == ConvertRegisterValue(data[2 * i..2 * i + Width(types[i])], TypeOf(types[i]))
  {
    if i > 0 && i - 1 < |types| && IsFourByte(types[i - 1]) then PartOfPrevious
    else if i >= |types| then Blank
    else match RegisterBytes(data, i, types[i])
      case None => NotEnoughData
      case Some(b) => Value(ConvertRegisterValue(b, TypeOf(types[i])))
  }

  /** The stored types, padded with "Signed" up to one per register (main.py, `on_row_selected`). */
  function PadTypes(types: seq<string>, n: nat): (r: seq<string>)
    ensures |r| == if |types| >= n then |types| else n
    ensures r[..|types|] == types
    ensures forall i :: |types| <= i < |r| ==> r[i] == "Signed"
  {
    types + seq(if |types| >= n then 0 else n - |types|, _ => "Signed")
  }

  /**
   * The registers `on_row_selected` marks "(зарезервирован)" among the first `n`:
   * the one after each register holding a 4-byte type.
   */
  function ReservedRegisters(types: seq<string>, n: nat): (r: set<nat>)
    ensures forall j: nat :: j in r <==> j < n && FollowsFourByte(types, j)
  {
    set i: nat | i < n && i < |types| && IsFourByte(types[i]) && i + 1 < n :: i + 1
  }

  /**
   * The two places agree: a register is reserved in `on_row_selected` exactly when
   * `update_register_values` shows it as part of the previous register.
   */
  lemma ReservedIffPartOfPrevious(data: seq<bv8>, types: seq<string>, j: nat)
    requires j < |data| / 2
    ensures j in ReservedRegisters(types, |data| / 2) <==> RegisterCellAt(data, types, j) == PartOfPrevious
  {
  }

  /** Once the stored types are padded to one per register, no register is left blank. */
  lemma PaddedTypesLeaveNoBlank(data: seq<bv8>, stored: seq<string>, j: nat)
    requires j < |data| / 2
    ensures RegisterCellAt(data, PadTypes(stored, |data| / 2), j) != Blank
  {
  }

  /** A 4-byte type on the last register never has enough data. */
  lemma LastRegisterFourByteNotEnough(data: seq<bv8>, types: seq<string>)
    requires |data| >= 2
    requires |data| / 2 - 1 < |types| && IsFourByte(types[|data| / 2 - 1])
    requires !FollowsFourByte(types, |data| / 2 - 1)
    ensures RegisterCellAt(data, types, |data| / 2 - 1) == NotEnoughData
  {
  }

  /** A 2-byte type on any register that is not reserved always has its two bytes. */
  lemma TwoByteRegisterAlwaysRead(data: seq<bv8>, types: seq<string>, i: nat)
    requires i < |data| / 2 && i < |types| && !IsFourByte(types[i])
    requires !FollowsFourByte(types, i)
    ensures RegisterCellAt(data, types, i) == Value(ConvertRegisterValue(data[2 * i..2 * i + 2], TypeOf(types[i])))
  {
  }
}
