/** File names for keys: an encoding that decodes back, and that stays injective on file
    systems that ignore letter case. */
module Filename {
  import opened Text

  /** The Unicode tables the encoder consults, which this model does not spell out. */
  datatype Tables = Tables(alphabetic: char -> bool, uppercase: char -> bool)

  // ---------- the case postfix ----------

  /** One bit for each letter: whether it is upper case. */
  function CaseBits(u: Tables, s: string): seq<bool> {
    if s == [] then []
    else CaseBits(u, s[..|s| - 1]) + if u.alphabetic(s[|s| - 1]) then [u.uppercase(s[|s| - 1])] else []
  }

  function BitValue(b: bool): nat {
    if b then 1 else 0
  }

  /** The number a bit string writes. */
  function BitsValue(bits: seq<bool>): nat {
    if bits == [] then 0 else 2 * BitsValue(bits[..|bits| - 1]) + BitValue(bits[|bits| - 1])
  }

  predicate IsHexDigit(c: char) {
    '0' <= c <= '9' || 'a' <= c <= 'f'
  }

  function HexDigit(d: nat): (c: char)
    requires d < 16
    ensures IsHexDigit(c) && HexDigitValue(c) == d
  {
    if d < 10 then '0' + d as char else 'a' + (d - 10) as char
  }

  function HexDigitValue(c: char): nat {
    if '0' <= c <= '9' then c as nat - '0' as nat
    else if 'a' <= c <= 'f' then c as nat - 'a' as nat + 10
    else 0
  }

  function HexValue(s: string): nat {
    if s == [] then 0 else 16 * HexValue(s[..|s| - 1]) + HexDigitValue(s[|s| - 1])
  }

  /** Four bits to a digit, up to position `end`. */
  function HexUpTo(bits: seq<bool>, end: nat): string
    requires end <= |bits|
  {
    if end < 4 then "" else HexUpTo(bits, end - 4) + [HexDigit(QuadAt(bits, end - 4))]
  }

  function QuadAt(bits: seq<bool>, i: nat): (v: nat)
    requires i + 4 <= |bits|
    ensures v < 16
  {
    8 * BitValue(bits[i]) + 4 * BitValue(bits[i + 1]) + 2 * BitValue(bits[i + 2]) + BitValue(bits[i + 3])
  }

  function Zeros(n: nat): seq<bool> {
    seq(n, _ => false)
  }

  function Padded(bits: seq<bool>): (padded: seq<bool>)
    ensures |padded| % 4 == 0
  {
    var rem := |bits| % 4;
    if rem == 0 then bits else Zeros(4 - rem) + bits
  }

  function TrimZeros(s: string): string {
    if s != [] && s[0] == '0' then TrimZeros(s[1..]) else s
  }

  function BitsToHex(bits: seq<bool>): string {
    var trimmed := TrimZeros(HexUpTo(Padded(bits), |Padded(bits)|));
    if trimmed == "" then "0" else trimmed
  }

  /** The loop over the chunks of four bits. */
  method HexOfChunks(bits: seq<bool>) returns (hex: string)
    requires |bits| % 4 == 0
    ensures hex == HexUpTo(bits, |bits|)
  {
    hex := "";
    var i := 0;
    while i < |bits|
      invariant i <= |bits| && (|bits| - i) % 4 == 0 && hex == HexUpTo(bits, i)
    {
      assert i + 4 <= |bits|;
      hex := hex + [HexDigit(QuadAt(bits, i))];
      i := i + 4;
    }
  }

  /** `bits_to_hex`. */
  method BitsToHexLoop(bits: seq<bool>) returns (hex: string)
    ensures hex == BitsToHex(bits)
  {
    if bits == [] { return "0"; }
    hex := HexOfChunks(Padded(bits));
    hex := TrimZeros(hex);
    if hex == "" { hex := "0"; }
  }

  lemma {:induction false} LeadingZeros(n: nat, bits: seq<bool>)
    ensures BitsValue(Zeros(n) + bits) == BitsValue(bits)
    decreases |bits| + n
  {
    var s := Zeros(n) + bits;
    if bits != [] {
      assert s[..|s| - 1] == Zeros(n) + bits[..|bits| - 1];
      LeadingZeros(n, bits[..|bits| - 1]);
    } else if n > 0 {
      assert s[..|s| - 1] == Zeros(n - 1) + [];
      LeadingZeros(n - 1, []);
    } else {
      assert s == [];
    }
  }

  lemma QuadMeansFour(bits: seq<bool>, i: nat)
    requires i + 4 <= |bits|
    ensures BitsValue(bits[..i + 4]) == 16 * BitsValue(bits[..i]) + QuadAt(bits, i)
  {
    BitMore(bits, i);
    BitMore(bits, i + 1);
    BitMore(bits, i + 2);
    BitMore(bits, i + 3);
  }

  lemma BitMore(bits: seq<bool>, i: nat)
    requires i < |bits|
    ensures BitsValue(bits[..i + 1]) == 2 * BitsValue(bits[..i]) + BitValue(bits[i])
  {
    assert bits[..i + 1][..i] == bits[..i];
  }

  lemma {:induction false} QuadsKeepValue(bits: seq<bool>, end: nat)
    requires end <= |bits| && end % 4 == 0
    ensures HexValue(HexUpTo(bits, end)) == BitsValue(bits[..end])
    ensures forall i :: 0 <= i < |HexUpTo(bits, end)| ==> IsHexDigit(HexUpTo(bits, end)[i])
  {
    if end >= 4 {
      QuadsKeepValue(bits, end - 4);
      QuadMeansFour(bits, end - 4);
      var h := HexUpTo(bits, end);
      assert h[..|h| - 1] == HexUpTo(bits, end - 4);
    }
  }

  lemma {:induction false} HexLeadingZero(s: string)
    requires s != [] && s[0] == '0'
    ensures HexValue(s) == HexValue(s[1..])
  {
    if |s| > 1 {
      HexLeadingZero(s[..|s| - 1]);
      assert s[..|s| - 1][1..] == s[1..][..|s[1..]| - 1];
    } else {
      assert s[..0] == [] && s[1..] == [];
    }
  }

  lemma {:induction false} TrimZerosKeepsValue(s: string)
    ensures HexValue(TrimZeros(s)) == HexValue(s)
    ensures (forall i :: 0 <= i < |s| ==> IsHexDigit(s[i])) ==> forall i :: 0 <= i < |TrimZeros(s)| ==>
            IsHexDigit(TrimZeros(s)[i])
  {
    if s != [] && s[0] == '0' {
      HexLeadingZero(s);
      TrimZerosKeepsValue(s[1..]);
    }
  }

  lemma PaddingKeepsValue(bits: seq<bool>)
    ensures BitsValue(Padded(bits)) == BitsValue(bits)
  {
    var rem := |bits| % 4;
    if rem != 0 { LeadingZeros(4 - rem, bits); }
  }

  /** The postfix writes the same number as the bits, in hexadecimal digits only. */
  lemma PostfixKeepsValue(bits: seq<bool>)
    ensures HexValue(BitsToHex(bits)) == BitsValue(bits)
    ensures forall i :: 0 <= i < |BitsToHex(bits)| ==> IsHexDigit(BitsToHex(bits)[i])
  {
    var padded := Padded(bits);
    PaddingKeepsValue(bits);
    QuadsKeepValue(padded, |padded|);
    assert padded[..|padded|] == padded;
    TrimZerosKeepsValue(HexUpTo(padded, |padded|));
    assert "0"[..0] == [] && HexValue("0") == 0 && IsHexDigit('0');
  }

  lemma {:induction false} BitsValueInjective(a: seq<bool>, b: seq<bool>)
    requires |a| == |b| && BitsValue(a) == BitsValue(b)
    ensures a == b
  {
    if a != [] {
      BitsValueInjective(a[..|a| - 1], b[..|b| - 1]);
      assert a == a[..|a| - 1] + [a[|a| - 1]] && b == b[..|b| - 1] + [b[|b| - 1]];
    }
  }

  /** Bit strings of the same length with the same postfix are the same. */
  lemma PostfixInjective(a: seq<bool>, b: seq<bool>)
    requires |a| == |b| && BitsToHex(a) == BitsToHex(b)
    ensures a == b
  {
    PostfixKeepsValue(a);
    PostfixKeepsValue(b);
    BitsValueInjective(a, b);
  }

  // ---------- encoding ----------

  function Swap(c: char): char {
    if c == '/' then '!' else if c == '!' then '/' else c
  }

  function SwapAll(s: string): string {
    seq(|s|, i requires 0 <= i < |s| => Swap(s[i]))
  }

  predicate IsUnsafe(c: char) {
    || c == '<' || c == '>' || c == ':' || c == '"' || c == '/' || c == '|' || c == '\\' || c == '?' || c == '*' ||
       c == '%'
    || c as int <= 0x1f || c as int == 0x7f
  }

  function UpperHexDigit(d: nat): char
    requires d < 16
  {
    if d < 10 then '0' + d as char else 'A' + (d - 10) as char
  }

  /** A percent sign and the low byte of the character. */
  function Escape(c: char): string {
    var byte := c as int % 256;
    ['%', UpperHexDigit(byte / 16), UpperHexDigit(byte % 16)]
  }

  function EncodeChar(c: char): string {
    if IsUnsafe(c) then Escape(c) else [c]
  }

  function EncodeAll(s: string): string {
    if s == "" then "" else EncodeChar(s[0]) + EncodeAll(s[1..])
  }

  /** The part of a name before its first dot. */
  function NamePart(s: string): string {
    if s == "" || s[0] == '.' then "" else [s[0]] + NamePart(s[1..])
  }

  predicate IsDeviceName(name: string) {
    || name in {"con", "prn", "aux", "nul"}
    || (|name| == 4 && name[..3] in {"com", "lpt"} && '1' <= name[3] <= '9')
  }

  predicate IsReserved(s: string) {
    IsDeviceName(NamePart(Lower(s)))
  }

  function EscapeReserved(s: string): string {
    if IsReserved(s) && |s| >= 3 then s[..2] + Escape(s[2]) + s[3..] else s
  }

  /** The name without its postfix. */
  function BaseName(s: string): string {
    EscapeReserved(EncodeAll(SwapAll(s)))
  }

  function EncodeFilename(u: Tables, s: string): string {
    BaseName(s) + "." + BitsToHex(CaseBits(u, s))
  }

  /** The loop over the letters of the key. */
  method CollectCaseBits(u: Tables, key: string) returns (bits: seq<bool>)
    ensures bits == CaseBits(u, key)
  {
    bits := [];
    for i := 0 to |key|
      invariant bits == CaseBits(u, key[..i])
    {
      assert key[..i + 1][..i] == key[..i];
      if u.alphabetic(key[i]) { bits := bits + [u.uppercase(key[i])]; }
    }
    assert key[..|key|] == key;
  }

  /** The loop that escapes what a file name cannot hold. */
  method EncodeChars(s: string) returns (encoded: string)
    ensures encoded == EncodeAll(s)
  {
    encoded := "";
    for i := 0 to |s|
      invariant encoded + EncodeAll(s[i..]) == EncodeAll(s)
    {
      assert s[i..][0] == s[i] && s[i..][1..] == s[i + 1..];
      Associate(encoded, EncodeChar(s[i]), EncodeAll(s[i + 1..]));
      encoded := encoded + EncodeChar(s[i]);
    }
    assert encoded + "" == encoded;
  }

  /** `encode_filename`. */
  method EncodeFilenameLoop(u: Tables, key: string) returns (name: string)
    ensures name == EncodeFilename(u, key)
  {
    var bits := CollectCaseBits(u, key);
    var postfix := "0";
    if bits != [] { postfix := BitsToHexLoop(bits); }
    var encoded := EncodeChars(SwapAll(key));
    if IsReserved(encoded) && |encoded| >= 3 {
      encoded := encoded[..2] + Escape(encoded[2]) + encoded[3..];
    }
    name := encoded + "." + postfix;
  }

  // ---------- decoding ----------

  function HexCharValue(c: char): Option<nat> {
    if '0' <= c <= '9' then Some(c as nat - '0' as nat)
    else if 'a' <= c <= 'f' then Some(c as nat - 'a' as nat + 10)
    else if 'A' <= c <= 'F' then Some(c as nat - 'A' as nat + 10)
    else None
  }

  /** Two characters as a byte; like Rust's parser it takes a plus sign for the first. */
  function HexByte(h: string): (r: Option<nat>)
    requires |h| == 2
    ensures r.Some? ==> r.value < 256
  {
    var lo := HexCharValue(h[1]);
    if lo.None? then None
    else if h[0] == '+' then lo
    else
      var hi := HexCharValue(h[0]);
      if hi.None? then None else Some(16 * hi.value + lo.value)
  }

  /** What a percent sign and the up to two characters after it stand for. */
  function PercentText(hex: string): string {
    if |hex| == 2 && HexByte(hex).Some? then [HexByte(hex).value as char] else "%" + hex
  }

  function AfterPercent(s: string): nat
    requires s != ""
  {
    if |s| < 3 then |s| else 3
  }

  function DecodePercent(s: string): string
    decreases |s|
  {
    if s == "" then ""
    else if s[0] == '%' then PercentText(s[1..AfterPercent(s)]) + DecodePercent(s[AfterPercent(s)..])
    else [s[0]] + DecodePercent(s[1..])
  }

  /** Everything before the last dot. */
  function WithoutPostfix(s: string): string {
    if s == "" then ""
    else if s[|s| - 1] == '.' then s[..|s| - 1]
    else if '.' in s then WithoutPostfix(s[..|s| - 1])
    else s
  }

  function DecodeFilename(s: string): string {
    SwapAll(DecodePercent(WithoutPostfix(s)))
  }

  /** What one turn of the decoding loop appends, and where it goes on. */
  lemma DecodeAt(s: string, i: nat) returns (piece: string, stop: nat)
    requires i < |s|
    ensures stop == if s[i] != '%' then i + 1 else if i + 3 <= |s| then i + 3 else |s|
    ensures piece == if s[i] == '%' then PercentText(s[i + 1..stop]) else [s[i]]
    ensures DecodePercent(s[i..]) == piece + DecodePercent(s[stop..])
  {
    var next := s[i..];
    stop := if s[i] != '%' then i + 1 else if i + 3 <= |s| then i + 3 else |s|;
    assert next[stop - i..] == s[stop..] && next[1..stop - i] == s[i + 1..stop];
    piece := if s[i] == '%' then PercentText(next[1..stop - i]) else [s[i]];
    assert s[i] == '%' ==> AfterPercent(next) == stop - i;
  }

  /** `decode_filename`. */
  method DecodeFilenameLoop(name: string) returns (key: string)
    ensures key == DecodeFilename(name)
  {
    var s := WithoutPostfix(name);
    var decoded := "";
    var i := 0;
    while i < |s|
      invariant i <= |s| && decoded + DecodePercent(s[i..]) == DecodePercent(s)
    {
      ghost var piece, next := DecodeAt(s, i);
      Associate(decoded, piece, DecodePercent(s[next..]));
      if s[i] == '%' {
        var stop := if i + 3 <= |s| then i + 3 else |s|;
        decoded := decoded + PercentText(s[i + 1..stop]);
        i := stop;
      } else {
        decoded := decoded + [s[i]];
        i := i + 1;
      }
    }
    assert decoded + "" == decoded;
    key := SwapAll(decoded);
  }

  // ---------- round trip ----------

  lemma HexDigitBack(d: nat)
    requires d < 16
    ensures HexCharValue(UpperHexDigit(d)) == Some(d) && UpperHexDigit(d) != '+'
  {
  }

  lemma HexByteBack(b: nat)
    requires b < 256
    ensures HexByte([UpperHexDigit(b / 16), UpperHexDigit(b % 16)]) == Some(b)
  {
    HexDigitBack(b / 16);
    HexDigitBack(b % 16);
  }

  lemma EscapeReads(x: char, y: char, b: nat, rest: string)
    requires b < 256 && HexByte([x, y]) == Some(b)
    ensures DecodePercent(['%', x, y] + rest) == [b as char] + DecodePercent(rest)
  {
    var s := ['%', x, y] + rest;
    assert s[1..3] == [x, y] && s[3..] == rest;
  }

  lemma EscapeDecodes(c: char, rest: string)
    requires c as int < 256
    ensures DecodePercent(Escape(c) + rest) == [c] + DecodePercent(rest)
  {
    var b := c as int;
    HexByteBack(b);
    var x, y := UpperHexDigit(b / 16), UpperHexDigit(b % 16);
    assert Escape(c) == ['%', x, y];
    EscapeReads(x, y, b, rest);
  }

  lemma PlainDecodes(c: char, rest: string)
    requires c != '%'
    ensures DecodePercent([c] + rest) == [c] + DecodePercent(rest)
  {
    assert ([c] + rest)[1..] == rest;
  }

  lemma {:induction false} EncodeDecodes(s: string)
    ensures DecodePercent(EncodeAll(s)) == s
  {
    if s != "" {
      var c, rest := s[0], EncodeAll(s[1..]);
      assert DecodePercent(rest) == s[1..] by { EncodeDecodes(s[1..]); }
      assert DecodePercent(EncodeChar(c) + rest) == [c] + DecodePercent(rest) by {
        if IsUnsafe(c) { EscapeDecodes(c, rest); } else { PlainDecodes(c, rest); }
      }
      assert EncodeAll(s) == EncodeChar(c) + rest;
    }
  }

  lemma NamePartAt(s: string, k: nat)
    requires k < |NamePart(s)|
    ensures k < |s| && NamePart(s)[k] == s[k]
  {
    if k > 0 { NamePartAt(s[1..], k - 1); }
  }

  /** A reserved name starts with three letters of a device. */
  lemma ReservedStart(s: string)
    requires IsReserved(s)
    ensures |s| >= 3 && s[0] != '%' && s[1] != '%' && s[2] != '%' && s[2] as int < 256
    ensures s[0] != '.' && s[1] != '.' && s[2] != '.'
  {
    var name := NamePart(Lower(s));
    assert |name| >= 3;
    NamePartAt(Lower(s), 0);
    NamePartAt(Lower(s), 1);
    NamePartAt(Lower(s), 2);
    DeviceLetters(name);
  }

  lemma DeviceLetters(name: string)
    requires IsDeviceName(name)
    ensures |name| >= 3 && 'a' <= name[0] <= 'z' && 'a' <= name[1] <= 'z' && 'a' <= name[2] <= 'z'
  {
    if |name| == 4 { assert name[0] == name[..3][0] && name[1] == name[..3][1] && name[2] == name[..3][2]; }
  }

  lemma ReservedEscapeDecodes(s: string)
    ensures DecodePercent(EscapeReserved(s)) == DecodePercent(s)
  {
    if IsReserved(s) {
      ReservedStart(s);
      var rest := s[3..];
      assert s == [s[0]] + ([s[1]] + ([s[2]] + rest));
      assert s[..2] + Escape(s[2]) + s[3..] == [s[0]] + ([s[1]] + (Escape(s[2]) + rest));
      EscapeDecodes(s[2], rest);
      PlainDecodes(s[2], rest);
      PlainDecodes(s[1], [s[2]] + rest);
      PlainDecodes(s[1], Escape(s[2]) + rest);
      PlainDecodes(s[0], [s[1]] + ([s[2]] + rest));
      PlainDecodes(s[0], [s[1]] + (Escape(s[2]) + rest));
    }
  }

  lemma {:induction false} PostfixDrops(base: string, postfix: string)
    requires '.' !in postfix
    ensures WithoutPostfix(base + "." + postfix) == base
  {
    var s := base + "." + postfix;
    if postfix == "" {
      assert s[..|s| - 1] == base;
    } else {
      assert s[|base|] == '.';
      assert s[|s| - 1] == postfix[|postfix| - 1];
      assert s[..|s| - 1] == base + "." + postfix[..|postfix| - 1];
      PostfixDrops(base, postfix[..|postfix| - 1]);
    }
  }

  lemma PostfixHasNoDot(bits: seq<bool>)
    ensures '.' !in BitsToHex(bits)
  {
    PostfixKeepsValue(bits);
  }

  /** Every key comes back from its file name, whatever the letter tables say. */
  lemma RoundTrip(u: Tables, key: string)
    ensures DecodeFilename(EncodeFilename(u, key)) == key
  {
    var swapped, base, postfix := SwapAll(key), BaseName(key), BitsToHex(CaseBits(u, key));
    assert WithoutPostfix(base + "." + postfix) == base by {
      PostfixHasNoDot(CaseBits(u, key));
      PostfixDrops(base, postfix);
    }
    assert DecodePercent(base) == swapped by {
      ReservedEscapeDecodes(EncodeAll(swapped));
      EncodeDecodes(swapped);
    }
    assert SwapAll(swapped) == key;
  }

  // ---------- what the name looks like ----------

  lemma {:induction false} EncodedIsSafe(s: string)
    ensures forall i :: 0 <= i < |EncodeAll(s)| ==> IsFileChar(EncodeAll(s)[i])
  {
    if s != "" { EncodedIsSafe(s[1..]); }
  }

  lemma {:induction false} NamePartOfDotted(base: string, postfix: string)
    ensures NamePart(base + "." + postfix) == NamePart(base)
  {
    var s := base + "." + postfix;
    if base != "" && base[0] != '.' {
      assert s[0] == base[0] && s[1..] == base[1..] + "." + postfix;
      NamePartOfDotted(base[1..], postfix);
    }
  }

  lemma ReservedNoMore(s: string)
    ensures !IsReserved(EscapeReserved(s))
  {
    if IsReserved(s) {
      ReservedStart(s);
      var e := EscapeReserved(s);
      assert e[0] == s[0] && e[1] == s[1] && e[2] == '%';
      if IsReserved(e) { ReservedStart(e); }
    }
  }

  lemma NameIsNoDevice(u: Tables, key: string)
    ensures !IsReserved(EncodeFilename(u, key))
  {
    ReservedNoMore(EncodeAll(SwapAll(key)));
    LowerName(BaseName(key), CaseBits(u, key));
    NamePartOfDotted(Lower(BaseName(key)), BitsToHex(CaseBits(u, key)));
  }

  predicate IsFileChar(c: char) {
    c == '%' || !IsUnsafe(c)
  }

  lemma BaseNameIsSafe(s: string)
    requires forall i :: 0 <= i < |s| ==> IsFileChar(s[i])
    ensures forall i :: 0 <= i < |EscapeReserved(s)| ==> IsFileChar(EscapeReserved(s)[i])
  {
  }

  /** The file name holds no unsafe character but the percent sign, and does not begin with
      a device name. */
  lemma NameIsSafe(u: Tables, key: string)
    ensures var f := EncodeFilename(u, key); forall i :: 0 <= i < |f| ==> IsFileChar(f[i])
    ensures !IsReserved(EncodeFilename(u, key))
  {
    EncodedIsSafe(SwapAll(key));
    BaseNameIsSafe(EncodeAll(SwapAll(key)));
    PostfixKeepsValue(CaseBits(u, key));
    var p := BitsToHex(CaseBits(u, key));
    assert forall i :: 0 <= i < |p| ==> IsHexDigit(p[i]);
    NameIsNoDevice(u, key);
  }

  // ---------- the name, spelled out ----------

  const HEX_DIGITS := "0123456789ABCDEF"

  const FORBIDDEN := "<>:\"/|\\?*"

  const DEVICES := ["con", "prn", "aux", "nul", "com1", "com2", "com3", "com4", "com5", "com6", "com7", "com8", "com9",
                    "lpt1", "lpt2", "lpt3", "lpt4", "lpt5", "lpt6", "lpt7", "lpt8", "lpt9"]

  /** What stands in the name for a character of the key. */
  function Stored(c: char): string {
    if c == '/' then "!" else if c == '!' then "%2F" else if c == '<' then "%3C" else if c == '>' then "%3E"
    else if c == ':' then "%3A" else if c == '"' then "%22" else if c == '|' then "%7C" else if c == '\\' then "%5C"
    else if c == '?' then "%3F" else if c == '*' then "%2A" else if c == '%' then "%25" else if c as int ==
        127 then "%7F"
    else if c as int < 16 then ['%', '0', HEX_DIGITS[c as int]]
    else if c as int < 32 then ['%', '1', HEX_DIGITS[c as int - 16]]
    else [c]
  }

  function StoredAll(key: string): string {
    if key == "" then "" else Stored(key[0]) + StoredAll(key[1..])
  }

  lemma HexIsSpelled(d: nat)
    requires d < 16
    ensures UpperHexDigit(d) == HEX_DIGITS[d]
  {
  }

  lemma ByteDigits(b: nat, hi: nat, lo: nat)
    requires b == 16 * hi + lo && lo < 16
    ensures b / 16 == hi && b % 16 == lo
  {
  }

  lemma EscapeIsSpelled(c: char, hi: nat, lo: nat)
    requires hi < 16 && lo < 16 && c as int == 16 * hi + lo
    ensures Escape(c) == ['%', HEX_DIGITS[hi], HEX_DIGITS[lo]]
  {
    ByteDigits(c as int % 256, hi, lo);
    HexIsSpelled(hi);
    HexIsSpelled(lo);
  }

  lemma SignIsStored(c: char)
    requires c in "!<>:\"" || c as int == 127
    ensures EncodeChar(Swap(c)) == Stored(c)
  {
    if c == '!' {
      EscapeIsSpelled('/', 2, 15);
    } else if c == '<' {
      EscapeIsSpelled('<', 3, 12);
    } else if c == '>' {
      EscapeIsSpelled('>', 3, 14);
    } else if c == ':' {
      EscapeIsSpelled(':', 3, 10);
    } else if c == '"' {
      EscapeIsSpelled('"', 2, 2);
    } else {
      EscapeIsSpelled(c, 7, 15);
    }
  }

  lemma OtherSignIsStored(c: char)
    requires c in "|\\?*%"
    ensures EncodeChar(Swap(c)) == Stored(c)
  {
    if c == '|' {
      EscapeIsSpelled('|', 7, 12);
    } else if c == '\\' {
      EscapeIsSpelled('\\', 5, 12);
    } else if c == '?' {
      EscapeIsSpelled('?', 3, 15);
    } else if c == '*' {
      EscapeIsSpelled('*', 2, 10);
    } else {
      EscapeIsSpelled('%', 2, 5);
    }
  }

  lemma ControlsAreStored(c: char)
    requires c as int < 32
    ensures EncodeChar(Swap(c)) == Stored(c)
  {
    EscapeIsSpelled(c, c as int / 16, c as int % 16);
  }

  lemma StoredIsEncoded(c: char)
    ensures EncodeChar(Swap(c)) == Stored(c)
  {
    if c as int < 32 {
      ControlsAreStored(c);
    } else if c in "!<>:\"" || c as int == 127 {
      SignIsStored(c);
    } else if c in "|\\?*%" {
      OtherSignIsStored(c);
    }
  }

  lemma {:induction false} AllIsStored(key: string)
    ensures EncodeAll(SwapAll(key)) == StoredAll(key)
  {
    if key != "" {
      StoredIsEncoded(key[0]);
      AllIsStored(key[1..]);
      assert SwapAll(key)[1..] == SwapAll(key[1..]);
    }
  }

  lemma PortIsSpelled(d: nat)
    requires 1 <= d <= 9
    ensures DEVICES[3 + d] == "com" + [DigitChar(d)] && DEVICES[12 + d] == "lpt" + [DigitChar(d)]
  {
    assert DEVICES[3 + d][3] == DigitChar(d) && DEVICES[12 + d][3] == DigitChar(d);
    assert DEVICES[3 + d][..3] == "com" && DEVICES[12 + d][..3] == "lpt";
  }

  lemma DeviceIsSpelled(name: string)
    ensures IsDeviceName(name) <==> name in DEVICES
  {
    forall k | 0 <= k < |DEVICES| ensures IsDeviceName(DEVICES[k]) {
      if 4 <= k < 13 { PortIsSpelled(k - 3); } else if k >= 13 { PortIsSpelled(k - 12); }
    }
    if IsDeviceName(name) {
      assert DEVICES[0] == "con" && DEVICES[1] == "prn" && DEVICES[2] == "aux" && DEVICES[3] == "nul";
      if |name| == 4 && name[..3] in {"com", "lpt"} {
        var d := name[3] as int - 48;
        PortIsSpelled(d);
        assert name == name[..3] + [DigitChar(d)];
      }
    }
  }

  lemma {:induction false} NamePartIsSpelled(s: string, k: nat)
    requires k <= |s| && '.' !in s[..k] && (k < |s| ==> s[k] == '.')
    ensures NamePart(s) == s[..k]
  {
    if k > 0 {
      assert s[0] == s[..k][0] && s[1..][..k - 1] == s[..k][1..];
      NamePartIsSpelled(s[1..], k - 1);
      assert s[..k] == [s[0]] + s[1..][..k - 1];
    }
  }

  /** Whether the text before the first dot, at `k`, names a device, in any letter case. */
  lemma ReservedIsSpelled(s: string, k: nat)
    requires k <= |s| && '.' !in s[..k] && (k < |s| ==> s[k] == '.')
    ensures IsReserved(s) <==> Lower(s[..k]) in DEVICES
  {
    var l := Lower(s);
    assert Lower(s[..k]) == l[..k];
    forall i | 0 <= i < k ensures l[i] != '.' { assert s[i] == s[..k][i]; }
    NamePartIsSpelled(l, k);
    DeviceIsSpelled(l[..k]);
  }

  /** The third character of a text, escaped. */
  function WithThirdEscaped(s: string): string
    requires |s| >= 3 && s[2] as int < 256
  {
    s[..2] + ['%', HEX_DIGITS[s[2] as int / 16], HEX_DIGITS[s[2] as int % 16]] + s[3..]
  }

  lemma ThirdIsEscaped(s: string)
    requires IsReserved(s)
    ensures |s| >= 3 && s[2] as int < 256 && EscapeReserved(s) == WithThirdEscaped(s)
  {
    ReservedStart(s);
    EscapeIsSpelled(s[2], s[2] as int / 16, s[2] as int % 16);
  }

  /** The whole name: every character as the table says, the third one escaped where a device name
      would stand before the first dot, a dot, and the case bits in hexadecimal. */
  lemma NameIsSpelled(u: Tables, key: string, k: nat)
    requires var s := StoredAll(key); k <= |s| && '.' !in s[..k] && (k < |s| ==> s[k] == '.')
    ensures var s, postfix := StoredAll(key), BitsToHex(CaseBits(u, key));
            if Lower(s[..k]) in DEVICES
            then |s| >= 3 && s[2] as int < 256 && EncodeFilename(u, key) == WithThirdEscaped(s) + "." + postfix
            else EncodeFilename(u, key) == s + "." + postfix
  {
    var s := StoredAll(key);
    AllIsStored(key);
    ReservedIsSpelled(s, k);
    if IsReserved(s) { ThirdIsEscaped(s); }
  }

  /** No character of the name is forbidden or a control character, and what stands before its
      first dot is no device name. */
  lemma NameHoldsNothingForbidden(u: Tables, key: string)
    ensures var f := EncodeFilename(u, key);
            && (forall i :: 0 <= i < |f| ==> f[i] !in FORBIDDEN && f[i] as int > 31 && f[i] as int != 127)
            && exists k :: 0 <= k < |f| && f[k] == '.' && '.' !in f[..k] && Lower(f[..k]) !in DEVICES
  {
    var f := EncodeFilename(u, key);
    NameIsSafe(u, key);
    assert f[|BaseName(key)|] == '.';
    var k := 0;
    while f[k] != '.'
      invariant k <= |BaseName(key)| && '.' !in f[..k]
      decreases |f| - k
    {
      assert f[..k + 1] == f[..k] + [f[k]];
      k := k + 1;
    }
    ReservedIsSpelled(f, k);
  }

  /** The case bits, letter by letter: the bit of a letter comes after those of the letters before it. */
  lemma {:induction false} CaseBitOf(u: Tables, s: string, i: nat)
    requires i < |s| && u.alphabetic(s[i])
    ensures var before := |CaseBits(u, s[..i])|;
            before < |CaseBits(u, s)| && CaseBits(u, s)[before] == u.uppercase(s[i])
    ensures |CaseBits(u, s)| == |CaseBits(u, s[..i])| + 1 + |CaseBits(u, s[i + 1..])|
  {
    var w := s[..|s| - 1];
    if i == |s| - 1 {
      assert s[i + 1..] == "";
    } else {
      CaseBitOf(u, w, i);
      assert w[..i] == s[..i];
      var rest := s[i + 1..];
      assert rest[..|rest| - 1] == w[i + 1..];
    }
  }

  lemma {:induction false} OnlyLettersHaveBits(u: Tables, s: string)
    requires forall i :: 0 <= i < |s| ==> !u.alphabetic(s[i])
    ensures CaseBits(u, s) == []
  {
    if s != [] { OnlyLettersHaveBits(u, s[..|s| - 1]); }
  }

  lemma BitsMore(u: Tables, s: string, c: char)
    ensures CaseBits(u, s + [c]) == CaseBits(u, s) + if u.alphabetic(c) then [u.uppercase(c)] else []
  {
    assert (s + [c])[..|s|] == s;
  }

  lemma StoredMore(c: char, s: string)
    ensures StoredAll([c] + s) == Stored(c) + StoredAll(s)
  {
    assert ([c] + s)[1..] == s;
  }

  lemma ExampleBits(u: Tables)
    requires AsciiTables(u)
    ensures CaseBits(u, "Ab/!") == [true, false]
  {
    BitsMore(u, "", 'A');
    BitsMore(u, "A", 'b');
    BitsMore(u, "Ab", '/');
    BitsMore(u, "Ab/", '!');
    assert "" + ['A'] == "A" && "A" + ['b'] == "Ab" && "Ab" + ['/'] == "Ab/" && "Ab/" + ['!'] == "Ab/!";
  }

  lemma ExampleStored()
    ensures StoredAll("Ab/!") == "Ab!%2F"
  {
    StoredMore('!', "");
    StoredMore('/', "!");
    StoredMore('b', "/!");
    StoredMore('A', "b/!");
    assert ['!'] + "" == "!" && ['/'] + "!" == "/!" && ['b'] + "/!" == "b/!" && ['A'] + "b/!" == "Ab/!";
    assert "%2F" + "" == "%2F" && "!" + "%2F" == "!%2F" && "b" + "!%2F" == "b!%2F" && "A" + "b!%2F" == "Ab!%2F";
  }

  lemma ExampleIsNoDevice()
    ensures Lower("Ab!%2F"[..6]) !in DEVICES && '.' !in "Ab!%2F"[..6]
  {
    assert |Lower("Ab!%2F"[..6])| == 6;
    forall k | 0 <= k < |DEVICES| ensures |DEVICES[k]| <= 4 {}
  }

  /** An example: "Ab/!" is stored as "Ab!%2F.2". */
  lemma StoredExample(u: Tables)
    requires AsciiTables(u)
    ensures EncodeFilename(u, "Ab/!") == "Ab!%2F.2"
  {
    ExampleBits(u);
    ExamplePostfix();
    ExampleStored();
    ExampleIsNoDevice();
    NameIsSpelled(u, "Ab/!", 6);
    assert "Ab!%2F" + "." + "2" == "Ab!%2F.2";
  }

  lemma ExamplePostfix()
    ensures BitsToHex([true, false]) == "2"
  {
    var padded := Zeros(2) + [true, false];
    assert padded == [false, false, true, false] && Padded([true, false]) == padded;
    assert QuadAt(padded, 0) == 2 && HexUpTo(padded, 0) == "";
    assert HexUpTo(padded, 4) == "" + [HexDigit(2)] == "2";
    assert TrimZeros("2") == "2";
  }

  // ---------- decoding any name ----------

  const SMALL_HEX_DIGITS := "0123456789abcdef"

  lemma SmallHexIsSpelled(d: nat)
    requires d < 16
    ensures HexDigit(d) == SMALL_HEX_DIGITS[d]
  {
  }

  /** The value of a hexadecimal digit, in either case; no other character has one. */
  lemma HexDigitsAre(c: char)
    ensures forall k :: 0 <= k < 16 && (c == HEX_DIGITS[k] || c == SMALL_HEX_DIGITS[k]) ==> HexCharValue(c) == Some(k)
    ensures HexCharValue(c).Some? ==> c in HEX_DIGITS || c in SMALL_HEX_DIGITS
  {
    forall k | 0 <= k < 16 && (c == HEX_DIGITS[k] || c == SMALL_HEX_DIGITS[k]) ensures HexCharValue(c) == Some(k) {
      HexIsSpelled(k);
      SmallHexIsSpelled(k);
    }
    if HexCharValue(c).Some? {
      HexIsSpelled(HexCharValue(c).value);
      SmallHexIsSpelled(HexCharValue(c).value);
    }
  }

  /** A percent sign with two characters: the byte they write in hexadecimal, where a plus sign for
      the first counts as no digit; if they write none, all three stay. */
  lemma EscapeMeans(x: char, y: char, rest: string)
    ensures DecodePercent(['%', x, y] + rest) ==
            (if HexCharValue(y).Some? && x == '+' then [HexCharValue(y).value as char]
             else if HexCharValue(y).Some? && HexCharValue(x).Some?
             then [(16 * HexCharValue(x).value + HexCharValue(y).value) as char]
             else ['%', x, y]) + DecodePercent(rest)
  {
    var s := ['%', x, y] + rest;
    assert s[1..3] == [x, y] && s[3..] == rest;
  }

  /** A percent sign too near the end stays. */
  lemma ShortEscapeStays(x: char)
    ensures DecodePercent("%") == "%" && DecodePercent(['%', x]) == ['%', x]
  {
    assert "%"[1..1] == "" && "%"[1..] == "" && ['%', x][1..2] == [x] && ['%', x][2..] == "";
  }

  /** The postfix is what follows the last dot; a name without a dot has none. */
  lemma {:induction false} PostfixIsAfterLastDot(s: string)
    ensures '.' !in s ==> WithoutPostfix(s) == s
    ensures '.' in s ==> var k := |WithoutPostfix(s)|;
              k < |s| && s[k] == '.' && '.' !in s[k + 1..] && WithoutPostfix(s) == s[..k]
  {
    if s != "" {
      var w := s[..|s| - 1];
      PostfixIsAfterLastDot(w);
      if '.' in s && s[|s| - 1] != '.' {
        assert '.' in w by { var i :| 0 <= i < |s| && s[i] == '.'; assert w[i] == '.'; }
        var k := |WithoutPostfix(w)|;
        assert s[k + 1..] == w[k + 1..] + [s[|s| - 1]];
      }
    }
  }

  // ---------- ignoring letter case ----------

  predicate SameIgnoringCase(a: string, b: string) {
    Lower(a) == Lower(b)
  }

  /** On ASCII the tables say what they say about ASCII letters. */
  ghost predicate AsciiTables(u: Tables) {
    forall c: char :: c as int < 128 ==>
      && (u.alphabetic(c) <==> 'a' <= c <= 'z' || 'A' <= c <= 'Z')
      && (u.uppercase(c) <==> 'A' <= c <= 'Z')
  }

  ghost predicate IsAscii(s: string) {
    forall i :: 0 <= i < |s| ==> s[i] as int < 128
  }

  lemma SameAt(a: string, b: string, i: nat)
    requires SameIgnoringCase(a, b) && i < |a|
    ensures |a| == |b| && LowerChar(a[i]) == LowerChar(b[i])
  {
    assert |Lower(a)| == |a| && |Lower(b)| == |b| && Lower(a)[i] == LowerChar(a[i]);
  }

  lemma SameSlices(a: string, b: string, i: nat, j: nat)
    requires SameIgnoringCase(a, b) && i <= j <= |a|
    ensures |a| == |b| && SameIgnoringCase(a[i..j], b[i..j])
  {
    assert |Lower(a)| == |a| && |Lower(b)| == |b|;
    assert Lower(a[i..j]) == Lower(a)[i..j] && Lower(b[i..j]) == Lower(b)[i..j];
  }

  lemma SameConcat(a: string, b: string, c: string, d: string)
    requires SameIgnoringCase(a, c) && SameIgnoringCase(b, d)
    ensures SameIgnoringCase(a + b, c + d)
  {
    assert Lower(a + b) == Lower(a) + Lower(b) && Lower(c + d) == Lower(c) + Lower(d);
  }

  /** Hexadecimal digits mean the same in either case. */
  lemma SamePercentText(g: string, h: string)
    requires SameIgnoringCase(g, h)
    ensures SameIgnoringCase(PercentText(g), PercentText(h))
  {
    SameSlices(g, h, 0, 0);
    if |g| == 2 {
      SameAt(g, h, 0);
      SameAt(g, h, 1);
      assert HexByte(g) == HexByte(h);
    }
    SameConcat("%", g, "%", h);
  }

  /** Decoding respects equality up to letter case. */
  lemma {:induction false} DecodeIgnoresCase(a: string, b: string)
    requires SameIgnoringCase(a, b)
    ensures SameIgnoringCase(DecodePercent(a), DecodePercent(b))
    decreases |a|
  {
    SameSlices(a, b, 0, 0);
    if a != "" {
      SameAt(a, b, 0);
      if a[0] == '%' {
        var k := AfterPercent(a);
        SameSlices(a, b, 1, k);
        SameSlices(a, b, k, |a|);
        assert a[k..|a|] == a[k..] && b[k..|a|] == b[k..];
        SamePercentText(a[1..k], b[1..k]);
        DecodeIgnoresCase(a[k..], b[k..]);
        SameConcat(PercentText(a[1..k]), DecodePercent(a[k..]), PercentText(b[1..k]), DecodePercent(b[k..]));
      } else {
        SameSlices(a, b, 0, 1);
        SameSlices(a, b, 1, |a|);
        assert a[0..1] == [a[0]] && b[0..1] == [b[0]] && a[1..|a|] == a[1..] && b[1..|a|] == b[1..];
        DecodeIgnoresCase(a[1..], b[1..]);
        SameConcat([a[0]], DecodePercent(a[1..]), [b[0]], DecodePercent(b[1..]));
      }
    }
  }

  lemma SwapIgnoresCase(a: string, b: string)
    requires SameIgnoringCase(a, b)
    ensures SameIgnoringCase(SwapAll(a), SwapAll(b))
  {
    SameSlices(a, b, 0, 0);
    forall i | 0 <= i < |a| ensures LowerChar(Swap(a[i])) == LowerChar(Swap(b[i])) { SameAt(a, b, i); }
    assert |Lower(SwapAll(a))| == |a|;
  }

  lemma SameCharacter(u: Tables, c: char, d: char)
    requires AsciiTables(u) && c as int < 128 && d as int < 128 && LowerChar(c) == LowerChar(d)
    ensures u.alphabetic(c) <==> u.alphabetic(d)
    ensures (u.alphabetic(c) ==> u.uppercase(c) == u.uppercase(d)) ==> c == d
  {
  }

  lemma CaseBitsEnd(u: Tables, s: string)
    requires s != ""
    ensures var c := s[|s| - 1];
            CaseBits(u, s) ==
              if u.alphabetic(c) then CaseBits(u, s[..|s| - 1]) + [u.uppercase(c)] else CaseBits(u, s[..|s| - 1])
  {
    assert CaseBits(u, s[..|s| - 1]) + [] == CaseBits(u, s[..|s| - 1]);
  }

  lemma SplitLast(x: seq<bool>, c: bool, y: seq<bool>, d: bool)
    requires x + [c] == y + [d]
    ensures x == y && c == d
  {
    assert |x| == |y|;
    assert (x + [c])[..|x|] == x && (y + [d])[..|x|] == y && (x + [c])[|x|] == c && (y + [d])[|x|] == d;
  }

  /** The same letters in the same places, and the same case everywhere: the same key. */
  lemma {:induction false} BitsTellCase(u: Tables, a: string, b: string)
    requires AsciiTables(u) && IsAscii(a) && IsAscii(b) && SameIgnoringCase(a, b)
    ensures |CaseBits(u, a)| == |CaseBits(u, b)|
    ensures CaseBits(u, a) == CaseBits(u, b) ==> a == b
  {
    SameSlices(a, b, 0, 0);
    if a != "" {
      var n := |a| - 1;
      SameAt(a, b, n);
      SameSlices(a, b, 0, n);
      assert a[0..n] == a[..n] && b[0..n] == b[..n];
      BitsTellCase(u, a[..n], b[..n]);
      SameCharacter(u, a[n], b[n]);
      CaseBitsEnd(u, a);
      CaseBitsEnd(u, b);
      if CaseBits(u, a) == CaseBits(u, b) {
        if u.alphabetic(a[n]) {
          SplitLast(CaseBits(u, a[..n]), u.uppercase(a[n]), CaseBits(u, b[..n]), u.uppercase(b[n]));
        }
        assert a == a[..n] + [a[n]] && b == b[..n] + [b[n]];
      }
    }
  }

  lemma {:induction false} LastDotSplits(x: string, p: string, y: string, q: string)
    requires '.' !in p && '.' !in q && x + "." + p == y + "." + q
    ensures x == y && p == q
  {
    PostfixDrops(x, p);
    PostfixDrops(y, q);
    assert (x + "." + p)[|x| + 1..] == p && (y + "." + q)[|y| + 1..] == q;
  }

  /** Lower-casing a file name leaves its postfix alone. */
  lemma LowerName(base: string, bits: seq<bool>)
    ensures Lower(base + "." + BitsToHex(bits)) == Lower(base) + "." + BitsToHex(bits)
  {
    PostfixKeepsValue(bits);
    var p := BitsToHex(bits);
    forall i | 0 <= i < |p| ensures LowerChar(p[i]) == p[i] { assert IsHexDigit(p[i]); }
    assert Lower(p) == p;
    assert Lower(base + "." + p) == Lower(base) + "." + Lower(p);
  }

  lemma BaseNameDecodes(u: Tables, key: string)
    ensures SwapAll(DecodePercent(BaseName(key))) == key
  {
    RoundTrip(u, key);
    PostfixHasNoDot(CaseBits(u, key));
    PostfixDrops(BaseName(key), BitsToHex(CaseBits(u, key)));
  }

  lemma SameBaseSameLetters(u: Tables, a: string, b: string)
    requires Lower(BaseName(a)) == Lower(BaseName(b))
    ensures SameIgnoringCase(a, b)
  {
    DecodeIgnoresCase(BaseName(a), BaseName(b));
    SwapIgnoresCase(DecodePercent(BaseName(a)), DecodePercent(BaseName(b)));
    BaseNameDecodes(u, a);
    BaseNameDecodes(u, b);
  }

  /** On a file system that ignores letter case no two ASCII keys share a file. */
  lemma CaseInsensitiveInjective(u: Tables, a: string, b: string)
    requires AsciiTables(u) && IsAscii(a) && IsAscii(b)
    requires SameIgnoringCase(EncodeFilename(u, a), EncodeFilename(u, b))
    ensures a == b
  {
    var p, q := CaseBits(u, a), CaseBits(u, b);
    LowerName(BaseName(a), p);
    LowerName(BaseName(b), q);
    PostfixHasNoDot(p);
    PostfixHasNoDot(q);
    LastDotSplits(Lower(BaseName(a)), BitsToHex(p), Lower(BaseName(b)), BitsToHex(q));
    SameBaseSameLetters(u, a, b);
    BitsTellCase(u, a, b);
    PostfixInjective(p, q);
  }
}
