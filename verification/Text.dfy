/** The text primitives of the wire format: cutting and joining, decimal and hexadecimal numbers, escapes. */
module Text {
  import opened Prelude
  import opened Domain

  // ---------------------------------------------------------------- cutting and joining

  /** The text before and after the first `sep`. */
  function Cut(s: string, sep: char): Option<(string, string)> {
    if s == [] then None
    else if s[0] == sep then Some(([], s[1..]))
    else
      match Cut(s[1..], sep)
      case None => None
      case Some((before, after)) => Some(([s[0]] + before, after))
  }

  lemma {:induction false} CutShrinks(s: string, sep: char)
    ensures Cut(s, sep).Some? ==>
              && s == Cut(s, sep).value.0 + [sep] + Cut(s, sep).value.1
              && sep !in Cut(s, sep).value.0
    ensures Cut(s, sep).None? <==> sep !in s
  {
    if s != [] {
      assert s == [s[0]] + s[1..];
      CutShrinks(s[1..], sep);
    }
  }

  lemma {:induction false} CutAt(p: string, sep: char, rest: string)
    requires sep !in p
    ensures Cut(p + [sep] + rest, sep) == Some((p, rest))
  {
    var s := p + [sep] + rest;
    if p == [] {
      assert s[0] == sep && s[1..] == rest;
    } else {
      assert s[0] == p[0] && s[1..] == p[1..] + [sep] + rest;
      CutAt(p[1..], sep, rest);
      assert p == [p[0]] + p[1..];
    }
  }

  /** Rust's `split(sep)`: there is always at least one part. */
  function Split(s: string, sep: char): (parts: seq<string>)
    ensures parts != []
    decreases |s|
  {
    CutShrinks(s, sep);
    match Cut(s, sep)
    case None => [s]
    case Some((before, after)) => [before] + Split(after, sep)
  }

  /** Rust's `splitn(n, sep)`: the last part keeps its separators. */
  function SplitN(s: string, sep: char, n: nat): (parts: seq<string>)
    requires n > 0
    ensures 1 <= |parts| <= n
    decreases n
  {
    if n == 1 then [s]
    else
      match Cut(s, sep)
      case None => [s]
      case Some((before, after)) => [before] + SplitN(after, sep, n - 1)
  }

  /** Rust's `join(sep)`. */
  function Join(parts: seq<string>, sep: char): string {
    if parts == [] then []
    else if |parts| == 1 then parts[0]
    else parts[0] + [sep] + Join(parts[1..], sep)
  }

  ghost predicate Free(s: string, c: char) {
    c !in s
  }

  ghost predicate AllFree(parts: seq<string>, c: char) {
    forall i :: 0 <= i < |parts| ==> Free(parts[i], c)
  }

  /** Splitting undoes joining when no part contains the separator. */
  lemma {:induction false} SplitJoin(parts: seq<string>, sep: char)
    requires parts != [] && AllFree(parts, sep)
    ensures Split(Join(parts, sep), sep) == parts
  {
    CutShrinks(parts[0], sep);
    assert Free(parts[0], sep);
    if |parts| > 1 {
      CutAt(parts[0], sep, Join(parts[1..], sep));
      SplitJoin(parts[1..], sep);
    }
  }

  lemma {:induction false} SplitNJoin(parts: seq<string>, sep: char, n: nat)
    requires |parts| == n > 0 && AllFree(parts[..n - 1], sep)
    ensures SplitN(Join(parts, sep), sep, n) == parts
  {
    if n > 1 {
      assert Free(parts[..n - 1][0], sep);
      CutAt(parts[0], sep, Join(parts[1..], sep));
      assert parts[1..][..n - 2] == parts[..n - 1][1..];
      SplitNJoin(parts[1..], sep, n - 1);
    }
  }

  lemma {:induction false} JoinFree(parts: seq<string>, sep: char, c: char)
    requires AllFree(parts, c) && c != sep
    ensures Free(Join(parts, sep), c)
  {
    if parts == [] {
    } else {
      assert Free(parts[0], c);
      if |parts| > 1 {
        JoinFree(parts[1..], sep, c);
      }
    }
  }

  /** Removing trailing carriage returns and newlines. */
  function TrimEnd(s: string): string {
    if s != [] && (s[|s| - 1] == '\r' || s[|s| - 1] == '\n') then TrimEnd(s[..|s| - 1]) else s
  }

  // ---------------------------------------------------------------- lists

  function EncodeAll<T>(items: seq<T>, enc: T -> string): (parts: seq<string>)
    ensures |parts| == |items|
    ensures forall i :: 0 <= i < |items| ==> parts[i] == enc(items[i])
  {
    if items == [] then [] else [enc(items[0])] + EncodeAll(items[1..], enc)
  }

  function DecodeAll<T>(parts: seq<string>, dec: string -> Option<T>): Option<seq<T>> {
    if parts == [] then Some([])
    else
      match (dec(parts[0]), DecodeAll(parts[1..], dec))
      case (Some(x), Some(xs)) => Some([x] + xs)
      case _ => None
  }

  function EncodeList<T>(items: seq<T>, enc: T -> string, sep: char): string {
    Join(EncodeAll(items, enc), sep)
  }

  /** A list field: empty text is the empty list. */
  function DecodeList<T>(s: string, dec: string -> Option<T>, sep: char): Option<seq<T>> {
    if s == [] then Some([]) else DecodeAll(Split(s, sep), dec)
  }

  /** `dec` undoes `enc` on `x`, whose text is not empty and does not contain `sep`. */
  ghost predicate Codes<T>(x: T, enc: T -> string, dec: string -> Option<T>, sep: char) {
    dec(enc(x)) == Some(x) && enc(x) != [] && Free(enc(x), sep)
  }

  lemma {:induction false} DecodeAllInverse<T>(items: seq<T>, enc: T -> string, dec: string -> Option<T>)
    requires forall i :: 0 <= i < |items| ==> dec(enc(items[i])) == Some(items[i])
    ensures DecodeAll(EncodeAll(items, enc), dec) == Some(items)
  {
    if items == [] {
    } else {
      DecodeAllInverse(items[1..], enc, dec);
      assert items == [items[0]] + items[1..];
      assert EncodeAll(items, enc)[1..] == EncodeAll(items[1..], enc);
    }
  }

  /** A list of any length, including the empty one, survives the round trip. */
  lemma {:induction false} ListRoundTrip<T>(items: seq<T>, enc: T -> string, dec: string -> Option<T>, sep: char)
    requires forall i :: 0 <= i < |items| ==> Codes(items[i], enc, dec, sep)
    ensures DecodeList(EncodeList(items, enc, sep), dec, sep) == Some(items)
  {
    if items != [] {
      var parts := EncodeAll(items, enc);
      forall i | 0 <= i < |parts|
        ensures Free(parts[i], sep)
      {
        assert Codes(items[i], enc, dec, sep);
      }
      SplitJoin(parts, sep);
      forall i | 0 <= i < |items|
        ensures dec(enc(items[i])) == Some(items[i])
      {
        assert Codes(items[i], enc, dec, sep);
      }
      DecodeAllInverse(items, enc, dec);
      assert Codes(items[0], enc, dec, sep);
      assert Join(parts, sep) != [];
    }
  }

  lemma ListFree<T>(items: seq<T>, enc: T -> string, sep: char, c: char)
    requires forall i :: 0 <= i < |items| ==> Free(enc(items[i]), c)
    requires c != sep
    ensures Free(EncodeList(items, enc, sep), c)
  {
    JoinFree(EncodeAll(items, enc), sep, c);
  }

  // ---------------------------------------------------------------- decimal numbers

  function DigitChar(d: nat): char
    requires d < 10
  {
    '0' + d as char
  }

  function DigitValue(c: char): Option<nat> {
    if '0' <= c <= '9' then Some(c as nat - '0' as nat) else None
  }

  /** `to_string` of an unsigned number. */
  function Decimal(n: nat): (s: string)
    ensures s != []
  {
    if n < 10 then [DigitChar(n)] else Decimal(n / 10) + [DigitChar(n % 10)]
  }

  function ParseDigits(s: string): Option<nat> {
    if s == [] then Some(0)
    else
      match (ParseDigits(s[..|s| - 1]), DigitValue(s[|s| - 1]))
      case (Some(n), Some(d)) => Some(10 * n + d)
      case _ => None
  }

  /** Rust's `parse` for unsigned types: an optional plus sign, at least one digit, no overflow. */
  function ParseUnsigned(s: string, bound: nat): (n: Option<nat>)
    ensures n.Some? ==> n.value < bound
  {
    var digits := if s != [] && s[0] == '+' then s[1..] else s;
    if digits == [] then None
    else
      match ParseDigits(digits)
      case Some(n) => if n < bound then Some(n) else None
      case None => None
  }

  function ParseU64(s: string): Option<u64> {
    match ParseUnsigned(s, TWO64)
    case Some(n) => Some(n)
    case None => None
  }

  function ParseU16(s: string): Option<u16> {
    match ParseUnsigned(s, 0x1_0000)
    case Some(n) => Some(n)
    case None => None
  }

  function SignedDecimal(x: i64): string {
    if x < 0 then ['-'] + Decimal(-(x as int)) else Decimal(x)
  }

  /** Rust's `parse` for `i64`. */
  function ParseI64(s: string): Option<i64> {
    if s != [] && s[0] == '-' then
      if |s| > 1 && s[1] == '+' then None
      else
        match ParseUnsigned(s[1..], TWO63 + 1)
        case Some(n) => Some(-(n as int))
        case None => None
    else
      match ParseUnsigned(s, TWO63)
      case Some(n) => Some(n)
      case None => None
  }

  predicate IsDigit(c: char) {
    '0' <= c <= '9'
  }

  lemma {:induction false} DecimalDigits(n: nat)
    ensures forall i :: 0 <= i < |Decimal(n)| ==> IsDigit(Decimal(n)[i])
    ensures ParseDigits(Decimal(n)) == Some(n)
  {
    if n < 10 {
      assert Decimal(n)[..0] == [];
    } else {
      DecimalDigits(n / 10);
      assert Decimal(n)[..|Decimal(n)| - 1] == Decimal(n / 10);
    }
  }

  lemma UnsignedRoundTrip(n: nat, bound: nat)
    requires n < bound
    ensures ParseUnsigned(Decimal(n), bound) == Some(n)
  {
    DecimalDigits(n);
    assert IsDigit(Decimal(n)[0]);
  }

  lemma SignedRoundTrip(x: i64)
    ensures ParseI64(SignedDecimal(x)) == Some(x)
  {
    if x < 0 {
      UnsignedRoundTrip(-(x as int), TWO63 + 1);
      DecimalDigits(-(x as int));
      assert IsDigit(Decimal(-(x as int))[0]);
      assert SignedDecimal(x)[1..] == Decimal(-(x as int));
    } else {
      UnsignedRoundTrip(x, TWO63);
      DecimalDigits(x);
      assert IsDigit(Decimal(x)[0]);
    }
  }

  /** Characters that number, digest and model texts are made of; no separator between fields is among them. */
  predicate IsPlain(c: char) {
    IsDigit(c) || c == '-' || ('a' <= c <= 'f')
  }

  ghost predicate Plain(s: string) {
    s != [] && forall i :: 0 <= i < |s| ==> IsPlain(s[i])
  }

  lemma DecimalPlain(n: nat)
    ensures Plain(Decimal(n))
  {
    DecimalDigits(n);
    forall i | 0 <= i < |Decimal(n)|
      ensures IsPlain(Decimal(n)[i])
    {
      assert IsDigit(Decimal(n)[i]);
    }
  }

  lemma SignedPlain(x: i64)
    ensures Plain(SignedDecimal(x))
  {
    DecimalPlain(if x < 0 then -(x as int) else x);
  }

  lemma PlainFree(s: string, c: char)
    requires Plain(s) && !IsPlain(c)
    ensures Free(s, c) && s != []
  {
  }

  // ---------------------------------------------------------------- hexadecimal digests

  function HexDigit(nibble: nat): char
    requires nibble < 16
  {
    if nibble < 10 then '0' + nibble as char else 'a' + (nibble - 10) as char
  }

  function HexValue(c: char): (v: Option<nat>)
    ensures v.Some? ==> v.value < 16
  {
    if '0' <= c <= '9' then Some(c as nat - '0' as nat)
    else if 'a' <= c <= 'f' then Some(c as nat - 'a' as nat + 10)
    else if 'A' <= c <= 'F' then Some(c as nat - 'A' as nat + 10)
    else None
  }

  function HexOf(b: seq<byte>): (s: string)
    ensures |s| == 2 * |b|
  {
    if b == [] then [] else [HexDigit(b[0] / 16), HexDigit(b[0] % 16)] + HexOf(b[1..])
  }

  function BytesOf(s: string): (b: Option<seq<byte>>)
    requires |s| % 2 == 0
    ensures b.Some? ==> |b.value| == |s| / 2
  {
    if s == [] then Some([])
    else
      match (HexValue(s[0]), HexValue(s[1]), BytesOf(s[2..]))
      case (Some(high), Some(low), Some(rest)) => Some([high * 16 + low] + rest)
      case _ => None
  }

  function DigestToHex(d: Digest): string {
    HexOf(d.bytes)
  }

  function DigestFromHex(s: string): Option<Digest> {
    if |s| != 64 then None
    else
      match BytesOf(s)
      case Some(bytes) => Some(Digest(bytes))
      case None => None
  }

  lemma {:induction false} HexRoundTrip(b: seq<byte>)
    ensures BytesOf(HexOf(b)) == Some(b)
    ensures forall i :: 0 <= i < |HexOf(b)| ==> IsPlain(HexOf(b)[i])
  {
    if b == [] {
    } else {
      HexRoundTrip(b[1..]);
      assert HexOf(b)[2..] == HexOf(b[1..]);
      assert b == [b[0]] + b[1..];
    }
  }

  lemma DigestRoundTrip(d: Digest)
    ensures DigestFromHex(DigestToHex(d)) == Some(d)
    ensures Plain(DigestToHex(d))
  {
    HexRoundTrip(d.bytes);
  }

  /** What is decoded so far, followed by what the rest decodes to. */
  ghost function Prepended<T>(done: seq<T>, rest: Option<seq<T>>): Option<seq<T>> {
    if rest.Some? then Some(done + rest.value) else None
  }

  lemma PrependedOne<T>(done: seq<T>, x: T, rest: Option<seq<T>>)
    ensures Prepended([], rest) == rest
    ensures Prepended(done, Some([])) == Some(done)
    ensures Prepended(done, Prepended([x], rest)) == Prepended(done + [x], rest)
  {
    assert done + [] == done;
    if rest.Some? {
      assert [] + rest.value == rest.value;
      assert done + ([x] + rest.value) == (done + [x]) + rest.value;
    }
  }

  lemma {:induction false} HexOfAppend(a: seq<byte>, x: byte)
    ensures HexOf(a + [x]) == HexOf(a) + [HexDigit(x / 16), HexDigit(x % 16)]
  {
    if a == [] {
      assert [] + [x] == [x];
    } else {
      HexOfAppend(a[1..], x);
      assert (a + [x])[1..] == a[1..] + [x];
    }
  }

  /** `Digest::to_hex`. */
  method ToHex(d: Digest) returns (out: string)
    ensures out == DigestToHex(d)
    ensures DigestFromHex(out) == Some(d)
  {
    out := [];
    var i := 0;
    while i < 32
      invariant 0 <= i <= 32
      invariant out == HexOf(d.bytes[..i])
    {
      HexOfAppend(d.bytes[..i], d.bytes[i]);
      assert d.bytes[..i + 1] == d.bytes[..i] + [d.bytes[i]];
      out := out + [HexDigit(d.bytes[i] / 16)];
      out := out + [HexDigit(d.bytes[i] % 16)];
      i := i + 1;
    }
    assert d.bytes[..32] == d.bytes;
    DigestRoundTrip(d);
  }

  /** Decoding the digits from position `2 * i` on, one byte at a time. */
  lemma BytesOfStep(input: string, i: nat)
    requires |input| == 64 && i < 32
    ensures BytesOf(input[2 * i..]) ==
              match (HexValue(input[2 * i]), HexValue(input[2 * i + 1]))
              case (Some(high), Some(low)) => Prepended([high * 16 + low], BytesOf(input[2 * (i + 1)..]))
              case _ => None
  {
    var tail := input[2 * i..];
    assert tail[0] == input[2 * i] && tail[1] == input[2 * i + 1] && tail[2..] == input[2 * (i + 1)..];
  }

  /** `Digest::from_hex`. */
  method FromHex(input: string) returns (result: Option<Digest>)
    ensures result == DigestFromHex(input)
  {
    hide HexValue;
    if |input| != 64 {
      return None;
    }
    var bytes: seq<byte> := [];
    var i := 0;
    assert input[0..] == input;
    PrependedOne([], 0 as byte, BytesOf(input));
    while i < 32
      invariant 0 <= i <= 32 && |bytes| == i
      invariant BytesOf(input) == Prepended(bytes, BytesOf(input[2 * i..]))
    {
      BytesOfStep(input, i);
      var high := HexValue(input[2 * i]);
      var low := HexValue(input[2 * i + 1]);
      if high.None? || low.None? {
        return None;
      }
      PrependedOne(bytes, high.value * 16 + low.value, BytesOf(input[2 * (i + 1)..]));
      bytes := bytes + [high.value * 16 + low.value];
      i := i + 1;
    }
    PrependedOne(bytes, 0, None);
    assert input[64..] == [];
    return Some(Digest(bytes));
  }

  // ---------------------------------------------------------------- escapes

  /** `replace` of one character by a text. */
  function Replace(s: string, c: char, code: string): string {
    if s == [] then [] else (if s[0] == c then code else [s[0]]) + Replace(s[1..], c, code)
  }

  function Escape(s: string): string {
    Replace(Replace(s, '%', "%25"), '|', "%7C")
  }

  /** The UTF-8 bytes of one character. */
  function Utf8Char(c: char): (b: seq<byte>)
    ensures b != []
    ensures |b| == 1 <==> c as int < 128
    ensures |b| == 1 ==> b[0] == c as int
    ensures |b| > 1 ==> forall i :: 0 <= i < |b| ==> b[i] >= 128
  {
    var x := c as int;
    if x < 0x80 then [x]
    else if x < 0x800 then [0xC0 + x / 0x40, 0x80 + x % 0x40]
    else if x < 0x1_0000 then [0xE0 + x / 0x1000, 0x80 + x / 0x40 % 0x40, 0x80 + x % 0x40]
    else [0xF0 + x / 0x4_0000, 0x80 + x / 0x1000 % 0x40, 0x80 + x / 0x40 % 0x40, 0x80 + x % 0x40]
  }

  /** `as_bytes`. */
  function Utf8(s: string): seq<byte> {
    if s == [] then [] else Utf8Char(s[0]) + Utf8(s[1..])
  }

  /** Each byte read as a character of its own. */
  function CharsOf(b: seq<byte>): (s: string)
    ensures |s| == |b|
  {
    if b == [] then [] else [b[0] as char] + CharsOf(b[1..])
  }

  /** What is left of a text that is taken apart into bytes and put together from them. */
  function Bytewise(s: string): string {
    CharsOf(Utf8(s))
  }

  predicate Ascii(s: string) {
    forall i :: 0 <= i < |s| ==> s[i] as int < 128
  }

  const PERCENT: byte := 37

  /** `u8::from_str_radix(text, 16)` on two bytes; Rust accepts a leading plus sign. */
  function HexPair(high: byte, low: byte): (v: Option<byte>) {
    if high as char == '+' then
      match HexValue(low as char)
      case Some(l) => Some(l)
      case None => None
    else
      match (HexValue(high as char), HexValue(low as char))
      case (Some(h), Some(l)) => Some(16 * h + l)
      case _ => None
  }

  function UnescapeBytes(b: seq<byte>): Option<string> {
    if b == [] then Some([])
    else if b[0] != PERCENT then
      match UnescapeBytes(b[1..])
      case Some(rest) => Some([b[0] as char] + rest)
      case None => None
    else if |b| < 3 then None
    else
      match (HexPair(b[1], b[2]), UnescapeBytes(b[3..]))
      case (Some(value), Some(rest)) => Some([value as char] + rest)
      case _ => None
  }

  function Unescape(s: string): Option<string> {
    UnescapeBytes(Utf8(s))
  }

  lemma {:induction false} ReplaceAppend(s: string, t: string, c: char, code: string)
    ensures Replace(s + t, c, code) == Replace(s, c, code) + Replace(t, c, code)
  {
    if s == [] {
      assert s + t == t;
    } else {
      assert (s + t)[0] == s[0] && (s + t)[1..] == s[1..] + t;
      ReplaceAppend(s[1..], t, c, code);
    }
  }

  /** The two replacements in a row escape character by character. */
  lemma EscapeHead(s: string)
    requires s != []
    ensures Escape(s) == (if s[0] == '%' then "%25" else if s[0] == '|' then "%7C" else [s[0]]) + Escape(s[1..])
  {
    var head := if s[0] == '%' then "%25" else [s[0]];
    ReplaceAppend(head, Replace(s[1..], '%', "%25"), '|', "%7C");
    if s[0] == '%' {
      assert Replace("%25", '|', "%7C") == "%25" by {
        assert "%25"[1..] == "25" && "25"[1..] == "5";
      }
    } else {
      assert Replace([s[0]], '|', "%7C") == if s[0] == '|' then "%7C" else [s[0]];
    }
  }

  lemma {:induction false} Utf8Append(s: string, t: string)
    ensures Utf8(s + t) == Utf8(s) + Utf8(t)
  {
    if s == [] {
      assert s + t == t;
    } else {
      assert (s + t)[0] == s[0] && (s + t)[1..] == s[1..] + t;
      Utf8Append(s[1..], t);
    }
  }

  /** Bytes other than the percent sign pass through one by one. */
  lemma {:induction false} PlainBytes(b: seq<byte>, rest: seq<byte>)
    requires forall i :: 0 <= i < |b| ==> b[i] != PERCENT
    ensures UnescapeBytes(b + rest) == Prepended(CharsOf(b), UnescapeBytes(rest))
  {
    if b == [] {
      assert b + rest == rest;
      PrependedOne([], ' ', UnescapeBytes(rest));
    } else {
      assert (b + rest)[1..] == b[1..] + rest;
      PlainBytes(b[1..], rest);
      var after := UnescapeBytes(rest);
      if after.Some? {
        assert [b[0] as char] + (CharsOf(b[1..]) + after.value) == ([b[0] as char] + CharsOf(b[1..])) + after.value;
      }
    }
  }

  lemma {:induction false} CharsOfAppend(a: seq<byte>, b: seq<byte>)
    ensures CharsOf(a + b) == CharsOf(a) + CharsOf(b)
  {
    if a == [] {
      assert a + b == b;
    } else {
      assert (a + b)[1..] == a[1..] + b;
      CharsOfAppend(a[1..], b);
    }
  }

  /** The two escapes are undone. */
  lemma EscapedByte(c: char, code: string, rest: seq<byte>)
    requires (c == '%' && code == "%25") || (c == '|' && code == "%7C")
    ensures UnescapeBytes(Utf8(code) + rest) == Prepended([c], UnescapeBytes(rest))
    ensures CharsOf(Utf8Char(c)) == [c]
  {
    var b := if c == '%' then [37, 50, 53] else [37, 55, 67];
    var tail := code[1..];
    assert tail[1..][1..] == [];
    assert Utf8(tail[1..]) == [b[2]];
    assert Utf8(tail) == [b[1], b[2]];
    assert Utf8(code) == b;
    assert (b + rest)[3..] == rest;
    assert HexPair(b[1], b[2]) == Some(c as int);
    assert Utf8Char(c) == [c as int];
    assert [c as int][1..] == [];
  }

  /**
   * Escaping hides every bar, and unescaping gives back the bytes of the text, each as a character of its own: percent
   * signs and bars survive, characters outside ASCII do not.
   */
  lemma {:induction false} EscapeRoundTrip(s: string)
    ensures Unescape(Escape(s)) == Some(Bytewise(s))
    ensures Free(Escape(s), '|')
  {
    hide Utf8Char;
    if s == [] {
    } else {
      EscapeHead(s);
      EscapeRoundTrip(s[1..]);
      var c, rest := s[0], Escape(s[1..]);
      var head := if c == '%' then "%25" else if c == '|' then "%7C" else [c];
      Utf8Append(head, rest);
      CharsOfAppend(Utf8Char(c), Utf8(s[1..]));
      if c == '%' || c == '|' {
        EscapedByte(c, head, Utf8(rest));
      } else {
        Utf8One(c);
        PlainBytes(Utf8Char(c), Utf8(rest));
      }
    }
  }

  lemma Utf8One(c: char)
    requires c != '%'
    ensures Utf8([c]) == Utf8Char(c)
    ensures forall i :: 0 <= i < |Utf8Char(c)| ==> Utf8Char(c)[i] != PERCENT
  {
    assert [c][1..] == [];
  }

  lemma {:induction false} Utf8Grows(s: string)
    ensures |Utf8(s)| >= |s|
    ensures |Utf8(s)| == |s| <==> Ascii(s)
    ensures Ascii(s) ==> Bytewise(s) == s
  {
    if s != [] {
      Utf8Grows(s[1..]);
      assert s == [s[0]] + s[1..];
      if Ascii(s) {
        assert Utf8(s)[1..] == Utf8(s[1..]);
      }
      assert Ascii(s) <==> s[0] as int < 128 && Ascii(s[1..]);
    }
  }

  /** A text survives the round trip exactly when it is ASCII. */
  lemma EscapeKeepsExactlyAscii(s: string)
    ensures Unescape(Escape(s)) == Some(s) <==> Ascii(s)
  {
    EscapeRoundTrip(s);
    Utf8Grows(s);
  }

  lemma UnescapeStep(input: seq<byte>, i: nat)
    requires i < |input|
    ensures UnescapeBytes(input[i..]) ==
              if input[i] != PERCENT then Prepended([input[i] as char], UnescapeBytes(input[i + 1..]))
              else if i + 2 >= |input| || HexPair(input[i + 1], input[i + 2]).None? then None
              else Prepended([HexPair(input[i + 1], input[i + 2]).value as char], UnescapeBytes(input[i + 3..]))
  {
    var tail := input[i..];
    assert tail[1..] == input[i + 1..];
    if i + 2 < |input| {
      assert tail[3..] == input[i + 3..];
    }
  }

  /** `unescape`. */
  method UnescapeText(input: string) returns (result: Option<string>)
    ensures result == Unescape(input)
  {
    hide HexPair;
    var out: string := [];
    var bytes := Utf8(input);
    var i := 0;
    assert bytes[0..] == bytes;
    PrependedOne([], ' ', UnescapeBytes(bytes));
    while i < |bytes|
      invariant 0 <= i <= |bytes|
      invariant UnescapeBytes(bytes) == Prepended(out, UnescapeBytes(bytes[i..]))
    {
      UnescapeStep(bytes, i);
      var b := bytes[i];
      i := i + 1;
      if b != PERCENT {
        PrependedOne(out, b as char, UnescapeBytes(bytes[i..]));
        out := out + [b as char];
        continue;
      }
      if i == |bytes| {
        return None;
      }
      var high := bytes[i];
      i := i + 1;
      if i == |bytes| {
        return None;
      }
      var low := bytes[i];
      i := i + 1;
      var value := HexPair(high, low);
      if value.None? {
        return None;
      }
      PrependedOne(out, value.value as char, UnescapeBytes(bytes[i..]));
      out := out + [value.value as char];
    }
    PrependedOne(out, ' ', None);
    assert bytes[i..] == [];
    return Some(out);
  }
}
