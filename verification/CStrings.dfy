/** The C string functions that the text printers and parsers of the tools are built from. A string is
    a sequence of characters other than NUL. */
module CStrings {
  import opened Bytes

  datatype Chars = Digits | Blanks | Solid | Not(stop: char)

  /** Membership in a scanf character class; Blanks is isspace in the C locale. */
  predicate In(c: char, k: Chars) {
    match k
    case Digits => '0' <= c <= '9'
    case Blanks => c == ' ' || '\t' <= c <= '\r'
    case Solid => !(c == ' ' || '\t' <= c <= '\r')
    case Not(stop) => c != stop
  }

  predicate All(s: string, k: Chars) {
    forall i :: 0 <= i < |s| ==> In(s[i], k)
  }

  /** The length of the longest prefix within a class. */
  function Run(s: string, k: Chars): (n: nat)
    ensures n <= |s| && All(s[..n], k) && (n < |s| ==> !In(s[n], k))
  {
    if s == "" || !In(s[0], k) then 0 else 1 + Run(s[1..], k)
  }

  predicate Stops(s: string, k: Chars) {
    s == "" || !In(s[0], k)
  }

  lemma {:induction false} RunIs(a: string, b: string, k: Chars)
    requires All(a, k) && Stops(b, k)
    ensures Run(a + b, k) == |a| && (a + b)[..|a|] == a && (a + b)[|a|..] == b
  {
    if a == "" {
      assert a + b == b;
    } else {
      RunIs(a[1..], b, k);
      assert (a + b)[1..] == a[1..] + b;
    }
  }

  function SkipBlanks(s: string): string {
    s[Run(s, Blanks)..]
  }

  lemma NothingToSkip(s: string)
    requires Stops(s, Blanks)
    ensures SkipBlanks(s) == s
  {
  }

  /** A literal of a scanf format without blanks. */
  function Literal(lit: string, s: string): Option<string> {
    if lit <= s then Some(s[|lit|..]) else None
  }

  lemma LiteralMatches(lit: string, rest: string)
    ensures Literal(lit, lit + rest) == Some(rest)
  {
    assert lit <= lit + rest && (lit + rest)[|lit|..] == rest;
  }

  /** The conversion %<max>s. */
  function Word(s: string, max: nat): Option<(string, string)> {
    var t := SkipBlanks(s);
    var n := Min(max, Run(t, Solid));
    if n == 0 then None else Some((t[..n], t[n..]))
  }

  /** The conversion %<max>[^<stop>]. */
  function Until(s: string, stop: char, max: nat): Option<(string, string)> {
    var n := Min(max, Run(s, Not(stop)));
    if n == 0 then None else Some((s[..n], s[n..]))
  }

  lemma WordIs(w: string, rest: string, max: nat)
    requires w != "" && |w| <= max && All(w, Solid) && Stops(rest, Solid)
    ensures Word(w + rest, max) == Some((w, rest))
  {
    assert (w + rest)[0] == w[0];
    NothingToSkip(w + rest);
    RunIs(w, rest, Solid);
  }

  lemma UntilIs(w: string, rest: string, stop: char, max: nat)
    requires w != "" && |w| <= max && All(w, Not(stop)) && Stops(rest, Not(stop))
    ensures Until(w + rest, stop, max) == Some((w, rest))
  {
    RunIs(w, rest, Not(stop));
  }

  /** strsep with a single blank as the delimiter: the token, and the rest unless the string is used up. */
  function Strsep(s: string): (string, Option<string>) {
    var n := Run(s, Not(' '));
    if n == |s| then (s, None) else (s[..n], Some(s[n + 1..]))
  }

  lemma StrsepToken(tok: string, rest: string)
    requires All(tok, Not(' '))
    ensures Strsep(tok + " " + rest) == (tok, Some(rest))
  {
    assert tok + " " + rest == tok + (" " + rest);
    RunIs(tok, " " + rest, Not(' '));
    assert (tok + " " + rest)[|tok| + 1..] == rest;
  }

  lemma StrsepLast(tok: string)
    requires All(tok, Not(' '))
    ensures Strsep(tok) == (tok, None)
  {
    RunIs(tok, "", Not(' '));
    assert tok + "" == tok;
  }

  /** The text after the first occurrence of a character: strchr plus one. */
  function After(s: string, c: char): Option<string> {
    var n := Run(s, Not(c));
    if n == |s| then None else Some(s[n + 1..])
  }

  lemma AfterIs(a: string, c: char, b: string)
    requires All(a, Not(c))
    ensures After(a + [c] + b, c) == Some(b)
  {
    assert a + [c] + b == a + ([c] + b);
    RunIs(a, [c] + b, Not(c));
    assert (a + [c] + b)[|a| + 1..] == b;
  }

  /** What snprintf leaves in a buffer of a given size. */
  function Snprintf(size: nat, s: string): (r: string)
    requires size > 0
    ensures r <= s && |r| == Min(|s|, size - 1)
  {
    if |s| < size then s else s[..size - 1]
  }

  // Decimal numbers

  function DigitChar(d: nat): char
    requires d < 10
  {
    ('0' as int + d) as char
  }

  function Dec(n: nat): (s: string)
    ensures s != "" && All(s, Digits)
  {
    if n < 10 then [DigitChar(n)] else Dec(n / 10) + [DigitChar(n % 10)]
  }

  function DecInt(i: int): string {
    if i < 0 then "-" + Dec(-i) else Dec(i)
  }

  function Value(s: string): nat
    requires All(s, Digits)
  {
    if s == "" then 0 else Value(s[..|s| - 1]) * 10 + (s[|s| - 1] as int - '0' as int)
  }

  lemma {:induction false} DecValue(n: nat)
    ensures Value(Dec(n)) == n
  {
    if n >= 10 {
      DecValue(n / 10);
      assert Dec(n)[..|Dec(n)| - 1] == Dec(n / 10);
    } else {
      assert Dec(n)[..0] == "";
    }
  }

  /** A number below the k-th power of ten has at most k digits. */
  lemma {:induction false} DecLength(n: nat, k: nat, bound: nat)
    requires k > 0 && n < bound && bound <= Pow10(k)
    ensures |Dec(n)| <= k
  {
    if n >= 10 {
      assert k > 1;
      DecLength(n / 10, k - 1, Pow10(k - 1));
    }
  }

  lemma Lengths(n: nat)
    ensures n < U32 ==> |Dec(n)| <= 10
    ensures n < U64 ==> |Dec(n)| <= 20
  {
    hide Dec;
    assert Pow10(10) == 10_000_000_000;
    assert Pow10(20) == Pow10(10) * Pow10(10);
    if n < U32 {
      DecLength(n, 10, U32);
    }
    if n < U64 {
      DecLength(n, 20, U64);
    }
  }

  function Pow10(k: nat): (p: nat)
    ensures p > 0
  {
    if k == 0 then 1 else 10 * Pow10(k - 1)
  }

  /** The characters of a decimal number, from its end; the first one is 0 only for the number 0. */
  lemma {:induction false} DecDigits(n: nat, k: nat)
    ensures k < |Dec(n)| ==> Dec(n)[|Dec(n)| - 1 - k] == "0123456789"[n / Pow10(k) % 10]
    ensures n > 0 ==> Dec(n)[0] != '0'
  {
    if n >= 10 {
      DecDigits(n / 10, if k == 0 then 0 else k - 1);
      if k > 0 {
        QuotientTwice(n, Pow10(k - 1));
      }
    } else if k > 0 {
      assert |Dec(n)| == 1;
    }
  }

  lemma QuotientTwice(n: nat, p: nat)
    requires p > 0
    ensures n / 10 / p == n / (10 * p)
  {
    var q, r := n / 10 / p, n / 10 % p;
    assert n / 10 == q * p + r;
    assert n == q * (10 * p) + (10 * r + n % 10);
    QuotientIs(n, 10 * p, q, 10 * r + n % 10);
  }

  predicate Signed(t: string) {
    t != "" && (t[0] == '+' || t[0] == '-')
  }

  function Unsigned(t: string): string {
    if Signed(t) then t[1..] else t
  }

  function Negated(v: nat): nat
    requires v < U64
  {
    if v == 0 then 0 else U64 - v
  }

  /** strtoull in base ten (and strtoul where long has 64 bits): the value and the end pointer. */
  function Strtoull(s: string): (r: (nat, string))
    ensures r.0 < U64 && |r.1| <= |s|
  {
    var t := SkipBlanks(s);
    var u := Unsigned(t);
    var n := Run(u, Digits);
    if n == 0 then (0, s) else
    var v := Value(u[..n]);
    (if v >= U64 then U64 - 1 else if t[0] == '-' then Negated(v) else v, u[n..])
  }

  lemma StrtoullDec(n: nat, rest: string)
    requires n < U64 && Stops(rest, Digits)
    ensures Strtoull(Dec(n) + rest) == (n, rest)
  {
    var s := Dec(n) + rest;
    assert In(s[0], Digits) by {
      assert s[0] == Dec(n)[0];
    }
    NothingToSkip(s);
    RunIs(Dec(n), rest, Digits);
    DecValue(n);
  }

  /** Numbers beyond 64 bits are read as the largest one, negative ones wrap around, and without a digit nothing
      is read. */
  lemma StrtoullIs(n: nat, rest: string)
    requires Stops(rest, Digits)
    ensures Strtoull(Dec(n) + rest) == (if n < 0x1_0000_0000_0000_0000 then n else 0xffff_ffff_ffff_ffff, rest)
    ensures Strtoull("-" + (Dec(n) + rest)) == (if n == 0 then 0 else if n < 0x1_0000_0000_0000_0000 then
                                                 0x1_0000_0000_0000_0000 - n else 0xffff_ffff_ffff_ffff, rest)
    ensures !Signed(rest) && Stops(rest, Blanks) ==> Strtoull(rest) == (0, rest)
  {
    hide Dec, Value, Run, SkipBlanks;
    var s := Dec(n) + rest;
    assert s[0] == Dec(n)[0] && In(s[0], Digits);
    assert ("-" + s)[1..] == s;
    NothingToSkip(s);
    NothingToSkip("-" + s);
    RunIs(Dec(n), rest, Digits);
    DecValue(n);
    if !Signed(rest) && Stops(rest, Blanks) {
      NothingToSkip(rest);
      assert "" + rest == rest;
      RunIs("", rest, Digits);
    }
  }

  /** The scanf conversions of unsigned 64-bit numbers: as strtoull, but they fail when there is no number. */
  function ScanNumber(s: string): Option<(nat, string)> {
    var r := Strtoull(s);
    if r.1 == s then None else Some(r)
  }

  lemma ScanNumberDec(n: nat, rest: string)
    requires n < U64 && Stops(rest, Digits)
    ensures ScanNumber(Dec(n) + rest) == Some((n, rest))
  {
    StrtoullDec(n, rest);
    assert |Dec(n) + rest| > |rest|;
  }

  function ToInt32(x: int): int {
    (x + 0x8000_0000) % U32 - 0x8000_0000
  }

  function Saturated(negative: bool, v: nat): int {
    if negative then
      (if v > 0x8000_0000_0000_0000 then -0x8000_0000_0000_0000 else 0 - v) as int
    else
      if v > 0x7fff_ffff_ffff_ffff then 0x7fff_ffff_ffff_ffff else v
  }

  /** The conversion %d: a saturating 64-bit strtol stored in 32 bits. */
  function ScanInt(s: string): Option<(int, string)> {
    var t := SkipBlanks(s);
    var u := Unsigned(t);
    var n := Run(u, Digits);
    if n == 0 then None else Some((ToInt32(Saturated(t[0] == '-', Value(u[..n]))), u[n..]))
  }

  lemma DecIntSigned(i: int, rest: string)
    ensures var m := if i < 0 then -i else i; var s := DecInt(i) + rest;
      s != "" && Stops(s, Blanks) && Unsigned(s) == Dec(m) + rest && (s[0] == '-' <==> i < 0)
  {
    hide Dec;
    var m := if i < 0 then -i else i;
    var s := DecInt(i) + rest;
    var u := Dec(m) + rest;
    assert u[0] == Dec(m)[0];
    if i < 0 {
      assert s == "-" + u && s[1..] == u;
    } else {
      assert s == u;
    }
  }

  /** Any decimal number, through the conversion %d: cut to the 64 bits of strtol, then to 32. */
  lemma ScanIntIs(i: int, rest: string)
    requires Stops(rest, Digits)
    ensures var long := if i > 0x7fff_ffff_ffff_ffff then 0x7fff_ffff_ffff_ffff
                        else if i < -0x8000_0000_0000_0000 then -0x8000_0000_0000_0000 else i;
      ScanInt(DecInt(i) + rest) == Some(((long + 0x8000_0000) % 0x1_0000_0000 - 0x8000_0000, rest))
  {
    hide Dec, DecInt, Value, Run, SkipBlanks;
    var m := if i < 0 then -i else i;
    DecIntSigned(i, rest);
    NothingToSkip(DecInt(i) + rest);
    RunIs(Dec(m), rest, Digits);
    DecValue(m);
  }

  lemma ScanIntDec(i: int, rest: string)
    requires -0x8000_0000 <= i < 0x8000_0000 && Stops(rest, Digits)
    ensures ScanInt(DecInt(i) + rest) == Some((i, rest))
  {
    hide Dec, DecInt, Value, ToInt32, Saturated, Run, SkipBlanks;
    var m := if i < 0 then -i else i;
    DecIntSigned(i, rest);
    NothingToSkip(DecInt(i) + rest);
    RunIs(Dec(m), rest, Digits);
    DecValue(m);
    SmallIntKept(i);
  }

  lemma SmallIntKept(i: int)
    requires -0x8000_0000 <= i < 0x8000_0000
    ensures ToInt32(Saturated(i < 0, if i < 0 then -i else i)) == i
  {
  }

  // Hexadecimal bytes

  function HexChar(d: nat): char
    requires d < 16
  {
    if d < 10 then ('0' as int + d) as char else ('a' as int + d - 10) as char
  }

  function HexValue(c: char): Option<nat> {
    if '0' <= c <= '9' then Some(c as int - '0' as int)
    else if 'a' <= c <= 'f' then Some(c as int - 'a' as int + 10)
    else if 'A' <= c <= 'F' then Some(c as int - 'A' as int + 10)
    else None
  }

  /** The lower-case hexadecimal text of a byte string. */
  function Hex(key: seq<byte>): (s: string)
    ensures |s| == 2 * |key|
  {
    if key == [] then "" else [HexChar(key[0] / 16), HexChar(key[0] % 16)] + Hex(key[1..])
  }

  /** strtoul in base 16 over a two-character buffer, where both characters have to be used up: two digits,
      or one digit after a sign or a blank. */
  function HexByte(hi: char, lo: char): Option<byte> {
    match (HexValue(hi), HexValue(lo))
    case (Some(a), Some(b)) => if a < 16 && b < 16 then Some(16 * a + b) else None
    case (None, Some(b)) =>
      if b >= 16 then None
      else if hi == '-' then Some((256 - b) % 256)
      else if hi == '+' || In(hi, Blanks) then Some(b)
      else None
    case _ => None
  }

  /** The bytes of a hexadecimal text, two characters each; None when one of them is not accepted. */
  function HexBytes(s: string): Option<seq<byte>>
  {
    if |s| < 2 then Some([]) else
    match (HexByte(s[0], s[1]), HexBytes(s[2..]))
    case (Some(b), Some(rest)) => Some([b] + rest)
    case _ => None
  }

  lemma HexByteRoundTrip(b: byte)
    ensures HexByte(HexChar(b / 16), HexChar(b % 16)) == Some(b)
  {
    var hi, lo := b / 16, b % 16;
    assert b == 16 * hi + lo;
    assert HexValue(HexChar(hi)) == Some(hi);
    assert HexValue(HexChar(lo)) == Some(lo);
  }

  /** Every byte string is read back from its hexadecimal text. */
  lemma {:induction false} HexRoundTrip(key: seq<byte>)
    ensures HexBytes(Hex(key)) == Some(key)
  {
    if key != [] {
      HexByteRoundTrip(key[0]);
      HexRoundTrip(key[1..]);
      assert Hex(key)[2..] == Hex(key[1..]);
      assert key == [key[0]] + key[1..];
    }
  }

  /** The characters of a hexadecimal text: the high and the low half of each byte. */
  lemma {:induction false} HexDigits(key: seq<byte>, i: nat)
    requires i < |key|
    ensures Hex(key)[2 * i] == "0123456789abcdef"[key[i] / 16]
    ensures Hex(key)[2 * i + 1] == "0123456789abcdef"[key[i] % 16]
  {
    if i > 0 {
      HexDigits(key[1..], i - 1);
    }
  }

  predicate IsHexText(s: string) {
    forall i :: 0 <= i < |s| ==> HexValue(s[i]).Some?
  }

  lemma {:induction false} HexIsText(key: seq<byte>)
    ensures IsHexText(Hex(key)) && All(Hex(key), Not(' ')) && All(Hex(key), Not('-'))
  {
    if key != [] {
      HexIsText(key[1..]);
      var hi, lo := key[0] / 16, key[0] % 16;
      assert HexValue(HexChar(hi)) == Some(hi) && HexValue(HexChar(lo)) == Some(lo);
    }
  }

  // strcasecmp

  function Lower(c: char): char {
    if 'A' <= c <= 'Z' then (c as int + 32) as char else c
  }

  /** Two letters are the same to strcasecmp when they have the same place in the alphabet; nothing else is the
      same as anything but itself. */
  lemma SameLetter(a: char, b: char)
    ensures Lower(a) == Lower(b)
       <==> a == b || ('A' <= a <= 'Z' && 'a' <= b <= 'z' && b as int - a as int == 32)
                   || ('A' <= b <= 'Z' && 'a' <= a <= 'z' && a as int - b as int == 32)
  {
  }

  predicate SameIgnoringCase(a: string, b: string) {
    |a| == |b| && forall i :: 0 <= i < |a| ==> Lower(a[i]) == Lower(b[i])
  }
}
