/** The Base64 encoding of section 4 of RFC 4648, and what decoding it means. */
module Base64Spec {
  import opened Bytes

  /** The character for a 6-bit value. */
  function Char6(n: nat): (c: char)
    requires n < 64
    ensures c != '=' && c != '\n'
  {
    if n < 26 then 'A' + n as char
    else if n < 52 then 'a' + (n - 26) as char
    else if n < 62 then '0' + (n - 52) as char
    else if n == 62 then '+' else '/'
  }

  lemma Char6Injective(m: nat, n: nat)
    requires m < 64 && n < 64 && Char6(m) == Char6(n)
    ensures m == n
  {
  }

  /** The smallest 6-bit value from `n` on whose character is `c`, or -1. */
  function Find(c: char, n: nat): (v: int)
    requires n <= 64
    ensures v == -1 || (n <= v < 64 && Char6(v) == c)
    ensures v == -1 ==> forall m :: n <= m < 64 ==> Char6(m) != c
    decreases 64 - n
  {
    if n == 64 then -1 else if Char6(n) == c then n else Find(c, n + 1)
  }

  /** The value of a character, -1 outside the alphabet. */
  function Value(c: char): (v: int)
    ensures -1 <= v < 64 && (v >= 0 ==> Char6(v) == c)
    ensures c == '=' || c == '\n' ==> v == -1
  {
    Find(c, 0)
  }

  lemma ValueChar(n: nat)
    requires n < 64
    ensures Value(Char6(n)) == n
  {
    var v := Value(Char6(n));
    Char6Injective(v, n);
  }

  /** The alphabet of table 1 of RFC 4648, in pieces because the verifier does not look into long literals. */
  function Alphabet(): (t: string)
    ensures |t| == 64
  {
    "ABCDEFGHIJKLM" + ("NOPQRSTUVWXYZ" + ("abcdefghijklm" + ("nopqrstuvwxyz" + "0123456789+/")))
  }

  lemma AlphabetIs(n: nat)
    requires n < 64
    ensures Alphabet()[n] == if n < 13 then "ABCDEFGHIJKLM"[n] else if n < 26 then "NOPQRSTUVWXYZ"[n - 13]
                             else if n < 39 then "abcdefghijklm"[n - 26] else if n < 52 then "nopqrstuvwxyz"[n - 39]
                             else "0123456789+/"[n - 52]
  {
  }

  lemma Upper(n: nat)
    requires n < 26
    ensures 'A' + n as char == if n < 13 then "ABCDEFGHIJKLM"[n] else "NOPQRSTUVWXYZ"[n - 13]
  {
  }

  lemma Lower(n: nat)
    requires n < 26
    ensures 'a' + n as char == if n < 13 then "abcdefghijklm"[n] else "nopqrstuvwxyz"[n - 13]
  {
  }

  lemma Rest(n: nat)
    requires n < 12
    ensures "0123456789+/"[n] == if n < 10 then '0' + n as char else if n == 10 then '+' else '/'
  {
  }

  /** The character for a 6-bit value is the one at that place in the alphabet. */
  lemma Char6Is(n: nat)
    requires n < 64
    ensures Char6(n) == Alphabet()[n]
  {
    hide Alphabet;
    AlphabetIs(n);
    if n < 26 {
      Upper(n);
    } else if n < 52 {
      Lower(n - 26);
    } else {
      Rest(n - 52);
    }
  }

  /** The value of a character is its place in the alphabet. */
  lemma ValueIs(c: char)
    ensures Value(c) == if 'A' <= c <= 'Z' then c as int - 65 else if 'a' <= c <= 'z' then c as int - 71
                        else if '0' <= c <= '9' then c as int + 4 else if c == '+' then 62 else if c == '/' then 63
                        else -1
    ensures Value(c) == -1 <==> c !in Alphabet()
    ensures Value(c) >= 0 ==> Alphabet()[Value(c)] == c
  {
    hide Alphabet;
    if Value(c) >= 0 {
      Char6Is(Value(c));
    }
    if c in Alphabet() {
      var n :| 0 <= n < 64 && Alphabet()[n] == c;
      Char6Is(n);
    }
    NoOther(c);
  }

  lemma NoOther(c: char)
    ensures Value(c) == if 'A' <= c <= 'Z' then c as int - 65 else if 'a' <= c <= 'z' then c as int - 71
                        else if '0' <= c <= '9' then c as int + 4 else if c == '+' then 62 else if c == '/' then 63
                        else -1
  {
    hide Value;
    var v := Value(c);
    if 'A' <= c <= 'Z' {
      ValueChar(c as int - 65);
    } else if 'a' <= c <= 'z' {
      ValueChar(c as int - 71);
    } else if '0' <= c <= '9' {
      ValueChar(c as int + 4);
    } else if c == '+' {
      ValueChar(62);
    } else if c == '/' {
      ValueChar(63);
    }
  }

  /** Three bytes as one 24-bit group. */
  function Group(a: byte, b: byte, c: byte): (v: nat)
    ensures v < 0x1000000
  {
    a * 0x10000 + b * 0x100 + c
  }

  /** The characters of the four 6-bit parts of a group. */
  function Chars(v: nat): (q: string)
    requires v < 0x1000000
    ensures |q| == 4
  {
    [Char6(v / 64 / 64 / 64), Char6(v / 64 / 64 % 64), Char6(v / 64 % 64), Char6(v % 64)]
  }

  /** The bytes of a group. */
  function Bytes3(v: nat): (s: seq<byte>)
    requires v < 0x1000000
    ensures |s| == 3 && Group(s[0], s[1], s[2]) == v
  {
    [v / 256 / 256, v / 256 % 256, v % 256]
  }

  lemma GroupBytes(a: byte, b: byte, c: byte)
    ensures Bytes3(Group(a, b, c)) == [a, b, c]
  {
    var v := Group(a, b, c);
    assert v / 256 == a * 256 + b;
  }

  lemma Sextets(a: nat, b: nat, c: nat, d: nat)
    requires a < 64 && b < 64 && c < 64 && d < 64
    ensures Chars(((a * 64 + b) * 64 + c) * 64 + d) == [Char6(a), Char6(b), Char6(c), Char6(d)]
  {
    var v := ((a * 64 + b) * 64 + c) * 64 + d;
    assert v / 64 == (a * 64 + b) * 64 + c;
    assert v / 64 / 64 == a * 64 + b;
  }

  lemma FromSextets(v: nat) returns (a: nat, b: nat, c: nat, d: nat)
    requires v < 0x1000000
    ensures a < 64 && b < 64 && c < 64 && d < 64 && v == ((a * 64 + b) * 64 + c) * 64 + d
    ensures d == v % 64 && c == v / 64 % 64 && b == v / 64 / 64 % 64
    ensures Chars(v) == [Char6(a), Char6(b), Char6(c), Char6(d)]
  {
    a, b, c, d := v / 64 / 64 / 64, v / 64 / 64 % 64, v / 64 % 64, v % 64;
  }

  function Encoded(s: seq<byte>): (t: string)
    ensures |t| == (|s| + 2) / 3 * 4
  {
    if |s| == 0 then ""
    else if |s| == 1 then Chars(Group(s[0], 0, 0))[..2] + "=="
    else if |s| == 2 then Chars(Group(s[0], s[1], 0))[..3] + "="
    else
      assert (|s| + 2) / 3 == (|s| - 3 + 2) / 3 + 1;
      Chars(Group(s[0], s[1], s[2])) + Encoded(s[3..])
  }

  /** The bytes of a group of four characters, of which the last one or two may be padding. */
  function Quad(q: string): Option<seq<byte>>
    requires |q| == 4
  {
    var a, b, c, d := Value(q[0]), Value(q[1]), Value(q[2]), Value(q[3]);
    if a < 0 || b < 0 then None
    else if q[2] == '=' then
      (if q[3] == '=' then Some([(a * 64 + b) / 16]) else None)
    else if c < 0 then None
    else if q[3] == '=' then
      Some(Bytes3(((a * 64 + b) * 64 + c) * 64)[..2])
    else if d < 0 then None
    else
      Some(Bytes3(((a * 64 + b) * 64 + c) * 64 + d))
  }

  /** The four characters of a group of three bytes, read off the alphabet. */
  lemma CharsAre(a: byte, b: byte, c: byte)
    ensures a / 4 < 64 && a % 4 * 16 + b / 16 < 64 && b % 16 * 4 + c / 64 < 64 && c % 64 < 64
    ensures Chars(Group(a, b, c)) == [Alphabet()[a / 4], Alphabet()[a % 4 * 16 + b / 16],
                                      Alphabet()[b % 16 * 4 + c / 64], Alphabet()[c % 64]]
  {
    hide Chars, Alphabet, Char6;
    SplitGroup(a, b, c);
    Sextets(a / 4, a % 4 * 16 + b / 16, b % 16 * 4 + c / 64, c % 64);
    Char6Is(a / 4);
    Char6Is(a % 4 * 16 + b / 16);
    Char6Is(b % 16 * 4 + c / 64);
    Char6Is(c % 64);
  }

  lemma SplitGroup(a: byte, b: byte, c: byte)
    ensures a / 4 < 64 && a % 4 * 16 + b / 16 < 64 && b % 16 * 4 + c / 64 < 64 && c % 64 < 64
    ensures Group(a, b, c)
         == ((a / 4 * 64 + (a % 4 * 16 + b / 16)) * 64 + (b % 16 * 4 + c / 64)) * 64 + c % 64
  {
  }

  /** Byte i, or zero bits behind the end. */
  function ByteAt(s: seq<byte>, i: nat): byte {
    if i < |s| then s[i] else 0
  }

  /** Every group of an encoding, character by character. */
  lemma {:induction false} EncodedGroup(s: seq<byte>, g: nat)
    requires 3 * g < |s|
    ensures 4 * g + 4 <= |Encoded(s)|
    ensures var a, b, c := s[3 * g], ByteAt(s, 3 * g + 1), ByteAt(s, 3 * g + 2);
      && a % 4 * 16 + b / 16 < 64 && b % 16 * 4 + c / 64 < 64
      && Encoded(s)[4 * g] == Alphabet()[a / 4]
      && Encoded(s)[4 * g + 1] == Alphabet()[a % 4 * 16 + b / 16]
      && Encoded(s)[4 * g + 2] == (if 3 * g + 1 < |s| then Alphabet()[b % 16 * 4 + c / 64] else '=')
      && Encoded(s)[4 * g + 3] == (if 3 * g + 2 < |s| then Alphabet()[c % 64] else '=')
  {
    hide Chars, Alphabet, Group;
    if g == 0 {
      CharsAre(s[0], ByteAt(s, 1), ByteAt(s, 2));
    } else {
      EncodedGroup(s[3..], g - 1);
    }
  }

  /** The bytes of a group of four characters, from their places in the alphabet. */
  lemma QuadIs(q: string)
    requires |q| == 4
    ensures var a, b, c, d := Value(q[0]), Value(q[1]), Value(q[2]), Value(q[3]);
      Quad(q) == if a < 0 || b < 0 then None
                 else if q[2] == '=' && q[3] == '=' then Some([(a * 4 + b / 16) as byte])
                 else if c < 0 then None
                 else if q[3] == '=' then Some([(a * 4 + b / 16) as byte, (b % 16 * 16 + c / 4) as byte])
                 else if d < 0 then None
                 else Some([(a * 4 + b / 16) as byte, (b % 16 * 16 + c / 4) as byte, (c % 4 * 64 + d) as byte])
  {
    hide Value, Bytes3;
    var a, b, c, d := Value(q[0]), Value(q[1]), Value(q[2]), Value(q[3]);
    if a >= 0 && b >= 0 {
      FirstByte(a, b);
      if c >= 0 && q[3] == '=' {
        TwoBytes(a, b, c);
      } else if c >= 0 && d >= 0 {
        GroupIs(a, b, c, d);
      }
    }
  }

  lemma TwoBytes(a: nat, b: nat, c: nat)
    requires a < 64 && b < 64 && c < 64
    ensures Bytes3(((a * 64 + b) * 64 + c) * 64)[..2] == [a * 4 + b / 16, b % 16 * 16 + c / 4]
  {
    hide Bytes3;
    GroupIs(a, b, c, 0);
    assert ((a * 64 + b) * 64 + c) * 64 + 0 == ((a * 64 + b) * 64 + c) * 64;
    var s := Bytes3(((a * 64 + b) * 64 + c) * 64);
    assert s[..2] == [s[0], s[1]];
  }

  lemma FirstByte(a: nat, b: nat)
    requires a < 64 && b < 64
    ensures (a * 64 + b) / 16 == a * 4 + b / 16
  {
  }

  lemma GroupIs(a: nat, b: nat, c: nat, d: nat)
    requires a < 64 && b < 64 && c < 64 && d < 64
    ensures Bytes3(((a * 64 + b) * 64 + c) * 64 + d) == [a * 4 + b / 16, b % 16 * 16 + c / 4, c % 4 * 64 + d]
  {
    var v := ((a * 64 + b) * 64 + c) * 64 + d;
    assert v == ((a * 4 + b / 16) * 256 + (b % 16 * 16 + c / 4)) * 256 + (c % 4 * 64 + d);
    QuotientIs(v, 256, (a * 4 + b / 16) * 256 + (b % 16 * 16 + c / 4), c % 4 * 64 + d);
    QuotientIs(v / 256, 256, a * 4 + b / 16, b % 16 * 16 + c / 4);
  }

  /** Any concatenation of full or padded groups. */
  function Decoded(t: string): Option<seq<byte>> {
    if t == "" then Some([])
    else if |t| < 4 then None
    else
      var q, rest := Quad(t[..4]), Decoded(t[4..]);
      if q.None? || rest.None? then None else Some(q.value + rest.value)
  }

  predicate GroupsDecode(t: string) {
    |t| % 4 == 0 && forall g :: 0 <= g < |t| / 4 ==> Quad(t[4 * g..4 * g + 4]).Some?
  }

  /** Group g of a text is group g - 1 behind its first one. */
  lemma GroupBehind(t: string, g: nat)
    requires g > 0 && 4 * g + 4 <= |t|
    ensures t[4..][4 * (g - 1)..4 * (g - 1) + 4] == t[4 * g..4 * g + 4]
  {
    var a, b := t[4..][4 * (g - 1)..4 * (g - 1) + 4], t[4 * g..4 * g + 4];
    forall i | 0 <= i < 4
      ensures a[i] == b[i]
    {
    }
  }

  lemma GroupsBehind(t: string)
    requires |t| >= 4
    ensures GroupsDecode(t) <==> Quad(t[..4]).Some? && GroupsDecode(t[4..])
  {
    hide Quad;
    var rest := t[4..];
    if GroupsDecode(t) {
      assert Quad(t[4 * 0..4 * 0 + 4]).Some?;
      forall g | 0 <= g < |rest| / 4
        ensures Quad(rest[4 * g..4 * g + 4]).Some?
      {
        GroupBehind(t, g + 1);
      }
    }
    if Quad(t[..4]).Some? && GroupsDecode(rest) {
      forall g | 0 <= g < |t| / 4
        ensures Quad(t[4 * g..4 * g + 4]).Some?
      {
        if g > 0 {
          GroupBehind(t, g);
        }
      }
    }
  }

  /** A text stands for bytes exactly when it is cut into groups that do. */
  lemma {:induction false} DecodedIff(t: string)
    ensures Decoded(t).Some? <==> GroupsDecode(t)
  {
    if |t| >= 4 {
      hide Quad, GroupsDecode;
      GroupsBehind(t);
      DecodedIff(t[4..]);
    }
  }

  /** The bytes of each group are where its place in the text says, as long as padding comes last. */
  lemma {:induction false} DecodedGroup(t: string, g: nat)
    requires Decoded(t).Some? && PadsAtEnd(t) && 4 * g + 4 <= |t|
    ensures var q := Quad(t[4 * g..4 * g + 4]); var bytes := Decoded(t).value;
      q.Some? && 3 * g + |q.value| <= |bytes| && bytes[3 * g..3 * g + |q.value|] == q.value
    ensures 4 * g + 4 < |t| ==> |Quad(t[4 * g..4 * g + 4]).value| == 3
  {
    hide Quad;
    FullGroup(t[..4]);
    if g > 0 {
      var rest := t[4..];
      DecodedGroup(rest, g - 1);
      GroupBehind(t, g);
    }
  }

  lemma FullGroup(q: string)
    requires |q| == 4 && Quad(q).Some?
    ensures q[3] != '=' ==> |Quad(q).value| == 3
  {
  }

  /** Only the last group may be padded. */
  predicate PadsAtEnd(t: string) {
    |t| <= 4 || (t[3] != '=' && PadsAtEnd(t[4..]))
  }

  /** The bits of the last group that no byte uses are zero (section 3.5 of RFC 4648). */
  predicate Canonical(t: string) {
    if |t| < 4 then true
    else
      var q := t[|t| - 4..];
      if q[2] == '=' then Value(q[1]) % 16 == 0 else if q[3] == '=' then Value(q[2]) % 4 == 0 else true
  }

  lemma QuadFull(a: nat, b: nat, c: nat, d: nat)
    requires a < 64 && b < 64 && c < 64 && d < 64
    ensures Quad([Char6(a), Char6(b), Char6(c), Char6(d)]) == Some(Bytes3(((a * 64 + b) * 64 + c) * 64 + d))
  {
    hide Value, Char6, Bytes3;
    ValueChar(a);
    ValueChar(b);
    ValueChar(c);
    ValueChar(d);
  }

  lemma QuadOnePad(a: nat, b: nat, c: nat)
    requires a < 64 && b < 64 && c < 64
    ensures Quad([Char6(a), Char6(b), Char6(c), '=']) == Some(Bytes3(((a * 64 + b) * 64 + c) * 64)[..2])
  {
    hide Value, Char6, Bytes3;
    ValueChar(a);
    ValueChar(b);
    ValueChar(c);
  }

  lemma QuadTwoPads(a: nat, b: nat)
    requires a < 64 && b < 64
    ensures Quad([Char6(a), Char6(b), '=', '=']) == Some([(a * 64 + b) / 16])
  {
    hide Value, Char6, Bytes3;
    ValueChar(a);
    ValueChar(b);
  }

  lemma QuadPadded(a: nat, b: nat, c: nat)
    requires a < 64 && b < 64 && c < 64
    ensures Quad([Char6(a), Char6(b), Char6(c), '=']) == Some(Bytes3(((a * 64 + b) * 64 + c) * 64)[..2])
    ensures Quad([Char6(a), Char6(b), '=', '=']) == Some([(a * 64 + b) / 16])
  {
    hide Value, Char6, Bytes3, Quad;
    QuadOnePad(a, b, c);
    QuadTwoPads(a, b);
  }

  /** One group there and back, for three, two and one bytes. */
  lemma QuadChars(a: byte, b: byte, c: byte)
    ensures Quad(Chars(Group(a, b, c))) == Some([a, b, c])
    ensures Chars(Group(a, b, c))[2] != '=' && Chars(Group(a, b, c))[3] != '='
  {
    hide Chars, Group, Quad, Bytes3;
    var x, y, z, w := FromSextets(Group(a, b, c));
    QuadFull(x, y, z, w);
    GroupBytes(a, b, c);
  }

  lemma TwoByteBits(a: byte, b: byte)
    ensures a % 4 * 16 + b / 16 < 64 && b % 16 * 4 < 64 && (b % 16 * 4) % 4 == 0
    ensures Group(a, b, 0) == ((a / 4 * 64 + (a % 4 * 16 + b / 16)) * 64 + b % 16 * 4) * 64 + 0
  {
  }

  lemma TwoByteText(a: byte, b: byte) returns (x: nat, y: nat, z: nat)
    ensures x < 64 && y < 64 && z < 64 && z % 4 == 0 && Group(a, b, 0) == ((x * 64 + y) * 64 + z) * 64
    ensures Chars(Group(a, b, 0)) == [Char6(x), Char6(y), Char6(z), Char6(0)]
  {
    hide Chars, Group;
    TwoByteBits(a, b);
    x, y, z := a / 4, a % 4 * 16 + b / 16, b % 16 * 4;
    Sextets(x, y, z, 0);
  }

  lemma QuadChars2(a: byte, b: byte)
    ensures var q := Chars(Group(a, b, 0))[..3] + "=";
            Quad(q) == Some([a, b]) && Value(q[2]) % 4 == 0
  {
    hide Chars, Group, Quad, Bytes3, Value, Char6;
    var x, y, z := TwoByteText(a, b);
    assert Chars(Group(a, b, 0))[..3] + "=" == [Char6(x), Char6(y), Char6(z), '='];
    QuadPadded(x, y, z);
    GroupBytes(a, b, 0);
    assert [a, b, 0][..2] == [a, b];
    ValueChar(z);
  }

  lemma SingleByteBits(a: byte)
    ensures a / 4 * 64 + a % 4 * 16 == a as int * 16 && (a % 4 * 16) % 16 == 0
    ensures Group(a, 0, 0) == ((a / 4 * 64 + a % 4 * 16) * 64 + 0) * 64 + 0
  {
  }

  lemma SingleByteText(a: byte)
    ensures Chars(Group(a, 0, 0)) == [Char6(a / 4), Char6(a % 4 * 16), Char6(0), Char6(0)]
  {
    hide Chars, Group;
    SingleByteBits(a);
    Sextets(a / 4, a % 4 * 16, 0, 0);
  }

  lemma SingleByteQuad(a: byte)
    ensures Quad([Char6(a / 4), Char6(a % 4 * 16), '=', '=']) == Some([a])
  {
    hide Quad, Value, Char6, Group;
    SingleByteBits(a);
    QuadTwoPads(a / 4, a % 4 * 16);
    QuotientIs(a as int * 16, 16, a as int, 0);
  }

  lemma QuadChars1(a: byte)
    ensures var q := Chars(Group(a, 0, 0))[..2] + "==";
            Quad(q) == Some([a]) && Value(q[1]) % 16 == 0
  {
    hide Chars, Group, Quad, Value, Char6;
    SingleByteText(a);
    var q := Chars(Group(a, 0, 0))[..2] + "==";
    assert q == [Char6(a / 4), Char6(a % 4 * 16), '=', '='];
    SingleByteQuad(a);
    ValueChar(a % 4 * 16);
    SingleByteBits(a);
  }

  lemma OneQuad(q: string)
    requires |q| == 4
    ensures Decoded(q) == Quad(q) && PadsAtEnd(q)
    ensures Canonical(q) <==> (if q[2] == '=' then Value(q[1]) % 16 == 0
                               else if q[3] == '=' then Value(q[2]) % 4 == 0 else true)
  {
    hide Quad, Value;
    assert q[..4] == q && q[4..] == "" && q[|q| - 4..] == q;
    if Quad(q).Some? {
      assert Quad(q).value + [] == Quad(q).value;
    }
  }

  lemma MoreQuads(q: string, t: string)
    requires |q| == 4
    ensures (q + t)[..4] == q && (q + t)[4..] == t
    ensures |t| >= 4 ==> Canonical(q + t) == Canonical(t)
  {
    if |t| >= 4 {
      assert (q + t)[|q + t| - 4..] == t[|t| - 4..];
    }
  }

  lemma EncodeThree(b: seq<byte>, s: seq<byte>)
    requires |b| == 3
    ensures Encoded(b + s) == Chars(Group(b[0], b[1], b[2])) + Encoded(s)
  {
    hide Chars, Group;
    assert (b + s)[3..] == s;
  }

  lemma EncodeUpTo3(s: seq<byte>)
    requires 1 <= |s| <= 3
    ensures |Encoded(s)| == 4 && Quad(Encoded(s)) == Some(s) && Canonical(Encoded(s))
  {
    hide Quad, Value, Chars, Group, Canonical, Decoded;
    OneQuad(Encoded(s));
    if |s| == 1 {
      QuadChars1(s[0]);
      assert s == [s[0]];
    } else if |s| == 2 {
      QuadChars2(s[0], s[1]);
      assert s == [s[0], s[1]];
    } else {
      QuadChars(s[0], s[1], s[2]);
      assert s == [s[0], s[1], s[2]] && s[3..] == [];
      assert Encoded(s) == Chars(Group(s[0], s[1], s[2]));
    }
  }

  /** Decoding an encoding gives the bytes back, and an encoding never sets a bit that no byte uses. */
  lemma {:induction false} DecodeEncode(s: seq<byte>)
    ensures Decoded(Encoded(s)) == Some(s) && PadsAtEnd(Encoded(s)) && Canonical(Encoded(s))
  {
    hide Encoded, Quad, Chars, Group;
    if |s| == 0 {
      assert Encoded(s) == "";
    } else if |s| <= 3 {
      EncodeUpTo3(s);
      OneQuad(Encoded(s));
    } else {
      DecodeEncode(s[3..]);
      GroupBefore(s);
    }
  }

  lemma GroupThenText(q: string, t: string)
    requires |q| == 4 && Quad(q).Some? && q[3] != '=' && Decoded(t).Some? && PadsAtEnd(t)
    ensures Decoded(q + t) == Some(Quad(q).value + Decoded(t).value) && PadsAtEnd(q + t)
  {
    hide Quad;
    assert (q + t)[..4] == q && (q + t)[4..] == t;
  }

  /** One group more at the front of an encoding. */
  lemma GroupBefore(s: seq<byte>)
    requires |s| > 3
    requires Decoded(Encoded(s[3..])) == Some(s[3..]) && PadsAtEnd(Encoded(s[3..])) && Canonical(Encoded(s[3..]))
    ensures Decoded(Encoded(s)) == Some(s) && PadsAtEnd(Encoded(s)) && Canonical(Encoded(s))
  {
    hide Encoded, Quad, Chars, Group, Canonical, Decoded, PadsAtEnd;
    var b, rest := s[..3], s[3..];
    var q, t := Chars(Group(b[0], b[1], b[2])), Encoded(rest);
    QuadChars(b[0], b[1], b[2]);
    assert b == [b[0], b[1], b[2]] && s == b + rest;
    EncodeThree(b, rest);
    GroupThenText(q, t);
    EncodingLength(rest);
    MoreQuads(q, t);
  }

  lemma EncodingLength(s: seq<byte>)
    requires s != []
    ensures |Encoded(s)| >= 4
  {
    hide Encoded;
    assert (|s| + 2) / 3 >= 1;
  }

  lemma EncodeFull(q: string)
    requires |q| == 4 && Quad(q).Some? && q[3] != '='
    ensures |Quad(q).value| == 3 && Chars(Group(Quad(q).value[0], Quad(q).value[1], Quad(q).value[2])) == q
  {
    hide Value, Char6, Chars, Bytes3;
    var a, b, c, d := Value(q[0]), Value(q[1]), Value(q[2]), Value(q[3]);
    Sextets(a, b, c, d);
    assert q == [Char6(a), Char6(b), Char6(c), Char6(d)];
  }

  lemma PadArithmetic2(m: nat)
    requires m < 0x40000
    ensures Group(Bytes3(m * 64)[0], Bytes3(m * 64)[1], 0) == (m - m % 4) * 64
  {
    assert m * 64 / 256 == m / 4;
    var k := m / 4;
    assert k / 256 * 256 + k % 256 == k;
  }

  lemma PadArithmetic1(m: nat)
    requires m < 0x1000
    ensures Group(m / 16, 0, 0) == (m - m % 16) * 0x1000
  {
  }

  /** The text of a group whose unused bits were cleared; the characters differ if one was set. */
  lemma ClearedBits(n: nat, k: nat)
    requires n < 64 && k > 0
    ensures Char6(n - n % k) == Char6(n) <==> n % k == 0
  {
    if Char6(n - n % k) == Char6(n) {
      Char6Injective(n - n % k, n);
    }
  }

  lemma PaddedText2(a: nat, b: nat, c: nat)
    requires a < 64 && b < 64 && c < 64
    ensures var m := (a * 64 + b) * 64 + c;
            Encoded(Bytes3(m * 64)[..2]) == [Char6(a), Char6(b), Char6(c - c % 4), '=']
  {
    hide Chars, Char6, Bytes3, Group;
    var m := (a * 64 + b) * 64 + c;
    PadArithmetic2(m);
    assert m % 4 == c % 4;
    Sextets(a, b, c - c % 4, 0);
    var s := Bytes3(m * 64);
    assert s[..2] == [s[0], s[1]];
    assert (m - m % 4) * 64 == ((a * 64 + b) * 64 + (c - c % 4)) * 64 + 0;
  }

  lemma PaddedQuad2(q: string) returns (a: nat, b: nat, c: nat)
    requires |q| == 4 && Quad(q).Some? && q[3] == '=' && q[2] != '='
    ensures a < 64 && b < 64 && c < 64 && c == Value(q[2]) && q == [Char6(a), Char6(b), Char6(c), '=']
    ensures Quad(q) == Some(Bytes3(((a * 64 + b) * 64 + c) * 64)[..2])
  {
    hide Value, Char6, Bytes3;
    a, b, c := Value(q[0]), Value(q[1]), Value(q[2]);
  }

  lemma EncodePadded2(q: string)
    requires |q| == 4 && Quad(q).Some? && q[3] == '=' && q[2] != '='
    ensures Encoded(Quad(q).value) == q <==> Value(q[2]) % 4 == 0
  {
    hide Quad, Value, Char6, Encoded, Bytes3;
    var a, b, c := PaddedQuad2(q);
    PaddedText2(a, b, c);
    ClearedBits(c, 4);
    SameText(Encoded(Quad(q).value), q, a, b, c);
  }

  lemma SameText(e: string, q: string, a: nat, b: nat, c: nat)
    requires a < 64 && b < 64 && c < 64
    requires e == [Char6(a), Char6(b), Char6(c - c % 4), '='] && q == [Char6(a), Char6(b), Char6(c), '=']
    ensures e == q <==> Char6(c - c % 4) == Char6(c)
  {
    assert e[2] == Char6(c - c % 4) && q[2] == Char6(c);
  }

  lemma PaddedText1(a: nat, b: nat)
    requires a < 64 && b < 64
    ensures Encoded([(a * 64 + b) / 16]) == [Char6(a), Char6(b - b % 16), '=', '=']
  {
    hide Chars, Char6, Group;
    var m := a * 64 + b;
    PadArithmetic1(m);
    assert m % 16 == b % 16;
    Sextets(a, b - b % 16, 0, 0);
    assert (m - m % 16) * 0x1000 == ((a * 64 + (b - b % 16)) * 64 + 0) * 64 + 0;
  }

  lemma EncodePadded1(q: string)
    requires |q| == 4 && Quad(q).Some? && q[2] == '='
    ensures Encoded(Quad(q).value) == q <==> Value(q[1]) % 16 == 0
  {
    hide Value, Char6, Encoded;
    var a, b := Value(q[0]), Value(q[1]);
    PaddedText1(a, b);
    ClearedBits(b, 16);
    var e := Encoded(Quad(q).value);
    assert q == [Char6(a), Char6(b), '=', '='];
    assert e[1] == Char6(b - b % 16);
  }

  /** Encoding what a text stands for gives the text back exactly when its unused bits are zero. */
  lemma {:induction false} EncodeDecode(t: string)
    requires Decoded(t).Some? && PadsAtEnd(t)
    ensures Encoded(Decoded(t).value) == t <==> Canonical(t)
  {
    hide Quad, Value, Chars, Group;
    if t == "" {
    } else if |t| == 4 {
      OneQuad(t);
      if t[2] == '=' {
        EncodePadded1(t);
      } else if t[3] == '=' {
        EncodePadded2(t);
      } else {
        EncodeFull(t);
        EncodeThree(Quad(t).value, []);
      }
    } else {
      var q := t[..4];
      assert t == q + t[4..];
      MoreQuads(q, t[4..]);
      EncodeFull(q);
      EncodeDecode(t[4..]);
      EncodeThree(Quad(q).value, Decoded(t[4..]).value);
    }
  }
}
