/** The encoder: a fast loop over whole groups and a general one that stops when the output is full. */
module Base64Encode {
  import opened Bytes
  import opened Base64Spec

  /** The four characters of a group as the encoder computes them, byte by byte. */
  function First(a: byte): char { Char6(a / 4 % 64) }
  function Second(a: byte, b: byte): char { Char6((a as int * 16 + b / 16) % 64) }
  function Third(b: byte, c: byte): char { Char6((b as int * 4 + c / 64) % 64) }
  function Fourth(c: byte): char { Char6(c % 64) }

  lemma FourthPart(a: nat, b: nat, c: nat)
    ensures var v := a * 0x10000 + b * 0x100 + c;
      v / 64 == a * 1024 + b * 4 + c / 64 && v % 64 == c % 64
  {
    QuotientIs(a * 0x10000 + b * 0x100 + c, 64, a * 1024 + b * 4 + c / 64, c % 64);
  }

  lemma ThirdPart(a: nat, b: nat, c: nat)
    requires c < 256
    ensures var v := a * 1024 + b * 4 + c / 64;
      v / 64 == a * 16 + b / 16 && v % 64 == (b * 4 + c / 64) % 64
  {
    var r := b % 16 * 4 + c / 64;
    QuotientIs(a * 1024 + b * 4 + c / 64, 64, a * 16 + b / 16, r);
    QuotientIs(b * 4 + c / 64, 64, b / 16, r);
  }

  lemma FirstPart(a: nat, b: nat)
    requires a < 256 && b < 256
    ensures (a * 16 + b / 16) / 64 == a / 4 == a / 4 % 64
  {
    QuotientIs(a * 16 + b / 16, 64, a / 4, a % 4 * 16 + b / 16);
  }

  lemma GroupParts(a: byte, b: byte, c: byte)
    ensures Chars(Group(a, b, c)) == [First(a), Second(a, b), Third(b, c), Fourth(c)]
  {
    hide Char6;
    FourthPart(a, b, c);
    ThirdPart(a, b, c);
    FirstPart(a, b);
  }

  lemma EncodedHead(s: seq<byte>)
    requires s != []
    ensures |Encoded(s)| >= 4
    ensures Encoded(s)[0] == First(s[0])
    ensures Encoded(s)[1] == Second(s[0], if |s| > 1 then s[1] else 0)
    ensures Encoded(s)[2] == if |s| > 1 then Third(s[1], if |s| > 2 then s[2] else 0) else '='
    ensures Encoded(s)[3] == if |s| > 2 then Fourth(s[2]) else '='
    ensures Encoded(s)[4..] == Encoded(if |s| > 3 then s[3..] else [])
  {
    GroupParts(s[0], if |s| > 1 then s[1] else 0, if |s| > 2 then s[2] else 0);
    if |s| == 3 {
      assert s[3..] == [];
    }
  }

  /** The part of the encoding `e` that starts at `o` encodes `rest`. */
  ghost predicate Continues(e: string, o: nat, rest: seq<byte>) {
    o <= |e| && e[o..] == Encoded(rest)
  }

  lemma ContinueWith(e: string, o: nat, rest: seq<byte>)
    requires Continues(e, o, rest) && rest != []
    ensures o + 4 <= |e|
    ensures e[o] == First(rest[0])
    ensures e[o + 1] == Second(rest[0], if |rest| > 1 then rest[1] else 0)
    ensures e[o + 2] == if |rest| > 1 then Third(rest[1], if |rest| > 2 then rest[2] else 0) else '='
    ensures e[o + 3] == if |rest| > 2 then Fourth(rest[2]) else '='
    ensures Continues(e, o + 4, if |rest| > 3 then rest[3..] else [])
  {
    EncodedHead(rest);
    assert e[o + 4..] == e[o..][4..];
    assert forall j :: 0 <= j < 4 ==> e[o..][j] == e[o + j];
  }

  /** The characters up to `o` are those of `e`; from `o` on the buffer is as in `before`. */
  ghost predicate Written(out: seq<char>, before: seq<char>, e: string, o: nat) {
    && |out| == |before| && o <= |e| && o <= |out|
    && (forall k :: 0 <= k < o ==> out[k] == e[k])
    && (forall k :: o <= k < |out| ==> out[k] == before[k])
  }

  method PutChar(out: array<char>, o: nat, c: char, ghost before: seq<char>, ghost e: string)
    requires o < out.Length && Written(out[..], before, e, o) && o < |e| && c == e[o]
    modifies out
    ensures Written(out[..], before, e, o + 1)
  {
    out[o] := c;
  }

  /** base64_encode_fast: whole groups into a buffer that holds them all. */
  method EncodeFast(input: seq<byte>, out: array<char>)
    requires |input| % 3 == 0 && |Encoded(input)| <= out.Length
    modifies out
    ensures Written(out[..], old(out[..]), Encoded(input), |Encoded(input)|)
  {
    hide Encoded, First, Second, Third, Fourth;
    var inlen, i, o := |input|, 0, 0;
    ghost var e, before, groups := Encoded(input), out[..], |input| / 3;
    assert input[0..] == input;
    while inlen > 0
      invariant groups >= 0 && inlen == 3 * groups && i + inlen == |input|
      invariant Continues(e, o, input[i..]) && Written(out[..], before, e, o)
    {
      ghost var rest := input[i..];
      ContinueWith(e, o, rest);
      assert (if |rest| > 3 then rest[3..] else []) == input[i + 3..];
      var a, b, c := input[i], input[i + 1], input[i + 2];
      var c0, c1, c2, c3 := First(a), Second(a, b), Third(b, c), Fourth(c);
      assert c0 == e[o] && c1 == e[o + 1] && c2 == e[o + 2] && c3 == e[o + 3];
      PutChar(out, o, c0, before, e);
      PutChar(out, o + 1, c1, before, e);
      PutChar(out, o + 2, c2, before, e);
      PutChar(out, o + 3, c3, before, e);
      o, i, inlen, groups := o + 4, i + 3, inlen - 3, groups - 1;
    }
  }

  /** The general loop of base64_encode; `o` characters are written and `outleft` would still fit. */
  method EncodeLoop(input: seq<byte>, out: array<char>, outlen: nat) returns (o: nat, outleft: nat)
    requires outlen <= out.Length
    modifies out
    ensures o == Min(outlen, |Encoded(input)|) && outleft == outlen - o
    ensures Written(out[..], old(out[..]), Encoded(input), o)
  {
    hide First, Second, Third, Fourth;
    var inlen, i := |input|, 0;
    o, outleft := 0, outlen;
    ghost var e, before := Encoded(input), out[..];
    assert input[0..] == input;
    while inlen > 0 && outleft > 0
      invariant o + outleft == outlen && inlen >= 0 && Written(out[..], before, e, o)
      invariant inlen > 0 ==> i + inlen == |input|
      invariant outleft > 0 ==> Continues(e, o, if inlen > 0 then input[i..] else [])
      decreases inlen
    {
      ghost var rest := input[i..];
      ContinueWith(e, o, rest);
      PutChar(out, o, First(input[i]), before, e);
      o, outleft := o + 1, outleft - 1;
      if outleft == 0 {
        break;
      }
      inlen := inlen - 1;
      PutChar(out, o, Second(input[i], if inlen > 0 then input[i + 1] else 0), before, e);
      o, outleft := o + 1, outleft - 1;
      if outleft == 0 {
        break;
      }
      var third := '=';
      if inlen > 0 {
        inlen := inlen - 1;
        third := Third(input[i + 1], if inlen > 0 then input[i + 2] else 0);
      }
      PutChar(out, o, third, before, e);
      o, outleft := o + 1, outleft - 1;
      if outleft == 0 {
        break;
      }
      PutChar(out, o, if inlen > 0 then Fourth(input[i + 2]) else '=', before, e);
      o, outleft := o + 1, outleft - 1;
      if outleft == 0 {
        break;
      }
      if inlen > 0 {
        inlen := inlen - 1;
      }
      if inlen > 0 {
        i := i + 3;
        assert rest[3..] == input[i..];
      }
    }
  }

  /** The test for the fast path: the input is whole groups and their encoding exactly fills the room. */
  lemma FastSizes(inlen: nat, outlen: nat)
    ensures outlen % 4 == 0 && inlen == outlen / 4 * 3 <==> inlen % 3 == 0 && (inlen + 2) / 3 * 4 == outlen
  {
    if outlen % 4 == 0 && inlen == outlen / 4 * 3 {
      var k := outlen / 4;
      MultipleIs(k, 3);
      QuotientIs(3 * k + 2, 3, k, 2);
    } else if inlen % 3 == 0 && (inlen + 2) / 3 * 4 == outlen {
      var k := inlen / 3;
      QuotientIs(inlen + 2, 3, k, 2);
      QuotientIs(outlen, 4, k, 0);
    }
  }

  /** base64_encode: as much of the encoding as fits, and a terminator if there is still room. */
  method Encode(input: seq<byte>, out: array<char>, outlen: nat)
    requires outlen <= out.Length
    modifies out
    ensures var n := Min(outlen, |Encoded(input)|);
            && out[..n] == Encoded(input)[..n]
            && (outlen > n ==> out[n] == '\0')
            && forall k :: (if outlen > n then n + 1 else n) <= k < out.Length ==> out[k] == old(out[k])
  {
    hide Encoded;
    if outlen % 4 == 0 && |input| == outlen / 4 * 3 {
      FastSizes(|input|, outlen);
      EncodeFast(input, out);
      return;
    }
    var o, outleft := EncodeLoop(input, out, outlen);
    if outleft > 0 {
      out[o] := '\0';
    }
  }

  // ----- sizes in size_t arithmetic

  /** 1 + BASE64_LENGTH(inlen) as computed, every operation modulo 2^64. */
  function WrappedLength(inlen: nat): nat
    requires inlen < U64
  {
    (1 + ((inlen + 2) % U64 / 3 * 4) % U64) % U64
  }

  lemma ProductWraps(q: nat)
    requires q * 4 < 2 * U64
    ensures (1 + q * 4 % U64) % U64 == if q * 4 < U64 then 1 + q * 4 else 1 + q * 4 - U64
  {
    var r := if q * 4 < U64 then q * 4 else q * 4 - U64;
    QuotientIs(q * 4, U64, if q * 4 < U64 then 0 else 1, r);
    assert r % 4 == 0 && r + 1 < U64;
    QuotientIs(1 + r, U64, 0, 1 + r);
  }

  /** The overflow test of base64_encode_alloc is exact: the input is longer than the computed size just when
      the computation wrapped around. */
  lemma OverflowTestExact(inlen: nat)
    requires inlen < U64
    ensures inlen > WrappedLength(inlen) <==> WrappedLength(inlen) != 1 + (inlen + 2) / 3 * 4
    ensures inlen > WrappedLength(inlen) <==> 1 + (inlen + 2) / 3 * 4 >= U64
  {
    var q := (inlen + 2) / 3;
    if inlen + 2 >= U64 {
      QuotientIs(inlen + 2, U64, 1, inlen + 2 - U64);
      assert WrappedLength(inlen) == 1;
    } else {
      QuotientIs(inlen + 2, U64, 0, inlen + 2);
      ProductWraps(q);
    }
  }

  /** base64_encode_alloc. Without `memory` the allocation fails; `out` is then null and the result says how much
      was asked. */
  method EncodeAlloc(input: seq<byte>, memory: bool) returns (r: nat, out: array?<char>)
    requires |input| < U64
    ensures 1 + |Encoded(input)| >= U64 <==> r == 0 && (out == null && |input| != 0)
    ensures out == null ==> r == 0 || (r == |Encoded(input)| + 1 && !memory)
    ensures !memory ==> out == null
    ensures out != null ==> r == |Encoded(input)| && out.Length == r + 1
                            && out[..r] == Encoded(input) && out[r] == '\0'
  {
    var outlen := WrappedLength(|input|);
    OverflowTestExact(|input|);
    if |input| > outlen {
      return 0, null;
    }
    if !memory {
      return outlen, null;
    }
    out := new char[outlen];
    Encode(input, out, outlen);
    r := outlen - 1;
  }
}
