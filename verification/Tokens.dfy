/** Table lines as tokens separated by blanks. */
module Tokens {
  import opened Bytes
  import opened CStrings

  predicate Token(s: string) {
    All(s, Not(' '))
  }

  predicate AllTokens(tokens: seq<string>) {
    forall i :: 0 <= i < |tokens| ==> Token(tokens[i])
  }

  /** Every token with a blank before it. */
  function Spaced(tokens: seq<string>): string {
    if tokens == [] then "" else " " + tokens[0] + Spaced(tokens[1..])
  }

  /** The tokens with blanks between them. */
  function Joined(tokens: seq<string>): string
    requires tokens != []
  {
    tokens[0] + Spaced(tokens[1..])
  }

  lemma SpacedIsJoined(tokens: seq<string>)
    requires tokens != []
    ensures Spaced(tokens) == " " + Joined(tokens)
  {
  }

  lemma {:induction false} SpacedAppend(a: seq<string>, b: seq<string>)
    ensures Spaced(a + b) == Spaced(a) + Spaced(b)
  {
    if a == [] {
      assert a + b == b;
    } else {
      assert (a + b)[1..] == a[1..] + b;
      SpacedAppend(a[1..], b);
    }
  }

  lemma NumbersAreTokens(n: nat)
    ensures Token(Dec(n)) && All(Dec(n), Not(':'))
  {
    hide Dec;
    assert forall i :: 0 <= i < |Dec(n)| ==> In(Dec(n)[i], Digits);
  }

  lemma SameAsItself(s: string)
    ensures SameIgnoringCase(s, s)
  {
  }

  lemma NotSame(a: string, b: string)
    requires a != "" && b != "" && Lower(a[0]) != Lower(b[0])
    ensures !SameIgnoringCase(a, b)
  {
  }

  /** The hexadecimal text of a key, byte by byte. */
  method HexKey(key: seq<byte>) returns (hexkey: string)
    ensures hexkey == Hex(key)
  {
    hexkey := "";
    var i := 0;
    while i < |key|
      invariant 0 <= i <= |key|
      invariant hexkey + Hex(key[i..]) == Hex(key)
    {
      hexkey := hexkey + [HexChar(key[i] / 16), HexChar(key[i] % 16)];
      assert key[i..][1..] == key[i + 1..];
      i := i + 1;
    }
    assert hexkey + "" == hexkey;
  }

  /** The bytes of a hexadecimal text, read through a buffer of two characters. */
  method ReadHex(hex: string) returns (bytes: Option<seq<byte>>)
    ensures bytes == HexBytes(hex)
  {
    hide HexByte;
    var len := |hex| / 2;
    var done: seq<byte> := [];
    var i := 0;
    assert hex[0..] == hex && forall rest: seq<byte> :: done + rest == rest;
    while i < len
      invariant 0 <= i <= len && |done| == i
      invariant HexBytes(hex) == match HexBytes(hex[2 * i..]) case None => None case Some(rest) => Some(done + rest)
    {
      var b := HexByte(hex[2 * i], hex[2 * i + 1]);
      assert hex[2 * i..][2..] == hex[2 * (i + 1)..];
      if b.None? {
        return None;
      }
      done := done + [b.value];
      i := i + 1;
      assert forall rest: seq<byte> :: done + rest == done[..i - 1] + ([b.value] + rest);
    }
    assert done + [] == done;
    return Some(done);
  }
}
