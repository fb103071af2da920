/** The decoder: four characters at a time straight from the input where possible, through a small context
    buffer where a group is cut by a newline or by the end of a chunk. */
module Base64Decode {
  import opened Bytes
  import opened Base64Spec

  /** The three bytes as decode_4 puts them together; the bits it combines with | never overlap. */
  function Byte0(a: nat, b: nat): byte
    requires a < 64 && b < 64
  {
    a * 4 + b / 16
  }

  function Byte1(b: nat, c: nat): (r: byte)
    requires b < 64 && c < 64
    ensures r == b % 16 * 16 + c / 4
  {
    Div256(b * 16, b / 16, b % 16 * 16);
    b * 16 % 256 + c / 4
  }

  function Byte2(c: nat, d: nat): (r: byte)
    requires c < 64 && d < 64
    ensures r == c % 4 * 64 + d
  {
    Div256(c * 64, c / 4, c % 4 * 64);
    c * 64 % 256 + d
  }

  lemma Div256(n: nat, q: nat, r: nat)
    requires n == 256 * q + r && r < 256
    ensures n / 256 == q && n % 256 == r
  {
  }

  lemma BytesAre(v: nat, x: byte, y: byte, z: byte)
    requires v < 0x1000000 && v == 256 * (256 * x as int + y) + z
    ensures Bytes3(v) == [x, y, z]
  {
    Div256(v, 256 * x as int + y, z);
    Div256(256 * x as int + y, x, y);
  }

  lemma ThreeBytes(a: nat, b: nat, c: nat, d: nat)
    requires a < 64 && b < 64 && c < 64 && d < 64
    ensures Bytes3(((a * 64 + b) * 64 + c) * 64 + d) == [Byte0(a, b), Byte1(b, c), Byte2(c, d)]
  {
    var bq, br, cq, cr := b / 16, b % 16, c / 4, c % 4;
    assert b == 16 * bq + br && c == 4 * cq + cr;
    BytesAre(((a * 64 + b) * 64 + c) * 64 + d, Byte0(a, b), Byte1(b, c), Byte2(c, d));
  }

  lemma TwoBytes(a: nat, b: nat, c: nat)
    requires a < 64 && b < 64 && c < 64
    ensures Bytes3(((a * 64 + b) * 64 + c) * 64)[..2] == [Byte0(a, b), Byte1(b, c)]
  {
    hide Bytes3, Byte0, Byte1, Byte2;
    ThreeBytes(a, b, c, 0);
    var v := ((a * 64 + b) * 64 + c) * 64;
    assert v == ((a * 64 + b) * 64 + c) * 64 + 0;
    assert Bytes3(v)[..2] == [Bytes3(v)[0], Bytes3(v)[1]];
  }

  /** What decode_4 makes of the rest `t` of the input: whether it is accepted, and the bytes it emits,
      some of them even when it gives up. */
  function Four(t: string): (r: (bool, seq<byte>))
    ensures r.0 ==> |t| >= 4
  {
    if |t| < 2 then (false, [])
    else
      var a, b := Value(t[0]), Value(t[1]);
      if a < 0 || b < 0 then (false, [])
      else if |t| == 2 then (false, [Byte0(a, b)])
      else
        var c := Value(t[2]);
        if t[2] == '=' then (|t| == 4 && t[3] == '=', [Byte0(a, b)])
        else if c < 0 then (false, [Byte0(a, b)])
        else if |t| == 3 then (false, [Byte0(a, b), Byte1(b, c)])
        else
          var d := Value(t[3]);
          if t[3] == '=' then (|t| == 4, [Byte0(a, b), Byte1(b, c)])
          else if d < 0 then (false, [Byte0(a, b), Byte1(b, c)])
          else (true, [Byte0(a, b), Byte1(b, c), Byte2(c, d)])
  }

  /** The number of characters of the alphabet at the start of a text, up to four. */
  function Leading(t: string): nat {
    if |t| < 1 || Value(t[0]) < 0 then 0
    else if |t| < 2 || Value(t[1]) < 0 then 1
    else if |t| < 3 || Value(t[2]) < 0 then 2
    else if |t| < 4 || Value(t[3]) < 0 then 3
    else 4
  }

  /** Accepted or not, a group gives the bytes that its leading characters determine, and no others. */
  lemma FourEmits(t: string)
    ensures |Four(t).1| == if Leading(t) < 2 then 0 else Leading(t) - 1
    ensures Leading(t) >= 2 ==> Four(t).1[0] == Value(t[0]) * 4 + Value(t[1]) / 16
    ensures Leading(t) >= 3 ==> Four(t).1[1] == Value(t[1]) % 16 * 16 + Value(t[2]) / 4
    ensures Leading(t) == 4 ==> Four(t).1[2] == Value(t[2]) % 4 * 64 + Value(t[3])
  {
    hide Value, Byte0, Byte1, Byte2;
    if Leading(t) >= 2 {
      FirstIs(Value(t[0]), Value(t[1]));
    }
  }

  lemma FirstIs(a: nat, b: nat)
    requires a < 64 && b < 64
    ensures Byte0(a, b) == a * 4 + b / 16
  {
  }

  lemma OneByte(a: nat, b: nat)
    requires a < 64 && b < 64
    ensures (a * 64 + b) / 16 == Byte0(a, b)
  {
  }

  lemma FourIsQuadPadded(t: string)
    requires |t| >= 4 && (t[2] == '=' || t[3] == '=')
    ensures Four(t).0 <==> Quad(t[..4]).Some? && |t| == 4
    ensures Four(t).0 ==> Four(t).1 == Quad(t[..4]).value
  {
    hide Value, Bytes3, Byte0, Byte1, Byte2;
    var a, b, c := Value(t[0]), Value(t[1]), Value(t[2]);
    assert Value('=') == -1;
    if a >= 0 && b >= 0 {
      OneByte(a, b);
      if c >= 0 {
        TwoBytes(a, b, c);
      }
    }
  }

  lemma FourIsQuadFull(t: string)
    requires |t| >= 4 && t[2] != '=' && t[3] != '='
    ensures Four(t).0 <==> Quad(t[..4]).Some?
    ensures Four(t).0 ==> Four(t).1 == Quad(t[..4]).value
  {
    hide Value, Bytes3, Byte0, Byte1, Byte2;
    var a, b, c, d := Value(t[0]), Value(t[1]), Value(t[2]), Value(t[3]);
    var q := t[..4];
    assert q[0] == t[0] && q[1] == t[1] && q[2] == t[2] && q[3] == t[3];
    if a < 0 || b < 0 || c < 0 || d < 0 {
      assert Quad(q) == None && !Four(t).0;
    } else {
      ThreeBytes(a, b, c, d);
      var v := ((a * 64 + b) * 64 + c) * 64 + d;
      assert Quad(q) == Some(Bytes3(v));
      assert Four(t) == (true, [Byte0(a, b), Byte1(b, c), Byte2(c, d)]);
    }
  }

  /** decode_4 gives a group its meaning, and a padded group is only taken where the text ends. */
  lemma FourIsQuad(t: string)
    requires |t| >= 4
    ensures Four(t).0 <==> Quad(t[..4]).Some? && (|t| == 4 || t[3] != '=')
    ensures Four(t).0 ==> Four(t).1 == Quad(t[..4]).value
  {
    if t[2] == '=' || t[3] == '=' {
      FourIsQuadPadded(t);
      hide Four, Value, Bytes3;
    } else {
      hide Four, Quad;
      FourIsQuadFull(t);
    }
  }

  /** Decoding a text as a unit, newlines and all: groups are taken off the front until one fails. */
  function Plain(t: string): (bool, seq<byte>) {
    if t == "" then (true, [])
    else
      var f := Four(t);
      if !f.0 then f else var r := Plain(t[4..]); (r.0, f.1 + r.1)
  }

  /** Decoding a text that may go on later: whether all its whole groups are fine, their bytes, and the
      characters left over. */
  function Streamed(t: string): (bool, seq<byte>, string) {
    if |t| < 4 then (true, [], t)
    else
      var f := Four(t[..4]);
      if !f.0 then (false, f.1, "") else var r := Streamed(t[4..]); (r.0, f.1 + r.1, r.2)
  }

  function Strip(t: string): string {
    if t == "" then "" else if t[0] == '\n' then Strip(t[1..]) else [t[0]] + Strip(t[1..])
  }

  function Take(s: seq<byte>, n: nat): seq<byte> {
    if |s| <= n then s else s[..n]
  }

  lemma TakeMore(s: seq<byte>, t: seq<byte>, n: nat)
    ensures Take(s, n) + Take(t, n - |Take(s, n)|) == Take(s + t, n)
  {
  }

  // ----- streaming: the meaning of a text does not depend on how it is cut

  /** One group more at the front. */
  function Before(f: (bool, seq<byte>), r: (bool, seq<byte>, string)): (bool, seq<byte>, string) {
    if !f.0 then (false, f.1, "") else (r.0, f.1 + r.1, r.2)
  }

  lemma StreamStep(q: string, t: string)
    requires |q| == 4
    ensures Streamed(q + t) == Before(Four(q), Streamed(t))
  {
    assert (q + t)[..4] == q && (q + t)[4..] == t;
  }

  lemma {:induction false} StreamAppend(a: string, b: string)
    ensures !Streamed(a).0 ==> !Streamed(a + b).0
    ensures Streamed(a).0 ==> Streamed(a + b) == Before((true, Streamed(a).1), Streamed(Streamed(a).2 + b))
  {
    hide Four;
    if |a| >= 4 {
      var q, t := a[..4], a[4..];
      assert a == q + t && a + b == q + (t + b);
      StreamStep(q, t);
      StreamStep(q, t + b);
      StreamAppend(t, b);
      if Streamed(a).0 {
        var f, x, r := Four(q).1, Streamed(t).1, Streamed(Streamed(t).2 + b).1;
        assert (f + x) + r == f + (x + r);
      }
    } else {
      var r := Streamed(a + b);
      assert [] + r.1 == r.1;
    }
  }

  lemma {:induction false} LeftoverLength(a: string)
    ensures Streamed(a).0 ==> |Streamed(a).2| == |a| % 4
  {
    hide Four;
    if |a| >= 4 {
      LeftoverLength(a[4..]);
    }
  }

  lemma {:induction false} StripAppend(a: string, b: string)
    ensures Strip(a + b) == Strip(a) + Strip(b)
  {
    if a == "" {
      assert a + b == b;
    } else {
      assert (a + b)[0] == a[0] && (a + b)[1..] == a[1..] + b;
      StripAppend(a[1..], b);
    }
  }

  /** A text whose whole groups are fine and that leaves nothing over is a concatenation of groups. */
  lemma {:induction false} StreamedIsDecoded(t: string)
    ensures Decoded(t).Some? <==> Streamed(t).0 && Streamed(t).2 == ""
    ensures Decoded(t).Some? ==> Streamed(t).1 == Decoded(t).value
  {
    if |t| >= 4 {
      FourIsQuad(t[..4]);
      assert t[..4][..4] == t[..4];
      StreamedIsDecoded(t[4..]);
    }
  }

  lemma {:induction false} PlainIsDecoded(t: string)
    ensures Plain(t).0 <==> Decoded(t).Some? && PadsAtEnd(t)
    ensures Plain(t).0 ==> Plain(t).1 == Decoded(t).value
  {
    if |t| >= 4 {
      FourIsQuad(t);
      PlainIsDecoded(t[4..]);
      if |t| == 4 {
        assert t[4..] == "";
      }
    }
  }

  /** Feeding the chunks one after the other to one context that holds `left`. An empty chunk is a flush: it
      asks whether the text so far ends between two groups. */
  ghost function Fed(left: string, chunks: seq<string>): (bool, seq<byte>, string)
    decreases |chunks|
  {
    if chunks == [] then (true, [], left)
    else if chunks[0] == "" then
      if left != "" then (false, [], "") else Fed(left, chunks[1..])
    else
      var f := Streamed(left + Strip(chunks[0]));
      if !f.0 then f else var r := Fed(f.2, chunks[1..]); (r.0, f.1 + r.1, r.2)
  }

  ghost function Joined(chunks: seq<string>): string {
    if chunks == [] then "" else chunks[0] + Joined(chunks[1..])
  }

  /** Every empty chunk comes where the text so far, `n` characters before the first chunk, is a whole number
      of groups long. */
  ghost predicate FlushedBetweenGroups(n: nat, chunks: seq<string>)
    decreases |chunks|
  {
    chunks == [] ||
    ((chunks[0] == "" ==> n % 4 == 0) && FlushedBetweenGroups(n + |Strip(chunks[0])|, chunks[1..]))
  }

  lemma NothingFed(left: string)
    requires |left| < 4
    ensures Streamed(left + Strip("")) == (true, [], left)
  {
    assert left + "" == left;
  }

  lemma {:induction false} FedIsStreamed(left: string, chunks: seq<string>, n: nat)
    requires |left| == n % 4
    ensures Fed(left, chunks).0 <==> Streamed(left + Strip(Joined(chunks))).0 && FlushedBetweenGroups(n, chunks)
    ensures Fed(left, chunks).0 ==> Fed(left, chunks) == Streamed(left + Strip(Joined(chunks)))
    decreases |chunks|
  {
    hide Streamed, Strip;
    NothingFed(left);
    if chunks != [] {
      var a, b := left + Strip(chunks[0]), Strip(Joined(chunks[1..]));
      StripAppend(chunks[0], Joined(chunks[1..]));
      assert left + Strip(Joined(chunks)) == a + b;
      StreamAppend(a, b);
      if Streamed(a).0 {
        LeftoverLength(a);
        SumModFour(n, |left|, |Strip(chunks[0])|);
        FedIsStreamed(Streamed(a).2, chunks[1..], n + |Strip(chunks[0])|);
        NothingBefore(Fed(Streamed(a).2, chunks[1..]));
      }
      EmptyChunk(left, chunks[0]);
    }
  }

  lemma EmptyChunk(left: string, chunk: string)
    ensures chunk == "" ==> left + Strip(chunk) == left
  {
    if chunk == "" {
      assert left + "" == left;
    }
  }

  lemma NothingBefore(r: (bool, seq<byte>, string))
    ensures (r.0, [] + r.1, r.2) == r
  {
    assert [] + r.1 == r.1;
  }

  lemma SumModFour(n: nat, l: nat, k: nat)
    requires l == n % 4
    ensures (l + k) % 4 == (n + k) % 4
  {
  }

  /** Chunking does not matter: a text cut in any way is decoded without error, with nothing left for the
      final flush to choke on, exactly when without its newlines it is a concatenation of full or padded
      groups, and no empty chunk flushed within a group; then the outputs together are what those groups
      stand for. What the context carries between two chunks is always as long as the text so far modulo
      four. */
  lemma ChunkingDoesNotMatter(chunks: seq<string>)
    ensures var t := Strip(Joined(chunks));
            && (Fed("", chunks).0 && Fed("", chunks).2 == ""
                <==> Decoded(t).Some? && FlushedBetweenGroups(0, chunks))
            && (Decoded(t).Some? && FlushedBetweenGroups(0, chunks) ==> Fed("", chunks).1 == Decoded(t).value)
            && (Fed("", chunks).0 ==> |Fed("", chunks).2| == |t| % 4)
  {
    hide Streamed, Strip;
    var t := Strip(Joined(chunks));
    assert "" + t == t;
    FedIsStreamed("", chunks, 0);
    StreamedIsDecoded(t);
    LeftoverLength(t);
  }

  /** Chunks that are not empty flush nothing. */
  lemma {:induction false} NoFlush(n: nat, chunks: seq<string>)
    requires forall i :: 0 <= i < |chunks| ==> chunks[i] != ""
    ensures FlushedBetweenGroups(n, chunks)
    decreases |chunks|
  {
    if chunks != [] {
      NoFlush(n + |Strip(chunks[0])|, chunks[1..]);
    }
  }

  /** Round trip through both ways of decoding. */
  lemma DecodersInvertEncoder(s: seq<byte>)
    ensures Plain(Encoded(s)) == (true, s)
    ensures Streamed(Encoded(s)) == (true, s, "")
  {
    DecodeEncode(s);
    PlainIsDecoded(Encoded(s));
    StreamedIsDecoded(Encoded(s));
  }

  /** A text accepted as a unit is what its bytes encode to exactly when its unused bits are zero. */
  lemma ReencodesIffCanonical(t: string)
    requires Plain(t).0
    ensures Encoded(Plain(t).1) == t <==> Canonical(t)
  {
    PlainIsDecoded(t);
    EncodeDecode(t);
  }
}
