/** The decoding code itself, over an output buffer and a context that survives between calls. */
module Base64Stream {
  import opened Bytes
  import opened Base64Spec
  import opened Base64Decode

  /** The output buffer holds in its first `o` bytes as much of `b` as fits into `room` bytes, and nothing
      behind the room has changed. */
  ghost predicate Holds(out: seq<byte>, before: seq<byte>, o: nat, b: seq<byte>, room: nat) {
    && |out| == |before| && room <= |out| && o == |Take(b, room)| && out[..o] == Take(b, room)
    && out[room..] == before[room..]
  }

  /** One byte more, if there is room. */
  method Emit(out: array<byte>, o: nat, outleft: nat, x: byte, ghost before: seq<byte>, ghost b: seq<byte>)
    returns (o': nat, outleft': nat)
    requires o + outleft <= out.Length && Holds(out[..], before, o, b, o + outleft)
    modifies out
    ensures o' + outleft' == o + outleft && Holds(out[..], before, o', b + [x], o' + outleft')
  {
    TakeMore(b, [x], o + outleft);
    o', outleft' := o, outleft;
    if outleft > 0 {
      out[o] := x;
      o', outleft' := o + 1, outleft - 1;
      assert out[..o + 1] == out[..o] + [x];
    }
  }

  /** decode_4 on the rest `t` of the input: all tests in order, and the bytes found before one fails. */
  method Decode4(t: string, out: array<byte>, o: nat, outleft: nat, ghost before: seq<byte>, ghost b: seq<byte>)
    returns (ok: bool, o': nat, outleft': nat)
    requires o + outleft <= out.Length && Holds(out[..], before, o, b, o + outleft)
    modifies out
    ensures ok == Four(t).0
    ensures o' + outleft' == o + outleft && Holds(out[..], before, o', b + Four(t).1, o' + outleft')
  {
    o', outleft' := o, outleft;
    hide Value, Byte0, Byte1, Byte2, Holds, Take;
    assert b + [] == b;
    if |t| < 2 {
      return false, o', outleft';
    }
    if Value(t[0]) < 0 || Value(t[1]) < 0 {
      return false, o', outleft';
    }
    var b0, b1, b2: byte;
    b0 := Byte0(Value(t[0]), Value(t[1]));
    o', outleft' := Emit(out, o', outleft', b0, before, b);
    if |t| == 2 {
      return false, o', outleft';
    }
    if t[2] == '=' {
      return |t| == 4 && t[3] == '=', o', outleft';
    }
    if Value(t[2]) < 0 {
      return false, o', outleft';
    }
    b1 := Byte1(Value(t[1]), Value(t[2]));
    o', outleft' := Emit(out, o', outleft', b1, before, b + [b0]);
    assert b + [b0] + [b1] == b + [b0, b1];
    if |t| == 3 {
      return false, o', outleft';
    }
    if t[3] == '=' {
      return |t| == 4, o', outleft';
    }
    if Value(t[3]) < 0 {
      return false, o', outleft';
    }
    b2 := Byte2(Value(t[2]), Value(t[3]));
    o', outleft' := Emit(out, o', outleft', b2, before, b + [b0, b1]);
    assert b + [b0, b1] + [b2] == b + [b0, b1, b2];
    ok := true;
  }

  /** struct base64_decode_context. */
  class Context {
    var i: nat
    const buf: array<char>

    ghost predicate Valid() reads this {
      buf.Length == 4 && i <= 4
    }

    /** The characters that wait for the rest of their group; a full buffer has been used up. */
    ghost function Leftover(): (l: string)
      requires Valid()
      reads this, buf
      ensures |l| < 4
    {
      if i == 4 then "" else buf[..i]
    }

    constructor ()
      ensures Valid() && Leftover() == "" && fresh(buf)
    {
      i, buf := 0, new char[4](j => '\0');
    }
  }

  predicate HasNewline(t: string) { '\n' in t }

  lemma StripStep(t: string)
    requires t != ""
    ensures Strip(t) == (if t[0] == '\n' then "" else [t[0]]) + Strip(t[1..])
  {
  }

  lemma StripEmpty()
    ensures Strip("") == ""
  {
  }

  /** get_4: the next group without newlines, from the input if it is there in one piece, else collected in
      the context; or everything there is, if that is less. */
  method Get4(ctx: Context, input: string, p: nat) returns (q: string, p': nat)
    requires ctx.Valid() && p <= |input|
    modifies ctx`i, ctx.buf
    ensures ctx.Valid() && p <= p' <= |input|
    ensures var r := old(ctx.Leftover()) + Strip(input[p..]);
            if |r| >= 4 then q == r[..4] && ctx.Leftover() == "" && Strip(input[p'..]) == r[4..] && p < p'
            else q == r == ctx.Leftover() && p' == |input|
  {
    hide Strip;
    ghost var l := ctx.Leftover();
    if ctx.i == 4 {
      ctx.i := 0;
    }
    assert l == ctx.buf[..ctx.i];
    if ctx.i == 0 && |input| - p >= 4 && !HasNewline(input[p..p + 4]) {
      q, p' := input[p..p + 4], p + 4;
      StripClean(q);
      StripAppend(q, input[p'..]);
      assert input[p..] == q + input[p'..];
      assert l + Strip(input[p..]) == q + Strip(input[p'..]);
      return;
    }
    p' := Collect(ctx, input, p);
    q := ctx.buf[..ctx.i];
    ghost var r := l + Strip(input[p..]);
    assert q + Strip(input[p'..]) == r;
    if ctx.i == 4 {
      assert r[..4] == q && r[4..] == Strip(input[p'..]);
    } else {
      StripEmpty();
      assert input[p'..] == "" && q + "" == q;
    }
  }

  /** Copy characters other than newlines until the buffer is full or the input ends. */
  method Collect(ctx: Context, input: string, p: nat) returns (p': nat)
    requires ctx.Valid() && p <= |input| && ctx.i < 4
    modifies ctx`i, ctx.buf
    ensures ctx.Valid() && p <= p' <= |input|
    ensures ctx.buf[..ctx.i] + Strip(input[p'..]) == old(ctx.buf[..ctx.i]) + Strip(input[p..])
    ensures if ctx.i == 4 then p < p' else p' == |input|
  {
    hide Strip;
    p' := p;
    while p' < |input|
      invariant ctx.Valid() && p <= p' <= |input| && ctx.i < 4
      invariant ctx.buf[..ctx.i] + Strip(input[p'..]) == old(ctx.buf[..ctx.i]) + Strip(input[p..])
    {
      var c := input[p'];
      ghost var had, rest := ctx.buf[..ctx.i], Strip(input[p' + 1..]);
      StripStep(input[p'..]);
      assert input[p'..][1..] == input[p' + 1..];
      p' := p' + 1;
      if c != '\n' {
        ctx.buf[ctx.i] := c;
        ctx.i := ctx.i + 1;
        assert ctx.buf[..ctx.i] == had + [c];
        assert had + ([c] + rest) == (had + [c]) + rest;
        if ctx.i == 4 {
          break;
        }
      } else {
        assert "" + rest == rest;
      }
    }
  }

  lemma {:induction false} StripClean(t: string)
    requires '\n' !in t
    ensures Strip(t) == t
  {
    if t != "" {
      StripClean(t[1..]);
    }
  }

  lemma HoldsNothing(out: seq<byte>, room: nat)
    requires room <= |out|
    ensures Holds(out, out, 0, [], room)
  {
    assert out[..0] == [];
  }

  lemma HoldsCount(out: seq<byte>, before: seq<byte>, o: nat, b: seq<byte>, room: nat)
    requires Holds(out, before, o, b, room)
    ensures o == |Take(b, room)|
  {
  }

  /** Giving back what a failed attempt wrote. */
  lemma RollBack(out: seq<byte>, before: seq<byte>, o: nat, b: seq<byte>, x: seq<byte>, room: nat)
    requires Holds(out, before, o, b + x, room)
    ensures |Take(b, room)| <= o && Holds(out, before, |Take(b, room)|, b, room)
  {
    TakeMore(b, x, room);
    assert out[..|Take(b, room)|] == out[..o][..|Take(b, room)|];
  }

  /** What is still to come, with or without a context. */
  ghost function Meaning(useCtx: bool, l: string, rest: string): (bool, seq<byte>, string) {
    if useCtx then Streamed(l + Strip(rest)) else (Plain(rest).0, Plain(rest).1, "")
  }

  lemma BeforeTwice(x: seq<byte>, y: seq<byte>, r: (bool, seq<byte>, string))
    ensures Before((true, x), Before((true, y), r)) == Before((true, x + y), r)
  {
    assert x + (y + r.1) == (x + y) + r.1;
  }

  lemma GroupAtHead(q: string, rest: string)
    requires |q| == 4 && Four(q + rest).0
    ensures Four(q) == Four(q + rest) && '\n' !in q
  {
    hide Four;
    FourIsQuad(q + rest);
    FourIsQuad(q);
    assert (q + rest)[..4] == q && q[..4] == q;
    GroupHasNoNewline(q);
  }

  lemma StreamedGroup(q: string, rest: string)
    requires |q| == 4 && Four(q + rest).0
    ensures Streamed(Strip(q + rest)) == Before((true, Four(q + rest).1), Streamed(Strip(rest)))
  {
    hide Four, Streamed, Strip;
    GroupAtHead(q, rest);
    StripClean(q);
    StripAppend(q, rest);
    StreamStep(q, Strip(rest));
  }

  lemma PlainGroup(t: string)
    requires Four(t).0
    ensures Plain(t) == (Plain(t[4..]).0, Four(t).1 + Plain(t[4..]).1)
  {
    hide Four;
  }

  /** A group that decode_4 accepts at the head of the input. */
  lemma FastGroup(useCtx: bool, t: string)
    requires Four(t).0
    ensures Meaning(useCtx, "", t) == Before((true, Four(t).1), Meaning(useCtx, "", t[4..]))
  {
    hide Four, Streamed, Strip, Plain;
    var q, rest := t[..4], t[4..];
    assert t == q + rest;
    if useCtx {
      StreamedGroup(q, rest);
      assert "" + Strip(t) == Strip(t) && "" + Strip(rest) == Strip(rest);
    } else {
      PlainGroup(t);
    }
  }

  lemma GroupHasNoNewline(q: string)
    requires |q| == 4 && Quad(q).Some?
    ensures '\n' !in q
  {
  }

  /** The inner loop: groups straight from the input until one fails. `save` is the room left before the
      failed attempt. */
  method FastPath(useCtx: bool, input: string, p: nat, out: array<byte>, o: nat, outleft: nat,
                  ghost before: seq<byte>, ghost done: seq<byte>)
    returns (p': nat, o': nat, outleft': nat, save: nat, ghost done': seq<byte>)
    requires p <= |input| && o + outleft <= out.Length && Holds(out[..], before, o, done, o + outleft)
    modifies out
    ensures p <= p' <= |input| && o' + outleft' == o + outleft
    ensures Before((true, done), Meaning(useCtx, "", input[p..])) == Before((true, done'), Meaning(useCtx, "", input[p'..]))
    ensures !Four(input[p'..]).0
    ensures Holds(out[..], before, o', done' + Four(input[p'..]).1, o + outleft)
    ensures save == o + outleft - |Take(done', o + outleft)|
  {
    hide Four, Streamed, Plain, Strip, Holds, Take;
    HoldsCount(out[..], before, o, done, o + outleft);
    p', o', outleft', done' := p, o, outleft, done;
    while true
      invariant p <= p' <= |input| && o' + outleft' == o + outleft
      invariant Holds(out[..], before, o', done', o + outleft)
      invariant Before((true, done), Meaning(useCtx, "", input[p..]))
                == Before((true, done'), Meaning(useCtx, "", input[p'..]))
      decreases |input| - p'
    {
      HoldsCount(out[..], before, o', done', o + outleft);
      save := outleft';
      var ok;
      ok, o', outleft' := Decode4(input[p'..], out, o', outleft', before, done');
      if !ok {
        return;
      }
      FastGroup(useCtx, input[p'..]);
      BeforeTwice(done', Four(input[p'..]).1, Meaning(useCtx, "", input[p'..][4..]));
      done' := done' + Four(input[p'..]).1;
      assert input[p'..][4..] == input[p' + 4..];
      p' := p' + 4;
    }
  }

  lemma SkipNewline(l: string, t: string)
    requires t != "" && t[0] == '\n'
    ensures Meaning(true, l, t) == Meaning(true, l, t[1..]) && !Four(t).0 && Four(t).1 == []
  {
  }

  /** A group that had to be collected in the context, or fewer characters than a group. */
  lemma SlowGroup(l: string, t: string, q: string, l': string, t': string)
    requires var r := l + Strip(t);
             if |r| >= 4 then q == r[..4] && l' == "" && Strip(t') == r[4..] else q == r == l' && t' == ""
    ensures |q| == 4 ==> Meaning(true, l, t) == Before(Four(q), Meaning(true, l', t'))
    ensures |q| < 4 ==> Meaning(true, l, t) == (true, [], q)
  {
    hide Four, Strip;
    var r := l + Strip(t);
    if |r| >= 4 {
      assert r == q + r[4..] && "" + Strip(t') == r[4..];
      StreamStep(q, r[4..]);
    }
  }

  lemma NothingLeft(useCtx: bool, l: string)
    requires |l| < 4 && (useCtx || l == "")
    ensures Meaning(useCtx, l, "") == (true, [], l)
    ensures Four("") == (false, [])
  {
    assert l + Strip("") == l;
  }

  lemma PlainFails(t: string)
    requires t != "" && !Four(t).0
    ensures Plain(t) == Four(t)
  {
  }

  lemma NothingDone(r: (bool, seq<byte>, string))
    ensures Before((true, []), r) == r
  {
    assert [] + r.1 == r.1;
  }

  /** The part of the loop after the fast path gave up: take a group by way of the context, or stop. */
  method SlowPath(ctx: Context?, input: string, p: nat, flush: bool, out: array<byte>, o: nat, outleft: nat,
                  ghost before: seq<byte>, ghost done: seq<byte>)
    returns (stop: bool, r: bool, p': nat, o': nat, outleft': nat, ghost done': seq<byte>)
    requires p <= |input| && (flush ==> ctx != null && p == |input|)
    requires if ctx != null then ctx.Valid() else p < |input| && !Four(input[p..]).0
    requires o + outleft <= out.Length && Holds(out[..], before, o, done, o + outleft)
    modifies out, ctx, if ctx != null then {ctx.buf} else {}
    ensures ctx != null ==> ctx.Valid()
    ensures o' + outleft' == o + outleft && p <= p' <= |input|
    ensures Holds(out[..], before, o', done', o + outleft)
    ensures ctx == null ==> stop && !r && done' == done + Plain(input[p..]).1 && !Plain(input[p..]).0
    ensures ctx != null ==>
              var l, m := old(ctx.Leftover()), Meaning(true, old(ctx.Leftover()), input[p..]);
              && (stop && r ==> m == (true, [], ctx.Leftover()) && done' == done && (flush ==> l == "" == ctx.Leftover()))
              && (stop && !r && !flush ==> !m.0 && done' == done + m.1)
              && (stop && !r && flush ==> l != "" && done' == done + Four(l).1)
              && (!stop ==> ctx.Leftover() == "")
              && (!stop ==> !flush && p < p' && Before((true, done), m)
                                               == Before((true, done'), Meaning(true, ctx.Leftover(), input[p'..])))
  {
    hide Streamed, Plain, Strip;
    p', o', outleft', done' := p, o, outleft, done;
    var q := input[p..];
    ghost var l := "";
    if ctx != null {
      l := ctx.Leftover();
      NothingLeft(true, l);
      q, p' := Get4(ctx, input, p);
      SlowGroup(l, input[p..], q, ctx.Leftover(), input[p'..]);
    }
    if q == "" || (|q| < 4 && !flush && ctx != null) {
      stop, r := true, true;
      return;
    }
    var ok;
    ok, o', outleft' := Decode4(q, out, o, outleft, before, done);
    done' := done + Four(q).1;
    stop, r := !ok, false;
    if ctx == null {
      PlainFails(q);
    } else if ok {
      BeforeTwice(done, Four(q).1, Meaning(true, ctx.Leftover(), input[p'..]));
    }
  }

  /** base64_decode_ctx. Without a context the input is decoded as a unit; with one it continues the text so
      far, and an empty input asks whether that text ends here. Either way `n` bytes are written, as many as
      there is room for. */
  method DecodeCtx(ctx: Context?, input: string, out: array<byte>, outlen: nat) returns (r: bool, n: nat)
    requires ctx != null ==> ctx.Valid()
    requires outlen <= out.Length
    modifies out, ctx, if ctx != null then {ctx.buf} else {}
    ensures ctx != null ==> ctx.Valid()
    ensures ctx == null ==>
              r == Plain(input).0 && Holds(out[..], old(out[..]), n, Plain(input).1, outlen)
    ensures ctx != null && input != "" ==>
              var m := Streamed(old(ctx.Leftover()) + Strip(input));
              r == m.0 && Holds(out[..], old(out[..]), n, m.1, outlen) && (r ==> ctx.Leftover() == m.2)
    ensures ctx != null && input == "" ==>
              && (r <==> old(ctx.Leftover()) == "") && (r ==> ctx.Leftover() == "")
              && Holds(out[..], old(out[..]), n, Four(old(ctx.Leftover())).1, outlen)
  {
    hide Four, Streamed, Plain, Strip, Holds, Take;
    var useCtx := ctx != null;
    var flush := useCtx && input == "";
    var ctxI := if ctx != null then ctx.i else 0;
    ghost var before, l0 := out[..], if ctx != null then ctx.Leftover() else "";
    ghost var l, done: seq<byte> := l0, [];
    var p, o, outleft := 0, 0, outlen;
    HoldsNothing(out[..], outlen);
    assert input[0..] == input;
    NothingDone(Meaning(useCtx, l0, input));
    while true
      invariant p <= |input| && o + outleft == outlen
      invariant ctx != null ==> ctx.Valid() && l == ctx.Leftover()
      invariant ctx == null ==> l == ""
      invariant ctxI == 0 ==> l == ""
      invariant flush ==> done == [] && l == l0
      invariant !flush ==> Meaning(useCtx, l0, input) == Before((true, done), Meaning(useCtx, l, input[p..]))
      invariant Holds(out[..], before, o, done, outlen)
      decreases |input| - p
    {
      HoldsCount(out[..], before, o, done, outlen);
      var save := outleft;
      ghost var partial: seq<byte> := [];
      assert done + [] == done;
      if ctxI == 0 && !flush {
        p, o, outleft, save, done := FastPath(useCtx, input, p, out, o, outleft, before, done);
        partial := Four(input[p..]).1;
        assert done + [] == done;
      }
      if p == |input| && !flush {
        NothingLeft(useCtx, l);
        assert input[p..] == "";
        r, n := true, o;
        return;
      }
      if p < |input| && input[p] == '\n' && useCtx {
        SkipNewline(l, input[p..]);
        assert input[p..][1..] == input[p + 1..];
        p := p + 1;
        continue;
      }
      RollBack(out[..], before, o, done, partial, outlen);
      o := o - (save - outleft);
      outleft := save;
      var stop;
      stop, r, p, o, outleft, done := SlowPath(ctx, input, p, flush, out, o, outleft, before, done);
      if stop {
        n := o;
        NothingLeft(useCtx, l0);
        assert flush ==> [] + Four(l0).1 == Four(l0).1;
        return;
      }
      l := ctx.Leftover();
    }
  }

  lemma {:induction false} DecodedLength(t: string)
    ensures |Streamed(t).1| <= |t| / 4 * 3 + (if Streamed(t).0 then 0 else 3)
  {
    hide Four;
    if |t| >= 4 {
      assert |t| / 4 == (|t| - 4) / 4 + 1;
      FourLength(t[..4]);
      DecodedLength(t[4..]);
    }
  }

  lemma FourLength(t: string)
    ensures |Four(t).1| <= 3
  {
  }

  lemma {:induction false} PlainLength(t: string)
    requires Plain(t).0
    ensures |Plain(t).1| <= |t| / 4 * 3
  {
    hide Four;
    if t != "" {
      FourLength(t);
      PlainLength(t[4..]);
    }
  }

  lemma {:induction false} StripLength(t: string)
    ensures |Strip(t)| <= |t|
  {
    if t != "" {
      StripLength(t[1..]);
    }
  }

  /** The buffer size that base64_decode_alloc_ctx asks for. */
  function NeedLen(inlen: nat): nat { 3 * (inlen / 4) + 3 }

  /** That size never wraps around and holds everything a successful call can write, including what up to
      three characters carried over in the context complete. */
  lemma NeedLenSuffices(left: string, input: string)
    requires |left| < 4 && |input| < U64
    ensures NeedLen(|input|) < U64
    ensures Streamed(left + Strip(input)).0 ==> |Streamed(left + Strip(input)).1| <= NeedLen(|input|)
    ensures Plain(input).0 ==> |Plain(input).1| <= NeedLen(|input|)
  {
    hide Four, Streamed, Plain, Strip;
    StripLength(input);
    DecodedLength(left + Strip(input));
    var t := |left + Strip(input)|;
    assert t / 4 <= (|input| + 3) / 4 <= |input| / 4 + 1;
    if Plain(input).0 {
      PlainLength(input);
    }
  }

  /** base64_decode_alloc_ctx: `out` is null if the text is bad, or (with r true) without memory. */
  method DecodeAllocCtx(ctx: Context?, input: string, memory: bool) returns (r: bool, out: array?<byte>, n: nat)
    requires ctx != null ==> ctx.Valid()
    requires |input| < U64
    modifies ctx, if ctx != null then {ctx.buf} else {}
    ensures ctx != null ==> ctx.Valid()
    ensures out != null <==> r && memory
    ensures out != null ==> n <= out.Length
    ensures !memory ==> r && (ctx != null ==> ctx.Leftover() == old(ctx.Leftover()))
    ensures !r && ctx == null ==> !Plain(input).0
    ensures out != null && ctx == null ==> Plain(input) == (true, out[..n])
    ensures out != null && ctx != null && input != "" ==>
              Streamed(old(ctx.Leftover()) + Strip(input)) == (true, out[..n], ctx.Leftover())
    ensures !r && ctx != null && input != "" ==> !Streamed(old(ctx.Leftover()) + Strip(input)).0
    ensures ctx != null && input == "" && out != null ==> old(ctx.Leftover()) == "" && n == 0
    ensures ctx != null && input == "" && !r ==> old(ctx.Leftover()) != ""
  {
    var needlen := NeedLen(|input|);
    NeedLenSuffices(if ctx != null then ctx.Leftover() else "", input);
    if !memory {
      return true, null, needlen;
    }
    var buffer := new byte[needlen](i => 0);
    r, n := DecodeCtx(ctx, input, buffer, needlen);
    out := if r then buffer else null;
  }

  // ----- a text in chunks

  lemma FlushWrites(left: string)
    requires left == ""
    ensures Four(left).1 == []
  {
  }

  lemma {:induction false} FedAppend(left: string, a: seq<string>, chunk: string)
    requires Fed(left, a).0
    ensures Fed(left, a + [chunk])
         == var r := Fed(left, a); var f := Fed(r.2, [chunk]); (f.0, r.1 + f.1, f.2)
    decreases |a|
  {
    hide Streamed, Strip;
    if a == [] {
      assert a + [chunk] == [chunk] && [] + Fed(left, [chunk]).1 == Fed(left, [chunk]).1;
    } else {
      assert (a + [chunk])[0] == a[0] && (a + [chunk])[1..] == a[1..] + [chunk];
      if a[0] == "" {
        FedAppend(left, a[1..], chunk);
      } else {
        var f := Streamed(left + Strip(a[0]));
        FedAppend(f.2, a[1..], chunk);
        var r := Fed(f.2, a[1..]);
        assert (f.1 + r.1) + Fed(r.2, [chunk]).1 == f.1 + (r.1 + Fed(r.2, [chunk]).1);
      }
    }
  }

  lemma {:induction false} FedFails(left: string, a: seq<string>, b: seq<string>)
    requires !Fed(left, a).0
    ensures !Fed(left, a + b).0
    decreases |a|
  {
    hide Streamed, Strip;
    assert (a + b)[0] == a[0] && (a + b)[1..] == a[1..] + b;
    if a[0] == "" {
      if left == "" {
        FedFails(left, a[1..], b);
      }
    } else if Streamed(left + Strip(a[0])).0 {
      FedFails(Streamed(left + Strip(a[0])).2, a[1..], b);
    }
  }

  /** One call on one chunk, with room for all of its output. */
  method DecodeChunk(ctx: Context, chunk: string) returns (r: bool, bytes: seq<byte>)
    requires ctx.Valid() && |chunk| < U64
    modifies ctx, ctx.buf
    ensures ctx.Valid()
    ensures var f := Fed(old(ctx.Leftover()), [chunk]); r == f.0 && (r ==> bytes == f.1 && ctx.Leftover() == f.2)
  {
    hide Four, Streamed, Strip, Plain;
    ghost var left := ctx.Leftover();
    NeedLenSuffices(left, chunk);
    var out := new byte[NeedLen(|chunk|)](i => 0);
    var n;
    r, n := DecodeCtx(ctx, chunk, out, out.Length);
    bytes := out[..n];
    assert [chunk][1..] == [];
    if r {
      if chunk == "" {
        FlushWrites(left);
      } else {
        var m := Streamed(left + Strip(chunk));
        assert m.1 + [] == m.1;
      }
    }
  }

  /** A text that arrives in chunks, decoded call by call and ended by a flush: all calls succeed exactly when
      the text without its newlines is a concatenation of groups and no empty chunk comes within one, and then
      the outputs together are its decoding. */
  method DecodeChunks(chunks: seq<string>) returns (ok: bool, bytes: seq<byte>)
    requires forall i :: 0 <= i < |chunks| ==> |chunks[i]| < U64
    ensures ok <==> Decoded(Strip(Joined(chunks))).Some? && FlushedBetweenGroups(0, chunks)
    ensures ok ==> bytes == Decoded(Strip(Joined(chunks))).value
    ensures (forall i :: 0 <= i < |chunks| ==> chunks[i] != "") ==> (ok <==> Decoded(Strip(Joined(chunks))).Some?)
  {
    hide Fed, Decoded, Strip, Joined, FlushedBetweenGroups, Streamed, Four;
    var ctx := new Context();
    NoneFed("");
    bytes := [];
    var i := 0;
    while i < |chunks|
      invariant 0 <= i <= |chunks| && ctx.Valid() && fresh(ctx) && fresh(ctx.buf)
      invariant Fed("", chunks[..i]) == (true, bytes, ctx.Leftover())
    {
      ghost var done := chunks[..i];
      assert chunks[..i + 1] == done + [chunks[i]];
      FedAppend("", done, chunks[i]);
      var more;
      ok, more := DecodeChunk(ctx, chunks[i]);
      if !ok {
        assert chunks == chunks[..i + 1] + chunks[i + 1..];
        FedFails("", chunks[..i + 1], chunks[i + 1..]);
        ChunksDecoded(chunks);
        return;
      }
      bytes := bytes + more;
      i := i + 1;
    }
    assert chunks[..i] == chunks;
    FlushFed(ctx.Leftover());
    var rest;
    ok, rest := DecodeChunk(ctx, "");
    ChunksDecoded(chunks);
  }

  lemma NoneFed(left: string)
    ensures Fed(left, []) == (true, [], left)
  {
  }

  lemma FlushFed(left: string)
    ensures Fed(left, [""]).0 <==> left == ""
  {
    assert [""][1..] == [];
  }

  lemma ChunksDecoded(chunks: seq<string>)
    ensures var t := Strip(Joined(chunks)); var f := Fed("", chunks);
      && (f.0 && f.2 == "" <==> Decoded(t).Some? && FlushedBetweenGroups(0, chunks))
      && (f.0 && f.2 == "" ==> f.1 == Decoded(t).value)
      && ((forall i :: 0 <= i < |chunks| ==> chunks[i] != "") ==> FlushedBetweenGroups(0, chunks))
  {
    hide Fed, Decoded, Strip, Joined, FlushedBetweenGroups;
    ChunkingDoesNotMatter(chunks);
    if forall i :: 0 <= i < |chunks| ==> chunks[i] != "" {
      NoFlush(0, chunks);
    }
  }
}
