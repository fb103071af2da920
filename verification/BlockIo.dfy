/** Reading and writing arbitrary byte ranges of a device that only moves whole blocks, over system calls
    that may transfer less than asked for, be interrupted, or fail. */
module BlockIo {
  import opened Bytes

  /** How one read(2) or write(2) call ends: it moves at most `n` bytes, is interrupted, or fails. */
  datatype Event = Xfer(n: nat) | Eintr | Error

  predicate NoFault(script: seq<Event>) {
    forall i :: 0 <= i < |script| ==> !script[i].Error? && script[i] != Xfer(0)
  }

  /** Interruptions and transfers of less than was asked for are no faults. */
  lemma NoFaultIs(script: seq<Event>)
    ensures NoFault(script)
       <==> forall i :: 0 <= i < |script| ==> script[i].Eintr? || (script[i].Xfer? && script[i].n >= 1)
  {
  }

  /** What pwrite would leave: `s` at `p`, everything else as it was. */
  function Pwrite(d: seq<byte>, p: nat, s: seq<byte>): (r: seq<byte>)
    requires p + |s| <= |d|
    ensures |r| == |d|
    ensures forall i {:trigger r[i]} :: 0 <= i < |d| ==> r[i] == if p <= i < p + |s| then s[i - p] else d[i]
  {
    d[..p] + s + d[p + |s|..]
  }

  /** Every byte is the old one or the one that was to be written there. */
  ghost predicate PartlyWritten(d': seq<byte>, d: seq<byte>, p: nat, s: seq<byte>) {
    |d'| == |d| && forall i :: 0 <= i < |d| ==> d'[i] == d[i] || (p <= i < p + |s| && d'[i] == s[i - p])
  }

  lemma PwriteTwice(d: seq<byte>, p: nat, s: seq<byte>, t: seq<byte>)
    requires p + |s| + |t| <= |d|
    ensures Pwrite(Pwrite(d, p, s), p + |s|, t) == Pwrite(d, p, s + t)
  {
  }

  lemma WritesNothing(d: seq<byte>, p: nat)
    requires p <= |d|
    ensures Pwrite(d, p, []) == d
  {
  }

  /** A prefix of a buffer that grows as it is written. */
  lemma PwriteMore(d: seq<byte>, p: nat, src: seq<byte>, w: nat, n: nat)
    requires w + n <= |src| && p + w + n <= |d|
    ensures Pwrite(Pwrite(d, p, src[..w]), p + w, src[w..][..n]) == Pwrite(d, p, src[..w + n])
  {
    hide Pwrite;
    assert src[..w] + src[w..][..n] == src[..w + n];
    PwriteTwice(d, p, src[..w], src[w..][..n]);
  }

  lemma ReadOn(b: seq<byte>, at: nat, d: seq<byte>, p: nat, m: nat, n: nat)
    requires p + m + n <= |d| && at + m + n <= |b|
    ensures Pwrite(Pwrite(b, at, d[p..p + m]), at + m, d[p + m..p + m + n]) == Pwrite(b, at, d[p..p + m + n])
  {
    assert d[p..p + m] + d[p + m..p + m + n] == d[p..p + m + n];
    PwriteTwice(b, at, d[p..p + m], d[p + m..p + m + n]);
  }

  /** An open file description of a device. */
  class Device {
    var data: seq<byte>
    var pos: nat
    var script: seq<Event>  // how the next system calls end; once it is used up they all succeed

    constructor (data: seq<byte>, script: seq<Event>)
      ensures this.data == data && pos == 0 && this.script == script
    {
      this.data, this.pos, this.script := data, 0, script;
    }

    method Next() returns (e: Event)
      modifies this`script
      ensures |old(script)| > 0 ==> |script| < |old(script)|
      ensures |old(script)| == 0 ==> script == [] && e.Xfer? && e.n > 0
      ensures NoFault(old(script)) ==> NoFault(script) && !e.Error? && e != Xfer(0)
    {
      if script == [] {
        e := Xfer(0x7fff_f000);
      } else {
        e, script := script[0], script[1..];
      }
    }

    /** lseek on a block device: no position beyond its end. */
    method Lseek(p: int) returns (ok: bool)
      modifies this`pos
      ensures ok <==> 0 <= p <= |data|
      ensures pos == if ok then p else old(pos)
    {
      ok := 0 <= p <= |data|;
      if ok {
        pos := p;
      }
    }

    method Read(buf: array<byte>, at: nat, count: nat) returns (r: int, eintr: bool)
      requires pos <= |data| && at + count <= buf.Length
      modifies this`pos, this`script, buf
      ensures -1 <= r <= count && pos == old(pos) + (if r > 0 then r else 0) <= |data|
      ensures r > 0 ==> buf[..] == Pwrite(old(buf[..]), at, data[old(pos)..pos])
      ensures r <= 0 ==> buf[..] == old(buf[..])
      ensures r == 0 <==> r >= 0 && (count == 0 || old(pos) == |data|)
      ensures old(script) != [] ==> |script| < |old(script)|
      ensures old(script) == [] ==> script == [] && r >= 0
      ensures NoFault(old(script)) ==> NoFault(script) && (r == -1 ==> eintr)
    {
      var e := Next();
      eintr := e.Eintr?;
      if !e.Xfer? {
        return -1, eintr;
      }
      var k := if count < |data| - pos then count else |data| - pos;
      k := if 0 < e.n < k then e.n else k;
      forall i | 0 <= i < k {
        buf[at + i] := data[pos + i];
      }
      pos := pos + k;
      r := k;
      ghost var want := Pwrite(old(buf[..]), at, data[old(pos)..pos]);
      forall i | 0 <= i < buf.Length ensures buf[i] == want[i] {
        if at <= i < at + k {
          assert buf[at + (i - at)] == data[old(pos) + (i - at)];
        }
      }
      assert buf[..] == want;
    }

    method Write(src: seq<byte>) returns (r: int, eintr: bool)
      requires pos <= |data|
      modifies this
      ensures -1 <= r <= |src| && pos == old(pos) + (if r > 0 then r else 0) <= |data|
      ensures |data| == |old(data)|
      ensures data == if r > 0 then Pwrite(old(data), old(pos), src[..r]) else old(data)
      ensures old(script) != [] ==> |script| < |old(script)|
      ensures old(script) == [] ==> script == [] && (r != 0 || src == []) && !eintr
      ensures NoFault(old(script)) ==> NoFault(script)
      ensures NoFault(old(script)) && old(pos) < |data| && src != [] ==> r > 0 || (r == -1 && eintr)
    {
      var e := Next();
      eintr := e.Eintr?;
      if !e.Xfer? || (pos == |data| && src != []) {
        return -1, eintr;
      }
      var k := if |src| < |data| - pos then |src| else |data| - pos;
      k := if e.n < k then e.n else k;
      data := if k > 0 then Pwrite(data, pos, src[..k]) else data;
      pos := pos + k;
      r := k;
    }
  }

  /** _read_buffer; with `intr` a signal handler may ask it to stop early. */
  method ReadBuffer(dev: Device, buf: array<byte>, at: nat, length: nat, intr: bool) returns (r: int)
    requires dev.pos <= |dev.data| && at + length <= buf.Length
    modifies dev`pos, dev`script, buf
    ensures old(dev.pos) <= dev.pos <= |dev.data| && dev.pos - old(dev.pos) <= length
    ensures buf[..] == Pwrite(old(buf[..]), at, dev.data[old(dev.pos)..dev.pos])
    ensures -1 <= r && (r >= 0 ==> r == dev.pos - old(dev.pos))
    ensures r >= 0 && !intr ==> r == length || dev.pos == |dev.data|
    ensures NoFault(old(dev.script)) ==> NoFault(dev.script) && r >= 0
  {
    hide Pwrite;
    assert dev.data[dev.pos..dev.pos] == [];
    assert buf[..] == Pwrite(buf[..], at, []);
    var readSize := 0;
    while true
      invariant 0 <= readSize <= length && (readSize == length ==> length == 0)
      invariant dev.pos == old(dev.pos) + readSize <= |dev.data|
      invariant buf[..] == Pwrite(old(buf[..]), at, dev.data[old(dev.pos)..dev.pos])
      invariant NoFault(old(dev.script)) ==> NoFault(dev.script)
      decreases |dev.script|, length - readSize, if length == 0 then 1 else 0
    {
      var n, eintr := dev.Read(buf, at + readSize, length - readSize);
      if n == -1 && !eintr {
        return n;
      }
      if n > 0 {
        ReadOn(old(buf[..]), at, dev.data, old(dev.pos), readSize, n);
        readSize := readSize + n;
      }
      var quit := *;
      if n == 0 || (intr && quit) {
        return readSize;
      }
      if readSize == length {
        return length;
      }
    }
  }

  /** _write_buffer; `w` is how much has reached the device. */
  method WriteBuffer(dev: Device, src: seq<byte>, intr: bool) returns (r: int, ghost w: nat)
    requires dev.pos <= |dev.data|
    modifies dev
    ensures w <= |src| && dev.pos == old(dev.pos) + w <= |dev.data|
    ensures |dev.data| == |old(dev.data)|
    ensures dev.data == Pwrite(old(dev.data), old(dev.pos), src[..w])
    ensures r < 0 || (r == w && src != [])
    ensures NoFault(old(dev.script)) ==> NoFault(dev.script)
    ensures NoFault(old(dev.script)) && !intr && src != [] && old(dev.pos) + |src| <= |dev.data| ==> r == |src|
  {
    hide NoFault, Pwrite;
    w := 0;
    WritesNothing(dev.data, dev.pos);
    assert src[..0] == [];
    if src == [] {
      return -EINVAL, w;
    }
    var writeSize := 0;
    while true
      invariant writeSize == w < |src|
      invariant dev.pos == old(dev.pos) + w <= |dev.data|
      invariant |dev.data| == |old(dev.data)|
      invariant dev.data == Pwrite(old(dev.data), old(dev.pos), src[..w])
      invariant NoFault(old(dev.script)) ==> NoFault(dev.script)
      decreases |dev.script|, |src| - writeSize
    {
      var n, eintr := dev.Write(src[writeSize..]);
      if n < 0 && !eintr {
        return n, w;
      }
      if n > 0 {
        PwriteMore(old(dev.data), old(dev.pos), src, w, n);
        writeSize, w := writeSize + n, w + n;
      }
      var quit := *;
      if n == 0 || (intr && quit) {
        return writeSize, w;
      }
      if writeSize == |src| {
        return writeSize, w;
      }
    }
  }

  // ----- whole blocks

  /** Sums and differences of block multiples are block multiples, and no device has part of a block. */
  lemma BlockSums(x: int, y: int, b: int)
    requires b > 0 && x % b == 0 && y % b == 0
    ensures (x + y) % b == 0 && (x - y) % b == 0
    ensures x > y ==> x - y >= b
  {
    var k, m := x / b, y / b;
    WholeQuotient(x, b);
    WholeQuotient(y, b);
    SumIsMultiple(x, y, k, m, b);
  }

  lemma SumIsMultiple(x: int, y: int, k: int, m: int, b: int)
    requires b > 0 && x == k * b && y == m * b
    ensures (x + y) % b == 0 && (x - y) % b == 0
    ensures x > y ==> x - y >= b
  {
    Distribute(k, m, b);
    MultipleIs(k + m, b);
    MultipleIs(k - m, b);
    if k - m >= 1 {
      AtLeastOneTimes(k - m, b);
    } else if m - k >= 0 {
      NotNegative(m - k, b);
    }
  }

  lemma NotNegative(k: int, b: int)
    requires k >= 0 && b > 0
    ensures (0 - k) * b <= 0
  {
  }

  lemma SolidPart(n: nat, b: nat)
    requires b > 0
    ensures 0 <= n % b <= n && (n - n % b) % b == 0
  {
    MultipleIs(n / b, b);
    assert n - n % b == n / b * b;
  }

  lemma WholeBuffer(b: seq<byte>, s: seq<byte>)
    requires |b| == |s|
    ensures Pwrite(b, 0, s) == s
  {
  }

  /** A block that was read at `p` and got a new beginning, and `w` bytes of it written back. */
  lemma HangoverWritten(d: seq<byte>, p: nat, bsize: nat, tail: seq<byte>, w: nat)
    requires |tail| <= bsize && p + bsize <= |d| && w <= bsize
    ensures var out := tail + d[p..p + bsize][|tail|..];
      && PartlyWritten(Pwrite(d, p, out[..w]), d, p, tail)
      && (w >= |tail| ==> Pwrite(d, p, out[..w]) == Pwrite(d, p, tail))
  {
  }

  /** The last, incomplete block: read it, replace its beginning, write it back. */
  method WriteHangover(dev: Device, bsize: nat, tail: seq<byte>) returns (r: int)
    requires 0 < |tail| < bsize && dev.pos <= |dev.data| && (dev.pos < |dev.data| ==> dev.pos + bsize <= |dev.data|)
    modifies dev
    ensures dev.pos <= |dev.data| && PartlyWritten(dev.data, old(dev.data), old(dev.pos), tail)
    ensures r == -1 || r == 0
    ensures r == 0 ==> old(dev.pos) + |tail| <= |dev.data| && dev.data == Pwrite(old(dev.data), old(dev.pos), tail)
    ensures NoFault(old(dev.script)) ==> NoFault(dev.script)
    ensures NoFault(old(dev.script)) && old(dev.pos) < |dev.data| ==> r == 0
  {
    hide Pwrite, NoFault, PartlyWritten;
    ghost var d, p := dev.data, dev.pos;
    Unwritten(d, p, tail);
    var block := new byte[bsize](i => 0);
    ghost var blank := block[..];
    var n := ReadBuffer(dev, block, 0, bsize, false);
    if n < 0 {
      return -1;
    }
    var ok := dev.Lseek(dev.pos - n);
    if !ok {
      return -1;
    }
    var out := tail + block[|tail|..];
    ghost var w;
    if n > 0 {
      WholeBuffer(blank, d[p..p + bsize]);
      assert block[|tail|..] == block[..][|tail|..];
    }
    n, w := WriteBuffer(dev, out, false);
    if p + bsize <= |d| {
      HangoverWritten(d, p, bsize, tail, w);
    } else {
      WritesNothing(d, p);
      assert out[..w] == [];
    }
    if n < 0 || n < |tail| {
      return -1;
    }
    r := 0;
  }

  lemma Unwritten(d: seq<byte>, p: nat, s: seq<byte>)
    ensures PartlyWritten(d, d, p, s)
  {
  }

  /** write_blockwise: the whole blocks of `src`, then the rest. */
  method WriteParts(dev: Device, bsize: nat, src: seq<byte>, solid: nat) returns (r: int)
    requires solid <= |src| < solid + bsize && dev.pos <= |dev.data|
    requires dev.pos + solid < |dev.data| ==> dev.pos + solid + bsize <= |dev.data|
    modifies dev
    ensures dev.pos <= |dev.data| && PartlyWritten(dev.data, old(dev.data), old(dev.pos), src)
    ensures r == -1 || r == |src|
    ensures r == |src| ==> old(dev.pos) + |src| <= |dev.data|
                           && dev.data == Pwrite(old(dev.data), old(dev.pos), src)
                           && (solid == |src| ==> dev.pos == old(dev.pos) + |src|)
    ensures NoFault(old(dev.script)) ==> NoFault(dev.script)
    ensures NoFault(old(dev.script)) && old(dev.pos) + |src| <= |dev.data| ==> r == |src|
  {
    hide NoFault, Pwrite;
    ghost var d, p := dev.data, dev.pos;
    assert src[..solid] + src[solid..] == src;
    WritesNothing(d, p);
    if solid > 0 {
      ghost var w;
      r, w := WriteBuffer(dev, src[..solid], false);
      assert src[..solid][..w] == src[..w];
      if r < 0 || r != solid {
        return -1;
      }
    }
    assert dev.data == Pwrite(d, p, src[..solid]);
    if solid < |src| {
      r := WriteHangover(dev, bsize, src[solid..]);
      if r < 0 {
        return -1;
      }
      PwriteTwice(d, p, src[..solid], src[solid..]);
    }
    r := |src|;
  }

  /** write_blockwise at the current, block-aligned position. Whatever happens, no byte outside the range
      changes: the rest of the last block is read first and written back. */
  method WriteBlockwise(dev: Device, bsize: nat, src: seq<byte>) returns (r: int)
    requires bsize > 0 && |dev.data| % bsize == 0 && dev.pos % bsize == 0 && dev.pos <= |dev.data|
    modifies dev
    ensures dev.pos <= |dev.data| && PartlyWritten(dev.data, old(dev.data), old(dev.pos), src)
    ensures r == -1 || r == |src|
    ensures r == |src| ==> old(dev.pos) + |src| <= |dev.data|
                           && dev.data == Pwrite(old(dev.data), old(dev.pos), src)
                           && (|src| % bsize == 0 ==> dev.pos == old(dev.pos) + |src|)
    ensures NoFault(old(dev.script)) ==> NoFault(dev.script)
    ensures NoFault(old(dev.script)) && old(dev.pos) + |src| <= |dev.data| ==> r == |src|
  {
    var hangover := |src| % bsize;
    SolidPart(|src|, bsize);
    BlockSums(dev.pos, |src| - hangover, bsize);
    BlockSums(|dev.data|, dev.pos + |src| - hangover, bsize);
    r := WriteParts(dev, bsize, src, |src| - hangover);
  }

  /** The byte offset a request means: negative offsets count from the end of the device. */
  function Position(size: nat, offset: int): int {
    if offset < 0 then size + offset else offset
  }

  /** Requests that can be served. A request for nothing may even start inside the block behind the end. */
  predicate Serves(size: nat, bsize: nat, length: nat, offset: int)
    requires bsize > 0
  {
    var p := Position(size, offset);
    p >= 0 && p - p % bsize <= size && (length == 0 || p + length <= size)
  }

  /** A request for some bytes is served exactly when they are all on the device, whatever its block size. */
  lemma ServesIs(size: nat, bsize: nat, length: nat, offset: int)
    requires bsize > 0 && length > 0
    ensures offset >= 0 ==> Position(size, offset) == offset
                            && (Serves(size, bsize, length, offset) <==> offset + length <= size)
    ensures offset < 0 ==> Position(size, offset) == size - (-offset)
                           && (Serves(size, bsize, length, offset) <==> length <= -offset <= size)
  {
  }

  lemma FrontWritten(d: seq<byte>, base: nat, b: nat, frontHang: nat, inner: seq<byte>, w: nat)
    requires base + b <= |d| && frontHang + |inner| <= b && w <= b
    ensures var out := Pwrite(d[base..base + b], frontHang, inner);
            && PartlyWritten(Pwrite(d, base, out[..w]), d, base + frontHang, inner)
            && (w == b ==> Pwrite(d, base, out[..w]) == Pwrite(d, base + frontHang, inner))
  {
  }

  /** The incomplete first block of a write: read it, replace its end, write it back. */
  method WriteFront(dev: Device, bsize: nat, base: nat, frontHang: nat, inner: seq<byte>) returns (r: int)
    requires 0 < frontHang && inner != [] && frontHang + |inner| <= bsize && base == dev.pos <= |dev.data|
    requires base < |dev.data| ==> base + bsize <= |dev.data|
    modifies dev
    ensures dev.pos <= |dev.data| && PartlyWritten(dev.data, old(dev.data), base + frontHang, inner)
    ensures r == -1 || r == 0
    ensures r == 0 ==> base + bsize <= |dev.data| && dev.data == Pwrite(old(dev.data), base + frontHang, inner)
                       && dev.pos == base + bsize
    ensures NoFault(old(dev.script)) ==> NoFault(dev.script)
    ensures NoFault(old(dev.script)) && base < |dev.data| ==> r == 0
  {
    ghost var d := dev.data;
    var block := new byte[bsize](i => 0);
    var n := ReadBuffer(dev, block, 0, bsize, false);
    if n < 0 || n < frontHang + |inner| {
      return -1;
    }
    assert block[..] == d[base..base + bsize];
    var out := Pwrite(block[..], frontHang, inner);
    var ok := dev.Lseek(base);
    ghost var w;
    n, w := WriteBuffer(dev, out, false);
    FrontWritten(d, base, bsize, frontHang, inner, w);
    if !ok || n < 0 || n != bsize {
      return -1;
    }
    r := 0;
  }

  lemma FrontPart(p: nat, size: nat, b: nat)
    requires b > 0 && size % b == 0
    ensures 0 <= p % b < b && p % b <= p && (p - p % b) % b == 0 && (p - p % b + b) % b == 0
    ensures p - p % b < size ==> p - p % b + b <= size
  {
    SolidPart(p, b);
    BlockSums(size, p - p % b, b);
    QuotientIs(b, b, 1, 0);
    BlockSums(p - p % b, b, b);
  }

  lemma PartOfHead(d': seq<byte>, d: seq<byte>, p: nat, src: seq<byte>, k: nat)
    requires k <= |src| && PartlyWritten(d', d, p, src[..k])
    ensures PartlyWritten(d', d, p, src)
  {
  }

  /** Whatever part of the tail reaches the device after the head is part of the whole. */
  lemma PartOfTail(d': seq<byte>, d: seq<byte>, p: nat, src: seq<byte>, k: nat)
    requires k <= |src| && p + k <= |d| && PartlyWritten(d', Pwrite(d, p, src[..k]), p + k, src[k..])
    ensures PartlyWritten(d', d, p, src)
  {
  }

  /** write_lseek_blockwise when the range starts inside the block at `base`. */
  method WriteUnaligned(dev: Device, bsize: nat, src: seq<byte>, base: nat, frontHang: nat) returns (r: int)
    requires 0 < frontHang < bsize && src != [] && |dev.data| % bsize == 0 && (base + bsize) % bsize == 0
    requires dev.pos == base <= |dev.data| && (base < |dev.data| ==> base + bsize <= |dev.data|)
    modifies dev
    ensures dev.pos <= |dev.data| && PartlyWritten(dev.data, old(dev.data), base + frontHang, src)
    ensures r == -1 || r == |src|
    ensures r == |src| ==> base + frontHang + |src| <= |dev.data|
                           && dev.data == Pwrite(old(dev.data), base + frontHang, src)
    ensures NoFault(old(dev.script)) ==> NoFault(dev.script)
    ensures NoFault(old(dev.script)) && base + frontHang + |src| <= |dev.data| ==> r == |src|
  {
    hide Pwrite, PartlyWritten, NoFault;
    ghost var d, p := dev.data, base + frontHang;
    var innerCount := if bsize - frontHang > |src| then |src| else bsize - frontHang;
    assert src[..innerCount] + src[innerCount..] == src;
    r := WriteFront(dev, bsize, base, frontHang, src[..innerCount]);
    PartOfHead(dev.data, d, p, src, innerCount);
    if r < 0 {
      return -1;
    }
    if innerCount < |src| {
      r := WriteBlockwise(dev, bsize, src[innerCount..]);
      PartOfTail(dev.data, d, p, src, innerCount);
      if r < 0 {
        return -1;
      }
      PwriteTwice(d, p, src[..innerCount], src[innerCount..]);
    } else {
      assert src[..innerCount] == src;
    }
    r := |src|;
  }

  /** write_lseek_blockwise after the seek to the block that holds position `p`. */
  method WriteFrom(dev: Device, bsize: nat, src: seq<byte>, p: nat) returns (r: int)
    requires bsize > 0 && |dev.data| % bsize == 0 && dev.pos == p - p % bsize <= |dev.data|
    modifies dev
    ensures dev.pos <= |dev.data| && PartlyWritten(dev.data, old(dev.data), p, src)
    ensures r == -1 || r == |src|
    ensures r == |src| && src != [] ==> p + |src| <= |dev.data| && dev.data == Pwrite(old(dev.data), p, src)
    ensures NoFault(old(dev.script)) ==> NoFault(dev.script)
    ensures NoFault(old(dev.script)) && (src == [] || p + |src| <= |dev.data|) ==> r == |src|
  {
    var frontHang := p % bsize;
    FrontPart(p, |dev.data|, bsize);
    if src == [] {
      return 0;
    }
    if frontHang == 0 {
      r := WriteBlockwise(dev, bsize, src);
    } else {
      r := WriteUnaligned(dev, bsize, src, p - frontHang, frontHang);
    }
  }

  /** write_lseek_blockwise refines pwrite: it succeeds exactly on the requests that fit, provided no system
      call fails, and it never touches a byte outside the range, not even when it fails half-way. */
  method WriteLseekBlockwise(dev: Device, bsize: nat, src: seq<byte>, offset: int) returns (r: int)
    requires bsize > 0 && |dev.data| % bsize == 0 && dev.pos <= |dev.data|
    modifies dev
    ensures dev.pos <= |dev.data| == |old(dev.data)|
    ensures r == -1 || r == |src|
    ensures r == |src| ==> Serves(|dev.data|, bsize, |src|, offset)
    ensures r == |src| && src != [] ==> dev.data == Pwrite(old(dev.data), Position(|dev.data|, offset), src)
    ensures var p := Position(|dev.data|, offset);
            if p >= 0 then PartlyWritten(dev.data, old(dev.data), p, src) else dev.data == old(dev.data)
    ensures NoFault(old(dev.script)) ==> NoFault(dev.script)
    ensures NoFault(old(dev.script)) && Serves(|dev.data|, bsize, |src|, offset) ==> r == |src|
  {
    var p := if offset < 0 then |dev.data| + offset else offset;
    if p < 0 {
      return -1;
    }
    FrontPart(p, |dev.data|, bsize);
    var ok := dev.Lseek(p - p % bsize);
    if !ok {
      return -1;
    }
    r := WriteFrom(dev, bsize, src, p);
  }

  /** The last, incomplete block of a read. */
  method ReadHangover(dev: Device, bsize: nat, buf: array<byte>, at: nat, count: nat) returns (r: int)
    requires 0 < count < bsize && at + count <= buf.Length
    requires dev.pos <= |dev.data| && (dev.pos < |dev.data| ==> dev.pos + bsize <= |dev.data|)
    modifies dev`pos, dev`script, buf
    ensures dev.pos <= |dev.data| && (r == -1 || r == 0)
    ensures r == -1 ==> buf[..] == old(buf[..])
    ensures r == 0 ==> old(dev.pos) + bsize <= |dev.data|
                       && buf[..] == Pwrite(old(buf[..]), at, dev.data[old(dev.pos)..old(dev.pos) + count])
    ensures NoFault(old(dev.script)) ==> NoFault(dev.script)
    ensures NoFault(old(dev.script)) && old(dev.pos) < |dev.data| ==> r == 0
  {
    hide Pwrite, NoFault;
    ghost var base, before := dev.pos, buf[..];
    var block := new byte[bsize](i => 0);
    var n := ReadBuffer(dev, block, 0, bsize, false);
    if n < 0 || n < count {
      return -1;
    }
    assert block[..] == dev.data[base..base + bsize];
    forall i | 0 <= i < count {
      buf[at + i] := block[i];
    }
    ghost var want := Pwrite(before, at, dev.data[base..base + count]);
    forall i | 0 <= i < buf.Length ensures buf[i] == want[i] {
      if at <= i < at + count {
        assert buf[at + (i - at)] == block[..][i - at];
      }
    }
    assert buf[..] == want;
    r := 0;
  }

  /** read_blockwise at the current, block-aligned position. */
  method ReadBlockwise(dev: Device, bsize: nat, buf: array<byte>, at: nat, length: nat) returns (r: int)
    requires bsize > 0 && |dev.data| % bsize == 0 && dev.pos % bsize == 0 && dev.pos <= |dev.data|
    requires at + length <= buf.Length
    modifies dev`pos, dev`script, buf
    ensures dev.pos <= |dev.data|
    ensures r == -1 || r == length
    ensures r == length ==> old(dev.pos) + length <= |dev.data|
                            && buf[..] == Pwrite(old(buf[..]), at, dev.data[old(dev.pos)..old(dev.pos) + length])
    ensures NoFault(old(dev.script)) ==> NoFault(dev.script)
    ensures NoFault(old(dev.script)) && old(dev.pos) + length <= |dev.data| ==> r == length
  {
    hide Pwrite, NoFault;
    var hangover := length % bsize;
    var solid := length - hangover;
    ghost var p, before := dev.pos, buf[..];
    SolidPart(length, bsize);
    BlockSums(p, solid, bsize);
    BlockSums(|dev.data|, p + solid, bsize);
    r := ReadBuffer(dev, buf, at, solid, false);
    if r < 0 || r != solid {
      return -1;
    }
    if hangover > 0 {
      r := ReadHangover(dev, bsize, buf, at + solid, hangover);
      if r < 0 {
        return -1;
      }
      ReadOn(before, at, dev.data, p, solid, hangover);
    }
    r := length;
  }

  /** The incomplete first block of a read. */
  method ReadFront(dev: Device, bsize: nat, buf: array<byte>, frontHang: nat, count: nat) returns (r: int)
    requires 0 < frontHang && 0 < count && frontHang + count <= bsize && count <= buf.Length
    requires dev.pos <= |dev.data| && (dev.pos < |dev.data| ==> dev.pos + bsize <= |dev.data|)
    modifies dev`pos, dev`script, buf
    ensures dev.pos <= |dev.data| && (r == -1 || r == 0)
    ensures r == 0 ==> dev.pos == old(dev.pos) + bsize
                       && buf[..count] == dev.data[old(dev.pos) + frontHang..old(dev.pos) + frontHang + count]
    ensures NoFault(old(dev.script)) ==> NoFault(dev.script)
    ensures NoFault(old(dev.script)) && old(dev.pos) < |dev.data| ==> r == 0
  {
    hide Pwrite, NoFault;
    ghost var base := dev.pos;
    var block := new byte[bsize](i => 0);
    ghost var blank := block[..];
    var n := ReadBuffer(dev, block, 0, bsize, false);
    if n < 0 || n < frontHang + count {
      return -1;
    }
    WholeBuffer(blank, dev.data[base..base + bsize]);
    forall i | 0 <= i < count {
      buf[i] := block[frontHang + i];
    }
    assert forall i :: 0 <= i < count ==> buf[..count][i] == block[..][frontHang + i];
    r := 0;
  }

  lemma ReadBoth(b: seq<byte>, before: seq<byte>, d: seq<byte>, p: nat, k: nat, n: nat)
    requires k <= n <= |before| && p + n <= |d| && before[..k] == d[p..p + k]
    requires b == Pwrite(before, k, d[p + k..p + k + (n - k)])
    ensures b[..n] == d[p..p + n]
  {
    forall i | 0 <= i < n ensures b[i] == d[p + i] {
      if i < k {
        assert before[..k][i] == d[p..p + k][i];
      }
    }
  }

  /** read_lseek_blockwise after the seek to the block that holds position `p`. */
  method ReadFrom(dev: Device, bsize: nat, buf: array<byte>, length: nat, p: nat) returns (r: int)
    requires bsize > 0 && |dev.data| % bsize == 0 && dev.pos == p - p % bsize <= |dev.data| && length <= buf.Length
    modifies dev`pos, dev`script, buf
    ensures dev.pos <= |dev.data|
    ensures r == -1 || r == length
    ensures r == length && length > 0 ==> p + length <= |dev.data| && buf[..length] == dev.data[p..p + length]
    ensures NoFault(old(dev.script)) && (length == 0 || p + length <= |dev.data|) ==> r == length
  {
    hide Pwrite, NoFault;
    var frontHang := p % bsize;
    FrontPart(p, |dev.data|, bsize);
    var innerCount := 0;
    if frontHang > 0 && length > 0 {
      innerCount := if bsize - frontHang > length then length else bsize - frontHang;
      r := ReadFront(dev, bsize, buf, frontHang, innerCount);
      if r < 0 {
        return -1;
      }
    }
    ghost var before := buf[..];
    r := ReadBlockwise(dev, bsize, buf, innerCount, length - innerCount);
    if r >= 0 {
      if length > 0 {
        ReadBoth(buf[..], before, dev.data, p, innerCount, length);
      }
      r := length;
    }
  }

  /** read_lseek_blockwise refines pread. */
  method ReadLseekBlockwise(dev: Device, bsize: nat, buf: array<byte>, length: nat, offset: int) returns (r: int)
    requires bsize > 0 && |dev.data| % bsize == 0 && dev.pos <= |dev.data| && length <= buf.Length
    modifies dev`pos, dev`script, buf
    ensures dev.pos <= |dev.data|
    ensures r == -1 || r == length
    ensures r == length ==> Serves(|dev.data|, bsize, length, offset)
    ensures r == length && length > 0 ==>
              var p := Position(|dev.data|, offset); buf[..length] == dev.data[p..p + length]
    ensures NoFault(old(dev.script)) && Serves(|dev.data|, bsize, length, offset) ==> r == length
  {
    var p := if offset < 0 then |dev.data| + offset else offset;
    if p < 0 {
      return -1;
    }
    FrontPart(p, |dev.data|, bsize);
    var ok := dev.Lseek(p - p % bsize);
    if !ok {
      return -1;
    }
    r := ReadFrom(dev, bsize, buf, length, p);
  }

  /** The bytes of a range after `src` was written at `p`. */
  ghost predicate ReadsBack(b: seq<byte>, d: seq<byte>, p: int, src: seq<byte>, q: int) {
    forall i :: 0 <= i < |b| && 0 <= q + i < |d| ==>
      b[i] == if p <= q + i < p + |src| then src[q + i - p] else d[q + i]
  }

  /** A write and then a read of any range on the same device, both through whole blocks. What was written is
      read back, and everything else is read as it was. */
  method WriteThenRead(dev: Device, bsize: nat, src: seq<byte>, offset: int, buf: array<byte>, length: nat, from: int)
    returns (written: int, read: int)
    requires bsize > 0 && |dev.data| % bsize == 0 && dev.pos <= |dev.data| && length <= buf.Length
    modifies dev, buf
    ensures written == |src| && read == length ==>
              && Serves(|dev.data|, bsize, |src|, offset) && Serves(|dev.data|, bsize, length, from)
              && ReadsBack(buf[..length], old(dev.data), Position(|dev.data|, offset), src, Position(|dev.data|, from))
              && (from == offset && length == |src| ==> buf[..length] == src)
    ensures NoFault(old(dev.script)) && Serves(|old(dev.data)|, bsize, |src|, offset) ==>
              written == |src| && (Serves(|old(dev.data)|, bsize, length, from) ==> read == length)
  {
    hide NoFault, Serves, ReadsBack, Pwrite, Position, PartlyWritten;
    read := -1;
    written := WriteLseekBlockwise(dev, bsize, src, offset);
    if written < 0 {
      return;
    }
    ghost var d := dev.data;
    read := ReadLseekBlockwise(dev, bsize, buf, length, from);
    if read >= 0 {
      if src == [] {
        NothingWritten(d, old(dev.data), Position(|d|, offset));
        assert d == old(dev.data);
      }
      ReadRange(old(dev.data), d, bsize, src, offset, buf[..length], from);
    }
  }

  lemma NothingWritten(d': seq<byte>, d: seq<byte>, p: int)
    ensures p >= 0 && PartlyWritten(d', d, p, []) ==> d' == d
  {
  }

  lemma ReadRange(d0: seq<byte>, d: seq<byte>, bsize: nat, src: seq<byte>, offset: int, b: seq<byte>, from: int)
    requires bsize > 0 && |d| == |d0| && Serves(|d|, bsize, |src|, offset) && Serves(|d|, bsize, |b|, from)
    requires if src == [] then d == d0 else d == Pwrite(d0, Position(|d|, offset), src)
    requires b != [] ==> b == d[Position(|d|, from)..Position(|d|, from) + |b|]
    ensures ReadsBack(b, d0, Position(|d|, offset), src, Position(|d|, from))
    ensures from == offset && |b| == |src| ==> b == src
  {
    var q := Position(|d|, from);
    assert forall i :: 0 <= i < |b| ==> b[i] == d[q + i];
  }
}
