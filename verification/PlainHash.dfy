/** The key of a plain device, made from a passphrase. */
module PlainHash {
  import opened Bytes
  import opened CStrings

  const PLAIN_HASH_LEN_MAX := 256

  /** A hash algorithm. */
  datatype Hash = Hash(size: nat, digest: seq<byte> -> seq<byte>)
  {
    ghost predicate Valid() {
      size > 0 && forall data: seq<byte> :: |digest(data)| == size
    }
  }

  const LETTER_A: byte := 65

  /** What is hashed in a round: as many letters as there were rounds before, and the passphrase. */
  function Salted(round: nat, passphrase: seq<byte>): seq<byte> {
    seq(round, _ => LETTER_A) + passphrase
  }

  /** Digest after digest, from a round on, up to a number of bytes. */
  ghost function KeyFrom(h: Hash, passphrase: seq<byte>, round: nat, n: nat): (key: seq<byte>)
    requires h.Valid()
    ensures |key| == n
    decreases n
  {
    var d := h.digest(Salted(round, passphrase));
    if n <= |d| then d[..n] else d + KeyFrom(h, passphrase, round + 1, n - |d|)
  }

  /** Byte i of the unbounded concatenation of the digests. */
  ghost function StreamByte(h: Hash, passphrase: seq<byte>, i: nat): byte
    requires h.Valid()
  {
    h.digest(Salted(i / h.size, passphrase))[i % h.size]
  }

  lemma NextBlock(i: nat, size: nat)
    requires 0 < size <= i
    ensures (i - size) / size + 1 == i / size && (i - size) % size == i % size
  {
    var q, r := i / size, i % size;
    assert i - size == (q - 1) * size + r;
    QuotientIs(i - size, size, q - 1, r);
  }

  /** A key is cut out of that concatenation, wherever it starts. */
  lemma {:induction false} KeyIsStream(h: Hash, passphrase: seq<byte>, round: nat, n: nat, i: nat)
    requires h.Valid() && i < n
    ensures KeyFrom(h, passphrase, round, n)[i]
         == h.digest(Salted(round + i / h.size, passphrase))[i % h.size]
    decreases n
  {
    var d := h.digest(Salted(round, passphrase));
    if i >= h.size {
      assert KeyFrom(h, passphrase, round, n)[i] == KeyFrom(h, passphrase, round + 1, n - |d|)[i - |d|];
      KeyIsStream(h, passphrase, round + 1, n - h.size, i - h.size);
      NextBlock(i, h.size);
    } else {
      QuotientIs(i, h.size, 0, i);
      assert round + i / h.size == round && KeyFrom(h, passphrase, round, n)[i] == d[i];
    }
  }

  /** A shorter key is a prefix of a longer one. */
  lemma ShorterIsPrefix(h: Hash, passphrase: seq<byte>, m: nat, n: nat)
    requires h.Valid() && m <= n
    ensures KeyFrom(h, passphrase, 0, m) <= KeyFrom(h, passphrase, 0, n)
    ensures forall i: nat :: i < n ==> KeyFrom(h, passphrase, 0, n)[i] == StreamByte(h, passphrase, i)
  {
    forall i: nat | i < n
      ensures KeyFrom(h, passphrase, 0, n)[i] == StreamByte(h, passphrase, i)
      ensures i < m ==> KeyFrom(h, passphrase, 0, m)[i] == StreamByte(h, passphrase, i)
    {
      KeyIsStream(h, passphrase, 0, n, i);
      if i < m {
        KeyIsStream(h, passphrase, 0, m, i);
      }
    }
  }

  /** Byte i comes from the digest of i / size letters A and the passphrase. */
  lemma KeyByte(h: Hash, passphrase: seq<byte>, n: nat, i: nat)
    requires h.Valid() && i < n
    ensures |h.digest(seq(i / h.size, _ => 65) + passphrase)| == h.size
    ensures KeyFrom(h, passphrase, 0, n)[i] == h.digest(seq(i / h.size, _ => 65) + passphrase)[i % h.size]
  {
    hide KeyFrom;
    KeyIsStream(h, passphrase, 0, n, i);
    assert Salted(i / h.size, passphrase) == seq(i / h.size, _ => 65) + passphrase;
  }

  /** What the first digest can fill is the beginning of the digest of the passphrase alone. */
  lemma ShortKey(h: Hash, passphrase: seq<byte>, n: nat)
    requires h.Valid() && n <= h.size
    ensures KeyFrom(h, passphrase, 0, n) == h.digest(passphrase)[..n]
  {
    assert Salted(0, passphrase) == passphrase;
  }

  /** The beginning of the stream of digests, byte by byte. */
  ghost predicate FromDigests(h: Hash, passphrase: seq<byte>, start: seq<byte>)
    requires h.Valid()
  {
    forall i: nat :: i < |start| ==> start[i] == h.digest(seq(i / h.size, _ => 65) + passphrase)[i % h.size]
  }

  lemma KeyIsFromDigests(h: Hash, passphrase: seq<byte>, start: seq<byte>)
    requires h.Valid()
    ensures start == KeyFrom(h, passphrase, 0, |start|) <==> FromDigests(h, passphrase, start)
  {
    hide KeyFrom;
    forall i: nat | i < |start|
      ensures KeyFrom(h, passphrase, 0, |start|)[i] == h.digest(seq(i / h.size, _ => 65) + passphrase)[i % h.size]
    {
      KeyByte(h, passphrase, |start|, i);
    }
  }

  lemma KeyStep(h: Hash, passphrase: seq<byte>, round: nat, left: nat, len: nat)
    requires h.Valid() && len == Min(h.size, left)
    ensures KeyFrom(h, passphrase, round, left)
         == h.digest(Salted(round, passphrase))[..len] + KeyFrom(h, passphrase, round + 1, left - len)
  {
  }

  /** Writing to a hash context: with `mayFail` it may fail and leave anything there. */
  method HashWrite(md: seq<byte>, data: seq<byte>, mayFail: bool) returns (md': seq<byte>, failed: bool)
    ensures !failed ==> md' == md + data
    ensures failed ==> mayFail
  {
    failed := *;
    failed := failed && mayFail;
    if failed {
      md' := *;
    } else {
      md' := md + data;
    }
  }

  /** The input of one round. */
  method HashInput(round: nat, passphrase: seq<byte>, mayFail: bool) returns (md: seq<byte>, r: int)
    ensures r == 0 || (r == 1 && mayFail)
    ensures r == 0 ==> md == Salted(round, passphrase)
  {
    md, r := [], 0;
    var failed;
    for i := 0 to round
      invariant r == 0 || (r == 1 && mayFail)
      invariant r == 0 ==> md == Salted(i, [])
    {
      md, failed := HashWrite(md, [LETTER_A], mayFail);
      if failed {
        r := 1;
      }
    }
    md, failed := HashWrite(md, passphrase, mayFail);
    if failed {
      r := 1;
    }
  }

  /** The output of one round, which may fail before it is written. */
  method HashFinal(h: Hash, md: seq<byte>, key: array<byte>, at: nat, len: nat, mayFail: bool) returns (failed: bool)
    requires h.Valid() && len <= h.size && at + len <= key.Length
    modifies key
    ensures failed ==> mayFail
    ensures !failed ==> key[..at + len] == old(key[..at]) + h.digest(md)[..len]
    ensures forall i :: at + len <= i < key.Length ==> key[i] == old(key[i])
  {
    failed := *;
    failed := failed && mayFail;
    var digest := h.digest(md);
    if !failed {
      forall i | at <= i < at + len {
        key[i] := digest[i - at];
      }
    }
  }

  /** The rounds of hashing that fill the first bytes of a key buffer. */
  method HashRounds(h: Hash, key: array<byte>, keySize: nat, passphrase: seq<byte>, mayFail: bool) returns (r: int)
    requires h.Valid() && keySize <= key.Length
    modifies key
    ensures r == 0 || (r == 1 && mayFail)
    ensures r == 0 ==> key[..keySize] == KeyFrom(h, passphrase, 0, keySize)
    ensures forall i :: keySize <= i < key.Length ==> key[i] == old(key[i])
  {
    hide KeyFrom, Salted;
    r := 0;
    var len := h.size;
    var left: nat := keySize;
    var round := 0;
    while left > 0 && r == 0
      invariant 0 <= left <= keySize && (r == 0 || (r == 1 && mayFail))
      invariant left > 0 ==> len == h.size
      invariant r == 0 ==> key[..keySize - left] + KeyFrom(h, passphrase, round, left) == KeyFrom(h, passphrase, 0, keySize)
      invariant forall i :: keySize <= i < key.Length ==> key[i] == old(key[i])
      decreases left
    {
      var md;
      md, r := HashInput(round, passphrase, mayFail);
      if len > left {
        len := left;
      }
      ghost var done := key[..keySize - left];
      var failed := HashFinal(h, md, key, keySize - left, len, mayFail);
      if failed {
        r := 1;
      }
      if r == 0 {
        KeyStep(h, passphrase, round, left, len);
        Regroup(done, h.digest(md)[..len], KeyFrom(h, passphrase, round + 1, left - len));
      }
      left := left - len;
      round := round + 1;
    }
  }

  lemma Regroup(a: seq<byte>, b: seq<byte>, c: seq<byte>)
    ensures a + (b + c) == (a + b) + c
  {
  }

  // The hash name

  /** The conversion %zd into a size: negative numbers wrap around. */
  function ScanSize(s: string): Option<nat> {
    var t := SkipBlanks(s);
    var u := Unsigned(t);
    var n := Run(u, Digits);
    if n == 0 then None else Some(Saturated(t[0] == '-', Value(u[..n])) % U64)
  }

  /** "hash" or "hash:length": the algorithm and how much of the key comes from it. */
  function Form(hashName: string, keySize: nat): Option<(string, nat)> {
    if |hashName| >= PLAIN_HASH_LEN_MAX then None else
    var n := Run(hashName, Not(':'));
    if n == |hashName| then Some((hashName, keySize)) else
    match ScanSize(hashName[n + 1..])
    case None => None
    case Some(size) => if size > keySize then None else Some((hashName[..n], size))
  }

  /** A name without a colon stands for itself, one with a length for the algorithm and the length, if that is
      no more than the key; 256 characters are too many. */
  lemma FormIs(name: string, len: nat, keySize: nat)
    requires ':' !in name && len < 0x8000_0000_0000_0000
    ensures Form(name, keySize) == if |name| < 256 then Some((name, keySize)) else None
    ensures Form(name + ":" + Dec(len), keySize)
         == if |name + ":" + Dec(len)| < 256 && len <= keySize then Some((name, len)) else None
  {
    hide ScanSize, Dec;
    var hashName := name + ":" + Dec(len);
    assert hashName == name + (":" + Dec(len));
    RunIs(name, ":" + Dec(len), Not(':'));
    assert hashName[|name| + 1..] == Dec(len) && hashName[..|name|] == name;
    ScanSizeDec(len);
    RunIs(name, "", Not(':'));
    assert name + "" == name;
  }

  function Padded(key: seq<byte>, n: nat): (r: seq<byte>)
    requires |key| <= n
    ensures |r| == n && r[..|key|] == key && forall i :: |key| <= i < n ==> r[i] == 0
  {
    key + seq(n - |key|, _ => 0)
  }

  /** The key that a passphrase stands for, or the error. */
  ghost function PlainKey(hashes: map<string, Hash>, hashName: string, keySize: nat, passphrase: seq<byte>)
    : (r: (Option<seq<byte>>, int))
    requires forall name :: name in hashes ==> hashes[name].Valid()
    ensures r.0.Some? ==> |r.0.value| == keySize && r.1 == 0
    ensures r.0.None? ==> r.1 < 0
  {
    match Form(hashName, keySize)
    case None => (None, -EINVAL)
    case Some((name, size)) =>
      if name == "plain" then
        if |passphrase| < size then (None, -EINVAL) else (Some(Padded(passphrase[..size], keySize)), 0)
      else if name !in hashes then (None, -ENOENT)
      else (Some(Padded(KeyFrom(hashes[name], passphrase, 0, size), keySize)), 0)
  }

  /** What a key made from a passphrase holds: the passphrase itself, or byte after byte of the digests of the
      passphrase behind more and more letters A; and zeros behind the length that the hash name asks for. */
  ghost predicate HashedKey(hashes: map<string, Hash>, hashName: string, passphrase: seq<byte>, key: seq<byte>)
    requires forall name :: name in hashes ==> hashes[name].Valid()
  {
    Form(hashName, |key|).Some? &&
    var (name, len) := Form(hashName, |key|).value;
    && len <= |key| && (forall i :: len <= i < |key| ==> key[i] == 0)
    && if name == "plain" then len <= |passphrase| && forall i :: 0 <= i < len ==> key[i] == passphrase[i]
       else name in hashes && FromDigests(hashes[name], passphrase, key[..len])
  }

  /** Every key that a passphrase stands for is such a key, and no other key of its length is. */
  lemma PlainKeyIs(hashes: map<string, Hash>, hashName: string, passphrase: seq<byte>, key: seq<byte>)
    requires forall name :: name in hashes ==> hashes[name].Valid()
    ensures PlainKey(hashes, hashName, |key|, passphrase).0 == Some(key)
       <==> HashedKey(hashes, hashName, passphrase, key)
  {
    hide Form, KeyFrom, FromDigests;
    match Form(hashName, |key|)
    case None =>
    case Some((name, len)) =>
      FormLength(hashName, |key|);
      if name == "plain" {
        if len <= |passphrase| {
          PaddedIs(passphrase[..len], key);
        }
      } else if name in hashes {
        KeyIsFromDigests(hashes[name], passphrase, key[..len]);
        PaddedIs(KeyFrom(hashes[name], passphrase, 0, len), key);
      }
  }

  /** Which error is returned when: a bad name, a passphrase that is too short to be used plain, an algorithm that
      the library does not have. */
  lemma PlainKeyError(hashes: map<string, Hash>, hashName: string, keySize: nat, passphrase: seq<byte>)
    requires forall name :: name in hashes ==> hashes[name].Valid()
    ensures PlainKey(hashes, hashName, keySize, passphrase).1
         == if Form(hashName, keySize).None? then -22 else
            var (name, len) := Form(hashName, keySize).value;
            if name == "plain" && |passphrase| < len then -22 else if name != "plain" && name !in hashes then -2 else 0
  {
    hide Form, KeyFrom;
  }

  lemma FormLength(hashName: string, keySize: nat)
    ensures Form(hashName, keySize).Some? ==> Form(hashName, keySize).value.1 <= keySize
  {
  }

  lemma PaddedIs(start: seq<byte>, key: seq<byte>)
    requires |start| <= |key|
    ensures Padded(start, |key|) == key
       <==> (forall i :: 0 <= i < |start| ==> key[i] == start[i]) && forall i :: |start| <= i < |key| ==> key[i] == 0
  {
    var padded := Padded(start, |key|);
    assert forall i :: 0 <= i < |start| ==> padded[i] == start[i];
  }

  /** crypt_plain_hash over the algorithms that the library has. A result of 1 is a failure inside the hash. */
  method CryptPlainHash(hashes: map<string, Hash>, hashName: string, key: array<byte>, passphrase: seq<byte>,
                        mayFail: bool)
    returns (r: int)
    requires forall name :: name in hashes ==> hashes[name].Valid()
    modifies key
    ensures (r == 1 && mayFail) || r == PlainKey(hashes, hashName, key.Length, passphrase).1
    ensures r == 0 ==> PlainKey(hashes, hashName, key.Length, passphrase).0 == Some(key[..])
    ensures r == 1 ==> PlainKey(hashes, hashName, key.Length, passphrase).0.Some?
    ensures r < 0 ==> key[..] == old(key[..])
    ensures r == 0 ==> HashedKey(hashes, hashName, passphrase, key[..])
  {
    hide ScanSize, Run;
    if |hashName| >= PLAIN_HASH_LEN_MAX {
      return -EINVAL;
    }
    var keySize := key.Length;
    var name, hashSize := hashName, keySize;
    var n := Run(hashName, Not(':'));
    if n < |hashName| {
      name := hashName[..n];
      var s := hashName[n + 1..];
      if s == "" || ScanSize(s).None? {
        assert s == "" ==> ScanSize(s).None? by {
          NoSize();
        }
        return -EINVAL;
      }
      hashSize := ScanSize(s).value;
      if hashSize > keySize {
        return -EINVAL;
      }
    }
    assert Form(hashName, keySize) == Some((name, hashSize));
    if name == "plain" {
      if |passphrase| < hashSize {
        return -EINVAL;
      }
      forall i | 0 <= i < hashSize {
        key[i] := passphrase[i];
      }
      assert key[..hashSize] == passphrase[..hashSize];
      r := 0;
    } else if name !in hashes {
      return -ENOENT;
    } else {
      r := HashRounds(hashes[name], key, hashSize, passphrase, mayFail);
    }
    if r == 0 {
      ghost var done := key[..hashSize];
      forall i | hashSize <= i < keySize {
        key[i] := 0;
      }
      assert key[..] == Padded(done, keySize);
      PlainKeyIs(hashes, hashName, passphrase, key[..]);
    }
  }

  lemma NoSize()
    ensures ScanSize("").None?
  {
  }

  lemma SmallSize(n: nat)
    requires n < 0x8000_0000_0000_0000
    ensures Saturated(false, n) % U64 == n
  {
  }

  lemma ScanSizeDec(n: nat)
    requires n < 0x8000_0000_0000_0000
    ensures ScanSize(Dec(n)) == Some(n)
  {
    hide Dec, Value, Run, Saturated, SkipBlanks;
    SmallSize(n);
    var t := Dec(n);
    assert In(t[0], Digits) && t + "" == t;
    NothingToSkip(t);
    RunIs(t, "", Digits);
    DecValue(n);
  }

  /** The form with a length stands for the key of that length followed by zeros. */
  lemma LengthForm(hashes: map<string, Hash>, name: string, len: nat, keySize: nat, passphrase: seq<byte>)
    requires forall name :: name in hashes ==> hashes[name].Valid()
    requires ':' !in name && len <= keySize && len < 0x8000_0000_0000_0000
    requires |name + ":" + Dec(len)| < PLAIN_HASH_LEN_MAX
    ensures PlainKey(hashes, name + ":" + Dec(len), keySize, passphrase)
         == var r := PlainKey(hashes, name, len, passphrase);
            if r.0.Some? then (Some(Padded(r.0.value, keySize)), 0) else r
  {
    hide Form, Dec;
    FormIs(name, len, keySize);
    FormIs(name, len, len);
    if name == "plain" && |passphrase| >= len {
      PaddedInFull(passphrase[..len]);
    } else if name in hashes {
      PaddedInFull(KeyFrom(hashes[name], passphrase, 0, len));
    }
  }

  lemma PaddedInFull(key: seq<byte>)
    ensures Padded(key, |key|) == key
  {
  }

  /** Without a length, a shorter key is a prefix of a longer one whatever the algorithm. */
  lemma PlainKeyPrefix(hashes: map<string, Hash>, name: string, m: nat, n: nat, passphrase: seq<byte>)
    requires forall name :: name in hashes ==> hashes[name].Valid()
    requires ':' !in name && m <= n
    ensures PlainKey(hashes, name, n, passphrase).0.Some? ==>
      var short := PlainKey(hashes, name, m, passphrase).0;
      short.Some? && short.value <= PlainKey(hashes, name, n, passphrase).0.value
  {
    RunIs(name, "", Not(':'));
    assert name + "" == name;
    if name in hashes {
      ShorterIsPrefix(hashes[name], passphrase, m, n);
    }
  }
}
