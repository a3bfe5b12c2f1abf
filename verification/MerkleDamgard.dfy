// The construction that MD5, MD4 and SHA-1 share: a message is padded to whole blocks of 64 bytes,
// which are fed one after the other to a compression function. The function itself is a parameter.
module MerkleDamgard {
  import Bits

  type Byte = b: nat | b < 256

  const BLOCK: nat := 64
  const WORD: nat := 0x1_0000_0000

  type Compress<!S> = (S, seq<Byte>) -> S

  // Feeding the whole blocks of m.
  function Absorb<S>(f: Compress<S>, s: S, m: seq<Byte>): S
    decreases |m|
  {
    if |m| < BLOCK then s else Absorb(f, f(s, m[..BLOCK]), m[BLOCK..])
  }

  // n % BLOCK, by repeated subtraction
  function Left(n: nat): (r: nat)
    ensures r < BLOCK
  {
    if n < BLOCK then n else Left(n - BLOCK)
  }

  // The bytes of m that do not fill a block.
  function Tail(m: seq<Byte>): (t: seq<Byte>)
    ensures |t| == Left(|m|)
    decreases |m|
  {
    if |m| < BLOCK then m else Tail(m[BLOCK..])
  }

  // How many zero bytes stand between the byte 0x80 and the eight bytes of the length.
  function Zeros(n: nat): nat {
    if Left(n) < 56 then 55 - Left(n) else 119 - Left(n)
  }

  function Padding(n: nat): seq<Byte> {
    [0x80] + seq(Zeros(n), _ => 0)
  }

  function Padded(m: seq<Byte>, length: seq<Byte>): seq<Byte>
    requires |length| == 8
  {
    m + Padding(|m|) + length
  }

  function Digest<S>(f: Compress<S>, iv: S, m: seq<Byte>, length: seq<Byte>): S
    requires |length| == 8
  {
    Absorb(f, iv, Padded(m, length))
  }

  // The n lowest bytes of v, lowest first.
  function LittleEndian(v: nat, n: nat): (r: seq<Byte>)
    ensures |r| == n
  {
    if n == 0 then [] else [v % 256] + LittleEndian(v / 256, n - 1)
  }

  function Reversed<T>(s: seq<T>): (r: seq<T>)
    ensures |r| == |s|
  {
    if s == [] then [] else Reversed(s[1..]) + [s[0]]
  }

  function BigEndian(v: nat, n: nat): (r: seq<Byte>)
    ensures |r| == n
  {
    Reversed(LittleEndian(v, n))
  }

  function Flatten(chunks: seq<seq<Byte>>): seq<Byte> {
    if chunks == [] then [] else Flatten(chunks[..|chunks| - 1]) + chunks[|chunks| - 1]
  }

  // ---------- feeding a message in pieces ----------

  lemma {:induction false} LeftIsRemainder(n: nat)
    ensures Left(n) == n % BLOCK
  {
    if n < BLOCK {
    } else {
      LeftIsRemainder(n - BLOCK);
    }
  }

  lemma {:induction false} LeftAdd(n: nat, k: nat)
    ensures Left(n + k) == Left(Left(n) + k)
  {
    if n < BLOCK {
    } else {
      LeftAdd(n - BLOCK, k);
    }
  }

  // More input: what was left over comes first.
  lemma {:induction false} AbsorbMore<S>(f: Compress<S>, s: S, m: seq<Byte>, d: seq<Byte>)
    ensures Absorb(f, s, m + d) == Absorb(f, Absorb(f, s, m), Tail(m) + d)
    ensures Tail(m + d) == Tail(Tail(m) + d)
    decreases |m|
  {
    if |m| < BLOCK {
    } else {
      assert (m + d)[..BLOCK] == m[..BLOCK] && (m + d)[BLOCK..] == m[BLOCK..] + d;
      AbsorbMore(f, f(s, m[..BLOCK]), m[BLOCK..], d);
    }
  }

  lemma AbsorbOne<S>(f: Compress<S>, s: S, m: seq<Byte>)
    requires |m| == BLOCK
    ensures Absorb(f, s, m) == f(s, m) && Tail(m) == []
  {
    assert m[..BLOCK] == m && m[BLOCK..] == [];
  }

  // The padded message ends on a block boundary, in as few blocks as hold it.
  lemma PaddedWhole(m: seq<Byte>, length: seq<Byte>)
    requires |length| == 8
    ensures Left(|m| + |Padding(|m|)|) == 56
    ensures Left(|Padded(m, length)|) == 0
    ensures Zeros(|m|) < BLOCK
  {
    var n := |m|;
    LeftAdd(n, 1 + Zeros(n));
    LeftAdd(n + 1 + Zeros(n), 8);
  }

  // The padded message place by place: the message, 0x80, nothing but zero bytes, and the length in the
  // last eight bytes, in whole blocks of 64 bytes of which the last ones cannot be left out.
  lemma PaddedAt(m: seq<Byte>, length: seq<Byte>, i: nat)
    requires |length| == 8
    ensures var p := Padded(m, length);
      && |p| % 64 == 0 && |m| + 9 <= |p| < |m| + 9 + 64
      && (i < |p| ==>
            p[i] == if i < |m| then m[i] else if i == |m| then 0x80 else if i < |p| - 8 then 0 else length[i - (|p| - 8)])
  {
    PaddedWhole(m, length);
    LeftIsRemainder(|Padded(m, length)|);
  }

  // Feeding one more block of 64 bytes after whole blocks is one more call of the compression function.
  lemma AbsorbBlock<S>(f: Compress<S>, s: S, m: seq<Byte>, b: seq<Byte>)
    requires |m| % 64 == 0 && |b| == 64
    ensures Absorb(f, s, m + b) == f(Absorb(f, s, m), b) && Absorb(f, s, []) == s
  {
    LeftIsRemainder(|m|);
    AbsorbMore(f, s, m, b);
    assert Tail(m) + b == b;
    AbsorbOne(f, Absorb(f, s, m), b);
  }

  // ---------- the bit count in two words ----------

  // A 64-bit count in two 32-bit words, low word first.
  datatype Count = Count(low: nat, high: nat)

  predicate IsCount(c: Count) {
    c.low < WORD && c.high < WORD
  }

  function Value(c: Count): nat {
    c.high * WORD + c.low
  }

  // The count of n bytes.
  function CountOf(n: nat): Count {
    Count(8 * n % WORD, 8 * n / WORD % WORD)
  }

  // What MD5 and MD4 make of the count: the new low word is compared with the number of bytes,
  // which is first cut to 32 bits.
  function Md5Count(c: Count, n: nat): Count {
    var bytes := n % WORD;
    var low := (c.low + bytes * 8 % WORD) % WORD;
    Count(low, (c.high + (if low < bytes then 1 else 0) + bytes / 0x2000_0000) % WORD)
  }

  // What SHA-1 makes of it: the new low word is compared with the number of bits.
  function Sha1Count(c: Count, n: nat): Count {
    var low := (c.low + n * 8) % WORD;
    Count(low, (c.high + (if low < n * 8 then 1 else 0) + n / 0x2000_0000) % WORD)
  }

  // Whether adding the bits of n bytes carries into the high word.
  predicate Carries(c: Count, n: nat) {
    c.low + 8 * n % WORD >= WORD
  }

  // Quotient and remainder by 2^32 are the only ones with x == q * 2^32 + r.
  lemma Split(x: nat, q: nat, r: nat)
    requires x == q * WORD + r && r < WORD
    ensures x / WORD == q && x % WORD == r
  {
    Bits.DivModUnique(x, WORD, q, r);
  }

  // Adding the bits of n bytes: the low words add up, and a carry goes into the high word.
  lemma AddBits(c: Count, n: nat) returns (q: nat, x: nat, low: nat)
    requires IsCount(c)
    ensures 8 * n == q * WORD + x && x < WORD && x == 8 * n % WORD && q == 8 * n / WORD
    ensures low == (c.low + 8 * n) % WORD && low == (c.low + x) % WORD
    ensures low == if Carries(c, n) then c.low + x - WORD else c.low + x
    ensures Value(c) + 8 * n == (c.high + q + if Carries(c, n) then 1 else 0) * WORD + low
  {
    q, x := 8 * n / WORD, 8 * n % WORD;
    var k := if Carries(c, n) then 1 else 0;
    low := c.low + x - k * WORD;
    Split(c.low + 8 * n, q + k, low);
    Split(c.low + x, k, low);
  }

  // Two counts are equal modulo 2^64 exactly when their words are.
  lemma SameCount(high: nat, low: nat, c: Count)
    requires IsCount(c) && low == c.low
    ensures Value(c) == (high * WORD + low) % (WORD * WORD) <==> high % WORD == c.high
  {
    var q, r := high / WORD, high % WORD;
    assert high * WORD + low == q * (WORD * WORD) + (r * WORD + low);
    Bits.DivModUnique(high * WORD + low, WORD * WORD, q, r * WORD + low);
  }

  // Adding 0 or 1 gives different remainders.
  lemma PlusOne(h: nat)
    ensures h % WORD != (h + 1) % WORD
  {
  }

  // The low word is always right. The high word of MD5 and MD4 is right exactly when the
  // comparison sees a carry if and only if there is one.
  lemma Md5CountIff(c: Count, n: nat)
    requires IsCount(c) && n < WORD
    ensures IsCount(Md5Count(c, n)) && Md5Count(c, n).low == (c.low + 8 * n) % WORD
    ensures Value(Md5Count(c, n)) == (Value(c) + 8 * n) % (WORD * WORD)
      <==> (Carries(c, n) <==> (c.low + 8 * n) % WORD < n)
  {
    var q, x, low := AddBits(c, n);
    Split(n, 0, n);
    Eighth(n, q, x);
    var h := c.high + q;
    SameCount(h + if Carries(c, n) then 1 else 0, low, Md5Count(c, n));
    PlusOne(h);
  }

  // n >> 29 is the high word of the number of bits.
  lemma Eighth(n: nat, q: nat, x: nat)
    requires 8 * n == q * WORD + x && x < WORD
    ensures n / 0x2000_0000 == q
  {
    Bits.DivModUnique(n, 0x2000_0000, q, n - q * 0x2000_0000);
  }

  // For chunks below 2^29 bytes: no carry is lost as long as seven bits a byte still fit.
  lemma Md5CountSmall(c: Count, n: nat)
    requires IsCount(c) && n < 0x2000_0000
    ensures Value(Md5Count(c, n)) == (Value(c) + 8 * n) % (WORD * WORD)
      <==> c.low + 7 * n < WORD
  {
    Md5CountIff(c, n);
    var q, x, low := AddBits(c, n);
    Split(8 * n, 0, 8 * n);
  }

  // One byte short of 2^29, and then two more: the carry is lost.
  lemma CarryLost()
    ensures var c := Md5Count(Count(0, 0), 0x1fff_ffff);
      c == CountOf(0x1fff_ffff) && Md5Count(c, 2) == Count(8, 0) != CountOf(0x2000_0001) == Count(8, 1)
  {
  }

  // SHA-1 counts right exactly when the chunk is below 2^29 bytes, or really carries.
  lemma Sha1CountIff(c: Count, n: nat)
    requires IsCount(c)
    ensures IsCount(Sha1Count(c, n)) && Sha1Count(c, n).low == (c.low + 8 * n) % WORD
    ensures Value(Sha1Count(c, n)) == (Value(c) + 8 * n) % (WORD * WORD) <==> n < 0x2000_0000 || Carries(c, n)
  {
    var q, x, low := AddBits(c, n);
    Eighth(n, q, x);
    var h := c.high + q;
    SameCount(h + if Carries(c, n) then 1 else 0, low, Sha1Count(c, n));
    PlusOne(h);
  }

  // (count[0] >> 3) & 63 is the number of bytes left over.
  lemma HaveIsLeft(n: nat, low: nat)
    requires low == 8 * n % WORD
    ensures low / 8 % BLOCK == Left(n)
  {
    var q := 8 * n / WORD;
    assert 8 * n == q * WORD + low;
    var k := q * 0x80_0000;
    assert low / 8 == n - k * BLOCK;
    LeftIsRemainder(n);
    var a, b := n / BLOCK, n % BLOCK;
    Bits.DivModUnique(n - k * BLOCK, BLOCK, a - k, b);
  }

  // Step by step in 32-bit words; the low word stays the number of bits modulo 2^32.
  lemma Md5CountLow(c: Count, n: nat, k: nat)
    requires IsCount(c) && c.low == 8 * n % WORD
    ensures IsCount(Md5Count(c, k)) && Md5Count(c, k).low == 8 * (n + k) % WORD
  {
    var b := k % WORD;
    ModAdd(8 * b, c.low, WORD);
    ModAdd(8 * n, 8 * b, WORD);
    EightTimes(n, k);
  }

  lemma EightTimes(n: nat, k: nat)
    ensures (8 * n + 8 * (k % WORD)) % WORD == 8 * (n + k) % WORD
  {
    var q, r, b := (8 * n + 8 * (k % WORD)) / WORD, (8 * n + 8 * (k % WORD)) % WORD, k / WORD;
    assert k == b * WORD + k % WORD;
    Split(8 * (n + k), q + 8 * b, r);
  }

  lemma Sha1CountLow(c: Count, n: nat, k: nat)
    requires IsCount(c) && c.low == 8 * n % WORD
    ensures IsCount(Sha1Count(c, k)) && Sha1Count(c, k).low == 8 * (n + k) % WORD
  {
    ModAdd(8 * n, 8 * k, WORD);
  }

  // ---------- the length field ----------

  function Pow256(k: nat): nat {
    if k == 0 then 1 else 256 * Pow256(k - 1)
  }

  lemma {:induction false} LittleEndianConcat(low: nat, high: nat, k: nat, n: nat)
    requires low < Pow256(k)
    ensures LittleEndian(low + high * Pow256(k), k + n) == LittleEndian(low, k) + LittleEndian(high, n)
    decreases k
  {
    if k == 0 {
    } else {
      var h := high * Pow256(k - 1);
      assert high * Pow256(k) == 256 * h;
      LittleEndianConcat(low / 256, high, k - 1, n);
      LowByte(low, h, k + n);
    }
  }

  lemma LowByte(low: nat, h: nat, n: nat)
    requires n > 0
    ensures LittleEndian(low + 256 * h, n) == [low % 256] + LittleEndian(low / 256 + h, n - 1)
  {
    Bits.DivModUnique(low + 256 * h, 256, low / 256 + h, low % 256);
  }

  lemma {:induction false} ReversedConcat<T>(a: seq<T>, b: seq<T>)
    ensures Reversed(a + b) == Reversed(b) + Reversed(a)
  {
    if a == [] {
      assert a + b == b;
    } else {
      assert (a + b)[1..] == a[1..] + b;
      ReversedConcat(a[1..], b);
    }
  }

  // Byte i of a number, counted from the lowest or from the highest.
  lemma {:induction false} LittleEndianAt(v: nat, n: nat, i: nat)
    requires i < n
    ensures Pow256(i) > 0 && LittleEndian(v, n)[i] == v / Pow256(i) % 256
    decreases i
  {
    if i == 0 {
      Bits.DivModUnique(v, 1, v, 0);
    } else {
      LittleEndianAt(v / 256, n - 1, i - 1);
      DivTwice(v, Pow256(i - 1));
    }
  }

  lemma DivTwice(v: nat, m: nat)
    requires m > 0
    ensures 256 * m > 0 && v / 256 / m == v / (256 * m)
  {
    var q, r := v / 256, v % 256;
    var a, b := q / m, q % m;
    assert v == a * (256 * m) + (256 * b + r);
    Bits.DivModUnique(v, 256 * m, a, 256 * b + r);
  }

  lemma {:induction false} ReversedAt<T>(s: seq<T>, i: nat)
    requires i < |s|
    ensures Reversed(s)[i] == s[|s| - 1 - i]
  {
    if i < |s| - 1 {
      ReversedAt(s[1..], i);
    }
  }

  lemma BigEndianAt(v: nat, n: nat, i: nat)
    requires i < n
    ensures Pow256(n - 1 - i) > 0 && BigEndian(v, n)[i] == v / Pow256(n - 1 - i) % 256
  {
    ReversedAt(LittleEndian(v, n), i);
    LittleEndianAt(v, n, n - 1 - i);
  }

  // The number that bytes stand for, highest first.
  function FromBytes(b: seq<Byte>): nat {
    if b == [] then 0 else FromBytes(b[..|b| - 1]) * 256 + b[|b| - 1] as nat
  }

  // Reading the bytes gives the number back, in as many bytes as it takes.
  lemma {:induction false} BytesBack(v: nat, n: nat)
    requires v < Pow256(n)
    ensures FromBytes(BigEndian(v, n)) == v && FromBytes(Reversed(LittleEndian(v, n))) == v
  {
    if n > 0 {
      var low := LittleEndian(v, n);
      assert BigEndian(v, n)[..n - 1] == Reversed(low[1..]) && low[1..] == LittleEndian(v / 256, n - 1);
      BytesBack(v / 256, n - 1);
    }
  }

  // The count in eight bytes, lowest or highest first, made from its two words.
  lemma LengthField(c: Count)
    requires IsCount(c)
    ensures LittleEndian(Value(c), 8) == LittleEndian(c.low, 4) + LittleEndian(c.high, 4)
    ensures BigEndian(Value(c), 8) == BigEndian(c.high, 4) + BigEndian(c.low, 4)
  {
    assert Pow256(4) == WORD;
    LittleEndianConcat(c.low, c.high, 4, 4);
    ReversedConcat(LittleEndian(c.low, 4), LittleEndian(c.high, 4));
  }

  // ---------- chunks ----------

  // The counts after all chunks, by the arithmetic of each implementation.
  function Md5Counts(chunks: seq<seq<Byte>>): Count {
    if chunks == [] then Count(0, 0) else Md5Count(Md5Counts(chunks[..|chunks| - 1]), |chunks[|chunks| - 1]|)
  }

  function Sha1Counts(chunks: seq<seq<Byte>>): Count {
    if chunks == [] then Count(0, 0) else Sha1Count(Sha1Counts(chunks[..|chunks| - 1]), |chunks[|chunks| - 1]|)
  }

  // MD5 and MD4 count right as long as there are less than 2^29 bytes, however they are cut up.
  lemma {:induction false} Md5CountsRight(chunks: seq<seq<Byte>>)
    requires |Flatten(chunks)| < 0x2000_0000
    ensures Md5Counts(chunks) == Count(8 * |Flatten(chunks)|, 0)
  {
    if chunks == [] {
    } else {
      var n := |chunks| - 1;
      Md5CountsRight(chunks[..n]);
      var c := Md5Counts(chunks[..n]);
      Split(8 * |chunks[n]|, 0, 8 * |chunks[n]|);
      Split(|chunks[n]|, 0, |chunks[n]|);
      Split(c.low + 8 * |chunks[n]|, 0, c.low + 8 * |chunks[n]|);
      Bits.DivModUnique(|chunks[n]|, 0x2000_0000, 0, |chunks[n]|);
      Split(0, 0, 0);
    }
  }

  // ---------- exactly when the count after a run is right ----------

  // How much the high word of MD5 and MD4 falls short in one update.
  function Md5Short(c: Count, n: nat): int {
    8 * n / WORD + (if Carries(c, n) then 1 else 0)
    - (n % WORD / 0x2000_0000 + if Md5Count(c, n).low < n % WORD then 1 else 0)
  }

  // How much the high word of SHA-1 falls short in one update.
  function Sha1Short(c: Count, n: nat): int {
    (if Carries(c, n) then 1 else 0) - (if Sha1Count(c, n).low < 8 * n then 1 else 0)
  }

  function Md5Shorts(chunks: seq<seq<Byte>>): int {
    if chunks == [] then 0
    else Md5Shorts(chunks[..|chunks| - 1]) + Md5Short(Md5Counts(chunks[..|chunks| - 1]), |chunks[|chunks| - 1]|)
  }

  function Sha1Shorts(chunks: seq<seq<Byte>>): int {
    if chunks == [] then 0
    else Sha1Shorts(chunks[..|chunks| - 1]) + Sha1Short(Sha1Counts(chunks[..|chunks| - 1]), |chunks[|chunks| - 1]|)
  }

  lemma Md5Step(c: Count, n: nat) returns (k: int)
    requires IsCount(c)
    ensures IsCount(Md5Count(c, n))
    ensures Value(Md5Count(c, n)) + Md5Short(c, n) * WORD == Value(c) + 8 * n - k * (WORD * WORD)
  {
    var q, x, low := AddBits(c, n);
    CutLow(n);
    var c' := Md5Count(c, n);
    assert c'.low == low;
    k := (c.high + (if low < n % WORD then 1 else 0) + n % WORD / 0x2000_0000) / WORD;
  }

  // The number of bits modulo 2^32 does not depend on the bytes beyond 32 bits.
  lemma CutLow(n: nat)
    ensures n % WORD * 8 % WORD == 8 * n % WORD
  {
    EightTimes(0, n);
  }

  lemma Sha1Step(c: Count, n: nat) returns (k: int)
    requires IsCount(c)
    ensures IsCount(Sha1Count(c, n))
    ensures Value(Sha1Count(c, n)) + Sha1Short(c, n) * WORD == Value(c) + 8 * n - k * (WORD * WORD)
  {
    var q, x, low := AddBits(c, n);
    Eighth(n, q, x);
    k := (c.high + (if low < n * 8 then 1 else 0) + n / 0x2000_0000) / WORD;
  }

  lemma {:induction false} Md5Total(chunks: seq<seq<Byte>>) returns (k: int)
    ensures IsCount(Md5Counts(chunks))
    ensures Value(Md5Counts(chunks)) + Md5Shorts(chunks) * WORD == 8 * |Flatten(chunks)| - k * (WORD * WORD)
  {
    if chunks == [] {
      k := 0;
    } else {
      var n := |chunks| - 1;
      var k0 := Md5Total(chunks[..n]);
      var k1 := Md5Step(Md5Counts(chunks[..n]), |chunks[n]|);
      k := k0 + k1;
    }
  }

  lemma {:induction false} Sha1Total(chunks: seq<seq<Byte>>) returns (k: int)
    ensures IsCount(Sha1Counts(chunks))
    ensures Value(Sha1Counts(chunks)) + Sha1Shorts(chunks) * WORD == 8 * |Flatten(chunks)| - k * (WORD * WORD)
  {
    if chunks == [] {
      k := 0;
    } else {
      var n := |chunks| - 1;
      var k0 := Sha1Total(chunks[..n]);
      var k1 := Sha1Step(Sha1Counts(chunks[..n]), |chunks[n]|);
      k := k0 + k1;
    }
  }

  lemma ShortsIff(value: nat, short: int, bits: nat, k: int)
    requires value < WORD * WORD && value + short * WORD == bits - k * (WORD * WORD)
    ensures value == bits % (WORD * WORD) <==> short % WORD == 0
  {
    if short % WORD == 0 {
      Bits.DivModUnique(bits, WORD * WORD, k + short / WORD, value);
    } else if value == bits % (WORD * WORD) {
      Bits.DivModUnique(short, WORD, bits / (WORD * WORD) - k, 0);
      assert false;
    }
  }

  // However the message is cut up, and however long it is: the count at the end is right exactly
  // when what the updates fall short of adds up to a multiple of 2^32.
  lemma Md5CountsIff(chunks: seq<seq<Byte>>)
    ensures Value(Md5Counts(chunks)) == 8 * |Flatten(chunks)| % (WORD * WORD) <==> Md5Shorts(chunks) % WORD == 0
  {
    var k := Md5Total(chunks);
    ShortsIff(Value(Md5Counts(chunks)), Md5Shorts(chunks), 8 * |Flatten(chunks)|, k);
  }

  lemma Sha1CountsIff(chunks: seq<seq<Byte>>)
    ensures Value(Sha1Counts(chunks)) == 8 * |Flatten(chunks)| % (WORD * WORD) <==> Sha1Shorts(chunks) % WORD == 0
  {
    var k := Sha1Total(chunks);
    ShortsIff(Value(Sha1Counts(chunks)), Sha1Shorts(chunks), 8 * |Flatten(chunks)|, k);
  }

  // An update of less than 2^29 bytes falls short by the carry that it loses.
  lemma Md5ShortIs(c: Count, n: nat)
    requires IsCount(c) && n < 0x2000_0000
    ensures Md5Short(c, n) == if c.low + 7 * n < WORD then 0 else 1
  {
    var q, x, low := AddBits(c, n);
    Split(8 * n, 0, 8 * n);
    Split(n, 0, n);
  }

  // An update of SHA-1 counts a carry too many exactly when it has 2^29 bytes or more and no carry.
  lemma Sha1ShortIs(c: Count, n: nat)
    requires IsCount(c)
    ensures Sha1Short(c, n) == if n < 0x2000_0000 || Carries(c, n) then 0 else -1
  {
    var q, x, low := AddBits(c, n);
    Eighth(n, q, x);
  }

  // SHA-1 counts right modulo 2^64 as long as every chunk has less than 2^29 bytes.
  lemma Sha1CountsRight(chunks: seq<seq<Byte>>)
    requires forall i :: 0 <= i < |chunks| ==> |chunks[i]| < 0x2000_0000
    ensures Value(Sha1Counts(chunks)) == 8 * |Flatten(chunks)| % (WORD * WORD)
  {
    NoneShort(chunks);
    Sha1CountsIff(chunks);
  }

  lemma {:induction false} NoneShort(chunks: seq<seq<Byte>>)
    requires forall i :: 0 <= i < |chunks| ==> |chunks[i]| < 0x2000_0000
    ensures Sha1Shorts(chunks) == 0
  {
    if chunks != [] {
      var n := |chunks| - 1;
      var k := Sha1Total(chunks[..n]);
      NoneShort(chunks[..n]);
      Sha1ShortIs(Sha1Counts(chunks[..n]), |chunks[n]|);
    }
  }

  // The number of updates that lose a carry.
  function LostCarries(chunks: seq<seq<Byte>>): nat {
    if chunks == [] then 0
    else
      var c, n := Md5Counts(chunks[..|chunks| - 1]), |chunks[|chunks| - 1]|;
      LostCarries(chunks[..|chunks| - 1]) + if c.low + 7 * n < WORD then 0 else 1
  }

  lemma {:induction false} LostIsShort(chunks: seq<seq<Byte>>)
    requires forall i :: 0 <= i < |chunks| ==> |chunks[i]| < 0x2000_0000
    ensures LostCarries(chunks) == Md5Shorts(chunks)
  {
    if chunks != [] {
      var n := |chunks| - 1;
      var k := Md5Total(chunks[..n]);
      LostIsShort(chunks[..n]);
      Md5ShortIs(Md5Counts(chunks[..n]), |chunks[n]|);
    }
  }

  // With every chunk below 2^29 bytes, MD5 and MD4 count right exactly when the number of updates
  // that lose a carry is a multiple of 2^32.
  lemma Md5LostIff(chunks: seq<seq<Byte>>)
    requires forall i :: 0 <= i < |chunks| ==> |chunks[i]| < 0x2000_0000
    ensures Value(Md5Counts(chunks)) == 8 * |Flatten(chunks)| % (WORD * WORD) <==> LostCarries(chunks) % WORD == 0
  {
    LostIsShort(chunks);
    Md5CountsIff(chunks);
  }

  lemma ModAdd(a: nat, b: nat, m: nat)
    requires m > 0
    ensures (a % m + b) % m == (a + b) % m
  {
    var q, q' := a / m, (a % m + b) / m;
    var r := (a % m + b) % m;
    assert a == q * m + a % m && a % m + b == q' * m + r;
    assert a + b == (q + q') * m + r;
    Bits.DivModUnique(a + b, m, q + q', r);
  }
}
