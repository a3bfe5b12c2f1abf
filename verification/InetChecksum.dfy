// The Internet checksums of net.c: 16-bit words added up, and the carries folded back in.
module InetChecksum {
  import Bits

  type Byte = b: nat | b < 256
  type Word = w: nat | w < 0x1_0000

  const CARRY: nat := 0x1_0000
  const ONES: nat := 0xffff
  const IPPROTO_UDP: Word := 17

  // Two bytes in memory as a 16-bit word of a little-endian machine.
  function WordOf(a: Byte, b: Byte): Word {
    a as int + 256 * b as int
  }

  function Htons(w: Word): Word {
    w % 256 * 256 + w / 256
  }

  // The sum of the words in memory; a last odd byte is shifted up.
  function Sum(data: seq<Byte>): nat {
    if |data| == 0 then 0
    else if |data| == 1 then data[0] as int * 256
    else WordOf(data[0], data[1]) as int + Sum(data[2..])
  }

  // The loop of fr_udp_checksum: add the carries until there are none.
  function Fold(sum: nat): Word {
    if sum < CARRY then sum else Fold(sum % CARRY + sum / CARRY)
  }

  // ~ on 16 bits
  function Complement(w: Word): Word {
    ONES - w
  }

  // ---------- the fold is the remainder modulo 65535 ----------

  // Among 1 to 65535 it is the only number with the same remainder; only 0 folds to 0.
  lemma {:induction false} FoldIs(sum: nat)
    ensures Fold(sum) == if sum == 0 then 0 else (sum - 1) % ONES + 1
    decreases sum
  {
    if sum < CARRY {
      if sum > 0 {
        Bits.DivModUnique(sum - 1, ONES, 0, sum - 1);
      }
    } else {
      var next := sum % CARRY + sum / CARRY;
      FoldIs(next);
      assert sum - 1 == (sum / CARRY) * ONES + (next - 1);
      AddMultiple(next - 1, sum / CARRY);
    }
  }

  lemma AddMultiple(x: nat, k: nat)
    ensures (k * ONES + x) % ONES == x % ONES
  {
    var q, r := x / ONES, x % ONES;
    Bits.DivModUnique(k * ONES + x, ONES, k + q, r);
  }

  lemma FoldKeepsRemainder(sum: nat)
    ensures Fold(sum) % ONES == sum % ONES && (Fold(sum) == 0 <==> sum == 0)
  {
    FoldIs(sum);
    if sum > 0 {
      var q, r := (sum - 1) / ONES, (sum - 1) % ONES;
      assert sum == q * ONES + (r + 1);
      AddMultiple(r + 1, q);
    }
  }

  // Adding the complement of the folded sum leaves nothing but ones.
  lemma AddComplement(sum: nat)
    ensures Fold(sum + Complement(Fold(sum))) == ONES
  {
    FoldIs(sum);
    FoldIs(sum + Complement(Fold(sum)));
    if sum == 0 {
      Bits.DivModUnique(ONES - 1, ONES, 0, ONES - 1);
    } else {
      var q, r := (sum - 1) / ONES, (sum - 1) % ONES;
      assert sum + Complement(Fold(sum)) - 1 == q * ONES + (ONES - 1);
      Bits.DivModUnique(q * ONES + (ONES - 1), ONES, q, ONES - 1);
    }
  }

  // ---------- writing the checksum into its field ----------

  function Put(data: seq<Byte>, at: nat, w: Word): (r: seq<Byte>)
    requires at + 1 < |data|
    ensures |r| == |data|
  {
    data[at := w % 256][at + 1 := w / 256]
  }

  // An aligned word that was zero adds itself to the sum.
  lemma {:induction false} PutSum(data: seq<Byte>, at: nat, w: Word)
    requires at % 2 == 0 && at + 1 < |data| && data[at] == 0 && data[at + 1] == 0
    ensures Sum(Put(data, at, w)) == Sum(data) + w
    decreases at
  {
    if at == 0 {
      assert Put(data, at, w)[2..] == data[2..];
    } else {
      assert Put(data, at, w)[2..] == Put(data[2..], at - 2, w);
      PutSum(data[2..], at - 2, w);
    }
  }

  // ---------- byte order ----------

  // The sum over the words as a big-endian machine reads them.
  function SwappedSum(data: seq<Byte>): nat
    requires |data| % 2 == 0
  {
    if |data| == 0 then 0 else WordOf(data[1], data[0]) as int + SwappedSum(data[2..])
  }

  lemma {:induction false} SwappedSumIs(data: seq<Byte>) returns (k: nat)
    requires |data| % 2 == 0
    ensures SwappedSum(data) + k * ONES == 256 * Sum(data)
    ensures SwappedSum(data) == 0 <==> Sum(data) == 0
  {
    if |data| == 0 {
      k := 0;
    } else {
      k := SwappedSumIs(data[2..]);
      k := k + data[1] as int;
    }
  }

  // Two positive numbers below 65536 with the same remainder are the same.
  lemma SameRemainder(a: nat, b: nat, p: int)
    requires 0 < a <= ONES && 0 < b <= ONES && a - b == p * ONES
    ensures a == b
  {
    Bits.SmallMultiple(p, ONES);
  }

  // The checksum does not depend on byte order: swapping the bytes of all words swaps the result
  // (section 2(B) of RFC 1071), for a whole number of words.
  lemma ByteOrder(data: seq<Byte>)
    requires |data| % 2 == 0
    ensures Fold(SwappedSum(data)) == Htons(Fold(Sum(data)))
  {
    var s, t := Sum(data), SwappedSum(data);
    var k := SwappedSumIs(data);
    FoldIs(s);
    FoldIs(t);
    if s > 0 {
      var f, g := Fold(s), Fold(t);
      var q, r := (s - 1) / ONES, (t - 1) / ONES;
      assert s == q * ONES + f && t == r * ONES + g;
      assert Htons(f) as int == 256 * f as int - f as int / 256 * ONES;
      SameRemainder(Htons(f), g, k + r - 256 * q - f as int / 256);
    }
  }

  // ---------- UDP ----------

  // The pseudo header and the datagram.
  function UdpSum(data: seq<Byte>, src: (Word, Word), dst: (Word, Word)): nat
    requires |data| < CARRY
  {
    src.0 as int + src.1 + dst.0 + dst.1 + Htons(IPPROTO_UDP) + Htons(|data|) + Sum(data)
  }

  // The pseudo header of RFC 768, in network order: both addresses, a zero byte, the protocol, and the
  // length.
  function PseudoHeader(src: seq<Byte>, dst: seq<Byte>, length: nat): (h: seq<Byte>)
    requires |src| == 4 && |dst| == 4 && length < CARRY
    ensures |h| == 12
  {
    src + dst + [0, 17, length / 256, length % 256]
  }

  // The two 16-bit words of an address in memory.
  function AddrWords(a: seq<Byte>): (Word, Word)
    requires |a| == 4
  {
    (WordOf(a[0], a[1]), WordOf(a[2], a[3]))
  }

  // What is added up is the pseudo header and the datagram.
  lemma UdpSumIs(data: seq<Byte>, src: seq<Byte>, dst: seq<Byte>)
    requires |data| < CARRY && |src| == 4 && |dst| == 4
    ensures UdpSum(data, AddrWords(src), AddrWords(dst)) == Sum(PseudoHeader(src, dst, |data|) + data)
  {
    hide Sum, PseudoHeader, Htons, AddrWords;
    HeaderSum(src, dst, |data|);
    SumConcat(PseudoHeader(src, dst, |data|), data);
  }

  lemma HeaderSum(src: seq<Byte>, dst: seq<Byte>, length: nat)
    requires |src| == 4 && |dst| == 4 && length < CARRY
    ensures var s, d := AddrWords(src), AddrWords(dst);
      Sum(PseudoHeader(src, dst, length)) == s.0 as int + s.1 + d.0 + d.1 + Htons(IPPROTO_UDP) + Htons(length)
  {
    hide Sum;
    var last: seq<Byte> := [0, 17, length / 256, length % 256];
    SumConcat(src + dst, last);
    SumConcat(src, dst);
    SumFour(src);
    SumFour(dst);
    SumFour(last);
  }

  lemma SumFour(a: seq<Byte>)
    requires |a| == 4
    ensures Sum(a) == WordOf(a[0], a[1]) as int + WordOf(a[2], a[3]) as int
  {
    var b := a[2..];
    assert b[2..] == [] && b[0] == a[2] && b[1] == a[3];
    assert Sum(b) == WordOf(b[0], b[1]) as int + Sum(b[2..]);
  }

  lemma {:induction false} SumConcat(a: seq<Byte>, b: seq<Byte>)
    requires |a| % 2 == 0
    ensures Sum(a + b) == Sum(a) + Sum(b)
  {
    if a == [] {
      assert a + b == b;
    } else {
      assert (a + b)[2..] == a[2..] + b;
      SumConcat(a[2..], b);
    }
  }

  // A last odd byte counts as if a zero byte stood in front of it, where section 4.1 of RFC 1071 has one
  // after it: the results are the same exactly when the byte is zero.
  lemma OddByte(data: seq<Byte>, last: Byte)
    requires |data| % 2 == 0
    ensures Sum(data + [last]) == Sum(data + [0, last])
    ensures Fold(Sum(data + [last])) == Fold(Sum(data + [last, 0])) <==> last == 0
  {
    hide Fold, Sum;
    SumConcat(data, [last]);
    SumConcat(data, [0, last]);
    SumConcat(data, [last, 0]);
    SumShort(last);
    FoldsApart(Sum(data), last);
  }

  lemma SumShort(x: Byte)
    ensures Sum([x]) == Sum([0, x]) == 256 * x as int && Sum([x, 0]) == x as int
  {
    assert [0, x][2..] == [] && [x, 0][2..] == [];
  }

  lemma FoldsApart(s: nat, x: Byte)
    ensures Fold(s + 256 * x as int) == Fold(s + x as int) <==> x == 0
  {
    hide Fold;
    var a, b := s + 256 * x as int, s + x as int;
    FoldKeepsRemainder(a);
    FoldKeepsRemainder(b);
    if a % ONES == b % ONES {
      SameRemainders(a, b);
    }
  }

  lemma SameRemainders(a: nat, b: nat)
    requires b <= a < b + ONES && a % ONES == b % ONES
    ensures a == b
  {
    var q, r := a / ONES, b / ONES;
    assert a - b == (q - r) * ONES;
    Bits.SmallMultiple(q - r, ONES);
  }

  // What fr_udp_checksum returns. The current checksum is subtracted in 64 bits.
  function UdpChecksum(data: seq<Byte>, checksum: Word, src: (Word, Word), dst: (Word, Word)): Word
    requires |data| < CARRY
  {
    var sum := UdpSum(data, src, dst);
    Complement(Fold(if sum >= checksum then sum - checksum else sum + 0x1_0000_0000_0000_0000 - checksum))
  }

  // Subtracting a checksum that is larger than the sum wraps around in 64 bits, which adds one: the result
  // is what the subtraction should give exactly when that does not happen.
  lemma UdpSubtracts(data: seq<Byte>, checksum: Word, src: (Word, Word), dst: (Word, Word))
    requires |data| < CARRY
    ensures var sum, r := UdpSum(data, src, dst), UdpChecksum(data, checksum, src, dst);
      && (ONES - r) % ONES == (sum as int - checksum as int + if sum < checksum then 1 else 0) % ONES
      && ((ONES - r) % ONES == (sum as int - checksum as int) % ONES <==> sum >= checksum)
      && (r == ONES <==> sum == checksum)
  {
    var sum := UdpSum(data, src, dst);
    if sum >= checksum {
      FoldKeepsRemainder(sum as int - checksum as int);
    } else {
      FoldKeepsRemainder(sum as int + 0x1_0000_0000_0000_0000 - checksum as int);
      WrapsToOne(sum as int - checksum as int);
    }
  }

  // 2^64 leaves 1.
  lemma WrapsToOne(x: int)
    requires -(ONES as int) <= x < 0
    ensures (x + 0x1_0000_0000_0000_0000) % ONES == (x + 1) % ONES && (x + 1) % ONES != x % ONES
  {
    var k := 281479271743489;
    assert x + 0x1_0000_0000_0000_0000 == k * ONES + (x + 1);
    if x == -1 {
      Bits.DivModUnique(k * ONES + 0, ONES, k, 0);
      Bits.DivModUnique(x, ONES, -1, ONES - 1);
    } else if x == -(ONES as int) {
      Bits.DivModUnique(k * ONES + (x + 1), ONES, k - 1, 1);
      Bits.DivModUnique(x + 1, ONES, -1, 1);
      Bits.DivModUnique(x, ONES, -1, 0);
    } else {
      Bits.DivModUnique(k * ONES + (x + 1), ONES, k - 1, ONES + x + 1);
      Bits.DivModUnique(x + 1, ONES, -1, ONES + x + 1);
      Bits.DivModUnique(x, ONES, -1, ONES + x);
    }
  }

  // fr_udp_checksum
  method Udp(data: seq<Byte>, len: nat, checksum: Word, src: (Word, Word), dst: (Word, Word)) returns (r: Word)
    requires len <= |data| && len < CARRY
    ensures r == UdpChecksum(data[..len], checksum, src, dst)
  {
    var sum: int := src.0 as int + src.1 + dst.0 + dst.1 + Htons(IPPROTO_UDP) + Htons(len);
    ghost var header := sum;
    var i, p := len, 0;
    while i > 1
      invariant 0 <= i <= len && p == len - i && sum >= 0
      invariant sum + Sum(data[p..len]) == header + Sum(data[..len])
    {
      assert data[p..len][2..] == data[p + 2..len];
      sum := sum + WordOf(data[p], data[p + 1]);
      p := p + 2;
      i := i - 2;
    }
    if i != 0 {
      sum := sum + data[p] as int * 256;
    }
    assert sum == UdpSum(data[..len], src, dst);
    sum := if sum >= checksum then sum - checksum else sum + 0x1_0000_0000_0000_0000 - checksum;
    var folded: nat := sum;
    while folded >= CARRY
      invariant Fold(folded) == Fold(sum)
    {
      folded := folded % CARRY + folded / CARRY;
    }
    r := Complement(folded);
  }

  // Writing what is returned for a zero field into it makes the datagram verify, whatever it holds.
  lemma UdpVerifies(data: seq<Byte>, at: nat, src: (Word, Word), dst: (Word, Word))
    requires |data| < CARRY && at % 2 == 0 && at + 1 < |data| && data[at] == 0 && data[at + 1] == 0
    ensures UdpChecksum(Put(data, at, UdpChecksum(data, 0, src, dst)), 0, src, dst) == 0
  {
    var c := UdpChecksum(data, 0, src, dst);
    PutSum(data, at, c);
    AddComplement(UdpSum(data, src, dst));
  }

  // A datagram verifies exactly when its sum is a multiple of 65535, as it always has something in it.
  lemma UdpVerifiesIff(data: seq<Byte>, src: (Word, Word), dst: (Word, Word))
    requires |data| < CARRY
    ensures UdpChecksum(data, 0, src, dst) == 0 <==> UdpSum(data, src, dst) % ONES == 0
  {
    var sum := UdpSum(data, src, dst);
    FoldKeepsRemainder(sum);
    FoldIs(sum);
    assert Fold(sum) % ONES == 0 <==> Fold(sum) == 0 || Fold(sum) == ONES;
  }

  // Given the current checksum, the checksum that belongs in the field is returned.
  lemma UdpExpected(data: seq<Byte>, at: nat, c: Word, src: (Word, Word), dst: (Word, Word))
    requires |data| < CARRY && at % 2 == 0 && at + 1 < |data| && data[at] == 0 && data[at + 1] == 0
    ensures UdpChecksum(Put(data, at, c), c, src, dst) == UdpChecksum(data, 0, src, dst)
  {
    PutSum(data, at, c);
  }

  // ---------- the IP header ----------

  // The fold of fr_iph_checksum: twice, without a loop.
  function FoldTwice(sum: nat): nat {
    var s := sum / CARRY + sum % CARRY;
    s + s / CARRY
  }

  // Two steps are enough for as many words as a header can have.
  lemma TwiceIsEnough(sum: nat)
    requires sum <= 254 * ONES
    ensures FoldTwice(sum) % CARRY == Fold(sum)
  {
    var s := sum / CARRY + sum % CARRY;
    assert sum / CARRY <= 253;
    FoldStep(sum);
    FoldStep(s);
    if s >= CARRY {
      assert s / CARRY == 1 && s % CARRY == s - CARRY;
      FoldStep(s % CARRY + s / CARRY);
    }
  }

  lemma FoldStep(sum: nat)
    ensures Fold(sum) == if sum < CARRY then sum else Fold(sum % CARRY + sum / CARRY)
  {
  }

  lemma {:induction false} SumBound(data: seq<Byte>)
    requires |data| % 2 == 0
    ensures Sum(data) <= |data| / 2 * ONES
  {
    if |data| >= 2 {
      SumBound(data[2..]);
    }
  }

  // The number of 16-bit words: ihl << 1 in eight bits.
  function HeaderWords(ihl: Byte): nat {
    ihl as int * 2 % 256
  }

  // fr_iph_checksum
  method IpHeader(data: seq<Byte>, ihl: Byte) returns (r: Word)
    requires 2 * HeaderWords(ihl) <= |data|
    ensures r == Complement(Fold(Sum(data[..2 * HeaderWords(ihl)])))
    ensures ihl < 128 ==> 4 * ihl <= |data| && r == Complement(Fold(Sum(data[..4 * ihl])))
  {
    var nwords: int := ihl as int * 2 % 256;
    var sum: int, p := 0, 0;
    ghost var end := 2 * nwords;
    while nwords > 0
      invariant 0 <= nwords <= 254 && p + 2 * nwords == end && 0 <= p && sum >= 0
      invariant sum + Sum(data[p..end]) == Sum(data[..end])
    {
      assert data[p..end][2..] == data[p + 2..end];
      sum := sum + WordOf(data[p], data[p + 1]);
      p := p + 2;
      nwords := nwords - 1;
    }
    SumBound(data[..end]);
    TwiceIsEnough(sum);
    sum := sum / CARRY + sum % CARRY;
    sum := sum + sum / CARRY;
    r := Complement(sum % CARRY);
  }

  // Writing what is returned for a zero field into it makes the header verify.
  lemma IpHeaderVerifies(header: seq<Byte>, at: nat)
    requires at % 2 == 0 && at + 1 < |header| && header[at] == 0 && header[at + 1] == 0
    ensures Complement(Fold(Sum(Put(header, at, Complement(Fold(Sum(header))))))) == 0
  {
    PutSum(header, at, Complement(Fold(Sum(header))));
    AddComplement(Sum(header));
  }
}
