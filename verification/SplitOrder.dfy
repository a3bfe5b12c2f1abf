// The bit arithmetic of the split-ordered hash table: reversing a 32-bit hash, dropping its
// highest one bit, and why chains sorted by reversed hash can be split bucket by bucket.
module SplitOrder {
  import opened Bits

  type Key = k: nat | k < 0x1_0000_0000

  // The low n bits of k in the opposite order.
  function Rev(k: nat, n: nat): (r: nat)
    ensures r < Pow2(n)
  {
    if n == 0 then 0 else (if k % 2 == 1 then Pow2(n - 1) else 0) + Rev(k / 2, n - 1)
  }

  // e without its highest one bit.
  function Parent(e: nat): (p: nat)
    ensures p <= e
    ensures p == e <==> e == 0
  {
    if e <= 1 then 0 else 2 * Parent(e / 2) + e % 2
  }

  // The rules that generate the two 256-entry tables.
  function ReversedByte(b: nat): nat {
    Rev(b, 8)
  }

  function ParentByte(b: nat): nat {
    Parent(b)
  }

  // reverse(): the four bytes, each looked up, in the opposite order.
  function Reverse(key: Key): nat {
    Or(Or(Or(Shl(ReversedByte(And(key, 0xff)), 24),
             Shl(ReversedByte(And(Shr(key, 8), 0xff)), 16)),
          Shl(ReversedByte(And(Shr(key, 16), 0xff)), 8)),
       ReversedByte(And(Shr(key, 24), 0xff)))
  }

  // parent_of(): drop the highest bit of the highest non-zero byte.
  function ParentOf(key: Key): nat {
    if key > 0xffffff then Or(And(key, 0xffffff), Shl(ParentByte(Shr(key, 24)), 24))
    else if key > 0xffff then Or(And(key, 0xffff), Shl(ParentByte(Shr(key, 16)), 16))
    else if key > 0xff then Or(And(key, 0xff), Shl(ParentByte(Shr(key, 8)), 8))
    else ParentByte(key)
  }

  // ---------- reverse ----------

  // Reversing m + n bits: the low m bits come out on top.
  lemma {:induction false} RevSplit(k: nat, m: nat, n: nat)
    ensures Rev(k, m + n) == Shl(Rev(k, m), n) + Rev(Shr(k, m), n)
  {
    if m == 0 {
      ShlPow2(0, n);
    } else {
      RevSplit(k / 2, m - 1, n);
      ShlPow2(m - 1, n);
      ShlAdd(if k % 2 == 1 then Pow2(m - 1) else 0, Rev(k / 2, m - 1), n);
    }
  }

  // Only the low n bits matter.
  lemma {:induction false} RevLow(k: nat, n: nat)
    ensures Rev(Low(k, n), n) == Rev(k, n)
  {
    if n == 0 {
    } else {
      RevLow(k / 2, n - 1);
    }
  }

  // Reversal is its own inverse, so distinct hashes have distinct reversals.
  lemma {:induction false} RevInvolution(k: nat, n: nat)
    requires k < Pow2(n)
    ensures Rev(Rev(k, n), n) == k
  {
    if n == 0 {
    } else {
      RevInvolution(k / 2, n - 1);
      RevUnfold(k % 2, Rev(k / 2, n - 1), n - 1);
      ShlPow2(0, n - 1);
      assert Rev(k, n) == Shl(k % 2, n - 1) + Rev(k / 2, n - 1);
    }
  }

  // Reversing a word whose top bit is b.
  lemma RevUnfold(b: nat, r: nat, n: nat)
    requires b < 2 && r < Pow2(n)
    ensures Rev(Shl(b, n) + r, n + 1) == 2 * Rev(r, n) + b
  {
    var w := Shl(b, n) + r;
    PartsUnique(b, r, n);
    RevLow(w, n);
    RevSplit(w, n, 1);
    assert Shl(Rev(r, n), 1) == 2 * Rev(r, n);
    assert Rev(b, 1) == b;
  }

  lemma RevInjective(a: nat, b: nat, n: nat)
    requires a < Pow2(n) && b < Pow2(n)
    requires Rev(a, n) == Rev(b, n)
    ensures a == b
  {
    RevInvolution(a, n);
    RevInvolution(b, n);
  }

  // One more byte of a partly assembled word.
  lemma ByteStep(top: nat, byte: nat, rest: nat)
    requires byte < 0x100
    ensures Or(Shl(top, 8 + rest), Shl(byte, rest)) == Shl(Shl(top, 8) + byte, rest)
  {
    ShlShl(top, 8, rest);
    ShlAdd(Shl(top, 8), byte, rest);
    Pow2Values();
    ShlPow2(8, rest);
    assert Shl(byte, rest) < Pow2(8 + rest) by {
      ShlOrder(byte, 0x100, rest);
    }
    OrDisjoint(top, Shl(byte, rest), 8 + rest);
  }

  lemma MaskedByte(k: nat)
    ensures ReversedByte(And(k, 0xff)) == Rev(k, 8) < 0x100
  {
    Pow2Values();
    AndMask(k, 8);
    RevLow(k, 8);
  }

  lemma AssembleBytes(b0: nat, b1: nat, b2: nat, b3: nat, m: nat)
    requires m == 8 && b1 < 0x100 && b2 < 0x100 && b3 < 0x100
    ensures Or(Or(Or(Shl(b0, 24), Shl(b1, 16)), Shl(b2, 8)), b3)
         == Shl(Shl(Shl(b0, m) + b1, m) + b2, m) + b3
  {
    var w1 := Shl(b0, m) + b1;
    var w2 := Shl(w1, m) + b2;
    ByteStep(b0, b1, 16);
    ByteStep(w1, b2, 8);
    Pow2Values();
    OrDisjoint(w2, b3, m);
  }

  lemma RevOfBytes(k: nat, m: nat)
    ensures Rev(k, 4 * m)
         == Shl(Shl(Shl(Rev(k, m), m) + Rev(Shr(k, m), m), m) + Rev(Shr(k, 2 * m), m), m)
            + Rev(Shr(k, 3 * m), m)
  {
    RevSplit(k, m, m);
    RevSplit(k, 2 * m, m);
    RevSplit(k, 3 * m, m);
  }

  // The byte-table implementation reverses all 32 bits.
  lemma ReverseIsRev(key: Key)
    ensures Reverse(key) == Rev(key, 32)
  {
    hide Rev, Shr;
    var m: nat :| m == 8;
    var k1, k2, k3 := Shr(key, m), Shr(key, 2 * m), Shr(key, 3 * m);
    MaskedByte(key);
    MaskedByte(k1);
    MaskedByte(k2);
    MaskedByte(k3);
    AssembleBytes(Rev(key, 8), Rev(k1, 8), Rev(k2, 8), Rev(k3, 8), m);
    RevOfBytes(key, m);
  }

  // ---------- parent_of ----------

  lemma {:induction false} ParentShift(h: nat, l: nat, n: nat)
    requires h > 0 && l < Pow2(n)
    ensures Parent(Shl(h, n) + l) == Shl(Parent(h), n) + l
  {
    if n == 0 {
    } else {
      ParentShift(h, l / 2, n - 1);
      ShlOrder(0, h, n);
      Pow2Monotone(1, n);
    }
  }

  lemma ParentOfByte(key: Key, n: nat)
    requires key >= Pow2(n)
    ensures Or(And(key, Pow2(n) - 1), Shl(ParentByte(Shr(key, n)), n)) == Parent(key)
  {
    var h, l := Shr(key, n), Low(key, n);
    ShiftParts(key, n);
    ShlPow2(0, n);
    AndMask(key, n);
    OrDisjoint(Parent(h), l, n);
    ParentShift(h, l, n);
  }

  // The byte-table implementation drops the highest one bit.
  lemma ParentOfIsParent(key: Key)
    ensures ParentOf(key) == Parent(key)
  {
    Pow2Values();
    if key > 0xffffff {
      ParentOfByte(key, 24);
    } else if key > 0xffff {
      ParentOfByte(key, 16);
    } else if key > 0xff {
      ParentOfByte(key, 8);
    }
  }

  // In a table of twice the size, the parent of an upper bucket is its lower twin.
  lemma {:induction false} ParentOfUpper(e: nat, n: nat)
    requires Pow2(n) <= e < 2 * Pow2(n)
    ensures Parent(e) == e - Pow2(n)
  {
    if n == 0 {
    } else {
      ParentOfUpper(e / 2, n - 1);
    }
  }

  // Doubling the table keeps a hash in its bucket or moves it to the upper twin.
  lemma {:induction false} LowStep(k: nat, n: nat)
    ensures Low(k, n + 1) == Low(k, n) || Low(k, n + 1) == Low(k, n) + Pow2(n)
  {
    if n == 0 {
    } else {
      LowStep(k / 2, n - 1);
    }
  }

  // ---------- the order of buckets along a sorted chain ----------

  // The number of bits of a hash: 32, given by bounds, so that the verifier does not unroll the
  // reversal of a hash bit by bit wherever one is mentioned.
  ghost function WordBits(): nat {
    var w: nat :| 31 < w < 33;
    w
  }

  // Sorting by reversed hash sorts by reversed bucket number, for every table size.
  lemma SortedByBucket(a: nat, b: nat, n: nat)
    requires n <= WordBits() && Rev(a, WordBits()) <= Rev(b, WordBits())
    ensures Rev(Low(a, n), n) <= Rev(Low(b, n), n)
  {
    RevLow(a, n);
    RevLow(b, n);
    RevSplit(a, n, WordBits() - n);
    RevSplit(b, n, WordBits() - n);
    if Rev(b, n) < Rev(a, n) {
      ShlOrder(Rev(b, n), Rev(a, n), WordBits() - n);
      assert false;
    }
  }

  // A bucket comes before every bucket split out of it.
  lemma {:induction false} ParentFirst(e: nat, n: nat)
    requires 0 < e < Pow2(n)
    ensures Rev(Parent(e), n) < Rev(e, n)
  {
    if e == 1 {
      assert Rev(0, n) == Rev(0, n - 1);
    } else {
      ParentFirst(e / 2, n - 1);
    }
  }

  // Along a sorted chain the hashes that share a bucket are contiguous.
  lemma SameBucketContiguous(a: nat, b: nat, c: nat, n: nat)
    requires n <= WordBits() && Rev(a, WordBits()) <= Rev(b, WordBits()) <= Rev(c, WordBits())
    requires Low(a, n) == Low(c, n)
    ensures Low(b, n) == Low(a, n)
  {
    SortedByBucket(a, b, n);
    SortedByBucket(b, c, n);
    RevInjective(Low(a, n), Low(b, n), n);
  }
}
