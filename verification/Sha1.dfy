// The streaming part of sha1.c: the padding is fed one byte at a time until the length fits.
module Sha1 {
  import Bits
  import opened MerkleDamgard

  class Context<S(0)> {
    const f: Compress<S>
    const iv: S

    var state: S
    var count0: nat
    var count1: nat
    var buffer: array<Byte>

    // Everything that has been fed.
    ghost var fed: seq<Byte>

    ghost predicate Valid()
      reads this, buffer
    {
      && buffer.Length == BLOCK && IsCount(Count(count0, count1)) && count0 == 8 * |fed| % WORD
      && state == Absorb(f, iv, fed) && buffer[..Left(|fed|)] == Tail(fed)
    }

    // fr_sha1_init
    constructor (f: Compress<S>, iv: S)
      ensures Valid() && fed == [] && Count(count0, count1) == Count(0, 0) && fresh(buffer)
      ensures this.f == f && this.iv == iv
    {
      this.f, this.iv := f, iv;
      state, count0, count1, fed := iv, 0, 0, [];
      buffer := new Byte[BLOCK](_ => 0);
    }

    // memcpy(&context->buffer[at], d, |d|)
    method Copy(at: nat, d: seq<Byte>)
      requires at + |d| <= buffer.Length
      modifies buffer
      ensures buffer[..at] == old(buffer[..at]) && buffer[at..at + |d|] == d
    {
      forall i | 0 <= i < |d| {
        buffer[at + i] := d[i];
      }
    }

    // fr_sha1_update. A chunk is short enough for the 32-bit index of its loop.
    method Update(d: seq<Byte>)
      requires Valid() && |d| + BLOCK < WORD
      modifies this`state, this`count0, this`count1, this`fed, buffer
      ensures Valid() && fed == old(fed) + d
      ensures Count(count0, count1) == Sha1Count(old(Count(count0, count1)), |d|)
    {
      HaveIsLeft(|fed|, count0);
      var j := count0 / 8 % BLOCK;
      AddBytes(|d|);
      AbsorbMore(f, iv, fed, d);
      Feed(j, d);
      fed := fed + d;
      assert |Tail(fed)| == Left(|fed|);
    }

    // The count, before the data is looked at.
    method AddBytes(n: nat)
      requires IsCount(Count(count0, count1)) && count0 == 8 * |fed| % WORD
      modifies this`count0, this`count1
      ensures Count(count0, count1) == Sha1Count(old(Count(count0, count1)), n)
      ensures IsCount(Count(count0, count1)) && count0 == 8 * (|fed| + n) % WORD
    {
      Sha1CountLow(Count(count0, count1), |fed|, n);
      ModAdd(count1 + 1, n / 0x2000_0000, WORD);
      count0 := (count0 + n * 8) % WORD;
      if count0 < n * 8 {
        count1 := (count1 + 1) % WORD;
      }
      count1 := (count1 + n / 0x2000_0000) % WORD;
    }

    method Feed(have: nat, d: seq<Byte>)
      requires buffer.Length == BLOCK && have < BLOCK
      modifies this`state, buffer
      ensures var t := old(buffer[..have]) + d;
        state == Absorb(f, old(state), t) && buffer[..Left(|t|)] == Tail(t)
    {
      ghost var s0, t := state, buffer[..have] + d;
      var i, j := 0, have;
      if j + |d| > 63 {
        i := BLOCK - j;
        Copy(j, d[..i]);
        assert buffer[..] == t[..BLOCK] && t[BLOCK..] == d[i..];
        state := f(state, buffer[..]);
        while i + 63 < |d|
          invariant 0 <= i <= |d|
          invariant Absorb(f, state, d[i..]) == Absorb(f, s0, t) && Tail(d[i..]) == Tail(t)
        {
          assert d[i..][..BLOCK] == d[i..i + BLOCK] && d[i..][BLOCK..] == d[i + BLOCK..];
          state := f(state, d[i..i + BLOCK]);
          i := i + BLOCK;
        }
        assert Tail(d[i..]) == d[i..] == Tail(t);
        j := 0;
      }
      Copy(j, d[i..]);
    }

    // fr_sha1_final
    method Final() returns (out: S)
      requires Valid()
      modifies this`state, this`count0, this`count1, this`fed, buffer
      ensures out == Digest(f, iv, old(fed), BigEndian(Value(old(Count(count0, count1))), 8))
    {
      LengthField(Count(count0, count1));
      ghost var m := fed;
      var finalcount := BigEndian(count1, 4) + BigEndian(count0, 4);
      Update([0x80]);
      Pad(m);
      Update(finalcount);
      assert fed == Padded(m, finalcount);
      out := state;
    }

    // Zero bytes until the length fits: (count[0] & 504) == 448.
    method Pad(ghost m: seq<Byte>)
      requires Valid() && fed == m + [0x80]
      modifies this`state, this`count0, this`count1, this`fed, buffer
      ensures Valid() && fed == m + Padding(|m|)
    {
      ghost var z := 0;
      assert fed == PaddedBy(m, 0);
      PadFits(|m|, 0, count0);
      while count0 / 8 % BLOCK != 56
        invariant Valid() && z <= Zeros(|m|) && fed == PaddedBy(m, z)
        invariant count0 / 8 % BLOCK == 56 <==> z == Zeros(|m|)
        decreases Zeros(|m|) - z
      {
        Update([0]);
        z := z + 1;
        assert fed == PaddedBy(m, z);
        PadFits(|m|, z, count0);
      }
      assert PaddedBy(m, z) == m + Padding(|m|);
    }
  }

  function PaddedBy(m: seq<Byte>, z: nat): (r: seq<Byte>)
    ensures |r| == |m| + 1 + z
  {
    m + [0x80] + seq(z, _ => 0)
  }

  // The length fits when all the zeros are there, and not before.
  lemma PadFits(n: nat, z: nat, low: nat)
    requires z <= Zeros(n) && low == 8 * (n + 1 + z) % WORD
    ensures low / 8 % BLOCK == 56 <==> z == Zeros(n)
  {
    HaveIsLeft(n + 1 + z, low);
    LeftAdd(n, 1 + z);
  }

  // The digest of a message that is fed in chunks.
  method Calculate<S(0)>(f: Compress<S>, iv: S, chunks: seq<seq<Byte>>) returns (out: S)
    requires forall i :: 0 <= i < |chunks| ==> |chunks[i]| + BLOCK < WORD
    ensures out == Digest(f, iv, Flatten(chunks), BigEndian(Value(Sha1Counts(chunks)), 8))
    ensures Sha1Shorts(chunks) % WORD == 0 ==>
      out == Digest(f, iv, Flatten(chunks), BigEndian(8 * |Flatten(chunks)| % (WORD * WORD), 8))
    ensures (forall i :: 0 <= i < |chunks| ==> |chunks[i]| < 0x2000_0000) && 8 * |Flatten(chunks)| < WORD * WORD ==>
      out == Digest(f, iv, Flatten(chunks), BigEndian(8 * |Flatten(chunks)|, 8))
  {
    hide Digest, BigEndian, Sha1Shorts, Context.Valid, Sha1Count;
    var ctx := new Context(f, iv);
    var i := 0;
    while i < |chunks|
      invariant 0 <= i <= |chunks| && ctx.Valid() && ctx.f == f && ctx.iv == iv && fresh(ctx) && fresh(ctx.buffer)
      invariant ctx.fed == Flatten(chunks[..i]) && Count(ctx.count0, ctx.count1) == Sha1Counts(chunks[..i])
    {
      ctx.Update(chunks[i]);
      i := i + 1;
      assert chunks[..i][..i - 1] == chunks[..i - 1];
    }
    assert chunks[..|chunks|] == chunks;
    Sha1CountsIff(chunks);
    Sha1Right(chunks);
    out := ctx.Final();
  }

  lemma Sha1Right(chunks: seq<seq<Byte>>)
    ensures (forall i :: 0 <= i < |chunks| ==> |chunks[i]| < 0x2000_0000) && 8 * |Flatten(chunks)| < WORD * WORD ==>
      Value(Sha1Counts(chunks)) == 8 * |Flatten(chunks)|
  {
    if (forall i :: 0 <= i < |chunks| ==> |chunks[i]| < 0x2000_0000) && 8 * |Flatten(chunks)| < WORD * WORD {
      Sha1CountsRight(chunks);
      Bits.DivModUnique(8 * |Flatten(chunks)|, WORD * WORD, 0, 8 * |Flatten(chunks)|);
    }
  }
}
