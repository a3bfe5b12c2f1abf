// The streaming part of md5.c: a context that is fed any number of chunks, and the final padding
// through the update function itself.
module Md5 {
  import opened MerkleDamgard

  class Context<S(0)> {
    const f: Compress<S>
    const iv: S

    var state: S
    var count0: nat
    var count1: nat
    var buffer: array<Byte>

    // Everything that has been fed.
    ghost var fed: seq<Byte>

    ghost predicate Valid()
      reads this, buffer
    {
      && buffer.Length == BLOCK && IsCount(Count(count0, count1)) && count0 == 8 * |fed| % WORD
      && state == Absorb(f, iv, fed) && buffer[..Left(|fed|)] == Tail(fed)
    }

    // fr_md5_init
    constructor (f: Compress<S>, iv: S)
      ensures Valid() && fed == [] && Count(count0, count1) == Count(0, 0) && fresh(buffer)
      ensures this.f == f && this.iv == iv
    {
      this.f, this.iv := f, iv;
      state, count0, count1, fed := iv, 0, 0, [];
      buffer := new Byte[BLOCK](_ => 0);
    }

    // memcpy(ctx->buffer + at, d, |d|)
    method Copy(at: nat, d: seq<Byte>)
      requires at + |d| <= buffer.Length
      modifies buffer
      ensures buffer[..at] == old(buffer[..at]) && buffer[at..at + |d|] == d
    {
      forall i | 0 <= i < |d| {
        buffer[at + i] := d[i];
      }
    }

    // fr_md5_update
    method Update(d: seq<Byte>)
      requires Valid()
      modifies this`state, this`count0, this`count1, this`fed, buffer
      ensures Valid() && fed == old(fed) + d
      ensures Count(count0, count1) == Md5Count(old(Count(count0, count1)), |d|)
    {
      HaveIsLeft(|fed|, count0);
      var have := count0 / 8 % BLOCK;
      AddBytes(|d|);
      AbsorbMore(f, iv, fed, d);
      Feed(have, d);
      fed := fed + d;
      assert |Tail(fed)| == Left(|fed|);
    }

    // The count, before the data is looked at.
    method AddBytes(n: nat)
      requires IsCount(Count(count0, count1)) && count0 == 8 * |fed| % WORD
      modifies this`count0, this`count1
      ensures Count(count0, count1) == Md5Count(old(Count(count0, count1)), n)
      ensures IsCount(Count(count0, count1)) && count0 == 8 * (|fed| + n) % WORD
    {
      Md5CountLow(Count(count0, count1), |fed|, n);
      var bytes := n % WORD;
      ModAdd(count1 + 1, bytes / 0x2000_0000, WORD);
      count0 := (count0 + bytes * 8 % WORD) % WORD;
      if count0 < bytes {
        count1 := (count1 + 1) % WORD;
      }
      count1 := (count1 + bytes / 0x2000_0000) % WORD;
    }

    // The data: first the block in the buffer, then whole blocks, then what is left over.
    method Feed(have: nat, d: seq<Byte>)
      requires buffer.Length == BLOCK && have < BLOCK
      modifies this`state, buffer
      ensures var t := old(buffer[..have]) + d;
        state == Absorb(f, old(state), t) && buffer[..Left(|t|)] == Tail(t)
    {
      ghost var s0, t := state, buffer[..have] + d;
      var i, at := 0, have;
      var need := BLOCK - have;
      if |d| >= need {
        if have != 0 {
          Copy(have, d[..need]);
          assert buffer[..] == t[..BLOCK] && t[BLOCK..] == d[need..];
          state := f(state, buffer[..]);
          i, at := need, 0;
        } else {
          assert t == d[0..];
        }
        while |d| - i >= BLOCK
          invariant 0 <= i <= |d| && at == 0
          invariant Absorb(f, state, d[i..]) == Absorb(f, s0, t) && Tail(d[i..]) == Tail(t)
        {
          assert d[i..][..BLOCK] == d[i..i + BLOCK] && d[i..][BLOCK..] == d[i + BLOCK..];
          state := f(state, d[i..i + BLOCK]);
          i := i + BLOCK;
        }
        assert Tail(d[i..]) == d[i..] == Tail(t);
      }
      if i != |d| {
        Copy(at, d[i..]);
      }
    }

    // fr_md5_final
    method Final() returns (out: S)
      requires Valid()
      modifies this`state, this`count0, this`count1, this`fed, buffer
      ensures out == Digest(f, iv, old(fed), LittleEndian(Value(old(Count(count0, count1))), 8))
    {
      HaveIsLeft(|fed|, count0);
      LengthField(Count(count0, count1));
      ghost var m := fed;
      var count := LittleEndian(count0, 4) + LittleEndian(count1, 4);
      var padlen := BLOCK - count0 / 8 % BLOCK;
      if padlen < 1 + 8 {
        padlen := padlen + BLOCK;
      }
      var padding := [0x80] + seq(BLOCK - 1, _ => 0);
      assert padding[..padlen - 8] == Padding(|fed|);
      Update(padding[..padlen - 8]);
      Update(count);
      assert fed == Padded(m, count);
      out := state;
    }
  }

  // The digest of a message that is fed in chunks.
  method Calculate<S(0)>(f: Compress<S>, iv: S, chunks: seq<seq<Byte>>) returns (out: S)
    ensures out == Digest(f, iv, Flatten(chunks), LittleEndian(Value(Md5Counts(chunks)), 8))
    ensures Md5Shorts(chunks) % WORD == 0 ==>
      out == Digest(f, iv, Flatten(chunks), LittleEndian(8 * |Flatten(chunks)| % (WORD * WORD), 8))
    ensures |Flatten(chunks)| < 0x2000_0000 ==>
      out == Digest(f, iv, Flatten(chunks), LittleEndian(8 * |Flatten(chunks)|, 8))
  {
    hide Digest, LittleEndian, Md5Shorts, Context.Valid, Md5Count;
    var ctx := new Context(f, iv);
    var i := 0;
    while i < |chunks|
      invariant 0 <= i <= |chunks| && ctx.Valid() && ctx.f == f && ctx.iv == iv && fresh(ctx) && fresh(ctx.buffer)
      invariant ctx.fed == Flatten(chunks[..i]) && Count(ctx.count0, ctx.count1) == Md5Counts(chunks[..i])
    {
      ctx.Update(chunks[i]);
      i := i + 1;
      assert chunks[..i][..i - 1] == chunks[..i - 1];
    }
    assert chunks[..|chunks|] == chunks;
    Md5CountsIff(chunks);
    if |Flatten(chunks)| < 0x2000_0000 {
      Md5CountsRight(chunks);
    }
    out := ctx.Final();
  }
}
