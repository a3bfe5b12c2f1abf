// The streaming part of md4.c, on a little-endian machine: every block goes through the buffer, and
// the final padding is written into it in place.
module Md4 {
  import opened MerkleDamgard

  class Context<S(0)> {
    const f: Compress<S>
    const iv: S

    var state: S
    var count0: nat
    var count1: nat
    var buffer: array<Byte>

    // Everything that has been fed.
    ghost var fed: seq<Byte>

    ghost predicate Valid()
      reads this, buffer
    {
      && buffer.Length == BLOCK && IsCount(Count(count0, count1)) && count0 == 8 * |fed| % WORD
      && state == Absorb(f, iv, fed) && buffer[..Left(|fed|)] == Tail(fed)
    }

    // fr_md4_init
    constructor (f: Compress<S>, iv: S)
      ensures Valid() && fed == [] && Count(count0, count1) == Count(0, 0) && fresh(buffer)
      ensures this.f == f && this.iv == iv
    {
      this.f, this.iv := f, iv;
      state, count0, count1, fed := iv, 0, 0, [];
      buffer := new Byte[BLOCK](_ => 0);
    }

    // memcpy(ctx->buffer + at, d, |d|)
    method Copy(at: nat, d: seq<Byte>)
      requires at + |d| <= buffer.Length
      modifies buffer
      ensures buffer[..at] == old(buffer[..at]) && buffer[at..at + |d|] == d
    {
      forall i | 0 <= i < |d| {
        buffer[at + i] := d[i];
      }
    }

    // fr_md4_update
    method Update(d: seq<Byte>)
      requires Valid()
      modifies this`state, this`count0, this`count1, this`fed, buffer
      ensures Valid() && fed == old(fed) + d
      ensures Count(count0, count1) == Md5Count(old(Count(count0, count1)), |d|)
    {
      HaveIsLeft(|fed|, count0);
      var have := count0 / 8 % BLOCK;
      AddBytes(|d|);
      AbsorbMore(f, iv, fed, d);
      Feed(have, d);
      fed := fed + d;
      assert |Tail(fed)| == Left(|fed|);
    }

    // The count, before the data is looked at.
    method AddBytes(n: nat)
      requires IsCount(Count(count0, count1)) && count0 == 8 * |fed| % WORD
      modifies this`count0, this`count1
      ensures Count(count0, count1) == Md5Count(old(Count(count0, count1)), n)
      ensures IsCount(Count(count0, count1)) && count0 == 8 * (|fed| + n) % WORD
    {
      Md5CountLow(Count(count0, count1), |fed|, n);
      var bytes := n % WORD;
      ModAdd(count1 + 1, bytes / 0x2000_0000, WORD);
      count0 := (count0 + bytes * 8 % WORD) % WORD;
      if count0 < bytes {
        count1 := (count1 + 1) % WORD;
      }
      count1 := (count1 + bytes / 0x2000_0000) % WORD;
    }

    // The data: a leading odd-sized chunk, then whole blocks by way of the buffer, then what is left over.
    method Feed(have: nat, d: seq<Byte>)
      requires buffer.Length == BLOCK && have < BLOCK
      modifies this`state, buffer
      ensures var t := old(buffer[..have]) + d;
        state == Absorb(f, old(state), t) && buffer[..Left(|t|)] == Tail(t)
    {
      ghost var s0, t := state, buffer[..have] + d;
      var i := 0;
      if have != 0 {
        var need := BLOCK - have;
        if |d| < need {
          Copy(have, d);
          return;
        }
        Copy(have, d[..need]);
        assert buffer[..] == t[..BLOCK] && t[BLOCK..] == d[need..];
        state := f(state, buffer[..]);
        i := need;
      } else {
        assert t == d[0..];
      }
      while |d| - i >= BLOCK
        invariant 0 <= i <= |d|
        invariant Absorb(f, state, d[i..]) == Absorb(f, s0, t) && Tail(d[i..]) == Tail(t)
      {
        assert d[i..][..BLOCK] == d[i..i + BLOCK] && d[i..][BLOCK..] == d[i + BLOCK..];
        Copy(0, d[i..i + BLOCK]);
        assert buffer[..] == d[i..i + BLOCK];
        state := f(state, buffer[..]);
        i := i + BLOCK;
      }
      assert Tail(d[i..]) == d[i..] == Tail(t);
      Copy(0, d[i..]);
    }

    // fr_md4_final
    method Final() returns (out: S)
      requires Valid()
      modifies this`state, buffer
      ensures out == Digest(f, iv, fed, LittleEndian(Value(Count(count0, count1)), 8))
    {
      HaveIsLeft(|fed|, count0);
      LengthField(Count(count0, count1));
      ghost var length := LittleEndian(count0, 4) + LittleEndian(count1, 4);
      PaddedTail(f, iv, fed, length);
      Pad(count0 / 8 % BLOCK);
      PutCount();
      state := f(state, buffer[..]);
      out := state;
    }

    // The byte 0x80 and the zeros, up to the last eight bytes of a block.
    method Pad(have: nat)
      requires buffer.Length == BLOCK && have < BLOCK
      modifies this`state, buffer
      ensures var t := old(buffer[..have]) + [0x80];
        if |t| > 56 then state == f(old(state), Filled(t, BLOCK)) && buffer[..56] == Filled([], 56)
        else state == old(state) && buffer[..56] == Filled(t, 56)
    {
      ghost var t := buffer[..have] + [0x80];
      Copy(have, [0x80]);
      var count := BLOCK - 1 - have;
      assert buffer[..have + 1] == t;
      if count < 8 {
        Copy(have + 1, seq(count, _ => 0));
        assert buffer[..] == Filled(t, BLOCK);
        state := f(state, buffer[..]);
        Copy(0, seq(56, _ => 0));
      } else {
        Copy(have + 1, seq(count - 8, _ => 0));
        assert buffer[..56] == Filled(t, 56);
      }
    }

    // The last two words of the buffer.
    method PutCount()
      requires buffer.Length == BLOCK
      modifies buffer
      ensures buffer[..] == old(buffer[..56]) + (LittleEndian(count0, 4) + LittleEndian(count1, 4))
    {
      Copy(56, LittleEndian(count0, 4) + LittleEndian(count1, 4));
    }
  }

  // t filled up with zeros to n bytes.
  function Filled(t: seq<Byte>, n: nat): (r: seq<Byte>)
    requires |t| <= n
    ensures |r| == n
  {
    t + seq(n - |t|, _ => 0)
  }

  // The last one or two blocks: what was left over, the byte 0x80, zeros, and the length.
  lemma PaddedTail<S>(f: Compress<S>, iv: S, m: seq<Byte>, length: seq<Byte>)
    requires |length| == 8
    ensures var t, s := Tail(m) + [0x80], Absorb(f, iv, m);
      Digest(f, iv, m, length)
        == if |t| > 56 then f(f(s, Filled(t, BLOCK)), Filled([], 56) + length) else f(s, Filled(t, 56) + length)
  {
    var t, s := Tail(m) + [0x80], Absorb(f, iv, m);
    var all := Tail(m) + (Padding(|m|) + length);
    assert Padded(m, length) == m + (Padding(|m|) + length);
    AbsorbMore(f, iv, m, Padding(|m|) + length);
    if |t| > 56 {
      var first, last := Filled(t, BLOCK), Filled([], 56) + length;
      TwoBlocks(Tail(m), |m|, length);
      assert (first + last)[..BLOCK] == first && (first + last)[BLOCK..] == last;
      AbsorbOne(f, f(s, first), last);
    } else {
      OneBlock(Tail(m), |m|, length);
      AbsorbOne(f, s, all);
    }
  }

  lemma TwoBlocks(tail: seq<Byte>, n: nat, length: seq<Byte>)
    requires |tail| == Left(n) >= 56
    ensures tail + (Padding(n) + length) == Filled(tail + [0x80], BLOCK) + (Filled([], 56) + length)
  {
    var t := tail + [0x80];
    assert seq(Zeros(n), _ => 0) == seq(BLOCK - |t|, _ => 0) + seq(56, _ => 0);
    assert Filled([], 56) == seq(56, _ => 0);
  }

  lemma OneBlock(tail: seq<Byte>, n: nat, length: seq<Byte>)
    requires |tail| == Left(n) < 56
    ensures tail + (Padding(n) + length) == Filled(tail + [0x80], 56) + length
  {
  }

  // The digest of a message that is fed in chunks.
  method Calculate<S(0)>(f: Compress<S>, iv: S, chunks: seq<seq<Byte>>) returns (out: S)
    ensures out == Digest(f, iv, Flatten(chunks), LittleEndian(Value(Md5Counts(chunks)), 8))
    ensures Md5Shorts(chunks) % WORD == 0 ==>
      out == Digest(f, iv, Flatten(chunks), LittleEndian(8 * |Flatten(chunks)| % (WORD * WORD), 8))
    ensures |Flatten(chunks)| < 0x2000_0000 ==>
      out == Digest(f, iv, Flatten(chunks), LittleEndian(8 * |Flatten(chunks)|, 8))
  {
    hide Digest, LittleEndian, Md5Shorts, Context.Valid, Md5Count;
    var ctx := new Context(f, iv);
    var i := 0;
    while i < |chunks|
      invariant 0 <= i <= |chunks| && ctx.Valid() && ctx.f == f && ctx.iv == iv && fresh(ctx) && fresh(ctx.buffer)
      invariant ctx.fed == Flatten(chunks[..i]) && Count(ctx.count0, ctx.count1) == Md5Counts(chunks[..i])
    {
      ctx.Update(chunks[i]);
      i := i + 1;
      assert chunks[..i][..i - 1] == chunks[..i - 1];
    }
    assert chunks[..|chunks|] == chunks;
    Md5CountsIff(chunks);
    if |Flatten(chunks)| < 0x2000_0000 {
      Md5CountsRight(chunks);
    }
    out := ctx.Final();
  }
}
