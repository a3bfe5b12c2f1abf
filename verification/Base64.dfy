// base64.c against section 3 of RFC 3548: encoding groups of three bytes as four characters, and
// decoding with its checks of room, of the last quantum and of the padding.
module Base64 {
  import opened Bits
  import opened Sequences

  type Byte = b: nat | b < 256
  type Sextet = v: nat | v < 64

  // ---------- the alphabet ----------

  // The value of a character, or -1: the rule behind the 256-entry table.
  function B64(c: char): (v: int)
    ensures -1 <= v < 64
  {
    if 'A' <= c <= 'Z' then c as int - 'A' as int
    else if 'a' <= c <= 'z' then c as int - 'a' as int + 26
    else if '0' <= c <= '9' then c as int - '0' as int + 52
    else if c == '+' then 62
    else if c == '/' then 63
    else -1
  }

  // b64str: A to Z, a to z, 0 to 9, + and /
  function Char64(v: Sextet): char {
    if v < 26 then ('A' as int + v) as char
    else if v < 52 then ('a' as int + v - 26) as char
    else if v < 62 then ('0' as int + v - 52) as char
    else if v == 62 then '+'
    else '/'
  }

  // fr_is_base64
  predicate IsBase64(c: char) {
    B64(c) >= 0
  }

  // Table 1 of RFC 3548.
  const UPPER: string := "ABCDEFGHIJKLMNOPQRSTUVWXYZ"
  const LOWER: string := "abcdefghijklmnopqrstuvwxyz"
  const DIGITS: string := "0123456789"

  function Alphabet(): string {
    UPPER + LOWER + DIGITS + "+/"
  }

  lemma TablePieces(i: nat)
    ensures |UPPER| == 26 && |LOWER| == 26 && |DIGITS| == 10
    ensures i < 26 ==> UPPER[i] as int == 'A' as int + i && LOWER[i] as int == 'a' as int + i
    ensures i < 10 ==> DIGITS[i] as int == '0' as int + i
  {
    var upper, lower, digits := UPPER, LOWER, DIGITS;
    assert upper == "ABCDEFGHIJKLMNOPQRSTUVWXYZ";
    assert lower == "abcdefghijklmnopqrstuvwxyz";
    assert digits == "0123456789";
  }

  // The characters are those of the table, and no others are taken for one.
  lemma AlphabetIs(v: Sextet)
    ensures |Alphabet()| == 64 && Char64(v) == Alphabet()[v]
  {
    TablePieces(if v < 26 then v else if v < 52 then v - 26 else if v < 62 then v - 52 else 0);
  }

  lemma AlphabetOnly(c: char)
    ensures IsBase64(c) <==> c in Alphabet()
    ensures IsBase64(c) ==> |Alphabet()| == 64 && Alphabet()[B64(c)] == c
  {
    hide B64, Char64, Alphabet;
    AlphabetIs(0);
    if IsBase64(c) {
      AlphabetIs(B64(c));
      ValueBack(c);
    } else {
      forall i | 0 <= i < 64
        ensures Alphabet()[i] != c
      {
        AlphabetIs(i);
        CharBack(i);
      }
    }
  }

  lemma ValueBack(c: char)
    requires IsBase64(c)
    ensures 0 <= B64(c) && Char64(B64(c)) == c
  {
  }

  lemma CharBack(v: Sextet)
    ensures B64(Char64(v)) == v && Char64(v) != '='
  {
  }

  // ---------- the reference: 24-bit groups ----------

  // Three bytes as one number.
  function Group(a: Byte, b: Byte, c: Byte): (n: nat)
    ensures n < 0x100_0000
  {
    a as int * 0x1_0000 + b as int * 0x100 + c
  }

  // Its four sextets.
  function Split(n: nat): (v: seq<Sextet>)
    requires n < 0x100_0000
    ensures |v| == 4
  {
    [n / 0x4_0000, n / 0x1000 % 64, n / 64 % 64, n % 64]
  }

  function Text(v: seq<Sextet>): (s: string)
    ensures |s| == |v|
  {
    if v == [] then "" else [Char64(v[0])] + Text(v[1..])
  }

  // A last group of one or two bytes is filled up with zero bits, and padded.
  function Encoded(d: seq<Byte>): string {
    if |d| == 0 then ""
    else if |d| == 1 then Text(Split(Group(d[0], 0, 0))[..2]) + "=="
    else if |d| == 2 then Text(Split(Group(d[0], d[1], 0))[..3]) + "="
    else Text(Split(Group(d[0], d[1], d[2]))) + Encoded(d[3..])
  }

  // Four sextets as one number, and its three bytes.
  function Value(v: seq<Sextet>): (n: nat)
    requires |v| == 4
    ensures n < 0x100_0000
  {
    v[0] as int * 0x4_0000 + v[1] as int * 0x1000 + v[2] as int * 64 + v[3]
  }

  function Bytes(n: nat): (r: seq<Byte>)
    requires n < 0x100_0000
    ensures |r| == 3
  {
    [n / 0x1_0000, n / 0x100 % 0x100, n % 0x100]
  }

  // The bytes of a run of sextets: three for four, two for three, one for two.
  function Decoded(v: seq<Sextet>): seq<Byte> {
    if |v| < 2 then []
    else if |v| == 2 then Bytes(Value(v + [0, 0]))[..1]
    else if |v| == 3 then Bytes(Value(v + [0]))[..2]
    else Bytes(Value(v[..4])) + Decoded(v[4..])
  }

  // The values of the alphabet characters at the front.
  function Sextets(s: string): (v: seq<Sextet>)
    ensures |v| <= |s|
  {
    if s == "" || !IsBase64(s[0]) then [] else [B64(s[0])] + Sextets(s[1..])
  }

  function EncLength(n: nat): nat {
    (n + 2) / 3 * 4
  }

  function DecLength(n: nat): nat {
    3 * (n / 4) + 2
  }

  // Alphabet characters, not one more than a multiple of four, and then nothing but '='.
  predicate WellFormed(s: string) {
    |Sextets(s)| % 4 != 1 && forall i :: |Sextets(s)| <= i < |s| ==> s[i] == '='
  }

  // Room for m sextets: a full quantum is only written when more than three bytes are free.
  predicate Fits(m: nat, room: nat) {
    (m >= 4 ==> room > 3 * (m / 4)) && (m % 4 >= 2 ==> room >= 3 * (m / 4) + m % 4 - 1)
  }

  // ---------- the code's bit arithmetic is that of the groups ----------

  // (in[0] >> 2) & 0x3f, ((in[0] << 4) + (in[1] >> 4)) & 0x3f, ((in[1] << 2) + (in[2] >> 6)) & 0x3f
  // and in[2] & 0x3f
  function CodeSextets(a: int, b: int, c: int): (v: seq<Sextet>)
    requires 0 <= a < 256 && 0 <= b < 256 && 0 <= c < 256
    ensures |v| == 4
  {
    [a / 4 % 64, (a * 16 + b / 16) % 64, (b * 4 + c / 64) % 64, c % 64]
  }

  // The sextets of a group, one at a time.
  lemma HighSextet(a: nat, b: nat, c: nat)
    requires a < 256 && b < 256 && c < 256
    ensures (a * 0x1_0000 + b * 0x100 + c) / 0x4_0000 == a / 4
  {
    DivModUnique(a * 0x1_0000 + b * 0x100 + c, 0x4_0000, a / 4, a % 4 * 0x1_0000 + b * 0x100 + c);
  }

  lemma NextSextet(a: nat, b: nat, c: nat)
    requires a < 256 && b < 256 && c < 256
    ensures (a * 0x1_0000 + b * 0x100 + c) / 0x1000 == a * 16 + b / 16
  {
    DivModUnique(a * 0x1_0000 + b * 0x100 + c, 0x1000, a * 16 + b / 16, b % 16 * 0x100 + c);
  }

  lemma LowSextets(a: nat, b: nat, c: nat)
    requires a < 256 && b < 256 && c < 256
    ensures (a * 0x1_0000 + b * 0x100 + c) / 64 % 64 == (b * 4 + c / 64) % 64
    ensures (a * 0x1_0000 + b * 0x100 + c) % 64 == c % 64
  {
    DivModUnique(a * 0x1_0000 + b * 0x100 + c, 64, a * 1024 + b * 4 + c / 64, c % 64);
    SameMod(a * 16, b * 4 + c / 64, 64);
  }

  lemma SplitGroup(a: Byte, b: Byte, c: Byte)
    ensures Split(Group(a, b, c)) == CodeSextets(a, b, c)
  {
    HighSextet(a, b, c);
    NextSextet(a, b, c);
    LowSextets(a, b, c);
    var v, w := Split(Group(a, b, c)), CodeSextets(a, b, c);
    assert v[0] == w[0] by { SmallMod(a / 4, 64); }
    assert v[1] == w[1] && v[2] == w[2] && v[3] == w[3];
  }

  lemma SmallMod(r: nat, m: nat)
    requires r < m
    ensures r % m == r
  {
    DivModUnique(r, m, 0, r);
  }

  // Multiples of m do not change the remainder.
  lemma SameMod(q: nat, r: nat, m: nat)
    requires m > 0
    ensures (q * m + r) % m == r % m
  {
    assert q * m + r == (q + r / m) * m + r % m;
    DivModUnique(q * m + r, m, q + r / m, r % m);
  }

  // (b0 << 2) | (b1 >> 4), ((b1 << 4) & 0xf0) | (b2 >> 2) and ((b2 << 6) & 0xc0) | b3
  function CodeBytes(v0: int, v1: int, v2: int, v3: int): (r: seq<Byte>)
    requires 0 <= v0 < 64 && 0 <= v1 < 64 && 0 <= v2 < 64 && 0 <= v3 < 64
    ensures |r| == 3
  {
    [v0 * 4 + v1 / 16, v1 % 16 * 16 + v2 / 4, v2 % 4 * 64 + v3]
  }

  lemma BytesValue(v: seq<Sextet>)
    requires |v| == 4
    ensures Bytes(Value(v)) == CodeBytes(v[0], v[1], v[2], v[3])
  {
    var n := Value(v);
    var x, y, z, w: int := v[0], v[1], v[2], v[3];
    DivModUnique(n, 0x1_0000, x * 4 + y / 16, y % 16 * 0x1000 + z * 64 + w);
    DivModUnique(n, 0x100, x * 1024 + y * 16 + z / 4, z % 4 * 64 + w);
    SameMod(x * 4 + y / 16, y % 16 * 16 + z / 4, 0x100);
    SmallMod(y % 16 * 16 + z / 4, 0x100);
  }

  // A number is the value of its sextets, and the bytes of a group are the group.
  lemma SplitValue(n: nat)
    requires n < 0x100_0000
    ensures Value(Split(n)) == n
  {
    var x, y, z, w := n / 0x4_0000, n / 0x1000 % 64, n / 64 % 64, n % 64;
    assert n / 64 == n / 0x1000 * 64 + z;
    assert n / 0x1000 == x * 64 + y;
  }

  lemma GroupBytes(a: Byte, b: Byte, c: Byte)
    ensures Bytes(Group(a, b, c)) == [a, b, c]
  {
    var n := Group(a, b, c);
    var x: int, y: int, z: int := a, b, c;
    assert n / 0x1_0000 == x && n / 0x100 == x * 256 + y && n % 0x100 == z;
  }

  // Sextets that stand for missing bytes are zero.
  lemma SplitZeros(a: Byte, b: Byte)
    ensures Split(Group(a, 0, 0))[2..] == [0, 0] && Split(Group(a, b, 0))[3..] == [0]
  {
    SplitGroup(a, 0, 0);
    SplitGroup(a, b, 0);
  }

  // ---------- decoding undoes encoding ----------

  lemma {:induction false} TextBack(v: seq<Sextet>, rest: string)
    ensures Sextets(Text(v) + rest) == v + Sextets(rest)
  {
    if v == [] {
      assert Text(v) + rest == rest;
    } else {
      TextBack(v[1..], rest);
      HeadBack(v[0], Text(v[1..]) + rest);
      Regroup([Char64(v[0])], Text(v[1..]), rest);
      Regroup([v[0]], v[1..], Sextets(rest));
    }
  }

  lemma HeadBack(x: Sextet, t: string)
    ensures Sextets([Char64(x)] + t) == [x] + Sextets(t)
  {
    CharBack(x);
    SextetsStep([Char64(x)] + t);
    assert ([Char64(x)] + t)[1..] == t;
  }

  // s is the text of d: it has the sextets of d and is well formed, and they decode to d.
  ghost predicate TextFor(s: string, d: seq<Byte>) {
    && |s| == EncLength(|d|) && WellFormed(s) && Decoded(Sextets(s)) == d
    && |Sextets(s)| == SextetCount(|d|)
  }

  // Four for every three bytes, and one more than the bytes that are left.
  function SextetCount(n: nat): nat {
    4 * (n / 3) + (if n % 3 == 0 then 0 else n % 3 + 1)
  }

  lemma CountStep(n: nat)
    requires n >= 3
    ensures SextetCount(n) == 4 + SextetCount(n - 3)
    ensures EncLength(n) == 4 + EncLength(n - 3)
  {
    var q, r := (n - 3) / 3, (n - 3) % 3;
    DivModUnique(n, 3, q + 1, r);
    DivModUnique(n + 2, 3, (n - 1) / 3 + 1, (n - 1) % 3);
  }

  lemma {:induction false} EncodedSextets(d: seq<Byte>)
    ensures TextFor(Encoded(d), d)
    decreases |d|
  {
    if |d| == 0 {
    } else if |d| == 1 {
      OneByte(d[0]);
      assert d == [d[0]];
    } else if |d| == 2 {
      TwoBytes(d[0], d[1]);
      assert d == [d[0], d[1]];
    } else {
      EncodedSextets(d[3..]);
      ThreeMore(Split(Group(d[0], d[1], d[2])), Encoded(d[3..]), d);
    }
  }

  lemma OneByte(a: Byte)
    ensures TextFor(Encoded([a]), [a])
  {
    var n := Group(a, 0, 0);
    var v := Split(n);
    TextBack(v[..2], "==");
    SplitZeros(a, 0);
    SplitValue(n);
    GroupBytes(a, 0, 0);
    assert v[..2] + [0, 0] == v;
    PaddedText(v[..2], "==");
  }

  lemma TwoBytes(a: Byte, b: Byte)
    ensures TextFor(Encoded([a, b]), [a, b])
  {
    var n := Group(a, b, 0);
    var v := Split(n);
    SplitZeros(a, b);
    SplitValue(n);
    GroupBytes(a, b, 0);
    assert v[..3] + [0] == v;
    PaddedText(v[..3], "=");
  }

  lemma PaddedText(v: seq<Sextet>, pad: string)
    requires |v| % 4 != 1 && forall i :: 0 <= i < |pad| ==> pad[i] == '='
    ensures Sextets(Text(v) + pad) == v && WellFormed(Text(v) + pad)
  {
    TextBack(v, pad);
    NoSextets(pad);
    var s := Text(v) + pad;
    assert v + [] == v;
    forall i | |v| <= i < |s|
      ensures s[i] == '='
    {
      assert s[i] == pad[i - |v|];
    }
  }

  lemma NoSextets(pad: string)
    requires forall i :: 0 <= i < |pad| ==> pad[i] == '='
    ensures Sextets(pad) == []
  {
    assert pad != "" ==> pad[0] == '=';
  }

  lemma ThreeMore(v: seq<Sextet>, rest: string, d: seq<Byte>)
    requires |d| >= 3 && v == Split(Group(d[0], d[1], d[2])) && TextFor(rest, d[3..])
    ensures TextFor(Text(v) + rest, d)
  {
    TextBack(v, rest);
    CountStep(|d|);
    FourMore(v, rest);
    assert Decoded(v + Sextets(rest)) == d by {
      SplitValue(Group(d[0], d[1], d[2]));
      GroupBytes(d[0], d[1], d[2]);
      AfterFour(v, Sextets(rest), d);
    }
  }

  // Four more alphabet characters in front keep a text well formed.
  lemma FourMore(v: seq<Sextet>, rest: string)
    requires |v| == 4 && WellFormed(rest)
    ensures WellFormed(Text(v) + rest)
  {
    var s := Text(v) + rest;
    TextBack(v, rest);
    SameMod(1, |Sextets(rest)|, 4);
    forall i | |Sextets(s)| <= i < |s|
      ensures s[i] == '='
    {
      assert s[i] == rest[i - 4];
    }
  }

  lemma AfterFour(v: seq<Sextet>, rest: seq<Sextet>, d: seq<Byte>)
    requires |v| == 4 && |d| >= 3 && Bytes(Value(v)) == [d[0], d[1], d[2]] && Decoded(rest) == d[3..]
    ensures Decoded(v + rest) == d
  {
    assert (v + rest)[..4] == v && (v + rest)[4..] == rest;
  }

  // The documented buffer is large enough for what was encoded.
  lemma DecLengthFits(n: nat)
    ensures Fits(SextetCount(n), DecLength(EncLength(n)))
  {
    var q, r, m := n / 3, n % 3, SextetCount(n);
    DivModUnique(m, 4, q, if r == 0 then 0 else r + 1);
    DivModUnique(n + 2, 3, if r == 0 then q else q + 1, if r == 0 then 2 else r - 1);
    DivModUnique(EncLength(n), 4, (n + 2) / 3, 0);
    assert DecLength(EncLength(n)) >= 3 * q + 2;
    assert r > 0 ==> DecLength(EncLength(n)) >= 3 * q + 5;
  }

  // It has exactly one byte more than the decoder needs for full quanta.
  lemma DecLengthTight(q: nat, room: nat)
    requires q > 0
    ensures Fits(4 * q, room) <==> DecLength(4 * q) <= room + 1
    ensures DecLength(4 * q) == 3 * q + 2
  {
    DivModUnique(4 * q, 4, q, 0);
  }

  // ---------- fr_base64_encode ----------

  // The four characters of one turn of the loop.
  function Quad(d: seq<Byte>): (q: string)
    requires d != []
    ensures |q| == 4
  {
    var v := CodeSextets(d[0], if |d| > 1 then d[1] else 0, if |d| > 2 then d[2] else 0);
    [Char64(v[0]), Char64(v[1]), if |d| > 1 then Char64(v[2]) else '=', if |d| > 2 then Char64(v[3]) else '=']
  }

  lemma QuadEncodes(d: seq<Byte>)
    requires d != []
    ensures |d| < 3 ==> Encoded(d) == Quad(d)
    ensures |d| >= 3 ==> Encoded(d) == Quad(d) + Encoded(d[3..])
  {
    if |d| == 1 {
      QuadOne(d);
    } else if |d| == 2 {
      QuadTwo(d);
    } else {
      QuadThree(d);
    }
  }

  lemma QuadOne(d: seq<Byte>)
    requires |d| == 1
    ensures Encoded(d) == Quad(d)
  {
    SplitGroup(d[0], 0, 0);
    TextOf(CodeSextets(d[0], 0, 0));
  }

  lemma QuadTwo(d: seq<Byte>)
    requires |d| == 2
    ensures Encoded(d) == Quad(d)
  {
    SplitGroup(d[0], d[1], 0);
    TextOf(CodeSextets(d[0], d[1], 0));
  }

  lemma QuadThree(d: seq<Byte>)
    requires |d| >= 3
    ensures Encoded(d) == Quad(d) + Encoded(d[3..])
  {
    SplitGroup(d[0], d[1], d[2]);
    TextOf(CodeSextets(d[0], d[1], d[2]));
  }

  lemma TextOf(v: seq<Sextet>)
    requires |v| == 4
    ensures Text(v[..2]) == [Char64(v[0]), Char64(v[1])]
    ensures Text(v[..3]) == [Char64(v[0]), Char64(v[1]), Char64(v[2])]
    ensures Text(v) == [Char64(v[0]), Char64(v[1]), Char64(v[2]), Char64(v[3])]
  {
    TextJoin(v[..2], [v[2]]);
    TextJoin(v[..3], [v[3]]);
    assert v[..2] + [v[2]] == v[..3] && v[..3] + [v[3]] == v;
    assert v[..2] == [v[0]] + [v[1]];
    TextJoin([v[0]], [v[1]]);
  }

  lemma {:induction false} TextJoin(v: seq<Sextet>, w: seq<Sextet>)
    ensures Text(v + w) == Text(v) + Text(w)
  {
    if v == [] {
      assert v + w == w;
    } else {
      assert (v + w)[1..] == v[1..] + w;
      TextJoin(v[1..], w);
    }
  }

  // Writing into a buffer with outlen bytes; -1 exactly when the text and its NUL do not fit.
  method Encode(out: array<char>, outlen: nat, d: seq<Byte>) returns (r: int)
    requires 0 < out.Length && outlen <= out.Length
    modifies out
    ensures r == -1 <==> outlen < EncLength(|d|) + 1
    ensures r != -1 ==> r == |Encoded(d)| < outlen && out[..r] == Encoded(d) && out[r] == '\0'
    ensures forall i :: outlen <= i < out.Length && i > 0 ==> out[i] == old(out[i])
  {
    EncodedSextets(d);
    if outlen < EncLength(|d|) + 1 {
      out[0] := '\0';
      return -1;
    }
    var p, i := 0, 0;
    while i < |d|
      invariant 0 <= i <= |d| && 0 <= p <= |Encoded(d)| < outlen && out[..p] + Encoded(d[i..]) == Encoded(d)
      invariant forall k :: outlen <= k < out.Length ==> out[k] == old(out[k])
    {
      QuadEncodes(d[i..]);
      var next := if i + 3 <= |d| then i + 3 else |d|;
      ghost var rest := Encoded(d[next..]);
      assert |d| - i >= 3 ==> d[i..][3..] == d[next..];
      assert Encoded(d[i..]) == Quad(d[i..]) + rest;
      PutQuad(out, p, Quad(d[i..]), Encoded(d), rest);
      p, i := p + 4, next;
    }
    out[p] := '\0';
    r := p;
  }

  // Four times *p++ = ...
  method PutQuad(out: array<char>, p: nat, quad: string, ghost all: string, ghost rest: string)
    requires p <= |all| < out.Length && |quad| == 4 && out[..p] + (quad + rest) == all
    modifies out
    ensures p + 4 <= |all| && out[..p + 4] + rest == all
    ensures forall i :: 0 <= i < out.Length && !(p <= i < p + 4) ==> out[i] == old(out[i])
  {
    ghost var was := out[..p];
    assert |all| == p + 4 + |rest|;
    out[p], out[p + 1], out[p + 2], out[p + 3] := quad[0], quad[1], quad[2], quad[3];
    assert out[..p + 4] == was + quad;
    assert was + (quad + rest) == (was + quad) + rest;
  }

  // ---------- fr_base64_decode ----------

  // Four alphabet characters at the front.
  predicate FullQuantum(s: string) {
    |s| >= 4 && IsBase64(s[0]) && IsBase64(s[1]) && IsBase64(s[2]) && IsBase64(s[3])
  }

  function FirstFour(s: string): (v: seq<Sextet>)
    requires FullQuantum(s)
    ensures |v| == 4
  {
    [B64(s[0]), B64(s[1]), B64(s[2]), B64(s[3])]
  }

  lemma QuantumSextets(s: string)
    ensures FullQuantum(s) ==> Sextets(s) == FirstFour(s) + Sextets(s[4..])
    ensures FullQuantum(s) <==> |Sextets(s)| >= 4
  {
    if |s| >= 4 {
      assert s[1..][0] == s[1] && s[2..][0] == s[2] && s[3..][0] == s[3];
      assert s[1..][1..] == s[2..] && s[2..][1..] == s[3..] && s[3..][1..] == s[4..];
      SextetsStep(s);
      SextetsStep(s[1..]);
      SextetsStep(s[2..]);
      SextetsStep(s[3..]);
    }
  }

  lemma SextetsStep(s: string)
    requires s != ""
    ensures Sextets(s) == if IsBase64(s[0]) then [B64(s[0])] + Sextets(s[1..]) else []
  {
  }

  // The state of decoding after k full quanta.
  ghost predicate After(s: string, k: nat, done: seq<Byte>, room: nat) {
    && 4 * k <= |s| && |done| == 3 * k
    && |Sextets(s)| == 4 * k + |Sextets(s[4 * k..])|
    && Decoded(Sextets(s)) == done + Decoded(Sextets(s[4 * k..]))
    && (forall i :: |Sextets(s)| <= i < |s| ==> s[i] == s[4 * k..][i - 4 * k])
    && (k > 0 ==> room > 3 * k)
  }

  lemma StartDecoding(s: string, room: nat)
    ensures After(s, 0, [], room)
  {
    assert s[0..] == s;
    assert [] + Decoded(Sextets(s)) == Decoded(Sextets(s));
  }

  lemma OneQuantum(s: string, k: nat, done: seq<Byte>, room: nat)
    requires After(s, k, done, room) && FullQuantum(s[4 * k..]) && room > 3 * k + 3
    ensures After(s, k + 1, done + Bytes(Value(FirstFour(s[4 * k..]))), room)
  {
    var t, u := s[4 * k..], s[4 * (k + 1)..];
    assert t[4..] == u;
    QuantumSextets(t);
    var v := FirstFour(t);
    assert (v + Sextets(u))[..4] == v && (v + Sextets(u))[4..] == Sextets(u);
    var b := Bytes(Value(v));
    assert Decoded(Sextets(t)) == b + Decoded(Sextets(u));
    assert done + (b + Decoded(Sextets(u))) == (done + b) + Decoded(Sextets(u));
    forall i | |Sextets(s)| <= i < |s|
      ensures s[i] == u[i - 4 * (k + 1)]
    {
    }
  }

  // A full quantum that finds too little room, with sextets still to come.
  lemma NoRoom(s: string, k: nat, done: seq<Byte>, room: nat)
    requires After(s, k, done, room) && FullQuantum(s[4 * k..]) && room <= 3 * k + 3
    ensures !Fits(|Sextets(s)|, room)
  {
    QuantumSextets(s[4 * k..]);
    var m := |Sextets(s)|;
    assert m / 4 >= k + 1;
  }

  // The last quantum: what is left are m - 4 * k sextets, fewer than four.
  lemma LastQuantum(s: string, k: nat, done: seq<Byte>, room: nat)
    requires After(s, k, done, room) && !FullQuantum(s[4 * k..])
    ensures var v := Sextets(s[4 * k..]);
      && |v| < 4 && |Sextets(s)| / 4 == k && |Sextets(s)| % 4 == |v|
      && (Fits(|Sextets(s)|, room) <==> |v| < 2 || room >= 3 * k + |v| - 1)
      && |Decoded(Sextets(s))| == 3 * k + (if |v| < 2 then 0 else |v| - 1)
      && Decoded(Sextets(s)) == done + Decoded(v)
  {
    QuantumSextets(s[4 * k..]);
  }

  // The bytes of the last two or three sextets, as the code computes them.
  lemma LastOfTwo(v: seq<Sextet>)
    requires |v| == 2
    ensures Decoded(v) == CodeBytes(v[0], v[1], 0, 0)[..1]
  {
    BytesValue(v + [0, 0]);
  }

  lemma LastOfThree(v: seq<Sextet>)
    requires |v| == 3
    ensures Decoded(v) == CodeBytes(v[0], v[1], v[2], 0)[..2]
  {
    BytesValue(v + [0]);
  }

  lemma {:induction false} SextetAt(s: string, i: nat)
    ensures i < |Sextets(s)| ==> IsBase64(s[i]) && Sextets(s)[i] == B64(s[i])
    ensures i == |Sextets(s)| < |s| ==> !IsBase64(s[i])
    decreases i
  {
    if i > 0 && s != "" && IsBase64(s[0]) {
      SextetAt(s[1..], i - 1);
    }
  }

  // Decoding into the first outlen bytes of out: the length of what was decoded, or less than zero.
  method Decode(out: array<Byte>, outlen: nat, s: string) returns (r: int)
    requires outlen <= out.Length
    modifies out
    ensures r >= 0 <==> WellFormed(s) && Fits(|Sextets(s)|, outlen)
    ensures r >= 0 ==> r == |Decoded(Sextets(s))| <= outlen && out[..r] == Decoded(Sextets(s))
    ensures out[outlen..] == old(out[outlen..])
  {
    var k, ok, done := Quanta(out, outlen, s);
    if !ok {
      return 4 * k - |s|;
    }
    r := Finish(out, outlen, s, 4 * k, k, done);
  }

  // The full quanta: k of them are written, and ok says that there was room for all.
  method Quanta(out: array<Byte>, outlen: nat, s: string) returns (k: nat, ok: bool, ghost done: seq<Byte>)
    requires outlen <= out.Length
    modifies out
    ensures 3 * k <= outlen && After(s, k, done, outlen) && out[..3 * k] == done
    ensures ok ==> !FullQuantum(s[4 * k..])
    ensures !ok ==> 4 * k < |s| && !Fits(|Sextets(s)|, outlen)
    ensures out[outlen..] == old(out[outlen..])
  {
    hide FullAt, Fits, Decoded, Value, Bytes, Sextets;
    k, ok, done := 0, true, [];
    StartDecoding(s, outlen);
    FrontFour(s, 0);
    while FullAt(s, 4 * k)
      invariant 3 * k <= outlen && After(s, k, done, outlen) && out[..3 * k] == done
      invariant FullAt(s, 4 * k) <==> FullQuantum(s[4 * k..])
      invariant out[outlen..] == old(out[outlen..])
      decreases |s| - 4 * k
    {
      if outlen - 3 * k <= 3 {
        NoRoom(s, k, done, outlen);
        ok := false;
        return;
      }
      OneQuantum(s, k, done, outlen);
      done := PutQuantum(out, outlen, 3 * k, s[4 * k..], done);
      k := k + 1;
      FrontFour(s, 4 * k);
    }
  }

  predicate FullAt(s: string, p: nat)
    requires p <= |s|
  {
    |s| - p >= 4 && IsBase64(s[p]) && IsBase64(s[p + 1]) && IsBase64(s[p + 2]) && IsBase64(s[p + 3])
  }

  lemma FrontFour(s: string, p: nat)
    requires p <= |s|
    ensures FullAt(s, p) <==> FullQuantum(s[p..])
  {
  }

  // The three bytes of a full quantum.
  method PutQuantum(out: array<Byte>, outlen: nat, at: nat, s: string, ghost done: seq<Byte>)
    returns (ghost more: seq<Byte>)
    requires FullQuantum(s) && at + 3 <= outlen <= out.Length && out[..at] == done
    modifies out
    ensures more == done + Bytes(Value(FirstFour(s))) && out[..at + 3] == more
    ensures out[outlen..] == old(out[outlen..])
  {
    BytesValue(FirstFour(s));
    more := done + Bytes(Value(FirstFour(s)));
    Put(out, outlen, at, CodeBytes(B64(s[0]), B64(s[1]), B64(s[2]), B64(s[3])));
  }

  method Put(out: array<Byte>, outlen: nat, at: nat, b: seq<Byte>)
    requires at + |b| <= outlen <= out.Length
    modifies out
    ensures out[..at + |b|] == old(out[..at]) + b && out[outlen..] == old(out[outlen..])
  {
    forall i | 0 <= i < |b| {
      out[at + i] := b[i];
    }
  }

  // The first character from p on that is not in the alphabet.
  method Scan(s: string, p: nat) returns (q: nat)
    requires p <= |s|
    ensures q == p + |Sextets(s[p..])|
  {
    q := p;
    while q < |s| && IsBase64(s[q])
      invariant p <= q <= |s| && q - p <= |Sextets(s[p..])|
    {
      SextetAt(s[p..], q - p);
      q := q + 1;
    }
    SextetAt(s[p..], q - p);
  }

  // The last quantum, and the padding.
  method Finish(out: array<Byte>, outlen: nat, s: string, start: nat, k: nat, ghost done: seq<Byte>) returns (r: int)
    requires outlen <= out.Length && start == 4 * k && 3 * k <= outlen
    requires After(s, k, done, outlen) && !FullQuantum(s[start..]) && out[..3 * k] == done
    modifies out
    ensures r >= 0 <==> WellFormed(s) && Fits(|Sextets(s)|, outlen)
    ensures r >= 0 ==> r == |Decoded(Sextets(s))| <= outlen && out[..r] == Decoded(Sextets(s))
    ensures out[outlen..] == old(out[outlen..])
  {
    var q := Scan(s, start);
    LastQuantum(s, k, done, outlen);
    var n := q - start;
    if n == 1 || (n >= 2 && outlen - 3 * k < n - 1) {
      return start - |s|;
    }
    var o := PutLast(out, outlen, 3 * k, s[start..], n);
    assert out[..o] == Decoded(Sextets(s));
    var p := SkipPadding(s, q);
    r := if p < |s| then p - |s| else o;
  }

  // The one or two bytes of a last quantum of two or three characters.
  method PutLast(out: array<Byte>, outlen: nat, at: nat, s: string, n: nat) returns (o: nat)
    requires n == |Sextets(s)| < 4 && n != 1
    requires at <= outlen <= out.Length && (n >= 2 ==> at + n - 1 <= outlen)
    modifies out
    ensures o == at + (if n < 2 then 0 else n - 1)
    ensures out[..o] == old(out[..at]) + Decoded(Sextets(s))
    ensures out[outlen..] == old(out[outlen..])
  {
    Last(s, 0, Sextets(s));
    assert s[0..] == s;
    o := at;
    if n == 2 {
      LastOfTwo(Sextets(s));
      Put(out, outlen, at, CodeBytes(B64(s[0]), B64(s[1]), 0, 0)[..1]);
      o := o + 1;
    } else if n == 3 {
      LastOfThree(Sextets(s));
      Put(out, outlen, at, CodeBytes(B64(s[0]), B64(s[1]), B64(s[2]), 0)[..2]);
      o := o + 2;
    }
  }

  // The first character from q on that is not '='.
  method SkipPadding(s: string, q: nat) returns (p: nat)
    requires q <= |s|
    ensures q <= p <= |s| && (forall i :: q <= i < p ==> s[i] == '=') && (p < |s| ==> s[p] != '=')
  {
    p := q;
    while p < |s| && s[p] == '='
      invariant q <= p <= |s| && forall i :: q <= i < p ==> s[i] == '='
    {
      p := p + 1;
    }
  }

  lemma Last(s: string, p: nat, v: seq<Sextet>)
    requires p <= |s| && v == Sextets(s[p..])
    ensures forall i :: 0 <= i < |v| ==> p + i < |s| && v[i] == B64(s[p + i])
  {
    forall i | 0 <= i < |v|
      ensures p + i < |s| && v[i] == B64(s[p + i])
    {
      SextetAt(s[p..], i);
    }
  }

  // Decoding what was encoded, into a buffer of the documented length, gives the data back.
  lemma RoundTrip(d: seq<Byte>)
    ensures var s := Encoded(d);
      WellFormed(s) && Fits(|Sextets(s)|, DecLength(|s|)) && Decoded(Sextets(s)) == d
  {
    EncodedSextets(d);
    DecLengthFits(|d|);
  }

  // The whole way there and back, through the two buffers.
  method ThereAndBack(d: seq<Byte>) returns (r: seq<Byte>)
    ensures r == d
  {
    RoundTrip(d);
    EncodedSextets(d);
    var text := new char[EncLength(|d|) + 1];
    var n := Encode(text, text.Length, d);
    var data := new Byte[DecLength(n)];
    var m := Decode(data, data.Length, text[..n]);
    r := data[..m];
  }
}
