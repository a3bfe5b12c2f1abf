// The cases of dict_str2oid and dict_parent with their numbers written out: which numbers are accepted at each
// place of a dotted text, what they are packed to, and which vendors may nest.
module OidCases {
  import opened Options
  import opened Oid
  import opened OidTree
  import opened OidParents

  // One number is an attribute without a vendor.
  lemma OneNumberIs(d: Dict, n: bv32)
    ensures Parse(d, [Some(n)], 0, 0, 0) == Done(n, 0)
  {
  }

  // A text that starts with another number than 26: anything may follow an unregistered attribute, and is
  // ignored; only 173 and the extended attributes may be followed by numbers.
  lemma StandardCases(d: Dict, n: bv32, ts: seq<Token>)
    requires ts != [] && n != 26
    ensures n !in d.standard ==> Parse(d, [Some(n)] + ts, 0, 0, 0) == Done(n, 0)
    ensures n in d.standard && !d.standard[n] && n != 173 ==> Parse(d, [Some(n)] + ts, 0, 0, 0) == Failed
  {
  }

  // A malformed first number, a vendor without a number, levels below the fifth, and levels without anything
  // above them are refused.
  lemma Refused(d: Dict, ts: seq<Token>, v: bv32, value: bv32, vendor: bv32, depth: nat)
    ensures Parse(d, [None] + ts, 0, 0, 0) == Failed
    ensures Parse(d, [Some(26), Some(v)], 0, 0, 0) == Failed
    ensures ts != [] && depth > 4 ==> Parse(d, ts, value, vendor, depth) == Failed
    ensures ts != [] && depth > 0 ==> Parse(d, ts, 0, 0, depth) == Failed
  {
  }

  // The number of a vendor's attribute: a byte, unless the vendor has a wider type; then up to 2^16, which
  // is one too many, for two bytes, and anything for three or more.
  lemma VendorNumber(d: Dict, v: bv32, n: bv32)
    requires v != 0
    ensures Parse(d, [Some(26), Some(v), Some(n)], 0, 0, 0) ==
      if n <= Largest(KindOf(d, v)) then Done(n, v) else Failed
  {
    hide Keep, Largest;
    var ts: seq<Token> := [Some(26), Some(v), Some(n)];
    assert ts[2..] == [Some(n)];
    ZeroOr(v);
    VsaOwn(d, ts, 0);
    KeepOne(d, v, n);
  }

  // The largest number of an attribute of a vendor with types of that many bytes.
  function Largest(kind: nat): bv32 {
    if kind == 0 then 1 else if kind == 1 then 255 else if kind == 2 then 65536 else 0xffff_ffff
  }

  lemma KeepOne(d: Dict, v: bv32, n: bv32)
    requires v != 0
    ensures Keep(d, [Some(n)], 0, v, 0) ==
      if n <= Largest(KindOf(d, v)) then Done(n, v) else Failed
  {
    hide Tlv, Rest;
    OneTlv(n, v);
    assert Tokens([n]) == [Some(n)];
    RestOne(n, v);
  }

  // A number without a vendor of its own below an extended attribute is a byte; 26 stands for VSAs there.
  lemma ExtendedNumber(d: Dict, base: bv32, n: bv32)
    requires Extends(d, base) && base << 24 !in d.vendors
    ensures Parse(d, [Some(base), Some(n)], 0, 0, 0) == if n <= 255 then Done(n, base << 24) else Failed
  {
    hide Tlv, Rest;
    var ts: seq<Token> := [Some(base), Some(n)];
    assert ts[1..] == [Some(n)];
    if n != 26 {
      TlvTwice(n, base << 24);
    }
  }

  // The numbers of a vendor with types and lengths of one byte: three bytes, five bits and three bits, from the
  // lowest bits up. A number after the fifth would be ignored.
  lemma FiveNumbers(d: Dict, v: bv32, n0: bv32, n1: bv32, n2: bv32, n3: bv32, n4: bv32)
    requires v != 0 && (v in d.vendors ==> d.vendors[v].kind == 1)
    ensures Parse(d, [Some(26), Some(v), Some(n0), Some(n1), Some(n2), Some(n3), Some(n4)], 0, 0, 0) ==
      if n0 <= 255 && n1 <= 255 && n2 <= 255 && n3 <= 31 && n4 <= 7 then Done(Packed(n0, n1, n2, n3, n4), v) else Failed
  {
    hide Keep, Packed;
    var ts: seq<Token> := [Some(26), Some(v), Some(n0), Some(n1), Some(n2), Some(n3), Some(n4)];
    var us: seq<Token> := [Some(n0), Some(n1), Some(n2), Some(n3), Some(n4)];
    assert ts[2..] == us;
    ZeroOr(v);
    VsaOwn(d, ts, 0);
    KeepTlv(d, us, v);
    FiveTlvs(v, n0, n1, n2, n3, n4);
  }

  function Packed(n0: bv32, n1: bv32, n2: bv32, n3: bv32, n4: bv32): bv32 {
    (((n0 | (n1 << 8)) | (n2 << 16)) | (n3 << 24)) | (n4 << 29)
  }

  lemma FiveTlvs(v: bv32, n0: bv32, n1: bv32, n2: bv32, n3: bv32, n4: bv32)
    ensures Tlv([Some(n0), Some(n1), Some(n2), Some(n3), Some(n4)], 0, v, 0) ==
      if n0 <= 255 && n1 <= 255 && n2 <= 255 && n3 <= 31 && n4 <= 7 then Done(Packed(n0, n1, n2, n3, n4), v) else Failed
  {
    hide Tlv, Add, InRange, Packed;
    var a := Add(0, n0, 0);
    TlvCons([Some(n0), Some(n1), Some(n2), Some(n3), Some(n4)], n0, 0, v, 0);
    TlvCons([Some(n1), Some(n2), Some(n3), Some(n4)], n1, a, v, 1);
    assert [Some(n0), Some(n1), Some(n2), Some(n3), Some(n4)][1..] == [Some(n1), Some(n2), Some(n3), Some(n4)];
    assert [Some(n1), Some(n2), Some(n3), Some(n4)][1..] == [Some(n2), Some(n3), Some(n4)];
    ThreeTlvs(Add(a, n1, 1), v, n2, n3, n4);
    PackedIs(n0, n1, n2, n3, n4);
    Limits(n0, n1, n2, n3, n4);
  }

  lemma ThreeTlvs(a: bv32, v: bv32, n2: bv32, n3: bv32, n4: bv32)
    ensures Tlv([Some(n2), Some(n3), Some(n4)], a, v, 2) ==
      if InRange(n2, 2) && InRange(n3, 3) && InRange(n4, 4) then Done(Add(Add(Add(a, n2, 2), n3, 3), n4, 4), v) else Failed
  {
    hide Tlv, Add, InRange;
    TlvCons([Some(n2), Some(n3), Some(n4)], n2, a, v, 2);
    TlvCons([Some(n3), Some(n4)], n3, Add(a, n2, 2), v, 3);
    TlvCons([Some(n4)], n4, Add(Add(a, n2, 2), n3, 3), v, 4);
    assert [Some(n2), Some(n3), Some(n4)][1..] == [Some(n3), Some(n4)] && [Some(n3), Some(n4)][1..] == [Some(n4)];
  }

  predicate InRange(n: bv32, depth: nat) {
    n <= Mask(depth)
  }

  lemma PackedIs(n0: bv32, n1: bv32, n2: bv32, n3: bv32, n4: bv32)
    ensures Add(Add(Add(Add(Add(0, n0, 0), n1, 1), n2, 2), n3, 3), n4, 4) == Packed(n0, n1, n2, n3, n4)
  {
    hide Add;
    var a1 := n0 | (n1 << 8);
    var a2 := a1 | (n2 << 16);
    var a3 := a2 | (n3 << 24);
    FirstAdd(n0);
    AddAt1(n0, n1);
    AddAt2(a1, n2);
    AddAt3(a2, n3);
    AddAt4(a3, n4);
  }

  lemma FirstAdd(n: bv32)
    ensures Add(0, n, 0) == n
  {
  }

  lemma AddAt1(a: bv32, n: bv32)
    ensures Add(a, n, 1) == a | (n << 8)
  {
  }

  lemma AddAt2(a: bv32, n: bv32)
    ensures Add(a, n, 2) == a | (n << 16)
  {
  }

  lemma AddAt3(a: bv32, n: bv32)
    ensures Add(a, n, 3) == a | (n << 24)
  {
  }

  lemma AddAt4(a: bv32, n: bv32)
    ensures Add(a, n, 4) == a | (n << 29)
  {
  }

  lemma Limits(n0: bv32, n1: bv32, n2: bv32, n3: bv32, n4: bv32)
    ensures InRange(n0, 0) <==> n0 <= 255
    ensures InRange(n1, 1) <==> n1 <= 255
    ensures InRange(n2, 2) <==> n2 <= 255
    ensures InRange(n3, 3) <==> n3 <= 31
    ensures InRange(n4, 4) <==> n4 <= 7
  {
  }

  lemma KeepTlv(d: Dict, ts: seq<Token>, v: bv32)
    requires ts != [] && (v in d.vendors ==> d.vendors[v].kind == 1)
    ensures Keep(d, ts, 0, v, 0) == Tlv(ts, 0, v, 0)
  {
    hide Tlv;
  }

  lemma TlvTurn(ts: seq<Token>, value: bv32, vendor: bv32, depth: nat)
    requires ts != [] && ts[0].Some? && depth <= 4
    ensures Tlv(ts, value, vendor, depth) ==
      if !InRange(ts[0].value, depth) then Failed
      else if |ts| == 1 then Done(Add(value, ts[0].value, depth), vendor)
      else Tlv(ts[1..], Add(value, ts[0].value, depth), vendor, depth + 1)
  {
    hide Up, Mask;
  }

  lemma TlvCons(all: seq<Token>, n: bv32, value: bv32, vendor: bv32, depth: nat)
    requires depth <= 4 && all != [] && all[0] == Some(n)
    ensures Tlv(all, value, vendor, depth) ==
      if !InRange(n, depth) then Failed
      else if |all| == 1 then Done(Add(value, n, depth), vendor)
      else Tlv(all[1..], Add(value, n, depth), vendor, depth + 1)
  {
    hide Tlv, Add, InRange;
    TlvTurn(all, value, vendor, depth);
  }

  // The parent of a nested attribute is looked up for DHCP, which is vendor 54, and for vendors whose types
  // and lengths have one byte each.
  lemma NestedParent(d: Dict, v: bv32, n0: bv32, n1: bv32)
    requires 0 < v < 0x100_0000 && n0 <= 255 && 0 < n1 <= 255
    ensures ParentOf(d, n0 | (n1 << 8), v) ==
      if v in d.vendors && (v == 54 || (d.vendors[v].kind == 1 && d.vendors[v].length == 1)) then Some(Key(n0, v)) else None
  {
    hide Strip;
    SmallVendor(v);
    TwoLevels(n0, n1);
    StripAdded(n0, n1, 1);
    assert Add(n0, n1, 1) == n0 | (n1 << 8);
  }

  lemma SmallVendor(v: bv32)
    requires v < 0x100_0000
    ensures v & 0xff_ffff == v
  {
  }

  lemma TwoLevels(n0: bv32, n1: bv32)
    requires n0 <= 255
    ensures Fits(n0, 1)
  {
  }

  // A vendor's own attribute has no parent, and 173 has none either.
  lemma NoParent(d: Dict, v: bv32, n: bv32)
    requires n <= 255
    ensures 0 < v < 0x100_0000 ==> ParentOf(d, n, v) == None
    ensures ParentOf(d, n, 0) == None && ParentOf(d, 173, 0) == None
  {
    hide Strip;
    SmallParent(d, n);
    if 0 < v < 0x100_0000 {
      SmallVendor(v);
      ByteFits(n);
      StripDown(n, 1, 4);
      FitsAbove(n, 1, 1);
      OneByte(n);
    }
  }

  lemma OneByte(n: bv32)
    requires n <= 255
    ensures Strip(n, 4) == None
  {
    hide Cut;
    ByteFits(n);
    FitsAbove(n, 1, 2);
    FitsAbove(n, 1, 3);
    FitsAbove(n, 1, 4);
    FitsCut(n, 1);
    FitsCut(n, 2);
    FitsCut(n, 3);
    FitsCut(n, 4);
    assert Strip(n, 2) == Strip(n, 1) == Strip(n, 0);
    assert Strip(n, 4) == Strip(n, 3) == Strip(n, 2);
  }

  // A number is at a level exactly when the number unpacked there is not zero.
  lemma AtLevelIff(a: bv32, i: nat)
    requires i <= 4
    ensures AtLevel(a, i) <==> Part(a, i) != 0
  {
    if i == 0 {
      Level0(a);
    } else if i == 1 {
      Level1(a);
    } else if i == 2 {
      Level2(a);
    } else if i == 3 {
      Level3(a);
    } else {
      Level4(a);
    }
  }

  lemma Level0(a: bv32)
    ensures AtLevel(a, 0) <==> Part(a, 0) != 0
  {
  }

  lemma Level1(a: bv32)
    ensures AtLevel(a, 1) <==> Part(a, 1) != 0
  {
  }

  lemma Level2(a: bv32)
    ensures AtLevel(a, 2) <==> Part(a, 2) != 0
  {
  }

  lemma Level3(a: bv32)
    ensures AtLevel(a, 3) <==> Part(a, 3) != 0
  {
  }

  lemma Level4(a: bv32)
    ensures AtLevel(a, 4) <==> Part(a, 4) != 0
  {
  }

  // The child of a vendor's own attribute, and of an attribute without a vendor.
  lemma ChildIs(v: bv32, n0: bv32, n1: bv32)
    requires v != 0 && 0 < n0 <= 255
    ensures ChildOf(Key(n0, v), n1, v) == Some(Key(n0 | ((n1 & 0xff) << 8), v))
    ensures ChildOf(Key(n0, 0), n1, 0) == Some(Key(n1, n0 << 24))
    ensures ChildOf(Key(n0, v), n1, 0) == None
  {
    hide Nest, Fits, AtLevel, InExtended;
    ByteFits(n0);
    AtBottom(n0);
    ExtendedBase(n0);
    DeepestFits(n0, 0);
    NestIs(n0, n1, 0);
    AddAt1(n0, n1 & 0xff);
  }

  lemma AtBottom(n: bv32)
    requires 0 < n <= 255
    ensures AtLevel(n, 0)
  {
  }
}
