// Attribute numbers as dotted numbers, from dict.c: nested TLVs are packed into one 32-bit number and
// the vendor and the extended base into another (names as in section 2.7 of RFC 6929).
module Oid {
  import opened Options

  const MAX_TLV_NEST: nat := 4
  const PW_VENDOR_SPECIFIC: bv32 := 26
  const PW_IPV6_6RD_CONFIGURATION: bv32 := 173
  const DHCP_VENDOR: bv32 := 54
  // FR_MAX_VENDOR; multiplying and dividing by it are shifts by 24.
  const MAX_VENDOR: bv32 := 0x100_0000

  // fr_attr_mask and fr_attr_parent_mask
  function Mask(i: nat): bv32 {
    if i <= 2 then 0xff else if i == 3 then 0x1f else 0x7
  }

  function ParentMask(i: nat): bv32 {
    if i == 0 then 0 else if i == 1 then 0xff else if i == 2 then 0xffff else if i == 3 then 0xff_ffff else 0x1fff_ffff
  }

  // n << fr_attr_shift[i]
  function Up(n: bv32, i: nat): bv32 {
    if i == 0 then n else if i == 1 then n << 8 else if i == 2 then n << 16 else if i == 3 then n << 24 else n << 29
  }

  // attr >> fr_attr_shift[i]
  function Down(attr: bv32, i: nat): bv32 {
    if i == 0 then attr else if i == 1 then attr >> 8 else if i == 2 then attr >> 16
    else if i == 3 then attr >> 24 else attr >> 29
  }

  // The i-th number packed into attr.
  function Part(attr: bv32, i: nat): bv32 {
    Down(attr, i) & Mask(i)
  }

  // A registered vendor, with the sizes of its type and length fields.
  datatype Vendor = Vendor(kind: nat, length: nat)

  // The registered vendors, and the registered standard attributes with their `extended` flag.
  datatype Dict = Dict(vendors: map<bv32, Vendor>, standard: map<bv32, bool>)

  // What registering vendors and attributes checks.
  ghost predicate Registered(d: Dict) {
    (forall v :: v in d.vendors ==> v < MAX_VENDOR && d.vendors[v].kind in {1, 2, 4}) && 0 !in d.standard
  }

  // ---------- print_attr_oid ----------

  // The nested numbers from `nest` on, up to the first zero.
  function Nested(attr: bv32, nest: nat): seq<bv32>
    decreases 5 - nest
  {
    if nest > MAX_TLV_NEST || Part(attr, nest) == 0 then [] else [Part(attr, nest)] + Nested(attr, nest + 1)
  }

  function KindOf(d: Dict, vendor: bv32): nat {
    if vendor in d.vendors then d.vendors[vendor].kind else 1
  }

  // The numbers of the attribute itself, by the type of its vendor.
  function Numbers(kind: nat, attr: bv32): (r: seq<bv32>)
    ensures r != []
  {
    if kind == 2 then [attr & 0xffff]
    else if kind == 4 then [attr]
    else if attr >> 8 == 0 then [attr & 0xff]
    else [attr & 0xff] + Nested(attr, 1)
  }

  function Print(d: Dict, attr: bv32, vendor: bv32): (r: seq<bv32>)
    ensures r != []
  {
    var base := if vendor > MAX_VENDOR then [vendor >> 24] else [];
    var v := if vendor > MAX_VENDOR then vendor & 0xff_ffff else vendor;
    base + (if v != 0 then [PW_VENDOR_SPECIFIC, v] + Numbers(KindOf(d, v), attr) else Numbers(1, attr))
  }

  // ---------- dict_str2oid ----------

  // A number of the text, or None where it is malformed.
  type Token = Option<bv32>

  datatype Parsed = Done(attr: bv32, vendor: bv32) | Failed

  function Parse(d: Dict, ts: seq<Token>, value: bv32, vendor: bv32, depth: nat): Parsed
    requires ts != []
  {
    if depth > MAX_TLV_NEST then Failed
    else if vendor == 0 && value == 0 then (if depth != 0 then Failed else First(d, ts))
    else Keep(d, ts, value, vendor, depth)
  }

  // The first number: a plain attribute, an extended one, or the start of a VSA.
  function First(d: Dict, ts: seq<Token>): Parsed
    requires ts != []
  {
    if ts[0].None? then Failed
    else
      var attr := ts[0].value;
      if |ts| == 1 then Done(attr, 0)
      else if attr == PW_VENDOR_SPECIFIC then Vsa(d, ts, 0)
      else if attr !in d.standard then Done(attr, 0)
      else if d.standard[attr] then Vsa(d, ts[1..], attr << 24)
      else if attr == PW_IPV6_6RD_CONFIGURATION then Keep(d, ts[1..], attr, 0, 1)
      else Failed
  }

  // Handle VSAs, either in the normal space or in the extended space.
  function Vsa(d: Dict, ts: seq<Token>, vendor: bv32): Parsed
    requires ts != []
  {
    if ts[0].None? then Failed
    else if ts[0].value != PW_VENDOR_SPECIFIC then Keep(d, ts, ts[0].value, vendor, 0)
    else if |ts| == 1 then Done(PW_VENDOR_SPECIFIC, vendor)
    else if ts[1].None? || |ts| == 2 then Failed
    else Keep(d, ts[2..], 0, vendor | ts[1].value, 0)
  }

  // Vendors whose type field is not one byte have no TLVs, except for DHCP.
  function Keep(d: Dict, ts: seq<Token>, value: bv32, vendor: bv32, depth: nat): Parsed
    requires ts != []
  {
    if vendor != 0 && vendor in d.vendors && d.vendors[vendor].kind != 1 then
      var kind := d.vendors[vendor].kind;
      if value != 0 || depth != 0 || ts[0].None? then Failed
      else if kind < 3 && ts[0].value > (if kind == 0 then 1 else if kind == 1 then 0x100 else 0x1_0000) then Failed
      else if vendor == DHCP_VENDOR then Rest(ts, ts[0].value, vendor, depth)
      else Done(ts[0].value, vendor)
    else Tlv(ts, value, vendor, depth)
  }

  // The loop over the rest of the TLVs. Numbers beyond the deepest level are ignored.
  function Tlv(ts: seq<Token>, value: bv32, vendor: bv32, depth: nat): Parsed
    requires ts != []
    decreases |ts|, 1
  {
    if depth > MAX_TLV_NEST then Done(value, vendor)
    else if ts[0].None? || ts[0].value > Mask(depth) then Failed
    else Rest(ts, value | Up(ts[0].value, depth), vendor, depth)
  }

  function Rest(ts: seq<Token>, value: bv32, vendor: bv32, depth: nat): Parsed
    requires ts != []
    decreases |ts|, 0
  {
    if |ts| == 1 then Done(value, vendor) else Tlv(ts[1..], value, vendor, depth + 1)
  }

  // ---------- which attributes survive printing and parsing ----------

  function Tokens(ns: seq<bv32>): (ts: seq<Token>)
    ensures |ts| == |ns|
  {
    seq(|ns|, i requires 0 <= i < |ns| => Some(ns[i]))
  }

  // No number other than zero after a zero: what printing stops at.
  predicate Canonical(attr: bv32) {
    && (Part(attr, 1) == 0 ==> attr >> 8 == 0)
    && (Part(attr, 2) == 0 ==> attr >> 16 == 0)
    && (Part(attr, 3) == 0 ==> attr >> 24 == 0)
  }

  // Everything below level k.
  function Below(a: bv32, k: nat): bv32 {
    if k > MAX_TLV_NEST then a else a & ParentMask(k)
  }

  // The number that the nested numbers from level k up to the first zero make up, with what is below.
  function Kept(attr: bv32, k: nat): bv32
    requires 1 <= k <= 5
    decreases 5 - k
  {
    if k == 5 then attr else if Part(attr, k) == 0 then Below(attr, k) else Kept(attr, k + 1)
  }

  lemma KeptStep(attr: bv32, k: nat)
    requires 1 <= k <= 4 && Part(attr, k) != 0
    ensures Kept(attr, k) == Kept(attr, k + 1)
  {
  }

  lemma KeptEnds(attr: bv32, k: nat)
    requires 1 <= k <= 5 && (k == 5 || Part(attr, k) == 0)
    ensures Kept(attr, k) == Below(attr, k)
  {
  }

  lemma KeptIff(attr: bv32)
    ensures Kept(attr, 1) == attr <==> Canonical(attr)
  {
    hide Part, Kept, Below;
    ShiftsZero(attr);
    BelowOne(attr);
    BelowTwo(attr);
    BelowThree(attr);
    if Part(attr, 1) == 0 {
      KeptEnds(attr, 1);
    } else if Part(attr, 2) == 0 {
      KeptStep(attr, 1);
      KeptEnds(attr, 2);
    } else if Part(attr, 3) == 0 {
      KeptStep(attr, 1);
      KeptStep(attr, 2);
      KeptEnds(attr, 3);
    } else {
      KeptStep(attr, 1);
      KeptStep(attr, 2);
      KeptStep(attr, 3);
      KeptAll(attr);
    }
  }

  lemma BelowByte(attr: bv32)
    ensures Below(attr, 1) == attr & 0xff
  {
  }

  lemma BelowOne(attr: bv32)
    ensures Below(attr, 1) == attr <==> attr >> 8 == 0
  {
  }

  lemma BelowTwo(attr: bv32)
    ensures Below(attr, 2) == attr <==> attr >> 16 == 0
  {
  }

  lemma BelowThree(attr: bv32)
    ensures Below(attr, 3) == attr <==> attr >> 24 == 0
  {
  }

  lemma KeptAll(attr: bv32)
    ensures Kept(attr, 4) == attr
  {
    if Part(attr, 4) == 0 {
      TopBits(attr);
    } else {
      assert Kept(attr, 4) == Kept(attr, 5);
    }
  }

  lemma TopBits(a: bv32)
    ensures (a >> 29) & 0x7 == 0 ==> a & 0x1fff_ffff == a
  {
  }

  lemma ShiftsZero(a: bv32)
    ensures a >> 8 == 0 ==> a >> 16 == 0
    ensures a >> 16 == 0 ==> a >> 24 == 0
  {
  }

  // Packing the number at level k onto the lower ones.
  lemma Pack(a: bv32, k: nat)
    requires 1 <= k <= 4
    ensures Below(a, k) | Up(Part(a, k), k) == Below(a, k + 1) && Part(a, k) <= Mask(k)
  {
    if k == 1 {
      Pack1(a);
    } else if k == 2 {
      Pack2(a);
    } else if k == 3 {
      Pack3(a);
    } else {
      Pack4(a);
    }
  }

  lemma Pack1(a: bv32)
    ensures (a & 0xff) | (((a >> 8) & 0xff) << 8) == a & 0xffff && (a >> 8) & 0xff <= 0xff
  {
  }

  lemma Pack2(a: bv32)
    ensures (a & 0xffff) | (((a >> 16) & 0xff) << 16) == a & 0xff_ffff && (a >> 16) & 0xff <= 0xff
  {
  }

  lemma Pack3(a: bv32)
    ensures (a & 0xff_ffff) | (((a >> 24) & 0x1f) << 24) == a & 0x1fff_ffff && (a >> 24) & 0x1f <= 0x1f
  {
  }

  lemma Pack4(a: bv32)
    ensures (a & 0x1fff_ffff) | (((a >> 29) & 0x7) << 29) == a && (a >> 29) & 0x7 <= 0x7
  {
  }

  lemma TokensRest(ns: seq<bv32>)
    requires ns != []
    ensures Tokens(ns)[0] == Some(ns[0]) && Tokens(ns)[1..] == Tokens(ns[1..])
  {
  }

  // Parsing one more nested number p, with the value packed so far.
  lemma TlvOne(ns: seq<bv32>, value: bv32, vendor: bv32, depth: nat)
    requires ns != [] && depth <= 4 && ns[0] <= Mask(depth)
    ensures Tlv(Tokens(ns), value, vendor, depth)
         == if |ns| == 1 then Done(value | Up(ns[0], depth), vendor)
            else Tlv(Tokens(ns[1..]), value | Up(ns[0], depth), vendor, depth + 1)
  {
    TokensRest(ns);
  }

  // Parsing the nested numbers of attr packs them up to the first zero, from each level on.
  lemma {:induction false} TlvFrom(attr: bv32, vendor: bv32, k: nat)
    requires 1 <= k <= 4 && Part(attr, k) != 0
    ensures Tlv(Tokens([Part(attr, k)] + Nested(attr, k + 1)), Below(attr, k), vendor, k) == Done(Kept(attr, k), vendor)
    decreases 5 - k
  {
    hide Part, Below, Kept;
    KeptStep(attr, k);
    if k < 4 && Part(attr, k + 1) != 0 {
      TlvFrom(attr, vendor, k + 1);
      NestedIs(attr, k + 1);
      TlvNext(Part(attr, k), Nested(attr, k + 1), attr, vendor, k);
    } else {
      NestedEnds(attr, k + 1);
      KeptEnds(attr, k + 1);
      TlvLast(Part(attr, k), attr, vendor, k);
    }
  }

  lemma TlvNext(p: bv32, ns: seq<bv32>, attr: bv32, vendor: bv32, k: nat)
    requires 1 <= k <= 4 && p == Part(attr, k) && ns != []
    ensures Tlv(Tokens([p] + ns), Below(attr, k), vendor, k) == Tlv(Tokens(ns), Below(attr, k + 1), vendor, k + 1)
  {
    Pack(attr, k);
    assert ([p] + ns)[1..] == ns;
    TlvOne([p] + ns, Below(attr, k), vendor, k);
  }

  lemma TlvLast(p: bv32, attr: bv32, vendor: bv32, k: nat)
    requires 1 <= k <= 4 && p == Part(attr, k)
    ensures Tlv(Tokens([p] + []), Below(attr, k), vendor, k) == Done(Below(attr, k + 1), vendor)
  {
    Pack(attr, k);
    assert [p] + [] == [p];
    TlvOne([p], Below(attr, k), vendor, k);
  }

  lemma NestedIs(attr: bv32, k: nat)
    requires k <= 4 && Part(attr, k) != 0
    ensures Nested(attr, k) == [Part(attr, k)] + Nested(attr, k + 1)
  {
  }

  lemma NestedEnds(attr: bv32, k: nat)
    requires k > 4 || Part(attr, k) == 0
    ensures Nested(attr, k) == []
  {
  }

  // Parsing the numbers of a one-byte vendor packs them again, up to the first zero.
  lemma TlvNumbers(attr: bv32, vendor: bv32, value: bv32)
    requires value == 0 || value == attr & 0xff
    ensures Tlv(Tokens(Numbers(1, attr)), value, vendor, 0) == Done(Kept(attr, 1), vendor)
  {
    hide Part, Kept, Numbers, Tlv, Below;
    FirstNumber(attr);
    BelowByte(attr);
    TlvFirst(Numbers(1, attr), attr, vendor, value);
    if Part(attr, 1) == 0 {
      KeptEnds(attr, 1);
    } else {
      NestedIs(attr, 1);
      TlvFrom(attr, vendor, 1);
    }
  }

  lemma TlvFirst(ns: seq<bv32>, attr: bv32, vendor: bv32, value: bv32)
    requires ns != [] && ns[0] == attr & 0xff && (value == 0 || value == attr & 0xff)
    ensures Tlv(Tokens(ns), value, vendor, 0)
         == if |ns| == 1 then Done(attr & 0xff, vendor) else Tlv(Tokens(ns[1..]), attr & 0xff, vendor, 1)
  {
    LowByte(attr, value);
    TlvOne(ns, value, vendor, 0);
  }

  lemma FirstNumber(attr: bv32)
    ensures var ns := Numbers(1, attr);
      && ns[0] == attr & 0xff
      && (if Part(attr, 1) == 0 then |ns| == 1 else |ns| > 1 && ns[1..] == Nested(attr, 1))
  {
    NoParts(attr);
  }

  lemma NoParts(a: bv32)
    ensures a >> 8 == 0 ==> (a >> 8) & 0xff == 0
  {
  }

  lemma LowByte(a: bv32, value: bv32)
    requires value == 0 || value == a & 0xff
    ensures value | (a & 0xff) == a & 0xff && a & 0xff <= 0xff
  {
  }

  // The vendor in the result is the one parsing went on with.
  lemma {:induction false} TlvVendor(ts: seq<Token>, value: bv32, vendor: bv32, depth: nat)
    requires ts != []
    ensures var r := Tlv(ts, value, vendor, depth); r.Done? ==> r.vendor == vendor
    decreases |ts|
  {
    if depth <= MAX_TLV_NEST && ts[0].Some? && |ts| > 1 {
      TlvVendor(ts[1..], value | Up(ts[0].value, depth), vendor, depth + 1);
    }
  }

  lemma KeepVendor(d: Dict, ts: seq<Token>, value: bv32, vendor: bv32, depth: nat)
    requires ts != []
    ensures var r := Keep(d, ts, value, vendor, depth); r.Done? ==> r.vendor == vendor
  {
    TlvVendor(ts, value, vendor, depth);
    if |ts| > 1 && ts[0].Some? {
      TlvVendor(ts[1..], ts[0].value, vendor, depth + 1);
    }
  }

  lemma VsaVendor(d: Dict, ts: seq<Token>, vendor: bv32)
    requires ts != []
    ensures var r := Vsa(d, ts, vendor);
      r.Done? ==>
        if |ts| > 1 && ts[0] == Some(PW_VENDOR_SPECIFIC) then ts[1].Some? && r.vendor == vendor | ts[1].value
        else r.vendor == vendor
  {
    if ts[0].Some? {
      KeepVendor(d, ts, ts[0].value, vendor, 0);
      if |ts| > 2 && ts[1].Some? {
        KeepVendor(d, ts[2..], 0, vendor | ts[1].value, 0);
      }
    }
  }

  // Exactly which attributes survive.
  predicate Survives(d: Dict, attr: bv32, vendor: bv32) {
    if vendor == 0 then
      || attr >> 8 == 0
      || (attr & 0xff == PW_IPV6_6RD_CONFIGURATION && PlainRd(d) && Canonical(attr))
    else if vendor <= MAX_VENDOR then
      var kind := KindOf(d, vendor);
      if kind == 2 then attr >> 16 == 0 else kind == 4 || Canonical(attr)
    else
      var base, v := vendor >> 24, vendor & 0xff_ffff;
      Extends(d, base) && SurvivesInner(d, attr, v)
  }

  // The one standard attribute that has TLVs is registered, and not as an extended one.
  predicate PlainRd(d: Dict) {
    PW_IPV6_6RD_CONFIGURATION in d.standard && !d.standard[PW_IPV6_6RD_CONFIGURATION]
  }

  // The base is registered as an extended attribute; 26 is taken as the start of a VSA before that.
  predicate Extends(d: Dict, base: bv32) {
    base in d.standard && d.standard[base] && base != PW_VENDOR_SPECIFIC
  }

  predicate SurvivesInner(d: Dict, attr: bv32, v: bv32) {
    if v == 0 then (if attr & 0xff == PW_VENDOR_SPECIFIC then attr == PW_VENDOR_SPECIFIC else Canonical(attr))
    else if KindOf(d, v) == 1 then Canonical(attr)
    else attr >> 8 == 0
  }

  function Reparsed(d: Dict, attr: bv32, vendor: bv32): Parsed {
    Parse(d, Tokens(Print(d, attr, vendor)), 0, 0, 0)
  }

  lemma Bytes(a: bv32)
    ensures a & 0xff == a <==> a >> 8 == 0
    ensures a & 0xffff == a <==> a >> 16 == 0
    ensures a & 0xff <= 0xff && a & 0xffff <= 0xffff
  {
  }

  // A number of a standard attribute.
  lemma PlainIff(d: Dict, attr: bv32)
    requires Registered(d)
    ensures Reparsed(d, attr, 0) == Done(attr, 0) <==> Survives(d, attr, 0)
  {
    var ns := Numbers(1, attr);
    assert [] + ns == ns;
    assert Print(d, attr, 0) == ns;
    var ts := Tokens(ns);
    Bytes(attr);
    FirstNumber(attr);
    KeptIff(attr);
    TokensRest(ns);
    CanonicalPlain(attr);
    if |ns| > 1 {
      PlainNested(d, attr);
    }
  }

  lemma CanonicalPlain(attr: bv32)
    ensures Part(attr, 1) == 0 ==> (Canonical(attr) <==> attr >> 8 == 0)
    ensures Part(attr, 1) != 0 ==> attr >> 8 != 0
  {
    NoParts(attr);
    ShiftsZero(attr);
  }

  lemma PlainNested(d: Dict, attr: bv32)
    requires Registered(d) && Part(attr, 1) != 0
    ensures First(d, Tokens(Numbers(1, attr))) == Done(attr, 0)
      <==> attr & 0xff == PW_IPV6_6RD_CONFIGURATION && PlainRd(d) && Canonical(attr)
  {
    hide Mask, Kept;
    var ns, c := Numbers(1, attr), attr & 0xff;
    var ts := Tokens(ns);
    FirstNumber(attr);
    TokensRest(ns);
    Bytes(attr);
    CanonicalPlain(attr);
    if c == PW_VENDOR_SPECIFIC {
      VsaVendor(d, ts, 0);
      assert ts[1] == Some(Part(attr, 1));
    } else if c in d.standard && d.standard[c] {
      VsaVendor(d, ts[1..], c << 24);
      ExtendedNonZero(c, if |ts| > 2 then ns[2] else 0);
    } else if c in d.standard && c == PW_IPV6_6RD_CONFIGURATION {
      NestedIs(attr, 1);
      TlvFrom(attr, 0, 1);
      KeptIff(attr);
    }
  }

  lemma ExtendedNonZero(c: bv32, x: bv32)
    requires 0 < c <= 255
    ensures c << 24 != 0 && (c << 24) | x != 0
  {
  }

  lemma TokensConcat(a: seq<bv32>, b: seq<bv32>)
    ensures Tokens(a + b)[|a|..] == Tokens(b)
    ensures forall i :: 0 <= i < |a| ==> Tokens(a + b)[i] == Some(a[i])
  {
  }

  // One number of a vendor with a wider type field.
  lemma OneNumber(n: bv32)
    ensures |Tokens([n])| == 1 && Tokens([n])[0] == Some(n)
  {
  }

  lemma KeepNumbers(d: Dict, attr: bv32, vendor: bv32)
    requires Registered(d) && 0 < vendor <= MAX_VENDOR
    ensures Keep(d, Tokens(Numbers(KindOf(d, vendor), attr)), 0, vendor, 0)
         == Done(if KindOf(d, vendor) == 2 then attr & 0xffff else if KindOf(d, vendor) == 4 then attr else Kept(attr, 1), vendor)
  {
    Bytes(attr);
    if vendor in d.vendors && d.vendors[vendor].kind != 1 {
      OneNumber(if KindOf(d, vendor) == 2 then attr & 0xffff else attr);
    } else {
      TlvNumbers(attr, vendor, 0);
    }
  }

  // An attribute of a vendor.
  lemma VendorIff(d: Dict, attr: bv32, vendor: bv32)
    requires Registered(d) && 0 < vendor <= MAX_VENDOR
    ensures Reparsed(d, attr, vendor) == Done(attr, vendor) <==> Survives(d, attr, vendor)
  {
    var ns := Numbers(KindOf(d, vendor), attr);
    var all := [PW_VENDOR_SPECIFIC, vendor] + ns;
    assert Print(d, attr, vendor) == [] + all == all;
    TokensConcat([PW_VENDOR_SPECIFIC, vendor], ns);
    ZeroOr(vendor);
    assert Reparsed(d, attr, vendor) == Keep(d, Tokens(ns), 0, vendor, 0);
    KeepNumbers(d, attr, vendor);
    KeptIff(attr);
    Bytes(attr);
  }

  lemma ZeroOr(a: bv32)
    ensures 0 | a == a
  {
  }

  lemma ExtendedParts(vendor: bv32)
    requires vendor > 0x100_0000
    ensures vendor >> 24 <= 0xff && vendor >> 24 != 0 && vendor & 0xff_ffff < 0x100_0000
    ensures ((vendor >> 24) << 24) | (vendor & 0xff_ffff) == vendor
    ensures vendor & 0xff_ffff == 0 ==> (vendor >> 24) << 24 == vendor
  {
    ExtendedBits(vendor);
  }

  lemma ExtendedBits(a: bv32)
    ensures ((a >> 24) << 24) | (a & 0xff_ffff) == a
    ensures a & 0xff_ffff == 0 ==> (a >> 24) << 24 == a
    ensures a >= 0x100_0000 ==> a >> 24 != 0
    ensures a >> 24 <= 0xff && a & 0xff_ffff < 0x100_0000
  {
  }

  // What is printed after the extended base.
  function Inner(d: Dict, attr: bv32, v: bv32): (r: seq<bv32>)
    ensures r != [] && r[0] <= 0xff
  {
    Bytes(attr);
    if v != 0 then [PW_VENDOR_SPECIFIC, v] + Numbers(KindOf(d, v), attr) else Numbers(1, attr)
  }

  lemma PrintExtended(d: Dict, attr: bv32, vendor: bv32)
    requires vendor > MAX_VENDOR
    ensures Print(d, attr, vendor) == [vendor >> 24] + Inner(d, attr, vendor & 0xff_ffff)
  {
  }

  // An attribute in the extended space, with or without a vendor.
  lemma ExtendedIff(d: Dict, attr: bv32, vendor: bv32)
    requires Registered(d) && vendor > MAX_VENDOR
    ensures Reparsed(d, attr, vendor) == Done(attr, vendor) <==> Survives(d, attr, vendor)
  {
    hide Inner, SurvivesInner, Extends;
    PrintExtended(d, attr, vendor);
    ExtendedParts(vendor);
    ExtendedFirst(d, attr, vendor, vendor >> 24, vendor & 0xff_ffff);
  }

  lemma ExtendedFirst(d: Dict, attr: bv32, vendor: bv32, base: bv32, v: bv32)
    requires Registered(d) && vendor > MAX_VENDOR && (base << 24) | v == vendor && v < MAX_VENDOR
    requires v == 0 ==> base << 24 == vendor && vendor & 0xff_ffff == 0
    ensures Parse(d, Tokens([base] + Inner(d, attr, v)), 0, 0, 0) == Done(attr, vendor)
      <==> Extends(d, base) && SurvivesInner(d, attr, v)
  {
    var rest := Inner(d, attr, v);
    if Extends(d, base) {
      FirstExtended(d, base, rest);
      ExtendedInner(d, attr, vendor, base << 24, v);
    } else {
      NotExtended(d, attr, vendor, base, rest);
    }
  }

  lemma FirstExtended(d: Dict, base: bv32, rest: seq<bv32>)
    requires rest != [] && Extends(d, base)
    ensures Parse(d, Tokens([base] + rest), 0, 0, 0) == Vsa(d, Tokens(rest), base << 24)
  {
    TokensConcat([base], rest);
  }

  lemma ExtendedInner(d: Dict, attr: bv32, vendor: bv32, top: bv32, v: bv32)
    requires Registered(d) && vendor > MAX_VENDOR && top | v == vendor && v < MAX_VENDOR
    requires v == 0 ==> top == vendor && vendor & 0xff_ffff == 0
    ensures Vsa(d, Tokens(Inner(d, attr, v)), top) == Done(attr, vendor) <==> SurvivesInner(d, attr, v)
  {
    if v == 0 {
      ExtendedPlain(d, attr, vendor);
    } else {
      ExtendedVendor(d, attr, top, v);
    }
  }

  // A first number that is not a registered extended attribute never leads back to an extended one.
  lemma NotExtended(d: Dict, attr: bv32, vendor: bv32, base: bv32, rest: seq<bv32>)
    requires vendor > MAX_VENDOR && rest != [] && !Extends(d, base)
    requires rest[0] <= 0xff
    ensures Parse(d, Tokens([base] + rest), 0, 0, 0) != Done(attr, vendor)
  {
    var ts := Tokens([base] + rest);
    TokensConcat([base], rest);
    TokensRest(rest);
    if base == PW_VENDOR_SPECIFIC {
      VsaVendor(d, ts, 0);
      ZeroOr(rest[0]);
      assert ts[1] == Some(rest[0]);
    } else if base in d.standard && base == PW_IPV6_6RD_CONFIGURATION {
      KeepVendor(d, ts[1..], base, 0, 1);
    }
  }

  lemma ExtendedPlain(d: Dict, attr: bv32, vendor: bv32)
    requires Registered(d) && vendor >= MAX_VENDOR && vendor & 0xff_ffff == 0
    ensures Vsa(d, Tokens(Numbers(1, attr)), vendor) == Done(attr, vendor)
      <==> if attr & 0xff == PW_VENDOR_SPECIFIC then attr == PW_VENDOR_SPECIFIC else Canonical(attr)
  {
    FirstNumber(attr);
    TokensRest(Numbers(1, attr));
    if attr & 0xff != PW_VENDOR_SPECIFIC {
      KeptIff(attr);
      TlvNumbers(attr, vendor, attr & 0xff);
    } else {
      ExtendedTwentySix(d, attr, vendor);
    }
  }

  // In the extended space, 26 is always taken as the start of a VSA.
  lemma ExtendedTwentySix(d: Dict, attr: bv32, vendor: bv32)
    requires vendor & 0xff_ffff == 0 && attr & 0xff == PW_VENDOR_SPECIFIC
    ensures Vsa(d, Tokens(Numbers(1, attr)), vendor) == Done(attr, vendor) <==> attr == PW_VENDOR_SPECIFIC
  {
    var ns := Numbers(1, attr);
    FirstNumber(attr);
    TokensRest(ns);
    if |ns| > 1 {
      VsaVendor(d, Tokens(ns), vendor);
      assert Tokens(ns)[1] == Some(Part(attr, 1));
      OrDiffers(vendor, Part(attr, 1));
      TwentySix(attr);
    }
  }

  lemma OrDiffers(vendor: bv32, p: bv32)
    requires vendor & 0xff_ffff == 0 && p != 0 && p <= 0xff
    ensures vendor | p != vendor
  {
  }

  lemma TwentySix(attr: bv32)
    ensures (attr >> 8) & 0xff != 0 ==> attr != PW_VENDOR_SPECIFIC
  {
  }

  lemma ExtendedVendor(d: Dict, attr: bv32, top: bv32, v: bv32)
    requires Registered(d) && 0 < v < MAX_VENDOR && top | v >= MAX_VENDOR
    ensures Vsa(d, Tokens([PW_VENDOR_SPECIFIC, v] + Numbers(KindOf(d, v), attr)), top) == Done(attr, top | v)
      <==> if KindOf(d, v) == 1 then Canonical(attr) else attr >> 8 == 0
  {
    var ns := Numbers(KindOf(d, v), attr);
    TokensConcat([PW_VENDOR_SPECIFIC, v], ns);
    assert Vsa(d, Tokens([PW_VENDOR_SPECIFIC, v] + ns), top) == Keep(d, Tokens(ns), 0, top | v, 0) == Tlv(Tokens(ns), 0, top | v, 0);
    if KindOf(d, v) == 1 {
      TlvNumbers(attr, top | v, 0);
      KeptIff(attr);
    } else {
      var n := if KindOf(d, v) == 2 then attr & 0xffff else attr;
      assert ns == [n];
      OneTlv(n, top | v);
      WideNumber(attr, n);
    }
  }

  lemma OneTlv(n: bv32, vendor: bv32)
    ensures Tlv(Tokens([n]), 0, vendor, 0) == if n > 0xff then Failed else Done(n, vendor)
  {
    OneNumber(n);
    ZeroOr(n);
  }

  lemma WideNumber(attr: bv32, n: bv32)
    requires n == attr & 0xffff || n == attr
    ensures n <= 0xff && n == attr <==> attr >> 8 == 0
  {
  }

  // Parsing what was printed gives the attribute back exactly when it is one that survives.
  lemma RoundTripIff(d: Dict, attr: bv32, vendor: bv32)
    requires Registered(d)
    ensures Reparsed(d, attr, vendor) == Done(attr, vendor) <==> Survives(d, attr, vendor)
  {
    if vendor == 0 {
      PlainIff(d, attr);
    } else if vendor <= MAX_VENDOR {
      VendorIff(d, attr, vendor);
    } else {
      ExtendedIff(d, attr, vendor);
    }
  }
}
