// Parents of attributes and their texts: for a text that dict_str2oid parses, when dict_parent finds the
// attribute of the text without its last number. The debugging code of dict_str2oid compares the two.
module OidParents {
  import opened Options
  import opened Oid
  import opened OidText
  import opened OidTree

  // ---------- one more number at the end of the text ----------

  // What parsing gives with a number t after the rest, which is at level k.
  predicate Longer(s: Parsed, l: Parsed, t: Token, k: nat) {
    l.Done? ==>
      && s.Done? && s.vendor == l.vendor
      && (s == l || (1 <= k <= 4 && t.Some? && t.value <= Mask(k) && l.attr == Add(s.attr, t.value, k)))
  }

  lemma LastAdds(t: Token, value: bv32, vendor: bv32, k: nat)
    requires k >= 1
    ensures Longer(Done(value, vendor), Tlv([t], value, vendor, k), t, k)
  {
    hide Up, Mask;
  }

  lemma {:induction false} TlvAdds(ts: seq<Token>, t: Token, value: bv32, vendor: bv32, depth: nat)
    requires ts != []
    ensures Longer(Tlv(ts, value, vendor, depth), Tlv(ts + [t], value, vendor, depth), t, depth + |ts|)
    decreases |ts|, 1
  {
    hide Up, Mask, Longer, Rest;
    if depth > MAX_TLV_NEST || ts[0].None? || ts[0].value > Mask(depth) {
      SameIsLonger(Tlv(ts, value, vendor, depth), t, depth + |ts|);
    } else {
      RestAdds(ts, t, value | Up(ts[0].value, depth), vendor, depth);
    }
  }

  lemma SameIsLonger(s: Parsed, t: Token, k: nat)
    ensures Longer(s, s, t, k)
  {
  }

  lemma {:induction false} RestAdds(ts: seq<Token>, t: Token, value: bv32, vendor: bv32, depth: nat)
    requires ts != []
    ensures Longer(Rest(ts, value, vendor, depth), Rest(ts + [t], value, vendor, depth), t, depth + |ts|)
    decreases |ts|, 0
  {
    hide Longer, Tlv;
    assert (ts + [t])[1..] == ts[1..] + [t];
    if |ts| == 1 {
      assert ts[1..] + [t] == [t];
      LastAdds(t, value, vendor, depth + 1);
    } else {
      TlvAdds(ts[1..], t, value, vendor, depth + 1);
    }
  }

  lemma KeepAdds(d: Dict, ts: seq<Token>, t: Token, value: bv32, vendor: bv32, depth: nat)
    requires ts != []
    ensures Longer(Keep(d, ts, value, vendor, depth), Keep(d, ts + [t], value, vendor, depth), t, depth + |ts|)
  {
    hide Longer, Tlv, Rest;
    TlvAdds(ts, t, value, vendor, depth);
    SameIsLonger(Keep(d, ts, value, vendor, depth), t, depth + |ts|);
    if ts[0].Some? {
      RestAdds(ts, t, ts[0].value, vendor, depth);
    }
  }

  // The level of the next number of the text: the numbers so far without those of the extended base and
  // of the vendor.
  function NextLevel(d: Dict, ts: seq<Token>): nat
    requires ts != []
  {
    var before :=
      if ts[0].None? then 0
      else if ts[0].value == PW_VENDOR_SPECIFIC then 2
      else if Extends(d, ts[0].value) then (if |ts| > 1 && ts[1] == Some(PW_VENDOR_SPECIFIC) then 3 else 1)
      else 0;
    if |ts| < before then 0 else |ts| - before
  }

  // The first number below an extended attribute.
  predicate BelowExtended(s: Parsed, l: Parsed, t: Token) {
    s.Done? && l.Done? && s.vendor == 0 && l.vendor == InExtended(s.attr, 0) && t == Some(l.attr) && l.attr < 256
  }

  lemma VsaShort(d: Dict, ts: seq<Token>, vendor: bv32)
    requires ts != []
    ensures ts[0].None? ==> Vsa(d, ts, vendor).Failed?
    ensures ts[0] == Some(PW_VENDOR_SPECIFIC) && |ts| > 1 && (|ts| == 2 || ts[1].None?) ==> Vsa(d, ts, vendor).Failed?
  {
  }

  // A vendor of its own, and no vendor: where Vsa goes on with Keep.
  lemma VsaOwn(d: Dict, ts: seq<Token>, vendor: bv32)
    requires |ts| > 2 && ts[0] == Some(PW_VENDOR_SPECIFIC) && ts[1].Some?
    ensures Vsa(d, ts, vendor) == Keep(d, ts[2..], 0, vendor | ts[1].value, 0)
  {
    hide Keep;
  }

  lemma VsaNone(d: Dict, ts: seq<Token>, vendor: bv32)
    requires ts != [] && ts[0].Some? && ts[0].value != PW_VENDOR_SPECIFIC
    ensures Vsa(d, ts, vendor) == Keep(d, ts, ts[0].value, vendor, 0)
  {
    hide Keep;
  }

  lemma VsaAdds(d: Dict, ts: seq<Token>, t: Token, vendor: bv32)
    requires ts != []
    ensures var s, l := Vsa(d, ts, vendor), Vsa(d, ts + [t], vendor);
      s.Done? ==> Longer(s, l, t, if ts[0] != Some(PW_VENDOR_SPECIFIC) then |ts| else if |ts| > 2 then |ts| - 2 else 0)
  {
    hide Longer, Vsa, Keep;
    VsaShort(d, ts, vendor);
    VsaShort(d, ts + [t], vendor);
    if ts[0].None? {
    } else if ts[0].value != PW_VENDOR_SPECIFIC {
      VsaNone(d, ts, vendor);
      VsaNone(d, ts + [t], vendor);
      KeepAdds(d, ts, t, ts[0].value, vendor, 0);
    } else if |ts| == 1 {
      FailedIsLonger(Vsa(d, ts, vendor), t, 0);
    } else if |ts| > 2 && ts[1].Some? {
      assert (ts + [t])[2..] == ts[2..] + [t];
      VsaOwn(d, ts, vendor);
      VsaOwn(d, ts + [t], vendor);
      KeepAdds(d, ts[2..], t, 0, vendor | ts[1].value, 0);
    }
  }

  lemma FailedIsLonger(s: Parsed, t: Token, k: nat)
    ensures Longer(s, Failed, t, k)
  {
  }

  lemma VsaFirst(d: Dict, t: Token, vendor: bv32)
    ensures var l := Vsa(d, [t], vendor); l.Done? ==> l.vendor == vendor && t == Some(l.attr) && l.attr < 256
  {
    hide Tlv, Rest;
    if t.Some? && t.value != PW_VENDOR_SPECIFIC {
      TlvTwice(t.value, vendor);
      RestOne(t.value, vendor);
    }
  }

  lemma RestOne(n: bv32, vendor: bv32)
    ensures Rest([Some(n)], n, vendor, 0) == Done(n, vendor)
  {
  }

  // The first number below an extended attribute is read twice.
  lemma TlvTwice(n: bv32, vendor: bv32)
    ensures Tlv([Some(n)], n, vendor, 0) == if n > 0xff then Failed else Done(n, vendor)
  {
    OrItself(n);
  }

  lemma OrItself(a: bv32)
    ensures a | a == a
  {
  }

  lemma ExtendedBase(a: bv32)
    ensures InExtended(a, 0) == a << 24
  {
  }

  // What one more number does, for all texts.
  lemma ParseAdds(d: Dict, ts: seq<Token>, t: Token)
    requires ts != []
    ensures var s, l := Parse(d, ts, 0, 0, 0), Parse(d, ts + [t], 0, 0, 0);
      s.Done? && l.Done? ==>
        if |ts| == 1 && Extends(d, s.attr) then BelowExtended(s, l, t) else Longer(s, l, t, NextLevel(d, ts))
  {
    hide Longer, Vsa, Keep;
    var s, l := Parse(d, ts, 0, 0, 0), Parse(d, ts + [t], 0, 0, 0);
    if ts[0].Some? {
      var a := ts[0].value;
      if a == PW_VENDOR_SPECIFIC {
        LeadingVsa(d, ts, t);
      } else if Extends(d, a) {
        assert (ts + [t])[1..] == ts[1..] + [t];
        if |ts| == 1 {
          VsaFirst(d, t, a << 24);
          ExtendedBase(a);
        } else {
          VsaAdds(d, ts[1..], t, a << 24);
        }
      } else if a in d.standard && a == PW_IPV6_6RD_CONFIGURATION {
        SixRdAdds(d, ts, t);
      } else {
        SameIsLonger(s, t, NextLevel(d, ts));
      }
    }
  }

  lemma LeadingVsa(d: Dict, ts: seq<Token>, t: Token)
    requires ts != [] && ts[0] == Some(PW_VENDOR_SPECIFIC)
    ensures var s, l := First(d, ts), First(d, ts + [t]); s.Done? ==> Longer(s, l, t, NextLevel(d, ts))
  {
    hide Longer, Keep;
    VsaAdds(d, ts, t, 0);
    if |ts| == 1 {
      FailedIsLonger(First(d, ts), t, 0);
    }
  }

  lemma SixRdAdds(d: Dict, ts: seq<Token>, t: Token)
    requires ts != [] && ts[0] == Some(PW_IPV6_6RD_CONFIGURATION) && PlainRd(d)
    ensures Longer(First(d, ts), First(d, ts + [t]), t, |ts|)
  {
    hide Longer, Tlv, Rest;
    assert (ts + [t])[1..] == ts[1..] + [t];
    if |ts| == 1 {
      assert ts[1..] + [t] == [t];
      LastAdds(t, PW_IPV6_6RD_CONFIGURATION, 0, 1);
    } else {
      KeepAdds(d, ts[1..], t, PW_IPV6_6RD_CONFIGURATION, 0, 1);
    }
  }

  // ---------- the parent is what the text without its last number gives ----------

  // Stripping gives back what a number was added to exactly when that had nothing at its level or above.
  lemma StripAddedIff(a: bv32, n: bv32, k: nat)
    requires 1 <= k <= 4 && n <= Mask(k) && Add(a, n, k) != a
    ensures Strip(Add(a, n, k), 4) == Some(a) <==> Fits(a, k)
  {
    hide Strip, Fits, Mask;
    AddZero(a, k);
    if Fits(a, k) {
      StripAdded(a, n, k);
    } else {
      NeverStripped(a, n, k, 4);
    }
  }

  lemma AddZero(a: bv32, k: nat)
    ensures Add(a, 0, k) == a
  {
  }

  lemma {:induction false} NeverStripped(a: bv32, n: bv32, k: nat, i: nat)
    requires 1 <= k <= 4 && n <= Mask(k) && !Fits(a, k) && i <= 4
    ensures Strip(Add(a, n, k), i) != Some(a)
    decreases i
  {
    hide Fits, Mask, Add, Cut;
    if i > 0 {
      NeverStripped(a, n, k, i - 1);
      NeverCut(a, n, k, i);
    }
  }

  lemma NeverCut(a: bv32, n: bv32, k: nat, i: nat)
    requires 1 <= k <= 4 && n <= Mask(k) && !Fits(a, k) && 1 <= i <= 4
    ensures var c := Add(a, n, k); Cut(c, i) != c ==> Cut(c, i) != a
  {
    hide Fits, Mask, Add, Cut;
    var c := Add(a, n, k);
    if Cut(c, i) == a {
      CutFits(c, a, i);
      if i <= k {
        FitsAbove(a, i, k);
      } else {
        AddFitsAbove(a, n, k, i);
        FitsCut(c, i);
      }
    }
  }

  lemma CutFits(c: bv32, a: bv32, i: nat)
    requires Cut(c, i) == a
    ensures Fits(a, i)
  {
  }

  lemma FitsCut(c: bv32, i: nat)
    requires Fits(c, i)
    ensures Cut(c, i) == c
  {
  }

  lemma AddFitsAbove(a: bv32, n: bv32, k: nat, i: nat)
    requires 1 <= k < i <= 4 && n <= Mask(k) && Fits(a, i)
    ensures Fits(Add(a, n, k), i)
  {
  }

  lemma AddLow(a: bv32, n: bv32, k: nat)
    requires 1 <= k <= 4
    ensures Add(a, n, k) & 0xff == a & 0xff
  {
  }

  // A number nested in attribute 173 whose parent dict_parent finds.
  predicate SixRdFirst(a: bv32, c: bv32) {
    a == PW_IPV6_6RD_CONFIGURATION && c >> 8 < 4
  }

  // Exactly when dict_parent leads from the attribute of a text to that of the text without its last
  // number. Only DHCP options can have anything at the level of the last number or above.
  predicate ParentAgrees(d: Dict, s: Parsed, l: Parsed, level: nat)
    requires s.Done? && l.Done?
  {
    if l.vendor == 0 then SixRdFirst(s.attr, l.attr)
    else MayNest(d, l.vendor) && if s.vendor == l.vendor then Fits(s.attr, level) else s.attr < 256
  }

  lemma LongerParentIff(d: Dict, s: Parsed, l: Parsed, t: Token, k: nat)
    requires s.Done? && l.Done? && s != l && Longer(s, l, t, k)
    ensures ParentOf(d, l.attr, l.vendor) == Some(Key(s.attr, s.vendor)) <==> ParentAgrees(d, s, l, k)
  {
    hide Strip, Fits, Mask, MayNest, Add, ParentOf, SixRdFirst;
    AddZero(s.attr, k);
    if l.vendor == 0 {
      AddLow(s.attr, t.value, k);
      ParentPlainIff(d, s.attr, l.attr);
    } else {
      AddedIff(d, s.attr, t.value, k, l.vendor);
    }
  }

  lemma AddedIff(d: Dict, a: bv32, n: bv32, k: nat, vendor: bv32)
    requires vendor != 0 && 1 <= k <= 4 && n <= Mask(k) && Add(a, n, k) != a
    ensures ParentOf(d, Add(a, n, k), vendor) == Some(Key(a, vendor)) <==> MayNest(d, vendor) && Fits(a, k)
  {
    hide Strip, Fits, Mask, MayNest, Add, ParentOf;
    AddZero(a, k);
    AddLarge(a, n, k);
    StripAddedIff(a, n, k);
    ParentNested(d, Add(a, n, k), vendor);
  }

  lemma ParentPlainIff(d: Dict, a: bv32, c: bv32)
    requires a & 0xff == c & 0xff && a != c
    ensures ParentOf(d, c, 0) == Some(Key(a, 0)) <==> SixRdFirst(a, c)
  {
  }

  lemma ParentNested(d: Dict, attr: bv32, vendor: bv32)
    requires vendor != 0 && attr >= 256
    ensures ParentOf(d, attr, vendor) == if MayNest(d, vendor) then InVendor(Strip(attr, 4), vendor) else None
  {
    hide Strip, MayNest;
  }

  lemma ExtendedBelowIff(d: Dict, s: Parsed, l: Parsed, t: Token, k: nat)
    requires BelowExtended(s, l, t)
    ensures ParentOf(d, l.attr, l.vendor) == Some(Key(s.attr, s.vendor)) <==> s != l && ParentAgrees(d, s, l, k)
  {
    hide Strip, Fits, MayNest, ParentOf, SixRdFirst, InExtended;
    NotItsParent(d, l.attr, l.vendor);
    if l.vendor == 0 {
      NoVendorBelow(d, s.attr, l.attr);
    } else {
      VendorBelow(d, s.attr, l.attr);
    }
  }

  lemma NoVendorBelow(d: Dict, base: bv32, n: bv32)
    requires InExtended(base, 0) == 0 && n < 256
    ensures ParentOf(d, n, 0) == None && !SixRdFirst(base, n)
  {
    ExtendedShift(base);
    SmallParent(d, n);
  }

  lemma VendorBelow(d: Dict, base: bv32, n: bv32)
    requires InExtended(base, 0) != 0 && n < 256
    ensures MayNest(d, InExtended(base, 0)) && (ParentOf(d, n, InExtended(base, 0)) == Some(Key(base, 0)) <==> base < 256)
  {
    hide MayNest, ParentOf;
    ExtendedShift(base);
    NoVendorNests(d, InExtended(base, 0));
    ParentExtended(d, n, InExtended(base, 0));
  }

  // No attribute is its own parent.
  lemma NotItsParent(d: Dict, attr: bv32, vendor: bv32)
    ensures ParentOf(d, attr, vendor) != Some(Key(attr, vendor))
  {
    hide Strip, MayNest;
    NotItself(attr, 4);
  }

  lemma SmallParent(d: Dict, attr: bv32)
    requires attr < 256
    ensures ParentOf(d, attr, 0) == None
  {
    SmallShift(attr);
  }

  lemma ParentExtended(d: Dict, attr: bv32, vendor: bv32)
    requires vendor != 0 && vendor & 0xff_ffff == 0 && attr < 256
    ensures ParentOf(d, attr, vendor) == Some(Key((vendor >> 24) & 0xff, 0))
  {
    NoVendorNests(d, vendor);
  }

  lemma ExtendedShift(a: bv32)
    ensures InExtended(a, 0) & 0xff_ffff == 0
    ensures (InExtended(a, 0) >> 24) & 0xff == a <==> a < 256
    ensures a == PW_IPV6_6RD_CONFIGURATION ==> InExtended(a, 0) != 0
  {
  }

  lemma SmallShift(a: bv32)
    ensures a < 256 ==> a & 0xff == a
  {
  }

  lemma ParsedParentIff(d: Dict, ts: seq<Token>, t: Token)
    requires ts != []
    ensures var s, l := Parse(d, ts, 0, 0, 0), Parse(d, ts + [t], 0, 0, 0);
      s.Done? && l.Done? ==>
        (ParentOf(d, l.attr, l.vendor) == Some(Key(s.attr, s.vendor)) <==>
          s != l && ParentAgrees(d, s, l, NextLevel(d, ts)))
  {
    hide Parse, ParentOf, ParentAgrees, NextLevel, Longer, BelowExtended;
    var s, l := Parse(d, ts, 0, 0, 0), Parse(d, ts + [t], 0, 0, 0);
    ParseAdds(d, ts, t);
    if s.Done? && l.Done? {
      if |ts| == 1 && Extends(d, s.attr) {
        ExtendedBelowIff(d, s, l, t, NextLevel(d, ts));
      } else if s == l {
        NotItsParent(d, l.attr, l.vendor);
      } else {
        LongerParentIff(d, s, l, t, NextLevel(d, ts));
      }
    }
  }

  lemma {:induction false} TokensAppend(a: string, b: string)
    requires '.' !in b
    ensures TokensOf(a + "." + b) == TokensOf(a) + [TokenOf(b)]
    decreases |a|
  {
    hide TokenOf;
    var i := Dot(a);
    var first := a[..i];
    if i == |a| {
      assert first == a;
      FirstToken(a, b);
      NoDot(b);
    } else {
      var rest := a[i + 1..];
      assert a + "." + b == first + "." + (rest + "." + b);
      TokensAppend(rest, b);
      FirstToken(first, rest + "." + b);
    }
  }

  lemma NoDot(b: string)
    requires '.' !in b
    ensures TokensOf(b) == [TokenOf(b)]
  {
    hide TokenOf;
  }

  // The theorem for texts: for a text and the same text with one more number, whatever that is. When the
  // number changes nothing, the attribute is not its own parent.
  lemma TextParentIff(d: Dict, text: string, number: string)
    requires '.' !in number
    ensures var s, l := Parse(d, TokensOf(text), 0, 0, 0), Parse(d, TokensOf(text + "." + number), 0, 0, 0);
      s.Done? && l.Done? ==>
        (ParentOf(d, l.attr, l.vendor) == Some(Key(s.attr, s.vendor)) <==>
          s != l && ParentAgrees(d, s, l, NextLevel(d, TokensOf(text))))
  {
    hide Parse, ParentOf, ParentAgrees, NextLevel, TokensOf;
    TokensAppend(text, number);
    ParsedParentIff(d, TokensOf(text), TokenOf(number));
  }

  // ---------- only DHCP options can be too large ----------

  lemma {:induction false} TlvFits(ts: seq<Token>, value: bv32, vendor: bv32, depth: nat)
    requires ts != [] && 1 <= depth && depth + |ts| <= 4 && Fits(value, depth)
    ensures var s := Tlv(ts, value, vendor, depth); s.Done? ==> Fits(s.attr, depth + |ts|)
    decreases |ts|
  {
    hide Fits, Up, Mask;
    if ts[0].Some? && ts[0].value <= Mask(depth) {
      AddFits(value, ts[0].value, depth);
      if |ts| > 1 {
        TlvFits(ts[1..], value | Up(ts[0].value, depth), vendor, depth + 1);
      }
    }
  }

  lemma FirstFits(ts: seq<Token>, value: bv32, vendor: bv32)
    requires 1 <= |ts| <= 4 && (value == 0 || ts[0] == Some(value))
    ensures var s := Tlv(ts, value, vendor, 0); s.Done? ==> Fits(s.attr, |ts|)
  {
    hide Fits;
    if ts[0].Some? && ts[0].value <= 0xff {
      ByteFits(ts[0].value);
      OrItself(ts[0].value);
      ZeroOr(ts[0].value);
      if |ts| > 1 {
        TlvFits(ts[1..], ts[0].value, vendor, 1);
      }
    }
  }

  lemma ByteFits(a: bv32)
    requires a <= 0xff
    ensures Fits(a, 1)
  {
  }

  // A DHCP option whose first number may take more than a byte.
  predicate WideDhcp(d: Dict, vendor: bv32) {
    vendor == DHCP_VENDOR && KindOf(d, vendor) != 1
  }

  lemma KeepFits(d: Dict, ts: seq<Token>, t: Token, value: bv32, vendor: bv32)
    requires ts != [] && (value == 0 || ts[0] == Some(value)) && !WideDhcp(d, vendor)
    ensures var s, l := Keep(d, ts, value, vendor, 0), Keep(d, ts + [t], value, vendor, 0);
      s.Done? && l.Done? && s != l ==> |ts| <= 4 && Fits(s.attr, |ts|)
  {
    hide Fits, Longer, Tlv, Rest;
    KeepAdds(d, ts, t, value, vendor, 0);
    LongerLevel(Keep(d, ts, value, vendor, 0), Keep(d, ts + [t], value, vendor, 0), t, |ts|);
    if |ts| <= 4 {
      FirstFits(ts, value, vendor);
    }
  }

  lemma LongerLevel(s: Parsed, l: Parsed, t: Token, k: nat)
    requires Longer(s, l, t, k)
    ensures l.Done? && s != l ==> 1 <= k <= 4
    ensures l.Done? ==> s.vendor == l.vendor
  {
  }

  lemma VsaOwnFits(d: Dict, ts: seq<Token>, t: Token, vendor: bv32)
    requires |ts| > 2 && ts[0] == Some(PW_VENDOR_SPECIFIC) && ts[1].Some?
    ensures var s, l := Vsa(d, ts, vendor), Vsa(d, ts + [t], vendor);
      s.Done? && l.Done? && s != l && !WideDhcp(d, l.vendor) ==> Fits(s.attr, |ts| - 2)
  {
    hide Vsa, Keep, Fits, WideDhcp;
    var v, l := vendor | ts[1].value, Vsa(d, ts + [t], vendor);
    assert (ts + [t])[2..] == ts[2..] + [t];
    VsaOwn(d, ts, vendor);
    VsaOwn(d, ts + [t], vendor);
    KeepVendor(d, ts[2..] + [t], 0, v, 0);
    if l.Done? && !WideDhcp(d, l.vendor) {
      KeepFits(d, ts[2..], t, 0, v);
    }
  }

  lemma VsaFits(d: Dict, ts: seq<Token>, t: Token, vendor: bv32)
    requires ts != []
    ensures var s, l := Vsa(d, ts, vendor), Vsa(d, ts + [t], vendor);
      s.Done? && l.Done? && s != l && !WideDhcp(d, l.vendor) ==>
        if ts[0] != Some(PW_VENDOR_SPECIFIC) then Fits(s.attr, |ts|) else |ts| > 2 && Fits(s.attr, |ts| - 2)
  {
    hide Vsa, Keep, Fits, WideDhcp;
    VsaShort(d, ts, vendor);
    if ts[0].None? {
    } else if ts[0].value != PW_VENDOR_SPECIFIC {
      VsaNone(d, ts, vendor);
      VsaNone(d, ts + [t], vendor);
      KeepVendor(d, ts + [t], ts[0].value, vendor, 0);
      if !WideDhcp(d, vendor) {
        KeepFits(d, ts, t, ts[0].value, vendor);
      }
    } else if |ts| > 2 && ts[1].Some? {
      VsaOwnFits(d, ts, t, vendor);
    } else {
      VsaShort(d, ts + [t], vendor);
    }
  }

  // Except for DHCP options with wide types, nothing is ever at the level of the next number or above.
  lemma NextFits(d: Dict, ts: seq<Token>, t: Token)
    requires ts != []
    ensures var s, l := Parse(d, ts, 0, 0, 0), Parse(d, ts + [t], 0, 0, 0);
      s.Done? && l.Done? && s != l && l.vendor != 0 && !WideDhcp(d, l.vendor) && s.vendor == l.vendor ==>
        Fits(s.attr, NextLevel(d, ts))
  {
    hide Vsa, Keep, Fits, WideDhcp;
    if ts[0].Some? {
      var a := ts[0].value;
      if a == PW_VENDOR_SPECIFIC {
        VsaFits(d, ts, t, 0);
      } else if Extends(d, a) {
        assert (ts + [t])[1..] == ts[1..] + [t];
        if |ts| == 1 {
          VsaFirst(d, t, a << 24);
        } else {
          VsaFits(d, ts[1..], t, a << 24);
        }
      } else if a in d.standard && a == PW_IPV6_6RD_CONFIGURATION {
        KeepVendor(d, (ts + [t])[1..], a, 0, 1);
      }
    }
  }

  // So the parent of every other vendor's attribute is the one of the shorter text exactly when its vendor
  // may nest; below an extended attribute, exactly when that has a number of one byte.
  lemma VendorParentIff(d: Dict, text: string, number: string)
    requires '.' !in number
    ensures var s, l := Parse(d, TokensOf(text), 0, 0, 0), Parse(d, TokensOf(text + "." + number), 0, 0, 0);
      s.Done? && l.Done? && l.vendor != 0 && !WideDhcp(d, l.vendor) ==>
        (ParentOf(d, l.attr, l.vendor) == Some(Key(s.attr, s.vendor)) <==>
          s != l && MayNest(d, l.vendor) && (s.vendor == l.vendor || s.attr < 256))
  {
    hide Parse, ParentOf, NextLevel, TokensOf, MayNest, Fits, WideDhcp;
    TextParentIff(d, text, number);
    TokensAppend(text, number);
    NextFits(d, TokensOf(text), TokenOf(number));
  }

  // ---------- the child is what the text with one more number gives ----------

  // Numbers at two levels, the higher of them free, only come to the same if they change nothing.
  lemma Apart(a: bv32, n: bv32, k: nat, m: bv32, j: nat)
    requires 1 <= k < j <= 4 && n <= Mask(k) && m <= Mask(j) && Fits(a, j)
    ensures Add(a, n, k) == Add(a, m, j) ==> Add(a, n, k) == a
  {
    hide Fits, Mask, Add, Cut;
    AddFitsAbove(a, n, k, j);
    FitsCut(Add(a, n, k), j);
    AddBelow(a, m, j);
  }

  // The loop of dict_attr_child goes below the deepest number.
  lemma {:induction false} NestDeepest(a: bv32, n: bv32, i: nat) returns (level: nat)
    requires i <= 3 && Fits(a, i + 1) && Nest(a, n, i).Some?
    ensures level <= i && Deepest(a, level)
  {
    hide Fits, AtLevel;
    if AtLevel(a, i) {
      level := i;
    } else {
      NestStops(a, n, i);
      FitsBelow(a, i);
      level := NestDeepest(a, n, i - 1);
    }
  }

  lemma NestStops(a: bv32, n: bv32, i: nat)
    requires i <= 3 && !AtLevel(a, i) && Nest(a, n, i).Some?
    ensures i > 0 && Nest(a, n, i - 1).Some?
  {
    hide AtLevel, Up, Mask;
  }

  lemma FitsBelow(a: bv32, k: nat)
    requires 1 <= k <= 3 && Fits(a, k + 1) && !AtLevel(a, k)
    ensures Fits(a, k)
  {
  }

  lemma FitsTop(a: bv32)
    requires !AtLevel(a, 4)
    ensures Fits(a, 4)
  {
  }

  lemma MaskKeeps(n: bv32, k: nat)
    requires n <= Mask(k)
    ensures n & Mask(k) == n
  {
  }

  // Adding n at level k is what dict_attr_child does exactly when the deepest number is at the level above.
  lemma NestIff(a: bv32, n: bv32, k: nat)
    requires 1 <= k <= 4 && n <= Mask(k) && Add(a, n, k) != a
    ensures !AtLevel(a, 4) && Nest(a, n, 3) == Some(Add(a, n, k)) <==> Deepest(a, k - 1)
  {
    hide Fits, AtLevel, Mask, Add, Nest;
    if Deepest(a, k - 1) {
      DeepestNests(a, n, k);
    } else if !AtLevel(a, 4) && Nest(a, n, 3).Some? {
      FitsTop(a);
      var level := NestDeepest(a, n, 3);
      NestsElsewhere(a, n, k, level);
    }
  }

  lemma DeepestNests(a: bv32, n: bv32, k: nat)
    requires 1 <= k <= 4 && n <= Mask(k) && Deepest(a, k - 1)
    ensures !AtLevel(a, 4) && Nest(a, n, 3) == Some(Add(a, n, k))
  {
    hide Fits, AtLevel, Mask, Add, Nest;
    DeepestFits(a, k - 1);
    NestIs(a, n, k - 1);
    MaskKeeps(n, k);
  }

  lemma NestsElsewhere(a: bv32, n: bv32, k: nat, level: nat)
    requires 1 <= k <= 4 && n <= Mask(k) && Add(a, n, k) != a && Deepest(a, level) && level != k - 1
    ensures Nest(a, n, 3) != Some(Add(a, n, k))
  {
    hide Fits, AtLevel, Mask, Add, Nest;
    NestIs(a, n, level);
    Masked(n, level + 1);
    OtherLevel(a, n, k, n & Mask(level + 1), level + 1);
  }

  lemma OtherLevel(a: bv32, n: bv32, k: nat, m: bv32, j: nat)
    requires 1 <= k <= 4 && 1 <= j <= 4 && j != k && n <= Mask(k) && m <= Mask(j) && Fits(a, j) && Add(a, n, k) != a
    ensures Add(a, n, k) != Add(a, m, j)
  {
    hide Fits, Mask, Add;
    if k < j {
      Apart(a, n, k, m, j);
    } else {
      FitsAbove(a, j, k);
      Apart(a, m, j, n, k);
    }
  }

  // dict_attr_child leads from an attribute to itself.
  ghost predicate OwnChild(s: Parsed, n: bv32)
    requires s.Done?
  {
    if s.vendor == 0 then n == s.attr && s.attr << 24 == 0
    else exists level: nat :: Deepest(s.attr, level) && n & Mask(level + 1) == 0
  }

  lemma OwnChildIff(s: Parsed, n: bv32)
    requires s.Done?
    ensures ChildOf(Key(s.attr, s.vendor), n, s.vendor) == Some(Key(s.attr, s.vendor)) <==> OwnChild(s, n)
  {
    hide Nest, AtLevel, Fits, Mask;
    var a := s.attr;
    if s.vendor != 0 {
      if !AtLevel(a, 4) && Nest(a, n, 3).Some? {
        FitsTop(a);
        var level := NestDeepest(a, n, 3);
        OwnNest(a, n, level);
      }
      if level: nat :| Deepest(a, level) && n & Mask(level + 1) == 0 {
        DeepestFits(a, level);
        OwnNest(a, n, level);
      }
    } else {
      ExtendedBase(a);
    }
  }

  lemma OwnNest(a: bv32, n: bv32, level: nat)
    requires Deepest(a, level)
    ensures Nest(a, n, 3) == Some(a) <==> n & Mask(level + 1) == 0
  {
    hide Nest, AtLevel, Fits, Mask, Add;
    NestIs(a, n, level);
    Masked(n, level + 1);
    AddDiffers(a, n & Mask(level + 1), level + 1);
  }

  // Exactly when dict_attr_child leads from the attribute of a text to that of the text with one more
  // number: below an extended attribute, and below the last number of a vendor attribute that is not zero.
  ghost predicate ChildAgrees(d: Dict, ts: seq<Token>, s: Parsed, l: Parsed, n: bv32)
    requires ts != [] && s.Done?
  {
    if s == l then OwnChild(s, n)
    else if s.vendor == 0 then |ts| == 1 && Extends(d, s.attr)
    else NextLevel(d, ts) > 0 && Deepest(s.attr, NextLevel(d, ts) - 1)
  }

  lemma LongerChildIff(s: Parsed, l: Parsed, n: bv32, k: nat)
    requires s.Done? && l.Done? && s != l && Longer(s, l, Some(n), k)
    ensures ChildOf(Key(s.attr, s.vendor), n, s.vendor) == Some(Key(l.attr, l.vendor))
      <==> s.vendor != 0 && Deepest(s.attr, k - 1)
  {
    hide Nest, AtLevel, Fits, Mask, Add, InExtended;
    AddZero(s.attr, k);
    if s.vendor == 0 {
      ExtendedBase(s.attr);
      NotBelow(s.attr, n, k);
    } else {
      NestIff(s.attr, n, k);
    }
  }

  lemma NotBelow(a: bv32, n: bv32, k: nat)
    requires 1 <= k <= 4 && n <= Mask(k)
    ensures Add(a, n, k) == n && a << 24 == 0 ==> n == 0
  {
  }

  lemma ParsedChildIff(d: Dict, ts: seq<Token>, n: bv32)
    requires ts != []
    ensures var s, l := Parse(d, ts, 0, 0, 0), Parse(d, ts + [Some(n)], 0, 0, 0);
      s.Done? && l.Done? ==>
        (ChildOf(Key(s.attr, s.vendor), n, s.vendor) == Some(Key(l.attr, l.vendor)) <==> ChildAgrees(d, ts, s, l, n))
  {
    hide Parse, ChildOf, NextLevel, Longer, OwnChild, Deepest;
    var s, l := Parse(d, ts, 0, 0, 0), Parse(d, ts + [Some(n)], 0, 0, 0);
    ParseAdds(d, ts, Some(n));
    if s.Done? && l.Done? {
      if s == l {
        OwnChildIff(s, n);
      } else if |ts| == 1 && Extends(d, s.attr) {
        ExtendedChild(s.attr, n);
      } else {
        LongerLevel(s, l, Some(n), NextLevel(d, ts));
        LongerChildIff(s, l, n, NextLevel(d, ts));
      }
    }
  }

  lemma ExtendedChild(base: bv32, n: bv32)
    ensures ChildOf(Key(base, 0), n, 0) == Some(Key(n, InExtended(base, 0)))
  {
    hide Nest, AtLevel, InExtended;
  }

  // For a text and the same text with one more number.
  lemma TextChildIff(d: Dict, text: string, number: string)
    requires '.' !in number
    ensures var ts, s, n := TokensOf(text), Parse(d, TokensOf(text), 0, 0, 0), TokenOf(number);
      var l := Parse(d, TokensOf(text + "." + number), 0, 0, 0);
      s.Done? && l.Done? && n.Some? ==>
        (ChildOf(Key(s.attr, s.vendor), n.value, s.vendor) == Some(Key(l.attr, l.vendor)) <==>
          ChildAgrees(d, ts, s, l, n.value))
  {
    hide Parse, ChildOf, ChildAgrees, TokensOf, TokenOf;
    TokensAppend(text, number);
    if TokenOf(number).Some? {
      ParsedChildIff(d, TokensOf(text), TokenOf(number).value);
    }
  }

  // ---------- examples ----------

  // Two texts whose parents are not found: a DHCP option above 255, and a 6rd number above 3.
  lemma DhcpParentMissed(d: Dict)
    requires DHCP_VENDOR in d.vendors && d.vendors[DHCP_VENDOR] == Vendor(2, 1)
    ensures var ts := [Some(PW_VENDOR_SPECIFIC), Some(DHCP_VENDOR), Some(256)];
      && Parse(d, ts, 0, 0, 0) == Done(256, DHCP_VENDOR)
      && Parse(d, ts + [Some(2)], 0, 0, 0) == Done(0x300, DHCP_VENDOR)
      && ParentOf(d, 0x300, DHCP_VENDOR) == Some(Key(0, DHCP_VENDOR))
  {
    hide Rest, Tlv, Strip;
    var ts: seq<Token> := [Some(PW_VENDOR_SPECIFIC), Some(DHCP_VENDOR), Some(256)];
    assert ts[2..] == [Some(256)];
    assert (ts + [Some(2)])[2..] == [Some(256), Some(2)];
    DhcpRest();
    DhcpStrip();
    DhcpParse(d, ts);
    DhcpParse(d, ts + [Some(2)]);
  }

  lemma DhcpParse(d: Dict, ts: seq<Token>)
    requires DHCP_VENDOR in d.vendors && d.vendors[DHCP_VENDOR] == Vendor(2, 1) && |ts| > 2
    requires ts[0] == Some(PW_VENDOR_SPECIFIC) && ts[1] == Some(DHCP_VENDOR) && ts[2] == Some(256)
    ensures Parse(d, ts, 0, 0, 0) == Rest(ts[2..], 256, DHCP_VENDOR, 0)
  {
    hide Rest, Tlv;
    ZeroOr(DHCP_VENDOR);
    VsaOwn(d, ts, 0);
    DhcpKeep(d, ts[2..], 256);
  }

  // A vendor with a type of two bytes.
  lemma DhcpKeep(d: Dict, ts: seq<Token>, n: bv32)
    requires DHCP_VENDOR in d.vendors && d.vendors[DHCP_VENDOR] == Vendor(2, 1)
    requires ts != [] && ts[0] == Some(n) && n <= 0x1_0000
    ensures Keep(d, ts, 0, DHCP_VENDOR, 0) == Rest(ts, n, DHCP_VENDOR, 0)
  {
    hide Rest, Tlv;
  }

  lemma DhcpRest()
    ensures Rest([Some(256)], 256, DHCP_VENDOR, 0) == Done(256, DHCP_VENDOR)
    ensures Rest([Some(256), Some(2)], 256, DHCP_VENDOR, 0) == Done(0x300, DHCP_VENDOR)
  {
    RestOne(256, DHCP_VENDOR);
    RestTwo(256, 2, DHCP_VENDOR);
    assert Add(256, 2, 1) == 0x300;
  }

  lemma RestTwo(n: bv32, m: bv32, vendor: bv32)
    requires m <= 0xff
    ensures Rest([Some(n), Some(m)], n, vendor, 0) == Done(Add(n, m, 1), vendor)
  {
    assert [Some(n), Some(m)][1..] == [Some(m)];
    LastTlv(n, m, vendor);
  }

  lemma LastTlv(n: bv32, m: bv32, vendor: bv32)
    requires m <= 0xff
    ensures Tlv([Some(m)], n, vendor, 1) == Done(Add(n, m, 1), vendor)
  {
  }

  lemma DhcpStrip()
    ensures Strip(0x300, 4) == Some(0)
  {
    assert Strip(0x300, 2) == Strip(0x300, 1);
    assert Strip(0x300, 4) == Strip(0x300, 2);
  }

  lemma SixRdParentMissed(d: Dict)
    requires PlainRd(d)
    ensures var ts := [Some(PW_IPV6_6RD_CONFIGURATION), Some(4)];
      && Parse(d, ts, 0, 0, 0) == Done(Add(PW_IPV6_6RD_CONFIGURATION, 4, 1), 0)
      && ParentOf(d, Add(PW_IPV6_6RD_CONFIGURATION, 4, 1), 0) == None
  {
    SixRdChildDiffers(d, 4);
  }

  // The number below attribute 173 that dict_attr_child makes is never the one that its text stands for.
  lemma SixRdChildDiffers(d: Dict, n: bv32)
    requires PlainRd(d) && n <= 0xff
    ensures var l := Parse(d, [Some(PW_IPV6_6RD_CONFIGURATION), Some(n)], 0, 0, 0);
      && l == Done(Add(PW_IPV6_6RD_CONFIGURATION, n, 1), 0)
      && ChildOf(Key(PW_IPV6_6RD_CONFIGURATION, 0), n, 0) == Some(Key(n, PW_IPV6_6RD_CONFIGURATION << 24))
      && ChildOf(Key(PW_IPV6_6RD_CONFIGURATION, 0), n, 0) != Some(Key(l.attr, l.vendor))
  {
    hide Add;
    var ts := [Some(PW_IPV6_6RD_CONFIGURATION), Some(n)];
    assert ts[1..] == [Some(n)];
    LastTlv(PW_IPV6_6RD_CONFIGURATION, n, 0);
    ExtendedKey(PW_IPV6_6RD_CONFIGURATION, 0);
  }
}
