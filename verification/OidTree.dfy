// Parents and children of packed attribute numbers: dict_parent strips the deepest number, and
// dict_attr_child adds one below it.
module OidTree {
  import opened Options
  import opened Oid

  // An attribute is looked up by its number and its vendor.
  datatype Key = Key(attr: bv32, vendor: bv32)

  function InVendor(attr: Option<bv32>, vendor: bv32): Option<Key> {
    if attr.None? then None else Some(Key(attr.value, vendor))
  }

  // What is below level i.
  function Cut(a: bv32, i: nat): bv32 {
    a & ParentMask(i)
  }

  // The loop of dict_parent from level i down: the deepest number that is not zero, taken away.
  function Strip(a: bv32, i: nat): Option<bv32> {
    if i == 0 then None
    else if Cut(a, i) != a then Some(Cut(a, i))
    else Strip(a, i - 1)
  }

  // The vendors whose attributes may be nested.
  predicate MayNest(d: Dict, vendor: bv32) {
    var v := vendor & 0xff_ffff;
    v == 0 || (v in d.vendors && (vendor == DHCP_VENDOR || d.vendors[v] == Vendor(1, 1)))
  }

  // The key that dict_parent looks up.
  function ParentOf(d: Dict, attr: bv32, vendor: bv32): Option<Key> {
    if vendor == 0 then
      if attr == PW_IPV6_6RD_CONFIGURATION then None
      else if attr & 0xff == PW_IPV6_6RD_CONFIGURATION && attr >> 8 < 4 then Some(Key(PW_IPV6_6RD_CONFIGURATION, 0))
      else None
    else if !MayNest(d, vendor) then None
    else if vendor & 0xff_ffff == 0 && attr < 256 then Some(Key((vendor >> 24) & 0xff, 0))
    else InVendor(Strip(attr, 4), vendor)
  }

  // The vendor field of an attribute in the extended space.
  function InExtended(base: bv32, vendor: bv32): bv32 {
    (base << 24) | vendor
  }

  // fr_attr_mask[i] << fr_attr_shift[i]
  function LevelBits(i: nat): bv32 {
    if i == 0 then 0xff else if i == 1 then 0xff00 else if i == 2 then 0xff_0000 else if i == 3 then 0x1f00_0000 else 0xe000_0000
  }

  // There is a number at level i.
  predicate AtLevel(a: bv32, i: nat) {
    a & LevelBits(i) != 0
  }

  // The loop of dict_attr_child from level i down: n goes below the deepest number that is not zero.
  function Nest(a: bv32, n: bv32, i: int): Option<bv32>
    requires i < 4
    decreases i + 1
  {
    if i < 0 then None
    else if AtLevel(a, i) then Some(a | Up(n & Mask(i + 1), i + 1))
    else Nest(a, n, i - 1)
  }

  // dict_attr_child, for a parent whose type can have children.
  function ChildOf(parent: Key, attr: bv32, vendor: bv32): Option<Key> {
    if vendor == 0 && parent.vendor != 0 then None
    else if parent.vendor == 0 then Some(Key(attr, InExtended(parent.attr, vendor)))
    else if AtLevel(parent.attr, 4) then None
    else InVendor(Nest(parent.attr, attr, 3), parent.vendor)
  }

  // dict_parent
  method DictParent(d: Dict, attr: bv32, vendor: bv32) returns (r: Option<Key>)
    ensures r == ParentOf(d, attr, vendor)
  {
    if vendor == 0 {
      if attr == PW_IPV6_6RD_CONFIGURATION { return None; }
      if attr & 0xff == PW_IPV6_6RD_CONFIGURATION && attr >> 8 < 4 {
        return Some(Key(PW_IPV6_6RD_CONFIGURATION, 0));
      }
      return None;
    }
    var v := vendor & 0xff_ffff;
    if v != 0 {
      if v !in d.vendors { return None; }
      var dv := d.vendors[v];
      if vendor != DHCP_VENDOR && (dv.kind != 1 || dv.length != 1) { return None; }
    } else if attr < 256 {
      return Some(Key((vendor >> 24) & 0xff, 0));
    }
    var parent := StripLoop(attr);
    r := InVendor(parent, vendor);
  }

  method StripLoop(attr: bv32) returns (r: Option<bv32>)
    ensures r == Strip(attr, 4)
  {
    var i: nat := MAX_TLV_NEST;
    while i > 0
      invariant Strip(attr, i) == Strip(attr, 4)
    {
      var parent := Cut(attr, i);
      if parent != attr { return Some(parent); }
      i := i - 1;
    }
    r := None;
  }

  // dict_attr_child
  method DictChild(parent: Key, attr: bv32, vendor: bv32) returns (r: Option<Key>)
    ensures r == ChildOf(parent, attr, vendor)
  {
    hide AtLevel, Nest, InExtended;
    if vendor == 0 && parent.vendor != 0 { return None; }
    if parent.vendor == 0 {
      return Some(Key(attr, InExtended(parent.attr, vendor)));
    }
    if AtLevel(parent.attr, MAX_TLV_NEST) { return None; }
    var nested := NestLoop(parent.attr, attr);
    r := InVendor(nested, parent.vendor);
  }

  method NestLoop(a: bv32, n: bv32) returns (r: Option<bv32>)
    ensures r == Nest(a, n, 3)
  {
    var i: int := MAX_TLV_NEST - 1;
    while i >= 0
      invariant -1 <= i < 4 && Nest(a, n, i) == Nest(a, n, 3)
    {
      if AtLevel(a, i) { return Some(a | Up(n & Mask(i + 1), i + 1)); }
      i := i - 1;
    }
    r := None;
  }

  // ---------- numbers without anything at a level or above ----------

  predicate Fits(a: bv32, k: nat) {
    Cut(a, k) == a
  }

  lemma FitsNext(a: bv32, k: nat)
    requires 1 <= k <= 3 && Fits(a, k)
    ensures Fits(a, k + 1)
  {
  }

  lemma {:induction false} FitsAbove(a: bv32, k: nat, j: nat)
    requires 1 <= k <= j <= 4 && Fits(a, k)
    ensures Fits(a, j)
  {
    hide Fits;
    if k < j {
      FitsAbove(a, k, j - 1);
      FitsNext(a, j - 1);
    }
  }

  lemma NothingAt(a: bv32, k: nat)
    requires 1 <= k <= 4 && Fits(a, k)
    ensures !AtLevel(a, k)
  {
  }

  // A number added at level k, which was free.
  function Add(a: bv32, n: bv32, k: nat): bv32 {
    a | Up(n, k)
  }

  lemma AddBelow(a: bv32, n: bv32, k: nat)
    requires 1 <= k <= 4 && Fits(a, k) && n <= Mask(k)
    ensures Cut(Add(a, n, k), k) == a
  {
    if k <= 2 {
      ShortBelow(a, n);
    } else {
      DeepBelow(a, n);
    }
  }

  lemma ShortBelow(a: bv32, n: bv32)
    ensures a & 0xff == a ==> (a | (n << 8)) & 0xff == a
    ensures a & 0xffff == a ==> (a | (n << 16)) & 0xffff == a
  {
  }

  lemma DeepBelow(a: bv32, n: bv32)
    ensures a & 0xff_ffff == a ==> (a | (n << 24)) & 0xff_ffff == a
    ensures a & 0x1fff_ffff == a ==> (a | (n << 29)) & 0x1fff_ffff == a
  {
  }

  lemma AddFits(a: bv32, n: bv32, k: nat)
    requires 1 <= k <= 3 && Fits(a, k) && n <= Mask(k)
    ensures Fits(Add(a, n, k), k + 1)
  {
  }

  lemma AddDiffers(a: bv32, n: bv32, k: nat)
    requires 1 <= k <= 4 && Fits(a, k) && n <= Mask(k)
    ensures Add(a, n, k) == a <==> n == 0
  {
  }

  lemma AddLarge(a: bv32, n: bv32, k: nat)
    requires 1 <= k <= 4 && n <= Mask(k) && n != 0
    ensures Add(a, n, k) >= 256
  {
  }

  // Stripping gives back what a number was added to.
  lemma StripAdded(a: bv32, n: bv32, k: nat)
    requires 1 <= k <= 4 && Fits(a, k) && n <= Mask(k) && n != 0
    ensures Strip(Add(a, n, k), 4) == Some(a)
  {
    hide Fits, Add, Mask, Cut;
    var c := Add(a, n, k);
    AddBelow(a, n, k);
    AddDiffers(a, n, k);
    if k < 4 {
      AddFits(a, n, k);
      StripDown(c, k, 4);
    }
    StripHere(c, k);
  }

  lemma StripHere(c: bv32, k: nat)
    requires 1 <= k <= 4 && Cut(c, k) != c
    ensures Strip(c, k) == Some(Cut(c, k))
  {
  }

  lemma {:induction false} StripDown(c: bv32, k: nat, i: nat)
    requires 1 <= k <= i <= 4 && (k < 4 ==> Fits(c, k + 1))
    ensures Strip(c, i) == Strip(c, k)
    decreases i
  {
    hide Strip, Fits, Cut;
    if i > k {
      FitsAbove(c, k + 1, i);
      StripPast(c, i);
      StripDown(c, k, i - 1);
    }
  }

  lemma StripPast(c: bv32, i: nat)
    requires 1 <= i <= 4 && Fits(c, i)
    ensures Strip(c, i) == Strip(c, i - 1)
  {
  }

  // Nothing is its own parent.
  lemma {:induction false} NotItself(a: bv32, i: nat)
    ensures Strip(a, i) != Some(a)
  {
    if i > 0 {
      NotItself(a, i - 1);
    }
  }

  // ---------- the parent of a child ----------

  // The deepest number of a that is not zero is at this level.
  predicate Deepest(a: bv32, level: nat) {
    level <= 3 && AtLevel(a, level) && Fits(a, level + 1)
  }

  lemma NestIs(a: bv32, n: bv32, level: nat)
    requires Deepest(a, level)
    ensures Nest(a, n, 3) == Some(Add(a, n & Mask(level + 1), level + 1))
  {
    NestDown(a, n, level, 3);
    NestHere(a, n, level);
  }

  lemma NestHere(a: bv32, n: bv32, level: nat)
    requires level <= 3 && AtLevel(a, level)
    ensures Nest(a, n, level) == Some(Add(a, n & Mask(level + 1), level + 1))
  {
  }

  lemma {:induction false} NestDown(a: bv32, n: bv32, level: nat, i: nat)
    requires level <= i <= 3 && Fits(a, level + 1)
    ensures Nest(a, n, i) == Nest(a, n, level)
    decreases i
  {
    hide Nest, Fits, AtLevel;
    if i > level {
      FitsAbove(a, level + 1, i);
      NothingAt(a, i);
      NestPast(a, n, i);
      NestDown(a, n, level, i - 1);
    }
  }

  lemma NestPast(a: bv32, n: bv32, i: nat)
    requires 1 <= i <= 3 && !AtLevel(a, i)
    ensures Nest(a, n, i) == Nest(a, n, i - 1)
  {
  }

  lemma Masked(n: bv32, k: nat)
    ensures n & Mask(k) <= Mask(k)
  {
  }

  // dict_attr_child adds a number below the deepest one, and the attribute it was added to is found
  // as the parent exactly when the vendor may nest and the number is not zero in the bits of its level.
  lemma NestedParentIff(d: Dict, p: Key, n: bv32, vendor: bv32, level: nat)
    requires p.vendor != 0 && vendor != 0 && Deepest(p.attr, level)
    ensures var m := n & Mask(level + 1);
      var c := Key(Add(p.attr, m, level + 1), p.vendor);
      && ChildOf(p, n, vendor) == Some(c)
      && (ParentOf(d, c.attr, c.vendor) == Some(p) <==> MayNest(d, p.vendor) && m != 0)
  {
    hide Nest, Add, Mask, Strip, Fits, AtLevel, MayNest;
    var m := n & Mask(level + 1);
    Masked(n, level + 1);
    DeepestFits(p.attr, level);
    NestIs(p.attr, n, level);
    AddedParentIff(d, p, m, level + 1);
  }

  lemma DeepestFits(a: bv32, level: nat)
    requires Deepest(a, level)
    ensures level <= 3 && Fits(a, level + 1) && !AtLevel(a, 4)
  {
    FitsAbove(a, level + 1, 4);
    NothingAt(a, 4);
  }

  lemma AddedParentIff(d: Dict, p: Key, m: bv32, k: nat)
    requires p.vendor != 0 && 1 <= k <= 4 && Fits(p.attr, k) && m <= Mask(k)
    ensures ParentOf(d, Add(p.attr, m, k), p.vendor) == Some(p) <==> MayNest(d, p.vendor) && m != 0
  {
    hide Add, Mask, Strip, Fits, MayNest;
    if m != 0 {
      StripAdded(p.attr, m, k);
      AddLarge(p.attr, m, k);
    } else {
      AddDiffers(p.attr, m, k);
      NotItself(p.attr, 4);
    }
  }

  // Below an extended attribute, dict_attr_child makes a key in the extended space, with or without a
  // vendor; its parent is the extended attribute exactly when there is no vendor and the number fits
  // in a byte.
  lemma ExtendedParentIff(d: Dict, base: bv32, n: bv32, vendor: bv32)
    requires 0 < base < 256 && vendor < MAX_VENDOR
    ensures var c := Key(n, InExtended(base, vendor));
      && ChildOf(Key(base, 0), n, vendor) == Some(c)
      && (ParentOf(d, c.attr, c.vendor) == Some(Key(base, 0)) <==> vendor == 0 && n < 256)
  {
    hide Strip, MayNest;
    ExtendedKey(base, vendor);
    if vendor == 0 {
      NoVendorNests(d, base << 24);
    }
  }

  lemma ExtendedKey(base: bv32, vendor: bv32)
    requires 0 < base < 256 && vendor < MAX_VENDOR
    ensures InExtended(base, vendor) != 0 && InExtended(base, vendor) & 0xff_ffff == vendor
    ensures (InExtended(base, vendor) >> 24) & 0xff == base
    ensures vendor == 0 ==> InExtended(base, vendor) == base << 24
  {
  }

  lemma NoVendorNests(d: Dict, vendor: bv32)
    requires vendor & 0xff_ffff == 0
    ensures MayNest(d, vendor)
  {
  }
}
