// The 256-bit map of the Identifiers a socket has in use, one bit for each value of the octet.
module PacketIds {
  type Index8 = k: nat | k < 8

  type IdMap = seq<bv8>

  // 1 << k in a byte
  function Mask(k: Index8): bv8 {
    (1 as bv8) << k
  }

  predicate Bit(b: bv8, k: Index8) {
    b & Mask(k) != 0
  }

  // (ids[(n >> 3) & 0x1f] & (1 << (n & 0x07))) != 0
  predicate Taken(ids: IdMap, n: nat)
    requires |ids| == 32 && n < 256
  {
    Bit(ids[n / 8], n % 8)
  }

  function SetId(ids: IdMap, n: nat): (r: IdMap)
    requires |ids| == 32 && n < 256
    ensures |r| == 32
  {
    ids[n / 8 := ids[n / 8] | Mask(n % 8)]
  }

  function ClearId(ids: IdMap, n: nat): (r: IdMap)
    requires |ids| == 32 && n < 256
    ensures |r| == 32
  {
    ids[n / 8 := ids[n / 8] & !Mask(n % 8)]
  }

  ghost function Used(ids: IdMap): set<nat>
    requires |ids| == 32
  {
    set n: nat | n < 256 && Taken(ids, n)
  }

  ghost function Below(n: nat): (r: set<nat>)
    ensures |r| == n && forall i :: i in r <==> 0 <= i < n
  {
    if n == 0 then {} else Below(n - 1) + {n - 1}
  }

  // ---------- one byte ----------

  lemma SetBit(b: bv8, k: Index8, m: Index8)
    ensures Bit(b | Mask(k), m) <==> k == m || Bit(b, m)
  {
    MasksApart(k, m);
    var x, y := Mask(k), Mask(m);
    SetMask(b, x, y);
  }

  lemma ClearBit(b: bv8, k: Index8, m: Index8)
    ensures Bit(b & !Mask(k), m) <==> k != m && Bit(b, m)
  {
    MasksApart(k, m);
    var x, y := Mask(k), Mask(m);
    ClearMask(b, x, y);
  }

  lemma SetMask(b: bv8, x: bv8, y: bv8)
    requires y != 0 && (x == y || x & y == 0)
    ensures (b | x) & y != 0 <==> x == y || b & y != 0
  {
    assert (b | x) & y == (b & y) | (x & y);
  }

  lemma ClearMask(b: bv8, x: bv8, y: bv8)
    requires y != 0 && (x == y || x & y == 0)
    ensures (b & !x) & y != 0 <==> x != y && b & y != 0
  {
    if x == y {
      assert (b & !x) & x == 0;
    } else {
      assert !x & y == y;
      assert (b & !x) & y == b & (!x & y);
    }
  }

  lemma MasksApart(k: Index8, m: Index8)
    ensures Mask(k) != 0
    ensures Mask(k) == Mask(m) <==> k == m
    ensures k != m ==> Mask(k) & Mask(m) == 0
  {
    MaskValue(k);
    MaskValue(m);
  }

  lemma MaskValue(k: Index8)
    ensures Mask(k) == if k == 0 then 1 else if k == 1 then 2 else if k == 2 then 4 else if k == 3 then 8
                       else if k == 4 then 16 else if k == 5 then 32 else if k == 6 then 64 else 128
  {
    if k == 0 {
    } else if k == 1 {
    } else if k == 2 {
    } else if k == 3 {
    } else if k == 4 {
    } else if k == 5 {
    } else if k == 6 {
    } else {
      assert k == 7;
    }
  }

  // A byte is 0xff when all its eight bits are set.
  lemma FullByte(b: bv8)
    ensures b == 0xff <==> forall k: Index8 :: Bit(b, k)
  {
    if b == 0xff {
      forall k: Index8
        ensures Bit(b, k)
      {
        MaskValue(k);
      }
    } else if forall k: Index8 :: Bit(b, k) {
      assert Bit(b, 0) && Bit(b, 1) && Bit(b, 2) && Bit(b, 3) && Bit(b, 4) && Bit(b, 5) && Bit(b, 6) && Bit(b, 7);
      AllBits(b);
      assert false;
    }
  }

  lemma AllBits(b: bv8)
    requires Bit(b, 0) && Bit(b, 1) && Bit(b, 2) && Bit(b, 3) && Bit(b, 4) && Bit(b, 5) && Bit(b, 6) && Bit(b, 7)
    ensures b == 0xff
  {
    MaskValue(0);
    MaskValue(1);
    MaskValue(2);
    MaskValue(3);
    MaskValue(4);
    MaskValue(5);
    MaskValue(6);
    MaskValue(7);
  }

  // ---------- the map ----------

  lemma SetIdTaken(ids: IdMap, n: nat, m: nat)
    requires |ids| == 32 && n < 256 && m < 256
    ensures Taken(SetId(ids, n), m) <==> m == n || Taken(ids, m)
  {
    hide Bit, Mask;
    if m / 8 == n / 8 {
      SetBit(ids[n / 8], n % 8, m % 8);
    }
  }

  lemma SetIdUsed(ids: IdMap, n: nat)
    requires |ids| == 32 && n < 256
    ensures Used(SetId(ids, n)) == Used(ids) + {n}
    ensures !Taken(ids, n) ==> |Used(SetId(ids, n))| == |Used(ids)| + 1
  {
    hide SetId, Taken;
    forall m: nat | m < 256
      ensures Taken(SetId(ids, n), m) <==> m == n || Taken(ids, m)
    {
      SetIdTaken(ids, n, m);
    }
  }

  lemma ClearIdTaken(ids: IdMap, n: nat, m: nat)
    requires |ids| == 32 && n < 256 && m < 256
    ensures Taken(ClearId(ids, n), m) <==> m != n && Taken(ids, m)
  {
    hide Bit, Mask;
    if m / 8 == n / 8 {
      ClearBit(ids[n / 8], n % 8, m % 8);
    }
  }

  lemma ClearIdUsed(ids: IdMap, n: nat)
    requires |ids| == 32 && n < 256
    ensures Used(ClearId(ids, n)) == Used(ids) - {n}
    ensures Taken(ids, n) ==> |Used(ClearId(ids, n))| == |Used(ids)| - 1
  {
    hide ClearId, Taken;
    forall m: nat | m < 256
      ensures Taken(ClearId(ids, n), m) <==> m != n && Taken(ids, m)
    {
      ClearIdTaken(ids, n, m);
    }
  }

  lemma ClearSet(ids: IdMap, n: nat)
    requires |ids| == 32 && n < 256 && !Taken(ids, n)
    ensures ClearId(SetId(ids, n), n) == ids
  {
    var b, m := ids[n / 8], Mask(n % 8);
    assert b & m == 0;
    Undo(b, m);
  }

  lemma Undo(b: bv8, m: bv8)
    requires b & m == 0
    ensures (b | m) & !m == b
  {
  }

  // A count of 256 means that no Identifier is free, and only then is none free.
  lemma AllTakenIff(ids: IdMap)
    requires |ids| == 32
    ensures |Used(ids)| <= 256
    ensures |Used(ids)| == 256 <==> forall n: nat :: n < 256 ==> Taken(ids, n)
  {
    var used, all := Used(ids), Below(256);
    SubsetCount(used, all);
    if forall n: nat :: n < 256 ==> Taken(ids, n) {
      assert used == all;
    } else {
      var n: nat :| n < 256 && !Taken(ids, n);
      assert n in all && n !in used;
    }
  }

  lemma {:induction false} SubsetCount(a: set<nat>, b: set<nat>)
    requires a <= b
    ensures |a| <= |b|
    ensures |a| == |b| <==> a == b
    decreases a
  {
    if a != {} {
      var x :| x in a;
      SubsetCount(a - {x}, b - {x});
      assert a == (a - {x}) + {x} && b == (b - {x}) + {x};
    }
  }
}
