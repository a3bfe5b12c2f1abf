// The text of attribute numbers: the loops of print_attr_oid, sscanf_i and dict_str2oid over their
// buffers, proved to do what Oid says, and the round trip through the text.
module OidText {
  import opened Options
  import opened Oid
  import Bits

  const WORD: nat := 0x1_0000_0000

  // ---------- numbers ----------

  // The value of a digit, upper or lower case.
  function DigitOf(c: char, base: nat): Option<nat> {
    var v := if '0' <= c <= '9' then c as int - '0' as int
             else if 'a' <= c <= 'f' then c as int - 'a' as int + 10
             else if 'A' <= c <= 'F' then c as int - 'A' as int + 10
             else 99;
    if v < base then Some(v) else None
  }

  function Digits(s: string, base: nat, acc: nat): (r: Option<nat>)
    requires acc < WORD
    ensures r.Some? ==> r.value < WORD
    decreases |s|
  {
    if s == "" then Some(acc)
    else
      var v := DigitOf(s[0], base);
      if v.None? then None else Digits(s[1..], base, (acc * base + v.value) % WORD)
  }

  // sscanf_i on a piece of text without a dot: decimal, or hexadecimal after 0x; modulo 2^32.
  function Number(s: string): (r: Option<nat>)
    ensures r.Some? ==> r.value < WORD
  {
    if |s| >= 2 && s[0] == '0' && (s[1] == 'x' || s[1] == 'X') then Digits(s[2..], 16, 0) else Digits(s, 10, 0)
  }

  function TokenOf(s: string): Token {
    var n := Number(s);
    if n.None? then None else Some(n.value as bv32)
  }

  const HEX: string := "0123456789abcdef"
  const UPPER_HEX: string := "0123456789ABCDEF"

  // The digits are those of the table, in upper or lower case, as many as the base has.
  lemma DigitIff(c: char, base: nat, v: nat)
    requires base <= 16
    ensures |HEX| == |UPPER_HEX| == 16
    ensures DigitOf(c, base) == Some(v) <==> v < base && (HEX[v] == c || UPPER_HEX[v] == c)
  {
    var hex, upper := HEX, UPPER_HEX;
    assert hex == "0123456789abcdef" && upper == "0123456789ABCDEF";
    if v < 16 {
      assert hex[v] as int == if v < 10 then '0' as int + v else 'a' as int + v - 10;
      assert upper[v] as int == if v < 10 then '0' as int + v else 'A' as int + v - 10;
    }
  }

  // The number that a row of digits stands for, if they are digits.
  function ValueOf(s: string, base: nat): Option<nat> {
    if s == "" then Some(0)
    else
      var high, low := ValueOf(s[..|s| - 1], base), DigitOf(s[|s| - 1], base);
      if high.None? || low.None? then None else Some(high.value * base + low.value)
  }

  lemma {:induction false} DigitsSnoc(s: string, c: char, base: nat, acc: nat)
    requires acc < WORD
    ensures Digits(s + [c], base, acc)
         == (var r, v := Digits(s, base, acc), DigitOf(c, base);
             if r.None? || v.None? then None else Some((r.value * base + v.value) % WORD))
    decreases |s|
  {
    hide DigitOf;
    if s == "" {
      assert s + [c] == [c] && [c][1..] == "";
    } else {
      assert (s + [c])[0] == s[0] && (s + [c])[1..] == s[1..] + [c];
      var v := DigitOf(s[0], base);
      if v.Some? {
        DigitsSnoc(s[1..], c, base, (acc * base + v.value) % WORD);
      }
    }
  }

  // Reading digits from the left, cut to 32 bits all the time, gives that number modulo 2^32.
  lemma {:induction false} DigitsAre(s: string, base: nat)
    ensures Digits(s, base, 0) == (var v := ValueOf(s, base); if v.None? then None else Some(v.value % WORD))
    decreases |s|
  {
    if s != "" {
      var n := |s| - 1;
      assert s == s[..n] + [s[n]];
      DigitsAre(s[..n], base);
      DigitsSnoc(s[..n], s[n], base, 0);
      var high, low := ValueOf(s[..n], base), DigitOf(s[n], base);
      if high.Some? && low.Some? {
        ModStep(high.value, base, low.value);
      }
    } else {
      Bits.DivModUnique(0, WORD, 0, 0);
    }
  }

  lemma ModStep(a: nat, base: nat, v: nat)
    ensures (a % WORD * base + v) % WORD == (a * base + v) % WORD
  {
    var q, r := a / WORD, a % WORD;
    var k, t := (r * base + v) / WORD, (r * base + v) % WORD;
    assert a * base == (q * base) * WORD + r * base by {
      assert a == q * WORD + r;
    }
    Bits.DivModUnique(a * base + v, WORD, q * base + k, t);
  }

  // Decimal, and hexadecimal after 0x or 0X.
  lemma NumberIs(s: string)
    ensures var v := if |s| >= 2 && (s[..2] == "0x" || s[..2] == "0X") then ValueOf(s[2..], 16) else ValueOf(s, 10);
      Number(s) == if v.None? then None else Some(v.value % 0x1_0000_0000)
  {
    hide Digits, ValueOf;
    if |s| >= 2 {
      assert s[..2] == [s[0], s[1]];
      DigitsAre(s[2..], 16);
    }
    DigitsAre(s, 10);
  }

  // The place of the first dot, or the end.
  function Dot(s: string): (i: nat)
    ensures i <= |s| && (i < |s| ==> s[i] == '.') && forall k :: 0 <= k < i ==> s[k] != '.'
  {
    if s == "" || s[0] == '.' then 0 else 1 + Dot(s[1..])
  }

  function TokensOf(s: string): (ts: seq<Token>)
    ensures ts != []
    decreases |s|
  {
    var i := Dot(s);
    if i == |s| then [TokenOf(s)] else [TokenOf(s[..i])] + TokensOf(s[i + 1..])
  }

  function DigitChar(v: nat): char
    requires v < 10
  {
    ('0' as int + v) as char
  }

  // %u
  function Decimal(n: nat): (s: string)
    ensures s != ""
  {
    if n < 10 then [DigitChar(n)] else Decimal(n / 10) + [DigitChar(n % 10)]
  }

  function Show(n: bv32): (s: string)
    ensures s != ""
  {
    Decimal(n as nat)
  }

  function Join(ns: seq<bv32>): string
    requires ns != []
  {
    if |ns| == 1 then Show(ns[0]) else Show(ns[0]) + "." + Join(ns[1..])
  }

  // ---------- reading back what was printed ----------

  lemma {:induction false} DigitsConcat(a: string, b: string, acc: nat)
    requires acc < WORD
    ensures Digits(a + b, 10, acc)
         == (var r := Digits(a, 10, acc); if r.None? then None else Digits(b, 10, r.value))
    decreases |a|
  {
    if a == "" {
      assert a + b == b;
    } else {
      assert (a + b)[1..] == a[1..] + b;
      var v := DigitOf(a[0], 10);
      if v.Some? {
        DigitsConcat(a[1..], b, (acc * 10 + v.value) % WORD);
      }
    }
  }

  lemma LastDigit(acc: nat, v: nat)
    requires v < 10 && acc * 10 + v < WORD
    ensures Digits([DigitChar(v)], 10, acc) == Some(acc * 10 + v)
  {
    assert DigitOf(DigitChar(v), 10) == Some(v);
    assert [DigitChar(v)][1..] == "";
  }

  lemma {:induction false} DecimalBack(n: nat)
    requires n < WORD
    ensures Digits(Decimal(n), 10, 0) == Some(n)
  {
    if n < 10 {
      LastDigit(0, n);
    } else {
      DecimalBack(n / 10);
      LastDigit(n / 10, n % 10);
      DigitsConcat(Decimal(n / 10), [DigitChar(n % 10)], 0);
    }
  }

  lemma {:induction false} DecimalDigits(n: nat)
    ensures forall i :: 0 <= i < |Decimal(n)| ==> '0' <= Decimal(n)[i] <= '9'
  {
    if n >= 10 {
      DecimalDigits(n / 10);
    }
  }

  // What was printed for a number is read as that number, and has no dot in it.
  lemma ShowBack(n: bv32)
    ensures TokenOf(Show(n)) == Some(n) && '.' !in Show(n)
  {
    DecimalBack(n as nat);
    DecimalDigits(n as nat);
    assert Number(Show(n)) == Some(n as nat);
  }

  lemma {:induction false} DotAfter(a: string, b: string)
    requires forall i :: 0 <= i < |a| ==> a[i] != '.'
    ensures Dot(a + "." + b) == |a| && Dot(a) == |a|
  {
    if a == "" {
    } else {
      assert (a + "." + b)[1..] == a[1..] + "." + b;
      DotAfter(a[1..], b);
    }
  }

  lemma FirstToken(first: string, rest: string)
    requires '.' !in first
    ensures TokensOf(first + "." + rest) == [TokenOf(first)] + TokensOf(rest)
  {
    DotAfter(first, rest);
    var s := first + "." + rest;
    assert s[..|first|] == first && s[|first| + 1..] == rest;
  }

  // The text of some numbers has these numbers as its tokens.
  lemma {:induction false} TokensBack(ns: seq<bv32>)
    requires ns != []
    ensures TokensOf(Join(ns)) == Tokens(ns)
  {
    var first := Show(ns[0]);
    ShowBack(ns[0]);
    if |ns| == 1 {
      DotAfter(first, "");
    } else {
      TokensBack(ns[1..]);
      FirstToken(first, Join(ns[1..]));
      TokensRest(ns);
      assert Tokens(ns) == [Some(ns[0])] + Tokens(ns)[1..];
    }
  }

  // Printing an attribute and parsing the text gives it back exactly when it survives.
  lemma TextRoundTripIff(d: Dict, attr: bv32, vendor: bv32)
    requires Registered(d)
    ensures Parse(d, TokensOf(Join(Print(d, attr, vendor))), 0, 0, 0) == Done(attr, vendor) <==> Survives(d, attr, vendor)
  {
    TokensBack(Print(d, attr, vendor));
    RoundTripIff(d, attr, vendor);
  }

  // ---------- print_attr_oid ----------

  // What has been printed when the numbers in ns are done and more follow.
  function Started(ns: seq<bv32>): string {
    if ns == [] then "" else Show(ns[0]) + "." + Started(ns[1..])
  }

  lemma {:induction false} JoinStarted(a: seq<bv32>, b: seq<bv32>)
    requires b != []
    ensures Join(a + b) == Started(a) + Join(b)
  {
    if a == [] {
      assert a + b == b;
    } else {
      assert (a + b)[1..] == a[1..] + b;
      JoinStarted(a[1..], b);
      assert Show(a[0]) + "." + (Started(a[1..]) + Join(b)) == Show(a[0]) + "." + Started(a[1..]) + Join(b);
    }
  }

  lemma {:induction false} JoinNext(ns: seq<bv32>, n: bv32)
    requires ns != []
    ensures Join(ns + [n]) == Join(ns) + "." + Show(n)
  {
    hide Show;
    if |ns| == 1 {
      assert (ns + [n])[1..] == [n];
    } else {
      assert (ns + [n])[1..] == ns[1..] + [n];
      JoinNext(ns[1..], n);
    }
  }

  // One more number, with its dot.
  lemma {:induction false} StartedNext(done: seq<bv32>, n: bv32)
    ensures Started(done + [n]) == Started(done) + (Show(n) + ".")
  {
    if done == [] {
      assert [] + [n] == [n] && [n][1..] == [];
      assert Started([n]) == Show(n) + "." + "";
    } else {
      assert (done + [n])[1..] == done[1..] + [n];
      StartedNext(done[1..], n);
      var first := Show(done[0]) + ".";
      assert first + (Started(done[1..]) + (Show(n) + ".")) == (first + Started(done[1..])) + (Show(n) + ".");
    }
  }

  // print_attr_oid; the buffer is large enough.
  method PrintAttrOid(d: Dict, attr: bv32, vendor: bv32) returns (p: string)
    ensures p == Join(Print(d, attr, vendor))
  {
    hide Show, Join, Numbers;
    ghost var done: seq<bv32> := [];
    var v, kind := vendor, 1;
    p := "";
    if v > MAX_VENDOR {
      StartedNext([], v >> 24);
      p := p + (Show(v >> 24) + ".");
      done := [v >> 24];
      v := v & 0xff_ffff;
    }
    if v != 0 {
      if v in d.vendors {
        kind := d.vendors[v].kind;
      }
      p := PrintVendor(p, v, done);
      done := done + [PW_VENDOR_SPECIFIC, v];
    }
    var numbers := PrintNumbers(kind, attr);
    JoinStarted(done, Numbers(kind, attr));
    p := p + numbers;
    assert Print(d, attr, vendor) == done + Numbers(kind, attr);
  }

  method PrintVendor(buffer: string, v: bv32, ghost done: seq<bv32>) returns (p: string)
    requires buffer == Started(done)
    ensures p == Started(done + [PW_VENDOR_SPECIFIC, v])
  {
    TwentySix();
    StartedNext(done, PW_VENDOR_SPECIFIC);
    StartedNext(done + [PW_VENDOR_SPECIFIC], v);
    assert done + [PW_VENDOR_SPECIFIC] + [v] == done + [PW_VENDOR_SPECIFIC, v];
    p := buffer + "26." + (Show(v) + ".");
  }

  lemma TwentySix()
    ensures Show(PW_VENDOR_SPECIFIC) + "." == "26."
  {
    assert PW_VENDOR_SPECIFIC as nat == 26;
    assert Decimal(2) == "2";
    assert Decimal(26) == "26";
  }

  method PrintNumbers(kind: nat, attr: bv32) returns (p: string)
    ensures p == Join(Numbers(kind, attr))
  {
    if kind == 2 {
      return Show(attr & 0xffff);
    }
    if kind == 4 {
      return Show(attr);
    }
    if attr >> 8 == 0 {
      return Show(attr & 0xff);
    }
    p := PrintNested(attr);
  }

  // The loop over the packed numbers
  method PrintNested(attr: bv32) returns (p: string)
    ensures p == Join([attr & 0xff] + Nested(attr, 1))
  {
    p := Show(attr & 0xff);
    ghost var done := [attr & 0xff];
    var nest: nat := 1;
    while nest <= MAX_TLV_NEST
      invariant 1 <= nest <= 5 && done != [] && p == Join(done)
      invariant done + Nested(attr, nest) == [attr & 0xff] + Nested(attr, 1)
    {
      var n := Part(attr, nest);
      if n == 0 { break; }
      JoinNext(done, n);
      NestedNext(attr, nest, done);
      p := p + "." + Show(n);
      done := done + [n];
      nest := nest + 1;
    }
    NestedEnd(attr, nest, done);
  }

  lemma NestedNext(attr: bv32, nest: nat, done: seq<bv32>)
    requires nest <= MAX_TLV_NEST && Part(attr, nest) != 0
    ensures done + Nested(attr, nest) == (done + [Part(attr, nest)]) + Nested(attr, nest + 1)
  {
  }

  lemma NestedEnd(attr: bv32, nest: nat, done: seq<bv32>)
    requires nest > MAX_TLV_NEST || Part(attr, nest) == 0
    ensures done + Nested(attr, nest) == done
  {
  }

  // ---------- dict_str2oid ----------

  // The tokens of a text: the first piece, and the tokens after its dot.
  lemma TokensStep(s: string)
    ensures var i, ts := Dot(s), TokensOf(s);
      && ts[0] == TokenOf(s[..i])
      && (i == |s| ==> |ts| == 1)
      && (i < |s| ==> |ts| > 1 && ts[1..] == TokensOf(s[i + 1..]))
  {
    assert s[..|s|] == s;
  }

  // sscanf_i: the number at the front of ptr, up to a dot.
  method SscanfI(ptr: string) returns (r: Token)
    ensures r == TokensOf(ptr)[0]
  {
    TokensStep(ptr);
    var n := ReadNumber(ptr);
    r := if n.None? then None else Some(n.value as bv32);
  }

  method ReadNumber(ptr: string) returns (r: Option<nat>)
    ensures r == Number(ptr[..Dot(ptr)])
  {
    ghost var piece := ptr[..Dot(ptr)];
    var i, base, rcode := 0, 10, 0;
    if |ptr| >= 2 && ptr[0] == '0' && (ptr[1] == 'x' || ptr[1] == 'X') {
      i, base := 2, 16;
      DotPast(ptr, 2);
    }
    assert piece[0..] == piece;
    while i < |ptr|
      invariant i <= |piece| && 0 <= rcode < WORD && (base == 10 || base == 16)
      invariant Number(piece) == Digits(piece[i..], base, rcode)
      decreases |ptr| - i
    {
      if ptr[i] == '.' { break; }
      DotPast(ptr, i + 1);
      assert piece[i..][0] == ptr[i] && piece[i..][1..] == piece[i + 1..];
      var c := DigitOf(ptr[i], base);
      if c.None? { return None; }
      rcode := (rcode * base + c.value) % WORD;
      i := i + 1;
    }
    assert piece[i..] == "";
    r := Some(rcode);
  }

  // Text without a dot up to n has its first dot from there on.
  lemma {:induction false} DotPast(s: string, n: nat)
    requires n <= |s| && forall k :: 0 <= k < n ==> s[k] != '.'
    ensures Dot(s) >= n
  {
  }

  // strchr(ptr, '.')
  method FindDot(ptr: string) returns (p: Option<nat>)
    ensures p == if |TokensOf(ptr)| == 1 then None else Some(Dot(ptr))
    ensures p.Some? ==> p.value < |ptr| && TokensOf(ptr[p.value + 1..]) == TokensOf(ptr)[1..]
  {
    hide TokensOf, Dot;
    TokensStep(ptr);
    var i := 0;
    while i < |ptr| && ptr[i] != '.'
      invariant 0 <= i <= |ptr| && forall k :: 0 <= k < i ==> ptr[k] != '.'
    {
      i := i + 1;
    }
    DotPast(ptr, i);
    p := if i < |ptr| then Some(i) else None;
  }

  // dict_str2oid
  method StrToOid(d: Dict, text: string, value: bv32, vendor: bv32, depth: nat) returns (r: Parsed)
    ensures r == Parse(d, TokensOf(text), value, vendor, depth)
  {
    if depth > MAX_TLV_NEST { return Failed; }
    if vendor != 0 || value != 0 {
      r := KeepParsing(d, text, value, vendor, depth);
      return r;
    }
    if depth != 0 { return Failed; }
    var ptr := text;
    var p := FindDot(ptr);
    var attr := SscanfI(ptr);
    if attr.None? { return Failed; }
    if p.None? { return Done(attr.value, 0); }
    var top: bv32 := 0;
    if attr.value != PW_VENDOR_SPECIFIC {
      if attr.value !in d.standard { return Done(attr.value, 0); }
      if !d.standard[attr.value] {
        if attr.value == PW_IPV6_6RD_CONFIGURATION {
          r := KeepParsing(d, ptr[p.value + 1..], attr.value, 0, 1);
          return r;
        }
        return Failed;
      }
      top := attr.value << 24;
      ptr := ptr[p.value + 1..];
    }
    r := ParseVsa(d, ptr, top);
  }

  // Looking for the attribute number.
  method ParseVsa(d: Dict, start: string, vendor: bv32) returns (r: Parsed)
    ensures r == Vsa(d, TokensOf(start), vendor)
  {
    var ptr := start;
    var attr := SscanfI(ptr);
    if attr.None? { return Failed; }
    var p := FindDot(ptr);
    if attr.value != PW_VENDOR_SPECIFIC {
      r := KeepParsing(d, ptr, attr.value, vendor, 0);
      return r;
    }
    if p.None? { return Done(attr.value, vendor); }
    ptr := ptr[p.value + 1..];
    attr := SscanfI(ptr);
    if attr.None? { return Failed; }
    p := FindDot(ptr);
    if p.None? { return Failed; }
    ptr := ptr[p.value + 1..];
    r := KeepParsing(d, ptr, 0, vendor | attr.value, 0);
  }

  // keep_parsing: checking the vendor
  method KeepParsing(d: Dict, ptr: string, value: bv32, vendor: bv32, depth: nat) returns (r: Parsed)
    ensures r == Keep(d, TokensOf(ptr), value, vendor, depth)
  {
    if vendor != 0 && vendor in d.vendors && d.vendors[vendor].kind != 1 {
      var kind := d.vendors[vendor].kind;
      if value != 0 || depth != 0 { return Failed; }
      var attr := SscanfI(ptr);
      if attr.None? { return Failed; }
      if kind < 3 && attr.value > (if kind == 0 then 1 else if kind == 1 then 0x100 else 0x1_0000) { return Failed; }
      if vendor == DHCP_VENDOR {
        r := Tlvs(ptr, attr.value, vendor, depth, true);
        return r;
      }
      return Done(attr.value, vendor);
    }
    r := Tlvs(ptr, value, vendor, depth, false);
  }

  // What the loop over the rest of the TLVs gives, entered in the middle when a number has been read.
  function Remainder(ts: seq<Token>, value: bv32, vendor: bv32, depth: nat, read: bool): Parsed
    requires ts != []
  {
    if read then Rest(ts, value, vendor, depth) else Tlv(ts, value, vendor, depth)
  }

  lemma RemainderTurn(ts: seq<Token>, value: bv32, vendor: bv32, depth: nat)
    requires ts != []
    ensures Remainder(ts, value, vendor, depth, true)
         == if |ts| == 1 then Done(value, vendor) else Remainder(ts[1..], value, vendor, depth + 1, false)
  {
  }

  lemma RemainderReads(ts: seq<Token>, value: bv32, vendor: bv32, depth: nat)
    requires ts != []
    ensures Remainder(ts, value, vendor, depth, false)
         == if depth > MAX_TLV_NEST then Done(value, vendor)
            else if ts[0].None? || ts[0].value > Mask(depth) then Failed
            else Remainder(ts, value | Up(ts[0].value, depth), vendor, depth, true)
  {
  }

  method Tlvs(start: string, value: bv32, vendor: bv32, first: nat, read: bool) returns (r: Parsed)
    ensures r == Remainder(TokensOf(start), value, vendor, first, read)
  {
    hide TokensOf, Remainder, Dot;
    var ptr, pvalue, skip := start, value, read;
    var depth: nat := first;
    while skip || depth <= MAX_TLV_NEST
      invariant Remainder(TokensOf(start), value, vendor, first, read) == Remainder(TokensOf(ptr), pvalue, vendor, depth, skip)
      decreases |ptr|
    {
      if !skip {
        var next := ReadTlv(ptr, pvalue, vendor, depth);
        if next.None? { return Failed; }
        pvalue := next.value;
      }
      RemainderTurn(TokensOf(ptr), pvalue, vendor, depth);
      skip := false;
      var p := FindDot(ptr);
      if p.None? { return Done(pvalue, vendor); }
      ptr := ptr[p.value + 1..];
      depth := depth + 1;
    }
    RemainderReads(TokensOf(ptr), pvalue, vendor, depth);
    r := Done(pvalue, vendor);
  }

  // The number at ptr, checked and packed.
  method ReadTlv(ptr: string, pvalue: bv32, ghost vendor: bv32, depth: nat) returns (next: Option<bv32>)
    requires depth <= MAX_TLV_NEST
    ensures Remainder(TokensOf(ptr), pvalue, vendor, depth, false)
         == if next.None? then Failed else Remainder(TokensOf(ptr), next.value, vendor, depth, true)
  {
    hide TokensOf, Remainder;
    RemainderReads(TokensOf(ptr), pvalue, vendor, depth);
    var attr := SscanfI(ptr);
    if attr.None? || attr.value > Mask(depth) { return None; }
    next := Some(pvalue | Up(attr.value, depth));
  }

  // Through the two methods: parsing what was printed.
  method PrintAndParse(d: Dict, attr: bv32, vendor: bv32) returns (r: Parsed)
    requires Registered(d)
    ensures r == Done(attr, vendor) <==> Survives(d, attr, vendor)
  {
    TextRoundTripIff(d, attr, vendor);
    var text := PrintAttrOid(d, attr, vendor);
    r := StrToOid(d, text, 0, 0, 0);
  }
}
