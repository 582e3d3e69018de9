/** The branch-free key codec of key.c.  A C int is a bv32 read as a two's complement
    number, a char is a signed byte, and a C string is the sequence of its characters in
    front of the terminating zero. */
module KeyCodec {
  import opened Rfc4648

  const KEY_LEN: nat := 32
  const KEY_LEN_BASE64: nat := 45
  const KEY_LEN_HEX: nat := 65
  const PAD: byte := 61

  /** The shift to the right by eight of a signed int: the sign fills in. */
  function Sar8(x: bv32): bv32 {
    (x >> 8) | (if x >= 0x8000_0000 then 0xFF00_0000 else 0)
  }

  /** A char promoted to int. */
  function Promote(c: byte): (r: bv32)
    ensures if c < 0x80 then r == c as bv32 < 0x80 else c as bv32 >= 0x80 && r >= 0xFFFF_FF80
  {
    if c >= 0x80 then (c as bv32) | 0xFFFF_FF00 else c as bv32
  }

  /** An int or unsigned stored in a byte. */
  function Truncate(x: bv32): byte {
    (x & 0xFF) as byte
  }

  function High(x: bv32): byte {
    Truncate(x >> 16)
  }

  function Middle(x: bv32): byte {
    Truncate(x >> 8)
  }

  /** The sign of an int, as the decoders record it. */
  function Sign(x: bv32): (r: byte)
    ensures r == 0 <==> x < 0x8000_0000
  {
    (x >> 31) as byte
  }

  /** The or-ing of a finding into the error flag. */
  function Record(ret: byte, x: byte): (r: byte)
    ensures r == 0 <==> ret == 0 && x == 0
  {
    ret | x
  }

  /** The return value: true exactly when nothing was recorded. */
  predicate Flag(ret: byte)
    ensures Flag(ret) <==> ret == 0
  {
    1 & Sar8(ret as bv32 - 1) == 1
  }

  // ---------------------------------------------------------------- base64

  /** All ones if x exceeds k, else zero. */
  function Exceeds(k: bv32, x: bv32): (r: bv32)
    requires k < 0x100 && x < 0x100
    ensures r == if k < x then 0xFFFF_FFFF else 0
  {
    Sar8(k - x)
  }

  /** The expression for one character of the encoder. */
  function SymbolBits(input: byte): (r: byte)
    requires input < 64
    ensures r == Symbol(input)
  {
    hide Exceeds;
    var x := input as bv32;
    Truncate(x + 65 + (Exceeds(25, x) & 6) - (Exceeds(51, x) & 75) - (Exceeds(61, x) & 15) + (Exceeds(62, x) & 3))
  }

  /** The four six-bit numbers the encoder cuts out of three octets. */
  function Sextets(s0: byte, s1: byte, s2: byte): (r: seq<byte>)
    ensures |r| == 4
    ensures r[0] < 64 && r[1] < 64 && r[2] < 64 && r[3] < 64
  {
    [(s0 >> 2) & 63, ((s0 << 4) | (s1 >> 4)) & 63, ((s1 << 2) | (s2 >> 6)) & 63, s2 & 63]
  }

  /** They are the sextets of the 24-bit number. */
  lemma SextetsText(a: byte, b: byte, c: byte)
    ensures var s := Sextets(a, b, c);
            GroupText(Group(a, b, c)) == [Symbol(s[0]), Symbol(s[1]), Symbol(s[2]), Symbol(s[3])]
  {
    hide Symbol;
    SplitGroup(a, b, c);
  }

  /** The byte shifts of the encoder and the shifts of the 24-bit number agree. */
  lemma SplitGroup(a: byte, b: byte, c: byte)
    ensures (a >> 2) & 63 == Sextet(Group(a, b, c), 18)
    ensures ((a << 4) | (b >> 4)) & 63 == Sextet(Group(a, b, c), 12)
    ensures ((b << 2) | (c >> 6)) & 63 == Sextet(Group(a, b, c), 6)
    ensures c & 63 == Sextet(Group(a, b, c), 0)
  {
  }

  /** encode_base64 */
  method EncodeGroup(dest: array<byte>, at: nat, s0: byte, s1: byte, s2: byte)
    requires at + 4 <= dest.Length
    modifies dest
    ensures dest[at..at + 4] == GroupText(Group(s0, s1, s2))
    ensures forall i :: 0 <= i < dest.Length && !(at <= i < at + 4) ==> dest[i] == old(dest[i])
  {
    hide Symbol, SymbolBits, GroupText, Group, Sextets;
    var input := Sextets(s0, s1, s2);
    var i := 0;
    while i < 4
      invariant 0 <= i <= 4
      invariant forall k :: at <= k < at + i ==> dest[k] == Symbol(input[k - at])
      invariant forall k :: 0 <= k < dest.Length && !(at <= k < at + 4) ==> dest[k] == old(dest[k])
    {
      dest[at + i] := SymbolBits(input[i]);
      i := i + 1;
    }
    SextetsText(s0, s1, s2);
    assert dest[at..at + 4] == [dest[at], dest[at + 1], dest[at + 2], dest[at + 3]];
  }

  /** key_to_base64 writes the RFC 4648 encoding and a terminating zero. */
  method KeyToBase64(base64: array<byte>, key: seq<byte>)
    requires base64.Length == KEY_LEN_BASE64 && |key| == KEY_LEN
    modifies base64
    ensures base64[..KEY_LEN_BASE64 - 1] == Base64(key)
    ensures base64[KEY_LEN_BASE64 - 1] == 0
  {
    hide Base64, GroupText, Group;
    var i := 0;
    Base64Empty();
    while i < KEY_LEN / 3
      invariant 0 <= i <= KEY_LEN / 3
      invariant base64[..4 * i] == Base64(key[..3 * i])
    {
      ghost var done := base64[..4 * i];
      EncodeGroup(base64, 4 * i, key[3 * i], key[3 * i + 1], key[3 * i + 2]);
      Base64Step(key, i);
      assert base64[..4 * (i + 1)] == done + base64[4 * i..4 * i + 4];
      i := i + 1;
    }
    ghost var done := base64[..40];
    EncodeGroup(base64, i * 4, key[i * 3], key[i * 3 + 1], 0);
    ghost var last := base64[40..44];
    assert base64[..40] == done;
    base64[KEY_LEN_BASE64 - 2] := PAD;
    base64[KEY_LEN_BASE64 - 1] := 0;
    Base64Last(key);
    assert base64[40..43] == last[..3];
    assert base64[..44] == base64[..40] + base64[40..43] + [base64[43]];
  }

  lemma Base64Group(a: byte, b: byte, c: byte)
    ensures Base64([a, b, c]) == GroupText(Group(a, b, c))
  {
    hide Group, GroupText;
    assert [a, b, c][3..] == [];
    assert Base64([]) == [];
  }

  lemma Base64Step(key: seq<byte>, i: nat)
    requires 3 * i + 3 <= |key|
    ensures Base64(key[..3 * (i + 1)]) ==
      Base64(key[..3 * i]) + GroupText(Group(key[3 * i], key[3 * i + 1], key[3 * i + 2]))
  {
    hide Base64, GroupText, Group;
    var group := [key[3 * i], key[3 * i + 1], key[3 * i + 2]];
    assert key[..3 * (i + 1)] == key[..3 * i] + group;
    Base64Append(key[..3 * i], group);
    Base64Group(key[3 * i], key[3 * i + 1], key[3 * i + 2]);
  }

  lemma Base64Pair(a: byte, b: byte)
    ensures Base64([a, b]) == GroupText(Group(a, b, 0))[..3] + [61]
  {
    hide Group, GroupText;
  }

  lemma Base64Last(key: seq<byte>)
    requires |key| == KEY_LEN
    ensures Base64(key) == Base64(key[..30]) + GroupText(Group(key[30], key[31], 0))[..3] + [61]
  {
    hide Base64, GroupText, Group;
    var pair := [key[30], key[31]];
    assert key == key[..30] + pair;
    Base64Append(key[..30], pair);
    Base64Pair(key[30], key[31]);
  }

  /** An int between -256 and 255. */
  predicate Narrow(a: bv32) {
    a < 0x100 || a >= 0xFFFF_FF00
  }

  predicate Negative(a: bv32) {
    a >= 0x8000_0000
  }

  /** Negative for chars from lo on. */
  function ToLow(c: byte, lo: bv32): (r: bv32)
    requires 1 <= lo <= 122
    ensures Narrow(r) && (Negative(r) <==> lo <= c as bv32 < 0x80)
  {
    hide Promote;
    lo - 1 - Promote(c)
  }

  /** Negative for chars up to hi. */
  function FromHigh(c: byte, hi: bv32): (r: bv32)
    requires 1 <= hi <= 122
    ensures Narrow(r) && (Negative(r) <==> c as bv32 <= hi || 0x80 <= c as bv32)
  {
    hide Promote;
    Promote(c) - (hi + 1)
  }

  /** The shifted conjunction of two narrow numbers: all ones if both are negative, else zero. */
  function BothNegative(a: bv32, b: bv32): (r: bv32)
    requires Narrow(a) && Narrow(b)
    ensures r == if Negative(a) && Negative(b) then 0xFFFF_FFFF else 0
  {
    Sar8(a & b)
  }

  /** The mask of a character range: all ones inside, zero outside. */
  function RangeMask(c: byte, lo: bv32, hi: bv32): (r: bv32)
    requires 1 <= lo <= hi <= 122
    ensures r == if lo <= c as bv32 <= hi then 0xFFFF_FFFF else 0
  {
    hide Narrow, Negative, ToLow, FromHigh, BothNegative;
    BothNegative(ToLow(c, lo), FromHigh(c, hi))
  }

  /** The expression for one character of the decoder: its value, or all ones. */
  function ValueBits(c: byte): (r: bv32)
    ensures r == if IsSymbol(c) then SymbolValue(c) as bv32 else 0xFFFF_FFFF
  {
    hide RangeMask;
    var x := Promote(c);
    0xFFFF_FFFF
    + (RangeMask(c, 65, 90) & (x - 64))
    + (RangeMask(c, 97, 122) & (x - 70))
    + (RangeMask(c, 48, 57) & (x + 5))
    + (RangeMask(c, 43, 43) & 63)
    + (RangeMask(c, 47, 47) & 64)
  }

  predicate AllSymbols(s: seq<byte>) {
    forall i :: 0 <= i < |s| ==> IsSymbol(s[i])
  }

  function Or(x: bv32, y: bv32): bv32 {
    x | y
  }

  /** A value moved to the place of the i-th sextet. */
  function Place(v: bv32, i: nat): (r: bv32)
    requires i < 4
    ensures i == 0 ==> r == v << 18
    ensures i == 1 ==> r == v << 12
    ensures i == 2 ==> r == v << 6
    ensures i == 3 ==> r == v
  {
    v << (18 - 6 * i)
  }

  function Joined(p: bv32, q: bv32, r: bv32, t: bv32): bv32 {
    Or(Or(Or(Or(0, Place(p, 0)), Place(q, 1)), Place(r, 2)), Place(t, 3))
  }

  /** decode_base64: negative when a character is no symbol, and otherwise the 24-bit
      number that encodes to the four characters. */
  method DecodeGroup(src: seq<byte>) returns (val: bv32)
    requires |src| == 4
    ensures Sign(val) == 0 <==> AllSymbols(src)
    ensures AllSymbols(src) ==> val < 0x100_0000 && GroupText(val) == src
  {
    hide ValueBits, Place, GroupText, Or;
    val := 0;
    var i := 0;
    ghost var stages: seq<bv32> := [val];
    while i < 4
      invariant 0 <= i <= 4 && |stages| == i + 1
      invariant stages[0] == 0 && stages[i] == val
      invariant forall k :: 0 <= k < i ==> stages[k + 1] == Or(stages[k], Place(ValueBits(src[k]), k))
    {
      val := Or(val, Place(ValueBits(src[i]), i));
      stages := stages + [val];
      i := i + 1;
    }
    assert stages[0 + 1] == Or(stages[0], Place(ValueBits(src[0]), 0));
    assert stages[1 + 1] == Or(stages[1], Place(ValueBits(src[1]), 1));
    assert stages[2 + 1] == Or(stages[2], Place(ValueBits(src[2]), 2));
    assert stages[3 + 1] == Or(stages[3], Place(ValueBits(src[3]), 3));
    JoinedGroup(src);
  }

  lemma JoinedGroup(s: seq<byte>)
    requires |s| == 4
    ensures var v := Joined(ValueBits(s[0]), ValueBits(s[1]), ValueBits(s[2]), ValueBits(s[3]));
            && (Sign(v) == 0 <==> AllSymbols(s))
            && (AllSymbols(s) ==> v < 0x100_0000 && GroupText(v) == s)
  {
    hide ValueBits, SymbolValue, Symbol, Sextet, Joined;
    var p, q, r, t := ValueBits(s[0]), ValueBits(s[1]), ValueBits(s[2]), ValueBits(s[3]);
    var v := Joined(p, q, r, t);
    if AllSymbols(s) {
      JoinBits(p, q, r, t);
      SymbolInverse(Sextet(v, 18), s[0]);
      SymbolInverse(Sextet(v, 12), s[1]);
      SymbolInverse(Sextet(v, 6), s[2]);
      SymbolInverse(Sextet(v, 0), s[3]);
    } else {
      SignBit(p, q, r, t);
    }
  }

  lemma SignBit(p: bv32, q: bv32, r: bv32, t: bv32)
    requires p == 0xFFFF_FFFF || q == 0xFFFF_FFFF || r == 0xFFFF_FFFF || t == 0xFFFF_FFFF
    ensures Joined(p, q, r, t) >= 0x8000_0000
  {
    hide Place;
  }

  lemma JoinBits(p: bv32, q: bv32, r: bv32, t: bv32)
    requires p < 64 && q < 64 && r < 64 && t < 64
    ensures var v := Joined(p, q, r, t);
            && v < 0x100_0000
            && Sextet(v, 18) as bv32 == p && Sextet(v, 12) as bv32 == q
            && Sextet(v, 6) as bv32 == r && Sextet(v, 0) as bv32 == t
  {
    hide Place;
  }

  /** Cutting a 24-bit number into octets inverts the grouping. */
  lemma OctetsOfGroup(v: bv32)
    requires v < 0x100_0000
    ensures Group(High(v), Middle(v), Truncate(v)) == v
    ensures Truncate(v) == 0 ==> Group(High(v), Middle(v), 0) == v
  {
  }

  /** Forty-three symbols and a pad, the last symbol with zero pad bits. */
  predicate AcceptedBase64(text: seq<byte>) {
    && |text| == 44
    && text[43] == 61
    && AllSymbols(text[..43])
    && SymbolValue(text[42]) & 3 == 0
  }

  /** key_from_base64 accepts exactly these strings and inverts the encoding. */
  method KeyFromBase64(key: array<byte>, text: seq<byte>) returns (ok: bool)
    requires key.Length == KEY_LEN
    modifies key
    ensures ok == AcceptedBase64(text)
    ensures ok ==> Base64(key[..]) == text
    ensures !ok ==> forall k: seq<byte> | |k| == KEY_LEN :: Base64(k) != text
    ensures !(|text| == 44 && text[43] == 61) ==> key[..] == old(key[..])
  {
    hide Base64, GroupText, Group, SymbolValue, High, Middle, Truncate, Sign, Record, Flag, AcceptedBase64;
    if !AcceptedBase64(text) { NoKeyEncodes(text); }
    Shape(text);
    if |text| != KEY_LEN_BASE64 - 1 || text[KEY_LEN_BASE64 - 2] != PAD {
      return false;
    }
    var ret: byte := 0;
    var i := 0;
    Base64Empty();
    while i < KEY_LEN / 3
      invariant 0 <= i <= KEY_LEN / 3
      invariant ret == 0 <==> AllSymbols(text[..4 * i])
      invariant ret == 0 ==> Base64(key[..3 * i]) == text[..4 * i]
    {
      var group := text[4 * i..4 * i + 4];
      var val := DecodeGroup(group);
      AllSymbolsStep(text, 4 * i, 4 * i + 4);
      ret := Record(ret, Sign(val));
      ghost var before := key[..3 * i];
      key[3 * i], key[3 * i + 1], key[3 * i + 2] := High(val), Middle(val), Truncate(val);
      assert key[..3 * i] == before;
      Base64Step(key[..], i);
      assert key[..][..3 * (i + 1)] == key[..3 * (i + 1)];
      if ret == 0 {
        OctetsOfGroup(val);
        assert text[..4 * (i + 1)] == text[..4 * i] + group;
      }
      i := i + 1;
    }
    var last := [text[40], text[41], text[42], 65];
    var val := DecodeGroup(last);
    ret := Record(ret, Record(Sign(val), Truncate(val)));
    key[30], key[31] := High(val), Middle(val);
    ok := Flag(ret);
    LastGroup(text, val);
    if ok {
      OctetsOfGroup(val);
      Base64Last(key[..]);
      assert key[..][..30] == key[..30];
      assert GroupText(val)[..3] == text[40..43];
      assert text == text[..40] + text[40..43] + [text[43]];
    }
  }

  lemma AllSymbolsStep(text: seq<byte>, i: nat, j: nat)
    requires i <= j <= |text|
    ensures AllSymbols(text[..j]) <==> AllSymbols(text[..i]) && AllSymbols(text[i..j])
  {
    if AllSymbols(text[..i]) && AllSymbols(text[i..j]) {
      forall k | 0 <= k < j ensures IsSymbol(text[..j][k]) {
        if k < i { assert IsSymbol(text[..i][k]); } else { assert IsSymbol(text[i..j][k - i]); }
      }
    }
    if AllSymbols(text[..j]) {
      assert forall k :: 0 <= k < i ==> text[..i][k] == text[..j][k];
      assert forall k :: 0 <= k < j - i ==> text[i..j][k] == text[..j][k + i];
    }
  }

  /** The last group, completed by the symbol of zero: the third octet carries the pad bits. */
  lemma LastGroup(text: seq<byte>, val: bv32)
    requires |text| == 44 && text[43] == 61
    requires Sign(val) == 0 <==> AllSymbols([text[40], text[41], text[42], 65])
    requires (AllSymbols([text[40], text[41], text[42], 65]) ==>
               val < 0x100_0000 && GroupText(val) == [text[40], text[41], text[42], 65])
    ensures (AcceptedBase64(text) <==>
              AllSymbols(text[..40]) && Sign(val) == 0 && Truncate(val) == 0)
  {
    hide SymbolValue, Symbol;
    var last := [text[40], text[41], text[42], 65];
    AllSymbolsStep(text, 40, 43);
    ZeroSymbol();
    var tail := text[40..43];
    assert tail == [text[40], text[41], text[42]];
    assert IsSymbol(65);
    assert AllSymbols(last) <==> AllSymbols(tail) by {
      AllSymbolsStep(last, 3, 4);
      assert last[..3] == tail && last[..4] == last && last[3..4] == [65];
      assert AllSymbols([65]);
    }
    if AllSymbols(last) {
      SymbolInverse(Sextet(val, 6), text[42]);
      SymbolInverse(Sextet(val, 0), 65);
      PadBits(val);
    }
  }

  lemma ZeroSymbol()
    ensures SymbolValue(65) == 0 && Symbol(0) == 65
  {
  }

  lemma PadBits(val: bv32)
    requires Sextet(val, 0) == 0
    ensures Truncate(val) == 0 <==> Sextet(val, 6) & 3 == 0
  {
  }

  // ---------------------------------------------------------------- bijection

  lemma SymbolIsSymbol(v: byte)
    requires v < 64
    ensures SymbolValue(Symbol(v)) == v && IsSymbol(Symbol(v))
  {
  }

  lemma {:induction false} GroupsAreSymbols(s: seq<byte>)
    requires |s| % 3 == 0
    ensures AllSymbols(Base64(s))
  {
    hide Base64, Symbol, SymbolValue, Sextet, Group;
    if s == [] {
      Base64Empty();
    } else {
      assert |s| >= 3;
      Base64Unfold(s);
      GroupsAreSymbols(s[3..]);
      var g := Group(s[0], s[1], s[2]);
      SymbolIsSymbol(Sextet(g, 18));
      SymbolIsSymbol(Sextet(g, 12));
      SymbolIsSymbol(Sextet(g, 6));
      SymbolIsSymbol(Sextet(g, 0));
      var head, rest := GroupText(g), Base64(s[3..]);
      assert AllSymbols(head);
      AllSymbolsStep(head + rest, 4, |head + rest|);
      assert (head + rest)[..4] == head && (head + rest)[4..|head + rest|] == rest;
      assert (head + rest)[..|head + rest|] == head + rest;
    }
  }

  lemma LastPadBits(a: byte, b: byte)
    ensures Sextet(Group(a, b, 0), 6) & 3 == 0
  {
  }

  /** Every encoded key is accepted. */
  lemma EncodedAccepted(key: seq<byte>)
    requires |key| == KEY_LEN
    ensures AcceptedBase64(Base64(key))
  {
    hide Base64, Symbol, SymbolValue, Sextet, Group;
    var g := Group(key[30], key[31], 0);
    var text, head, last := Base64(key), Base64(key[..30]), GroupText(g)[..3];
    Base64Last(key);
    GroupsAreSymbols(key[..30]);
    SymbolIsSymbol(Sextet(g, 18));
    SymbolIsSymbol(Sextet(g, 12));
    SymbolIsSymbol(Sextet(g, 6));
    LastPadBits(key[30], key[31]);
    assert AllSymbols(last);
    assert text[..40] == head && text[40..43] == last;
    assert text[42] == last[2];
    AllSymbolsStep(text, 40, 43);
  }

  /** A string that is not accepted encodes no key. */
  lemma NoKeyEncodes(text: seq<byte>)
    requires !AcceptedBase64(text)
    ensures forall k: seq<byte> | |k| == KEY_LEN :: Base64(k) != text
  {
    forall k: seq<byte> | |k| == KEY_LEN ensures Base64(k) != text {
      EncodedAccepted(k);
    }
  }

  lemma Shape(text: seq<byte>)
    ensures AcceptedBase64(text) ==> |text| == 44 && text[43] == 61
  {
  }

  lemma GroupInjective(a: byte, b: byte, c: byte, d: byte, e: byte, f: byte)
    requires var g, h := Group(a, b, c), Group(d, e, f);
             && Sextet(g, 18) == Sextet(h, 18) && Sextet(g, 12) == Sextet(h, 12)
             && Sextet(g, 6) == Sextet(h, 6) && (Sextet(g, 0) == Sextet(h, 0) || (c == 0 && f == 0))
    ensures a == d && b == e && c == f
  {
  }

  lemma GroupTextInjective(a: byte, b: byte, c: byte, d: byte, e: byte, f: byte)
    requires var x, y := GroupText(Group(a, b, c)), GroupText(Group(d, e, f));
             x[..3] == y[..3] && (x[3] == y[3] || (c == 0 && f == 0))
    ensures a == d && b == e && c == f
  {
    hide Symbol, SymbolValue, Sextet, Group;
    var g, h := Group(a, b, c), Group(d, e, f);
    var x, y := GroupText(g), GroupText(h);
    assert x[0] == x[..3][0] && x[1] == x[..3][1] && x[2] == x[..3][2];
    assert y[0] == y[..3][0] && y[1] == y[..3][1] && y[2] == y[..3][2];
    SymbolIsSymbol(Sextet(g, 18));
    SymbolIsSymbol(Sextet(g, 12));
    SymbolIsSymbol(Sextet(g, 6));
    SymbolIsSymbol(Sextet(g, 0));
    SymbolIsSymbol(Sextet(h, 18));
    SymbolIsSymbol(Sextet(h, 12));
    SymbolIsSymbol(Sextet(h, 6));
    SymbolIsSymbol(Sextet(h, 0));
    GroupInjective(a, b, c, d, e, f);
  }

  /** Different octet strings of equal length have different texts. */
  lemma SameParts(x: seq<byte>, a: seq<byte>, y: seq<byte>, b: seq<byte>)
    requires |x| == |y| && x + a == y + b
    ensures x == y && a == b
  {
    assert x == (x + a)[..|x|] && a == (x + a)[|x|..];
    assert y == (y + b)[..|y|] && b == (y + b)[|y|..];
  }

  /** The first group determines its octets. */
  lemma FirstThree(s: seq<byte>, t: seq<byte>)
    requires |s| == |t| >= 3 && Base64(s) == Base64(t)
    ensures s[..3] == t[..3] && Base64(s[3..]) == Base64(t[3..])
  {
    hide Base64, GroupText, Group;
    Base64Unfold(s);
    Base64Unfold(t);
    SameParts(GroupText(Group(s[0], s[1], s[2])), Base64(s[3..]), GroupText(Group(t[0], t[1], t[2])), Base64(t[3..]));
    GroupTextInjective(s[0], s[1], s[2], t[0], t[1], t[2]);
    assert s[..3] == [s[0], s[1], s[2]] && t[..3] == [t[0], t[1], t[2]];
  }

  lemma {:induction false} Base64Injective(s: seq<byte>, t: seq<byte>)
    requires |s| == |t| && |s| % 3 == 0 && Base64(s) == Base64(t)
    ensures s == t
  {
    hide Base64;
    if s != [] {
      FirstThree(s, t);
      Base64Injective(s[3..], t[3..]);
      assert s == s[..3] + s[3..] && t == t[..3] + t[3..];
    }
  }

  lemma KeysInjective(s: seq<byte>, t: seq<byte>)
    requires |s| == KEY_LEN && |t| == KEY_LEN && Base64(s) == Base64(t)
    ensures s == t
  {
    hide Base64, GroupText, Group;
    Base64Last(s);
    Base64Last(t);
    assert Base64(s[..30]) == Base64(s)[..40] && Base64(t[..30]) == Base64(t)[..40];
    Base64Injective(s[..30], t[..30]);
    assert Base64(s)[40..43] == GroupText(Group(s[30], s[31], 0))[..3];
    assert Base64(t)[40..43] == GroupText(Group(t[30], t[31], 0))[..3];
    GroupTextInjective(s[30], s[31], 0, t[30], t[31], 0);
    assert s == s[..30] + [s[30], s[31]] && t == t[..30] + [t[30], t[31]];
  }

  /** Encoding and decoding a key gives the key back. */
  method Base64RoundTrip(key: seq<byte>) returns (back: seq<byte>)
    requires |key| == KEY_LEN
    ensures back == key
  {
    hide Base64, AcceptedBase64;
    var text := new byte[KEY_LEN_BASE64];
    KeyToBase64(text, key);
    var buffer := new byte[KEY_LEN];
    var ok := KeyFromBase64(buffer, text[..KEY_LEN_BASE64 - 1]);
    EncodedAccepted(key);
    back := buffer[..];
    KeysInjective(back, key);
  }

  // ---------------------------------------------------------------- hexadecimal

  /** The expression for one digit of the encoder, in unsigned arithmetic. */
  function DigitBits(v: byte): (r: byte)
    requires v < 16
    ensures r == Digit(v)
  {
    var x := v as bv32;
    Truncate(87 + x + (((x - 10) >> 8) & !38))
  }

  method KeyToHex(hex: array<byte>, key: seq<byte>)
    requires hex.Length == KEY_LEN_HEX && |key| == KEY_LEN
    modifies hex
    ensures hex[..KEY_LEN_HEX - 1] == Hex(key)
    ensures hex[KEY_LEN_HEX - 1] == 0
  {
    hide DigitBits, Digit;
    var i := 0;
    while i < KEY_LEN
      invariant 0 <= i <= KEY_LEN
      invariant hex[..2 * i] == Hex(key[..i])
    {
      ghost var done := hex[..2 * i];
      hex[i * 2] := DigitBits(key[i] >> 4);
      hex[i * 2 + 1] := DigitBits(key[i] & 15);
      HexStep(key, i);
      assert hex[..2 * (i + 1)] == done + [hex[2 * i], hex[2 * i + 1]];
      i := i + 1;
    }
    assert key[..KEY_LEN] == key;
    hex[i * 2] := 0;
  }

  lemma HexStep(key: seq<byte>, i: nat)
    requires i < |key|
    ensures Hex(key[..i + 1]) == Hex(key[..i]) + HexByte(key[i])
  {
    hide HexByte;
    assert key[..i + 1][..i] == key[..i];
  }

  /** The value and the error bits of one character of the decoder. */
  function DigitNumber(c: byte): byte {
    var num := c ^ 48;
    var num0 := Truncate((num as bv32 - 10) >> 8);
    var alpha := Truncate((c as bv32 & !32) - 55);
    var alpha0 := Truncate(((alpha as bv32 - 10) ^ (alpha as bv32 - 16)) >> 8);
    (num0 & num) | (alpha0 & alpha)
  }

  function DigitError(c: byte): byte {
    var num := c ^ 48;
    var num0 := Truncate((num as bv32 - 10) >> 8);
    var alpha := Truncate((c as bv32 & !32) - 55);
    var alpha0 := Truncate(((alpha as bv32 - 10) ^ (alpha as bv32 - 16)) >> 8);
    Truncate(Sar8(((num0 | alpha0) as bv32) - 1))
  }

  lemma DigitBitsDecode(c: byte)
    ensures DigitError(c) == 0 <==> IsDigit(c)
    ensures IsDigit(c) ==> DigitNumber(c) == DigitValue(c)
  {
  }

  predicate AllDigits(s: seq<byte>) {
    forall i :: 0 <= i < |s| ==> IsDigit(s[i])
  }

  function Nibbles(high: byte, low: byte): byte {
    (high * 16) | low
  }

  lemma NibblesText(h: byte, l: byte)
    requires IsDigit(h) && IsDigit(l)
    ensures HexByte(Nibbles(DigitValue(h), DigitValue(l))) == [LowerCase(h), LowerCase(l)]
  {
    hide DigitValue, LowerCase, Digit;
    var b := Nibbles(DigitValue(h), DigitValue(l));
    assert b >> 4 == DigitValue(h) && b & 15 == DigitValue(l);
    DigitInverse(b >> 4, h);
    DigitInverse(b & 15, l);
  }

  /** key_from_hex accepts exactly sixty-four digits of either case and inverts the
      encoding up to the case. */
  method KeyFromHex(key: array<byte>, text: seq<byte>) returns (ok: bool)
    requires key.Length == KEY_LEN
    modifies key
    ensures ok <==> |text| == KEY_LEN_HEX - 1 && AllDigits(text)
    ensures ok ==> Hex(key[..]) == Lower(text)
    ensures |text| != KEY_LEN_HEX - 1 ==> key[..] == old(key[..])
  {
    hide DigitNumber, DigitError, Hex, HexByte, LowerCase, IsDigit, Nibbles, Record, Flag;
    if |text| != KEY_LEN_HEX - 1 {
      return false;
    }
    var ret: byte := 0;
    var i := 0;
    assert Hex([]) == [] by { HexEmpty(); }
    while i < KEY_LEN_HEX - 1
      invariant 0 <= i <= KEY_LEN_HEX - 1 && i % 2 == 0
      invariant ret == 0 <==> forall k :: 0 <= k < i ==> IsDigit(text[k])
      invariant ret == 0 ==> Hex(key[..i / 2]) == Lower(text)[..i]
    {
      var high, low := DigitNumber(text[i]), DigitNumber(text[i + 1]);
      DigitBitsDecode(text[i]);
      DigitBitsDecode(text[i + 1]);
      ret := Record(ret, DigitError(text[i]));
      ret := Record(ret, DigitError(text[i + 1]));
      ghost var done := key[..i / 2];
      key[i / 2] := Nibbles(high, low);
      assert key[..i / 2] == done;
      HexStep(key[..], i / 2);
      assert key[..][..i / 2] == done && key[..][..i / 2 + 1] == key[..(i + 2) / 2];
      if ret == 0 {
        NibblesText(text[i], text[i + 1]);
        assert Lower(text)[..i + 2] == Lower(text)[..i] + [LowerCase(text[i]), LowerCase(text[i + 1])];
      }
      i := i + 2;
    }
    ok := Flag(ret);
    assert key[..KEY_LEN] == key[..];
    assert Lower(text)[..64] == Lower(text);
  }

  lemma HexEmpty()
    ensures Hex([]) == []
  {
  }

  lemma {:induction false} HexDigits(s: seq<byte>)
    ensures AllDigits(Hex(s)) && Lower(Hex(s)) == Hex(s)
  {
    hide Digit, LowerCase, DigitValue;
    if s != [] {
      HexDigits(s[..|s| - 1]);
      var b := s[|s| - 1];
      DigitIsDigit(b >> 4);
      DigitIsDigit(b & 15);
      var head := Hex(s[..|s| - 1]);
      forall k | 0 <= k < |Hex(s)| ensures IsDigit(Hex(s)[k]) && LowerCase(Hex(s)[k]) == Hex(s)[k] {
        if k < |head| { assert Lower(head)[k] == head[k]; }
      }
    }
  }

  lemma DigitIsDigit(v: byte)
    requires v < 16
    ensures IsDigit(Digit(v)) && DigitValue(Digit(v)) == v && LowerCase(Digit(v)) == Digit(v)
  {
  }

  lemma {:induction false} HexInjective(s: seq<byte>, t: seq<byte>)
    requires |s| == |t| && Hex(s) == Hex(t)
    ensures s == t
  {
    hide HexByte;
    if s != [] {
      var n := |s| - 1;
      assert Hex(s[..n]) == Hex(s)[..2 * n] && Hex(t[..n]) == Hex(t)[..2 * n];
      HexInjective(s[..n], t[..n]);
      assert HexByte(s[n]) == Hex(s)[2 * n..] && HexByte(t[n]) == Hex(t)[2 * n..];
      HexByteInjective(s[n], t[n]);
      assert s == s[..n] + [s[n]] && t == t[..n] + [t[n]];
    }
  }

  lemma HexByteInjective(a: byte, b: byte)
    requires HexByte(a) == HexByte(b)
    ensures a == b
  {
    hide Digit, DigitValue;
    assert HexByte(a)[0] == HexByte(b)[0] && HexByte(a)[1] == HexByte(b)[1];
    DigitIsDigit(a >> 4);
    DigitIsDigit(a & 15);
    DigitIsDigit(b >> 4);
    DigitIsDigit(b & 15);
    assert a >> 4 == b >> 4 && a & 15 == b & 15;
  }

  /** Encoding and decoding a key in hexadecimal gives the key back. */
  method HexRoundTrip(key: seq<byte>) returns (back: seq<byte>)
    requires |key| == KEY_LEN
    ensures back == key
  {
    hide Hex;
    var text := new byte[KEY_LEN_HEX];
    KeyToHex(text, key);
    var buffer := new byte[KEY_LEN];
    var ok := KeyFromHex(buffer, text[..KEY_LEN_HEX - 1]);
    HexDigits(key);
    back := buffer[..];
    HexInjective(back, key);
  }

  // ---------------------------------------------------------------- comparison

  lemma XorZeroIffEqual(a: byte, b: byte)
    ensures a ^ b == 0 <==> a == b
  {
  }

  /** key_eq is equality. */
  method KeyEq(key1: seq<byte>, key2: seq<byte>) returns (equal: bool)
    requires |key1| == KEY_LEN && |key2| == KEY_LEN
    ensures equal <==> key1 == key2
  {
    hide Record, Flag;
    var acc: byte := 0;
    var i := 0;
    while i < KEY_LEN
      invariant 0 <= i <= KEY_LEN
      invariant acc == 0 <==> key1[..i] == key2[..i]
    {
      XorZeroIffEqual(key1[i], key2[i]);
      acc := Record(acc, key1[i] ^ key2[i]);
      assert key1[..i + 1] == key1[..i] + [key1[i]] && key2[..i + 1] == key2[..i] + [key2[i]];
      i := i + 1;
    }
    equal := Flag(acc);
    assert key1[..KEY_LEN] == key1 && key2[..KEY_LEN] == key2;
  }
}
