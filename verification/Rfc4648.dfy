/** The base64 and base16 encodings of RFC 4648, as tables. */
module Rfc4648 {
  type byte = bv8

  const UPPER: string := "ABCDEFGHIJKLMNOPQRSTUVWXYZ"
  const LOWER: string := "abcdefghijklmnopqrstuvwxyz"
  const DIGITS: string := "0123456789"

  /** Table 1 of section 4: the sixty-four symbols in order. */
  function Alphabet(): (r: string)
    ensures |r| == 64
  {
    UPPER + LOWER + DIGITS + "+/"
  }

  /** The code of the symbol for a six-bit number. */
  function Symbol(v: byte): byte
    requires v < 64
  {
    if v < 26 then 65 + v
    else if v < 52 then 97 + (v - 26)
    else if v < 62 then 48 + (v - 52)
    else if v == 62 then 43
    else 47
  }

  /** The six-bit numbers of the symbols; 64 for every other character. */
  function SymbolValue(c: byte): byte {
    if 65 <= c <= 90 then c - 65
    else if 97 <= c <= 122 then c - 97 + 26
    else if 48 <= c <= 57 then c - 48 + 52
    else if c == 43 then 62
    else if c == 47 then 63
    else 64
  }

  predicate IsSymbol(c: byte) {
    SymbolValue(c) < 64
  }

  lemma SymbolTable(v: byte)
    requires v < 64
    ensures Alphabet()[v as int] as int == Symbol(v) as int
  {
  }

  /** The table and its inverse. */
  lemma SymbolInverse(v: byte, c: byte)
    requires v < 64
    ensures Symbol(v) == c <==> SymbolValue(c) == v
  {
  }

  /** Three octets as one 24-bit number. */
  function Group(a: byte, b: byte, c: byte): bv32 {
    ((a as bv32) << 16) | ((b as bv32) << 8) | (c as bv32)
  }

  /** The six-bit number at the given shift of a 24-bit number. */
  function Sextet(g: bv32, shift: nat): (r: byte)
    requires shift <= 18
    ensures r < 64
  {
    ((g >> shift) & 63) as byte
  }

  function GroupText(g: bv32): (r: seq<byte>)
    ensures |r| == 4
  {
    [Symbol(Sextet(g, 18)), Symbol(Sextet(g, 12)), Symbol(Sextet(g, 6)), Symbol(Sextet(g, 0))]
  }

  /** Section 4: groups of three octets, the last one padded with the character =, which is 61. */
  function Base64(s: seq<byte>): (r: seq<byte>)
    ensures |r| == (|s| + 2) / 3 * 4
  {
    if |s| == 0 then []
    else if |s| == 1 then GroupText(Group(s[0], 0, 0))[..2] + [61, 61]
    else if |s| == 2 then GroupText(Group(s[0], s[1], 0))[..3] + [61]
    else GroupText(Group(s[0], s[1], s[2])) + Base64(s[3..])
  }

  /** The encodings of f, fo and foo in section 10. */
  lemma SomeEncodings()
    ensures Base64([0x66]) == [0x5A, 0x67, 0x3D, 0x3D]
    ensures Base64([0x66, 0x6F]) == [0x5A, 0x6D, 0x38, 0x3D]
    ensures Base64([0x66, 0x6F, 0x6F]) == [0x5A, 0x6D, 0x39, 0x76]
  {
    assert Group(0x66, 0, 0) == 0x660000 && Group(0x66, 0x6F, 0) == 0x666F00 && Group(0x66, 0x6F, 0x6F) == 0x666F6F;
    assert Base64([0x66, 0x6F, 0x6F][3..]) == [];
  }

  lemma Base64Unfold(s: seq<byte>)
    requires |s| >= 3
    ensures Base64(s) == GroupText(Group(s[0], s[1], s[2])) + Base64(s[3..])
  {
    hide GroupText, Group;
  }

  lemma Base64Empty()
    ensures Base64([]) == []
  {
  }

  lemma Regroup(a: seq<byte>, b: seq<byte>, c: seq<byte>)
    ensures a + (b + c) == (a + b) + c
  {
  }

  /** Whole groups encode independently of what follows. */
  lemma {:induction false} Base64Append(s: seq<byte>, t: seq<byte>)
    requires |s| % 3 == 0
    ensures Base64(s + t) == Base64(s) + Base64(t)
  {
    hide Base64, GroupText, Group;
    if |s| == 0 {
      Base64Empty();
      assert s == [] && s + t == t;
    } else {
      Base64Append(s[3..], t);
      Base64Unfold(s);
      Base64Unfold(s + t);
      assert (s + t)[3..] == s[3..] + t;
      Regroup(GroupText(Group(s[0], s[1], s[2])), Base64(s[3..]), Base64(t));
    }
  }

  /** Section 8: the lower-case digit for a four-bit number. */
  function Digit(v: byte): byte
    requires v < 16
  {
    if v < 10 then 48 + v else 97 + (v - 10)
  }

  lemma DigitTable(v: byte)
    requires v < 16
    ensures (DIGITS + "abcdef")[v as int] as int == Digit(v) as int
  {
  }

  /** The four-bit numbers of the digits of either case; 16 for every other character. */
  function DigitValue(c: byte): byte {
    if 48 <= c <= 57 then c - 48
    else if 97 <= c <= 102 then c - 97 + 10
    else if 65 <= c <= 70 then c - 65 + 10
    else 16
  }

  predicate IsDigit(c: byte) {
    DigitValue(c) < 16
  }

  function LowerCase(c: byte): byte {
    if 65 <= c <= 90 then c + 32 else c
  }

  /** The digit table inverts the digit values up to the case of letters. */
  lemma DigitInverse(v: byte, c: byte)
    requires v < 16
    ensures Digit(v) == LowerCase(c) <==> DigitValue(c) == v
  {
  }

  function HexByte(b: byte): (r: seq<byte>)
    ensures |r| == 2
  {
    [Digit(b >> 4), Digit(b & 15)]
  }

  function Hex(s: seq<byte>): (r: seq<byte>)
    ensures |r| == 2 * |s|
  {
    if s == [] then [] else Hex(s[..|s| - 1]) + HexByte(s[|s| - 1])
  }

  function Lower(s: seq<byte>): (r: seq<byte>)
    ensures |r| == |s|
    ensures forall i :: 0 <= i < |s| ==> r[i] == LowerCase(s[i])
  {
    seq(|s|, i requires 0 <= i < |s| => LowerCase(s[i]))
  }
}
