/** Strings as the configuration parser takes them apart: lines, trimming, comma lists and
    decimal numbers.  A character is a Unicode scalar. */
module ConfigText {
  datatype Option<+T> = None | Some(value: T)

  /** General category Zs and the tabulator. */
  predicate IsWhite(c: char) {
    c == ' ' || c == '\t' || c == '\U{A0}' || c == '\U{1680}' || '\U{2000}' <= c <= '\U{200A}'
    || c == '\U{202F}' || c == '\U{205F}' || c == '\U{3000}'
  }

  predicate IsNewline(c: char) {
    '\U{A}' <= c <= '\U{D}' || c == '\U{85}' || c == '\U{2028}' || c == '\U{2029}'
  }

  /** The seventeen separators of category Zs, and the tabulator. */
  lemma WhiteCharacters(c: char)
    ensures (IsWhite(c) <==>
      c in ['\t', '\U{20}', '\U{A0}', '\U{1680}', '\U{2000}', '\U{2001}', '\U{2002}', '\U{2003}', '\U{2004}',
            '\U{2005}', '\U{2006}', '\U{2007}', '\U{2008}', '\U{2009}', '\U{200A}', '\U{202F}', '\U{205F}',
            '\U{3000}'])
  {
  }

  /** Line feed, line tabulation, form feed, carriage return, next line, and the separators of
      lines and paragraphs. */
  lemma NewlineCharacters(c: char)
    ensures (IsNewline(c) <==>
      c in ['\n', '\U{B}', '\U{C}', '\r', '\U{85}', '\U{2028}', '\U{2029}'])
  {
  }

  predicate OneLine(s: string) {
    forall i :: 0 <= i < |s| ==> !IsNewline(s[i])
  }

  predicate NoComma(s: string) {
    forall i :: 0 <= i < |s| ==> s[i] != ','
  }

  // ---------------------------------------------------------------- trimming

  predicate Trimmed(s: string) {
    s == "" || (!IsWhite(s[0]) && !IsWhite(s[|s| - 1]))
  }

  /** trimmingCharacters(in: .whitespaces) */
  function Trim(s: string): (r: string)
    ensures Trimmed(r) && |r| <= |s|
    decreases |s|
  {
    if s == "" then s
    else if IsWhite(s[0]) then Trim(s[1..])
    else if IsWhite(s[|s| - 1]) then Trim(s[..|s| - 1])
    else s
  }

  /** The characters kept are those of a slice. */
  lemma {:induction false} TrimSlice(s: string) returns (i: nat, j: nat)
    ensures i <= j <= |s| && Trim(s) == s[i..j]
    ensures forall k :: 0 <= k < i || j <= k < |s| ==> IsWhite(s[k])
    decreases |s|
  {
    if s == "" || (!IsWhite(s[0]) && !IsWhite(s[|s| - 1])) {
      i, j := 0, |s|;
    } else if IsWhite(s[0]) {
      i, j := TrimSlice(s[1..]);
      assert s[1..][i..j] == s[i + 1..j + 1];
      assert forall k :: 0 <= k < |s| - 1 ==> s[1..][k] == s[k + 1];
      forall k | 0 <= k < i + 1 || j + 1 <= k < |s| ensures IsWhite(s[k]) {
        if k > 0 { assert s[1..][k - 1] == s[k]; }
      }
      i, j := i + 1, j + 1;
    } else {
      i, j := TrimSlice(s[..|s| - 1]);
      assert s[..|s| - 1][i..j] == s[i..j];
      assert forall k :: 0 <= k < |s| - 1 ==> s[..|s| - 1][k] == s[k];
    }
  }

  lemma TrimIdentity(s: string)
    requires Trimmed(s)
    ensures Trim(s) == s
  {
  }

  predicate Blank(s: string) {
    forall i :: 0 <= i < |s| ==> IsWhite(s[i])
  }

  lemma {:induction false} TrimLeft(left: string, t: string)
    requires Blank(left)
    ensures Trim(left + t) == Trim(t)
    decreases |left|
  {
    if left == "" {
      assert left + t == t;
    } else {
      assert (left + t)[0] == left[0] && (left + t)[1..] == left[1..] + t;
      TrimLeft(left[1..], t);
    }
  }

  lemma {:induction false} TrimRight(s: string, right: string)
    requires Trimmed(s) && Blank(right)
    ensures Trim(s + right) == s
    decreases |right|
  {
    if s == "" {
      TrimLeft(right, "");
      assert s + right == right + "";
    } else if right == "" {
      assert s + right == s;
    } else {
      var t, n := s + right, |right| - 1;
      assert t[0] == s[0] && t[|t| - 1] == right[n] && t[..|t| - 1] == s + right[..n];
      TrimRight(s, right[..n]);
    }
  }

  /** White space around a trimmed string is all that trimming removes. */
  lemma TrimAround(left: string, s: string, right: string)
    requires Trimmed(s) && Blank(left) && Blank(right)
    ensures Trim(left + s + right) == s
  {
    assert left + s + right == left + (s + right);
    TrimLeft(left, s + right);
    TrimRight(s, right);
  }

  lemma TrimTail(s: string, right: string)
    requires Blank(right)
    ensures Trim(s + right) == Trim(s)
  {
    var i, j := TrimSlice(s);
    var left, tail := s[..i], s[j..];
    assert s + right == left + s[i..j] + (tail + right);
    TrimAround(left, s[i..j], tail + right);
  }

  // ---------------------------------------------------------------- searching

  /** The index of the first c, or the length. */
  function IndexOf(s: string, c: char): (i: nat)
    ensures i <= |s| && (forall k :: 0 <= k < i ==> s[k] != c) && (i < |s| ==> s[i] == c)
  {
    if s == "" || s[0] == c then 0 else 1 + IndexOf(s[1..], c)
  }

  lemma IndexOfIs(s: string, c: char, i: nat)
    requires i < |s| && s[i] == c && forall k :: 0 <= k < i ==> s[k] != c
    ensures IndexOf(s, c) == i
  {
  }

  // ---------------------------------------------------------------- lines

  function NewlineIndex(s: string): (i: nat)
    ensures i <= |s| && (forall k :: 0 <= k < i ==> !IsNewline(s[k])) && (i < |s| ==> IsNewline(s[i]))
  {
    if s == "" || IsNewline(s[0]) then 0 else 1 + NewlineIndex(s[1..])
  }

  /** components(separatedBy: .newlines) */
  function Lines(s: string): (r: seq<string>)
    ensures r != [] && forall line <- r :: OneLine(line)
    decreases |s|
  {
    var i := NewlineIndex(s);
    if i == |s| then [s] else [s[..i]] + Lines(s[i + 1..])
  }

  /** joined(separator: "\n") */
  function JoinLines(lines: seq<string>): string
    requires lines != []
  {
    if |lines| == 1 then lines[0] else lines[0] + "\n" + JoinLines(lines[1..])
  }

  lemma NewlineIndexIs(s: string, i: nat)
    requires i <= |s| && (forall k :: 0 <= k < i ==> !IsNewline(s[k])) && (i < |s| ==> IsNewline(s[i]))
    ensures NewlineIndex(s) == i
  {
  }

  lemma {:induction false} LinesOfJoin(lines: seq<string>)
    requires lines != [] && forall line <- lines :: OneLine(line)
    ensures Lines(JoinLines(lines)) == lines
    decreases |lines|
  {
    var s := JoinLines(lines);
    assert lines[0] in lines;
    NewlineIndexIs(s, |lines[0]|);
    if |lines| == 1 {
      assert lines == [lines[0]];
    } else {
      assert s[..|lines[0]|] == lines[0] && s[|lines[0]| + 1..] == JoinLines(lines[1..]);
      LinesOfJoin(lines[1..]);
    }
  }

  // ---------------------------------------------------------------- comma lists

  /** split(separator: ","): the pieces between commas, without the empty ones. */
  function Split(s: string): (r: seq<string>)
    ensures forall p <- r :: NoComma(p) && p != ""
    decreases |s|
  {
    var i := IndexOf(s, ',');
    (if i == 0 then [] else [s[..i]]) + (if i == |s| then [] else Split(s[i + 1..]))
  }

  function TrimAll(pieces: seq<string>): (r: seq<string>)
    ensures |r| == |pieces| && forall i :: 0 <= i < |r| ==> r[i] == Trim(pieces[i])
  {
    seq(|pieces|, i requires 0 <= i < |pieces| => Trim(pieces[i]))
  }

  /** What follows the first item of a joined list. */
  function Rest(items: seq<string>): string {
    if items == [] then "" else ", " + items[0] + Rest(items[1..])
  }

  /** joined(separator: ", ") */
  function JoinItems(items: seq<string>): string {
    if items == [] then "" else items[0] + Rest(items[1..])
  }

  function Indented(items: seq<string>): (r: seq<string>)
    ensures |r| == |items| && forall i :: 0 <= i < |r| ==> r[i] == " " + items[i]
  {
    seq(|items|, i requires 0 <= i < |items| => " " + items[i])
  }

  /** A joined list splits into its items, the later ones with a space; a blank first item is lost. */
  lemma {:induction false} SplitJoined(x: string, items: seq<string>)
    requires NoComma(x) && forall y <- items :: NoComma(y)
    ensures Split(x + Rest(items)) == (if x == "" then [] else [x]) + Indented(items)
    decreases |items|
  {
    var s := x + Rest(items);
    if items == [] {
      assert s == x;
      NoCommaIndex(s);
      assert s[..|s|] == s;
      assert Indented(items) == [];
    } else {
      assert s == x + "," + (" " + items[0] + Rest(items[1..]));
      IndexOfIs(s, ',', |x|);
      assert s[..|x|] == x && s[|x| + 1..] == (" " + items[0]) + Rest(items[1..]);
      assert items[0] in items;
      SplitJoined(" " + items[0], items[1..]);
      assert Indented(items) == [" " + items[0]] + Indented(items[1..]);
    }
  }

  lemma NoCommaIndex(s: string)
    requires NoComma(s)
    ensures IndexOf(s, ',') == |s|
  {
  }

  lemma {:induction false} RestEnds(items: seq<string>)
    requires items != []
    ensures |Rest(items)| >= 2 && Rest(items)[0] == ','
    ensures var last := items[|items| - 1];
      Rest(items)[|Rest(items)| - 1] == if last == "" then ' ' else last[|last| - 1]
    ensures items[|items| - 1] == "" ==> Rest(items)[|Rest(items)| - 2] == ','
    decreases |items|
  {
    if |items| > 1 {
      RestEnds(items[1..]);
    } else {
      assert items[1..] == [];
    }
  }

  // ---------------------------------------------------------------- counting commas

  function Commas(s: string): nat {
    if s == "" then 0 else (if s[0] == ',' then 1 else 0) + Commas(s[1..])
  }

  lemma {:induction false} CommasAppend(s: string, t: string)
    ensures Commas(s + t) == Commas(s) + Commas(t)
    decreases |s|
  {
    if s == "" {
      assert s + t == t;
    } else {
      assert (s + t)[1..] == s[1..] + t;
      CommasAppend(s[1..], t);
    }
  }

  lemma {:induction false} NoCommas(s: string)
    requires NoComma(s)
    ensures Commas(s) == 0
    decreases |s|
  {
    if s != "" { NoCommas(s[1..]); }
  }

  lemma {:induction false} CommasOfRest(items: seq<string>)
    requires forall y <- items :: NoComma(y)
    ensures Commas(Rest(items)) == |items|
    decreases |items|
  {
    if items != [] {
      assert items[0] in items;
      CommasOfRest(items[1..]);
      assert Rest(items) == ", " + (items[0] + Rest(items[1..]));
      CommasAppend(", ", items[0] + Rest(items[1..]));
      CommasAppend(items[0], Rest(items[1..]));
      NoCommas(items[0]);
      assert Commas(", ") == 1 by { assert ", "[1..] == " "; assert " "[1..] == ""; }
    }
  }

  /** There is at most one more piece than there are commas, and none is left over when the
      string is empty or a comma begins or ends it. */
  lemma {:induction false} PieceCount(s: string)
    ensures |Split(s)| <= Commas(s) + 1
    ensures s == "" || s[0] == ',' || s[|s| - 1] == ',' ==> |Split(s)| <= Commas(s)
    decreases |s|
  {
    hide Split, Commas, IndexOf;
    var i := IndexOf(s, ',');
    FirstPiece(s);
    if i < |s| {
      var t := s[i + 1..];
      PieceCount(t);
      if t != "" { assert t[|t| - 1] == s[|s| - 1]; }
    }
  }

  lemma FirstPiece(s: string)
    ensures var i := IndexOf(s, ',');
      if i == |s| then |Split(s)| == (if s == "" then 0 else 1) && (s != "" ==> s[0] != ',' && s[|s| - 1] != ',')
      else |Split(s)| == (if i == 0 then 0 else 1) + |Split(s[i + 1..])| && Commas(s) == 1 + Commas(s[i + 1..])
  {
    var i := IndexOf(s, ',');
    if i < |s| {
      var t := s[i + 1..];
      assert s == s[..i] + ("," + t);
      CommasAppend(s[..i], "," + t);
      NoCommas(s[..i]);
      assert ("," + t)[1..] == t;
    }
  }

  // ---------------------------------------------------------------- numbers

  const INT_MAX: int := 0x7FFF_FFFF_FFFF_FFFF

  predicate IsInt(n: int) {
    -INT_MAX - 1 <= n <= INT_MAX
  }

  predicate IsDigit(c: char) {
    '0' <= c <= '9'
  }

  predicate AllDigits(s: string) {
    forall i :: 0 <= i < |s| ==> IsDigit(s[i])
  }

  function DigitChar(d: nat): (c: char)
    requires d < 10
    ensures IsDigit(c) && c as int - '0' as int == d
  {
    ('0' as int + d) as char
  }

  function Value(s: string): nat
    requires AllDigits(s)
  {
    if s == "" then 0 else 10 * Value(s[..|s| - 1]) + (s[|s| - 1] as int - '0' as int)
  }

  /** Int(_:): an optional sign and decimal digits, within 64 bits. */
  function ParseInt(s: string): (r: Option<int>)
    ensures r.Some? ==> IsInt(r.value)
  {
    var signed := s != "" && (s[0] == '-' || s[0] == '+');
    var digits := if signed then s[1..] else s;
    if digits == "" || !AllDigits(digits) then None
    else
      var n := if signed && s[0] == '-' then -(Value(digits) as int) else Value(digits);
      if IsInt(n) then Some(n) else None
  }

  function PrintNat(n: nat): (r: string)
    ensures r != "" && AllDigits(r)
  {
    if n < 10 then [DigitChar(n)] else PrintNat(n / 10) + [DigitChar(n % 10)]
  }

  function PrintInt(n: int): (r: string)
    ensures r != ""
  {
    if n < 0 then "-" + PrintNat(-n) else PrintNat(n)
  }

  lemma {:induction false} ValueOfPrint(n: nat)
    ensures Value(PrintNat(n)) == n
  {
    var s := PrintNat(n);
    if n >= 10 {
      ValueOfPrint(n / 10);
      assert s[..|s| - 1] == PrintNat(n / 10);
    } else {
      assert s[..0] == "";
    }
  }

  lemma ParsePrintInt(n: int)
    requires IsInt(n)
    ensures ParseInt(PrintInt(n)) == Some(n)
  {
    var s := PrintInt(n);
    if n < 0 {
      ValueOfPrint(-n);
      assert s[1..] == PrintNat(-n);
    } else {
      ValueOfPrint(n);
      assert IsDigit(s[0]);
    }
  }

  lemma PrintIntClean(n: int)
    ensures Trimmed(PrintInt(n)) && OneLine(PrintInt(n))
  {
    var s := PrintInt(n);
    var digits := if n < 0 then PrintNat(-n) else PrintNat(n);
    assert s[|s| - 1] == digits[|digits| - 1];
    forall i | 0 <= i < |s| ensures !IsNewline(s[i]) && !IsWhite(s[i]) {
      if n < 0 && i > 0 { assert s[i] == digits[i - 1]; }
      if n >= 0 { assert s[i] == digits[i]; }
    }
  }

  // ---------------------------------------------------------------- what numbers mean

  ghost function Pow10(n: nat): nat {
    if n == 0 then 1 else 10 * Pow10(n - 1)
  }

  /** The first digit counts ten to the number of digits behind it. */
  lemma {:induction false} ValueFromFront(s: string)
    requires s != "" && AllDigits(s)
    ensures Value(s) == (s[0] as int - '0' as int) * Pow10(|s| - 1) + Value(s[1..])
    decreases |s|
  {
    var n := |s| - 1;
    if n == 0 {
      assert s[..0] == "" && s[1..] == "";
    } else {
      ValueFromFront(s[..n]);
      assert s[..n][1..] == s[1..][..n - 1] && s[..n][0] == s[0];
      var d, p := s[0] as int - '0' as int, Pow10(n - 1);
      assert 10 * (d * p) == d * (10 * p);
    }
  }

  /** A number is a sign or none and at least one digit, and its value fits in 64 bits. */
  lemma ParseIntIs(digits: string)
    requires digits != "" && AllDigits(digits)
    ensures ParseInt(digits) == ParseInt("+" + digits)
    ensures ParseInt(digits) == if Value(digits) <= 9223372036854775807 then Some(Value(digits)) else None
    ensures ParseInt("-" + digits) == if Value(digits) <= 9223372036854775808 then Some(-(Value(digits) as int))
      else None
  {
    assert IsDigit(digits[0]);
    assert ("+" + digits)[1..] == digits && ("-" + digits)[1..] == digits;
  }

  lemma ParseIntOnly(s: string)
    requires ParseInt(s).Some?
    ensures exists digits ::
      digits != "" && AllDigits(digits) && (s == digits || s == "+" + digits || s == "-" + digits)
  {
    if s[0] == '-' || s[0] == '+' {
      assert s == [s[0]] + s[1..];
      assert s[1..] != "" && AllDigits(s[1..]);
    }
  }
}
