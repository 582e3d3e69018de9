/** The bytes of a block, and why the decoder accepts every block that keeps the format's rules
    about the end of the block. */
module Lz4Encoding {
  import opened MachineInts
  import opened Arithmetic
  import opened Lz4Format
  import opened Lz4Reference

  type Distance = x: int | 1 <= x <= MAX_DISTANCE witness 1
  type MatchSize = x: int | MINMATCH <= x witness MINMATCH

  datatype Sequence = Sequence(lits: seq<uint8>, offset: Distance, mlen: MatchSize)

  function Nibble(n: nat): (r: nat)
    ensures r <= 15
  {
    if n < 15 then n else 15
  }

  /** A length beyond its nibble: bytes of 255 and a last smaller one. */
  ghost function RunBytes(n: nat): (r: seq<uint8>)
    ensures |r| == n / 255 + 1
  {
    if n < 255 then [n] else [255] + RunBytes(n - 255)
  }

  ghost function ExtraBytes(n: nat): seq<uint8> {
    if n < 15 then [] else RunBytes(n - 15)
  }

  ghost function OffsetBytes(offset: nat): seq<uint8>
    requires offset <= 0xffff
  {
    [offset % 0x100, offset / 0x100]
  }

  /** Token, literals and their length. */
  ghost function EncodeLiterals(lits: seq<uint8>, low: nat): seq<uint8>
    requires low <= 15
  {
    [Nibble(|lits|) * 16 + low] + ExtraBytes(|lits|) + lits
  }

  ghost function EncodeSequence(s: Sequence): seq<uint8>
  {
    EncodeLiterals(s.lits, Nibble(s.mlen - MINMATCH)) + OffsetBytes(s.offset) + ExtraBytes(s.mlen - MINMATCH)
  }

  ghost function EncodeLast(lits: seq<uint8>): seq<uint8> {
    EncodeLiterals(lits, 0)
  }

  ghost function EncodeAll(seqs: seq<Sequence>): seq<uint8>
  {
    if seqs == [] then [] else EncodeAll(seqs[..|seqs| - 1]) + EncodeSequence(seqs[|seqs| - 1])
  }

  /** What the sequences stand for, after the history h. */
  ghost predicate Expandable(h: seq<uint8>, seqs: seq<Sequence>)
    decreases |seqs|, 0
  {
    seqs == [] ||
    (var s := seqs[|seqs| - 1];
     Expandable(h, seqs[..|seqs| - 1]) && s.offset <= |Expand(h, seqs[..|seqs| - 1])| + |s.lits|)
  }

  ghost function Expand(h: seq<uint8>, seqs: seq<Sequence>): (r: seq<uint8>)
    requires Expandable(h, seqs)
    decreases |seqs|, 1
  {
    if seqs == [] then h
    else
      var s := seqs[|seqs| - 1];
      CopyMatch(Expand(h, seqs[..|seqs| - 1]) + s.lits, s.offset, s.mlen)
  }

  /** The rules about the end of a block that ends at position end: a match starts at least
      twelve bytes and ends at least five bytes before it. */
  ghost predicate EndRules(h: seq<uint8>, seqs: seq<Sequence>, end: int)
    requires Expandable(h, seqs)
  {
    seqs == [] ||
    (var s := seqs[|seqs| - 1];
     EndRules(h, seqs[..|seqs| - 1], end)
     && |Expand(h, seqs[..|seqs| - 1])| + |s.lits| <= end - 12
     && |Expand(h, seqs)| <= end - 5)
  }

  /** One more sequence. */
  lemma AppendSequence(h: seq<uint8>, seqs: seq<Sequence>, s: Sequence, end: int)
    requires Expandable(h, seqs) && s.offset <= |Expand(h, seqs)| + |s.lits|
    ensures EncodeAll(seqs + [s]) == EncodeAll(seqs) + EncodeSequence(s)
    ensures Expandable(h, seqs + [s])
    ensures Expand(h, seqs + [s]) == CopyMatch(Expand(h, seqs) + s.lits, s.offset, s.mlen)
    ensures (EndRules(h, seqs, end) && |Expand(h, seqs)| + |s.lits| <= end - 12
             && |Expand(h, seqs + [s])| <= end - 5) ==> EndRules(h, seqs + [s], end)
  {
    hide EncodeSequence, CopyMatch;
    assert (seqs + [s])[..|seqs|] == seqs;
  }

  // ---------------------------------------------------------------- reading lengths back

  /** b has w at position ip. */
  ghost predicate Has(b: seq<uint8>, ip: nat, w: seq<uint8>) {
    ip + |w| <= |b| && b[ip..ip + |w|] == w
  }

  lemma HasParts(b: seq<uint8>, ip: nat, u: seq<uint8>, v: seq<uint8>)
    requires Has(b, ip, u + v)
    ensures Has(b, ip, u) && Has(b, ip + |u|, v)
  {
    var w := b[ip..ip + |u + v|];
    assert b[ip..ip + |u|] == w[..|u|] == u;
    assert b[ip + |u|..ip + |u| + |v|] == w[|u|..] == v;
  }

  lemma {:induction false} LiteralRunReads(b: seq<uint8>, ip: nat, n: nat, acc: nat)
    requires Has(b, ip, RunBytes(n)) && ip + |RunBytes(n)| <= |b| - RUN_MASK
    ensures LiteralRun(b, ip, acc) == Length(ip + |RunBytes(n)|, acc + n)
    decreases n
  {
    if n < 255 {
      assert b[ip] == b[ip..ip + 1][0] == n;
    } else {
      HasParts(b, ip, [255], RunBytes(n - 255));
      assert b[ip] == b[ip..ip + 1][0] == 255;
      LiteralRunReads(b, ip + 1, n - 255, acc + 255);
    }
  }

  lemma {:induction false} MatchRunReads(b: seq<uint8>, ip: nat, n: nat, acc: nat)
    requires Has(b, ip, RunBytes(n)) && ip + |RunBytes(n)| <= |b| - LASTLITERALS
    ensures MatchRun(b, ip, acc) == Length(ip + |RunBytes(n)|, acc + n)
    decreases n
  {
    if n < 255 {
      assert b[ip] == b[ip..ip + 1][0] == n;
    } else {
      HasParts(b, ip, [255], RunBytes(n - 255));
      assert b[ip] == b[ip..ip + 1][0] == 255;
      MatchRunReads(b, ip + 1, n - 255, acc + 255);
    }
  }

  // ---------------------------------------------------------------- one sequence

  /** Token and literals as the decoder sees them. */
  lemma LiteralsRead(b: seq<uint8>, ip: nat, lits: seq<uint8>, low: nat) returns (at: nat)
    requires low <= 15 && Has(b, ip, EncodeLiterals(lits, low))
    ensures b[ip] / 16 == Nibble(|lits|) && b[ip] % 16 == low
    ensures at == ip + 1 + |ExtraBytes(|lits|)| && Has(b, at, lits)
    ensures at + |lits| == ip + |EncodeLiterals(lits, low)|
    ensures LiteralLength(b, ip + 1, Nibble(|lits|)) == Length(at, |lits|)
  {
    hide RunBytes, ExtraBytes, LiteralLength;
    var token, extra := [Nibble(|lits|) * 16 + low], ExtraBytes(|lits|);
    at := ip + 1 + |extra|;
    HasParts(b, ip, token + extra, lits);
    HasParts(b, ip, token, extra);
    assert b[ip] == b[ip..ip + 1][0] == Nibble(|lits|) * 16 + low;
    ModUnique(b[ip], Nibble(|lits|), low, 16);
    ExtraLiteralsRead(b, ip + 1, |lits|);
  }

  lemma ExtraLiteralsRead(b: seq<uint8>, ip: nat, n: nat)
    requires Has(b, ip, ExtraBytes(n)) && ip + |ExtraBytes(n)| + n <= |b|
    ensures LiteralLength(b, ip, Nibble(n)) == Length(ip + |ExtraBytes(n)|, n)
  {
    if n >= 15 { LiteralRunReads(b, ip, n - 15, 15); }
  }

  lemma OffsetRead(b: seq<uint8>, ip: nat, offset: nat)
    requires offset <= 0xffff && Has(b, ip, OffsetBytes(offset))
    ensures Offset16(b, ip) == offset
  {
    assert b[ip] == b[ip..ip + 2][0] && b[ip + 1] == b[ip..ip + 2][1];
  }

  lemma MatchLengthRead(b: seq<uint8>, ip: nat, n: nat)
    requires Has(b, ip, ExtraBytes(n)) && ip + |ExtraBytes(n)| + 6 <= |b|
    ensures MatchLength(b, ip, Nibble(n)) == Length(ip + |ExtraBytes(n)|, n)
  {
    if n >= 15 { MatchRunReads(b, ip, n - 15, 15); }
  }

  /** The decoder reads an encoded sequence and continues behind it, provided the output has the
      room the end rules promise and at least six input bytes follow. */
  lemma SequenceRead(b: seq<uint8>, ip: nat, s: Sequence, h: seq<uint8>, oend: int, ext: nat)
    requires Has(b, ip, EncodeSequence(s)) && ip + |EncodeSequence(s)| + 6 <= |b|
    requires s.offset <= |h| + |s.lits|
    requires |h| + |s.lits| <= oend - 12 && |h| + |s.lits| + s.mlen <= oend - 5
    ensures Sequences(b, ip, h, oend, ext)
         == Sequences(b, ip + |EncodeSequence(s)|, CopyMatch(h + s.lits, s.offset, s.mlen), oend, ext)
  {
    hide CopyMatch, MatchLength, MatchAt, Matches, Sequences, EncodeLiterals, ExtraBytes, EncodeSequence, Has;
    var low := Nibble(s.mlen - MINMATCH);
    var front := EncodeLiterals(s.lits, low);
    var off, extra := OffsetBytes(s.offset), ExtraBytes(s.mlen - MINMATCH);
    assert EncodeSequence(s) == front + off + extra && |off| == 2 by { SequenceBytes(s); }
    assert front + off + extra == front + (off + extra);
    HasParts(b, ip, front, off + extra);
    var at := LiteralsRead(b, ip, s.lits, low);
    var shortcut := LiteralsPass(b, ip, at, s.lits, h, oend, ext);
    MatchRead(b, ip, at + |s.lits|, s, h + s.lits, oend, ext, shortcut);
  }

  lemma SequenceBytes(s: Sequence)
    ensures EncodeSequence(s) ==
      EncodeLiterals(s.lits, Nibble(s.mlen - MINMATCH)) + OffsetBytes(s.offset) + ExtraBytes(s.mlen - MINMATCH)
    ensures |OffsetBytes(s.offset)| == 2
    ensures |EncodeLiterals(s.lits, Nibble(s.mlen - MINMATCH))| == |EncodeLiterals(s.lits, 0)|
  {
  }

  /** From a token to its match, through the shortcut or not. */
  lemma LiteralsPass(b: seq<uint8>, ip: nat, at: nat, lits: seq<uint8>, h: seq<uint8>, oend: int, ext: nat)
      returns (shortcut: bool)
    requires ip < at && Has(b, at, lits) && at + |lits| + 8 <= |b| && |h| + |lits| <= oend - 12
    requires b[ip] / 16 == Nibble(|lits|) && LiteralLength(b, ip + 1, Nibble(|lits|)) == Length(at, |lits|)
    ensures Sequences(b, ip, h, oend, ext) == Matches(b, ip, at + |lits|, h + lits, oend, ext, shortcut)
  {
    hide Matches;
    shortcut := Shortcut(b, ip + 1, |h|, oend, Nibble(|lits|));
  }

  lemma MatchRead(b: seq<uint8>, tp: nat, ip: nat, s: Sequence, h: seq<uint8>, oend: int, ext: nat, shortcut: bool)
    requires tp < ip && Has(b, ip, OffsetBytes(s.offset) + ExtraBytes(s.mlen - MINMATCH))
    requires ip + 2 + |ExtraBytes(s.mlen - MINMATCH)| + 6 <= |b| && b[tp] % 16 == Nibble(s.mlen - MINMATCH)
    requires s.offset <= |h| && |h| + s.mlen <= oend - 5
    ensures Matches(b, tp, ip, h, oend, ext, shortcut)
         == Sequences(b, ip + 2 + |ExtraBytes(s.mlen - MINMATCH)|, CopyMatch(h, s.offset, s.mlen), oend, ext)
  {
    hide CopyMatch, Sequences, MatchLength, OffsetBytes, ExtraBytes, Has, Offset16;
    HasParts(b, ip, OffsetBytes(s.offset), ExtraBytes(s.mlen - MINMATCH));
    SequenceBytes(s);
    OffsetRead(b, ip, s.offset);
    MatchLengthRead(b, ip + 2, s.mlen - MINMATCH);
    assert s.mlen - MINMATCH + MINMATCH == s.mlen;
    ShortMatch(b, ip + 2, s.mlen - MINMATCH);
  }

  lemma ShortMatch(b: seq<uint8>, ip: nat, n: nat)
    requires ip < |b|
    ensures Nibble(n) != 15 ==> MatchLength(b, ip, Nibble(n)) == Length(ip, n) && |ExtraBytes(n)| == 0
  {
  }

  lemma LastRead(b: seq<uint8>, ip: nat, lits: seq<uint8>, h: seq<uint8>, oend: int, ext: nat)
    requires Has(b, ip, EncodeLast(lits)) && ip + |EncodeLast(lits)| == |b| && |h| + |lits| <= oend
    ensures Sequences(b, ip, h, oend, ext) == Accept(h + lits)
  {
    hide Matches;
    var at := LiteralsRead(b, ip, lits, 0);
    assert b[at..] == b[at..at + |lits|];
  }

  // ---------------------------------------------------------------- the whole block

  lemma {:induction false} PrefixFacts(h: seq<uint8>, seqs: seq<Sequence>, end: int, i: nat)
    requires Expandable(h, seqs) && EndRules(h, seqs, end) && i <= |seqs|
    ensures Expandable(h, seqs[..i]) && EndRules(h, seqs[..i], end)
    ensures |EncodeAll(seqs[..i])| <= |EncodeAll(seqs)|
    ensures EncodeAll(seqs)[..|EncodeAll(seqs[..i])|] == EncodeAll(seqs[..i])
    decreases |seqs|
  {
    if i == |seqs| {
      assert seqs[..i] == seqs;
    } else {
      PrefixFacts(h, seqs[..|seqs| - 1], end, i);
      assert seqs[..|seqs| - 1][..i] == seqs[..i];
    }
  }

  /** Where sequence i lies in the block. */
  lemma SequencePlace(h: seq<uint8>, seqs: seq<Sequence>, last: seq<uint8>, b: seq<uint8>, end: int, i: nat)
    requires Expandable(h, seqs) && EndRules(h, seqs, end) && i < |seqs| && 5 <= |last|
    requires b == EncodeAll(seqs) + EncodeLast(last)
    ensures Has(b, |EncodeAll(seqs[..i])|, EncodeSequence(seqs[i]))
    ensures |EncodeAll(seqs[..i])| + |EncodeSequence(seqs[i])| == |EncodeAll(seqs[..i + 1])|
    ensures |EncodeAll(seqs[..i + 1])| + 6 <= |b|
  {
    hide EncodeSequence, EncodeLast, Expandable, EndRules;
    PrefixFacts(h, seqs, end, i + 1);
    assert seqs[..i + 1][..i] == seqs[..i];
    var ip := |EncodeAll(seqs[..i])|;
    var upTo := EncodeAll(seqs[..i + 1]);
    assert b[..|upTo|] == EncodeAll(seqs)[..|upTo|] == upTo;
    assert b[ip..|upTo|] == upTo[ip..] == EncodeSequence(seqs[i]);
    LastBytes(last);
  }

  /** The history before and after sequence i. */
  lemma SequenceFits(h: seq<uint8>, seqs: seq<Sequence>, end: int, i: nat)
    requires Expandable(h, seqs) && EndRules(h, seqs, end) && i < |seqs|
    ensures Expandable(h, seqs[..i]) && Expandable(h, seqs[..i + 1])
    ensures var h1, s := Expand(h, seqs[..i]) + seqs[i].lits, seqs[i];
      s.offset <= |h1| <= end - 12 && |h1| + s.mlen <= end - 5
      && Expand(h, seqs[..i + 1]) == CopyMatch(h1, s.offset, s.mlen)
  {
    PrefixFacts(h, seqs, end, i + 1);
    assert seqs[..i + 1][..i] == seqs[..i];
  }

  lemma {:induction false} SuffixAccepted(h: seq<uint8>, seqs: seq<Sequence>, last: seq<uint8>, b: seq<uint8>,
                                          end: int, oend: int, ext: nat, i: nat)
    requires Expandable(h, seqs) && EndRules(h, seqs, end) && i <= |seqs|
    requires |Expand(h, seqs)| + |last| <= oend && end <= oend && (seqs != [] ==> 5 <= |last|)
    requires b == EncodeAll(seqs) + EncodeLast(last)
    ensures Expandable(h, seqs[..i]) && |EncodeAll(seqs[..i])| < |b|
    ensures Sequences(b, |EncodeAll(seqs[..i])|, Expand(h, seqs[..i]), oend, ext) == Accept(Expand(h, seqs) + last)
    decreases |seqs| - i
  {
    hide Sequences, EncodeSequence, CopyMatch, EncodeLast, Expandable, Expand, EncodeAll, EndRules;
    var ip := |EncodeAll(seqs[..i])|;
    if i == |seqs| {
      assert seqs[..i] == seqs;
      LastBytes(last);
      assert b[ip..ip + |EncodeLast(last)|] == EncodeLast(last);
      LastRead(b, ip, last, Expand(h, seqs), oend, ext);
    } else {
      SequencePlace(h, seqs, last, b, end, i);
      SequenceFits(h, seqs, end, i);
      SequenceRead(b, ip, seqs[i], Expand(h, seqs[..i]), oend, ext);
      SuffixAccepted(h, seqs, last, b, end, oend, ext, i + 1);
    }
  }

  lemma LastBytes(last: seq<uint8>)
    ensures |EncodeLast(last)| >= 1 + |last|
  {
  }

  /** The decoder accepts the block and regenerates what it stands for, in every buffer that is
      large enough, wherever the history lies. */
  lemma BlockAccepted(h: seq<uint8>, seqs: seq<Sequence>, last: seq<uint8>, capacity: nat, ext: nat)
    requires Expandable(h, seqs) && EndRules(h, seqs, |Expand(h, seqs)| + |last|)
    requires |Expand(h, seqs)| + |last| <= |h| + capacity && (seqs != [] ==> 5 <= |last|)
    ensures Decompress(EncodeAll(seqs) + EncodeLast(last), h, capacity, ext) == Accept(Expand(h, seqs) + last)
  {
    hide Sequences, EncodeLast, EndRules, Expand, Expandable, EncodeAll;
    ExpandLength(h, seqs);
    NothingEncoded(h);
    var b := EncodeAll(seqs) + EncodeLast(last);
    LastBytes(last);
    SuffixAccepted(h, seqs, last, b, |Expand(h, seqs)| + |last|, |h| + capacity, ext, 0);
    assert seqs[..0] == [];
    if capacity == 0 {
      assert seqs == [] && last == [];
      assert b == [0] && h + last == h;
    }
  }

  lemma NothingEncoded(h: seq<uint8>)
    ensures Expandable(h, []) && Expand(h, []) == h && EncodeAll([]) == [] && EncodeLast([]) == [0]
  {
  }

  lemma {:induction false} ExpandLength(h: seq<uint8>, seqs: seq<Sequence>)
    requires Expandable(h, seqs)
    ensures |Expand(h, seqs)| >= |h| && (seqs != [] ==> |Expand(h, seqs)| > |h|)
    ensures Expand(h, seqs)[..|h|] == h
    decreases |seqs|
  {
    if seqs != [] {
      var s := seqs[|seqs| - 1];
      ExpandLength(h, seqs[..|seqs| - 1]);
      var h1 := Expand(h, seqs[..|seqs| - 1]) + s.lits;
      forall k | 0 <= k < |h| ensures Expand(h, seqs)[k] == h[k] {
        CopyMatchAt(h1, s.offset, s.mlen, k);
        assert h1[k] == Expand(h, seqs[..|seqs| - 1])[..|h|][k];
      }
    }
  }
}
