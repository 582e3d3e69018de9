/** LZ4_compress_generic of lz4.c for a single continuous memory segment: what it writes, in which
    space, and that the decoder turns it back into the source. */
module Lz4Compressor {
  import opened MachineInts
  import opened Lz4Memory
  import opened Lz4Format
  import opened Lz4Reference
  import opened Lz4Encoding
  import opened Lz4Words
  import opened Lz4Emit
  import opened Lz4Search
  import opened Lz4Greedy

  const MAX_INPUT_SIZE: nat := 0x7E00_0000

  function CompressBound(n: nat): nat {
    n + n / 255 + 16
  }

  // ---------------------------------------------------------------- what has been written

  /** The bytes written so far stand for the source up to anchor, after the history that starts
      at lo, and are no longer than 256/255 of it. */
  ghost predicate Emitted(j: Job, out: seq<uint8>, anchor: int, lo: int, seqs: seq<Sequence>) {
    0 <= lo <= j.LowLimit() && j.source <= anchor <= j.Iend() <= |j.src|
    && out == EncodeAll(seqs)
    && Expandable(j.src[lo..j.source], seqs)
    && Expand(j.src[lo..j.source], seqs) == j.src[lo..anchor]
    && EndRules(j.src[lo..j.source], seqs, j.Iend() - lo)
    && 255 * |out| <= 256 * (anchor - j.source)
  }

  ghost function ExtraSize(n: nat): nat {
    if n < 15 then 0 else (n - 15) / 255 + 1
  }

  ghost function SequenceSize(ll: nat, ml: nat): nat {
    3 + ExtraSize(ll) + ll + ExtraSize(ml)
  }

  lemma ExtraBytesSize(n: nat)
    ensures |ExtraBytes(n)| == ExtraSize(n) <= n / 255 + 1
  {
  }

  lemma SizeOf(s: Sequence)
    ensures |EncodeSequence(s)| == SequenceSize(|s.lits|, s.mlen - MINMATCH)
  {
  }

  /** A sequence never costs more than 256/255 of the bytes it stands for. */
  lemma SequenceCost(ll: nat, ml: nat)
    ensures 255 * SequenceSize(ll, ml) <= 256 * (ll + ml + MINMATCH)
  {
  }

  /** Bytes of the source that repeat m are the match copy. */
  lemma SourceMatch(src: seq<uint8>, lo: nat, ip: nat, m: nat, n: nat)
    requires lo <= m < ip && ip + n <= |src| && Same(src, ip, m, n)
    ensures src[lo..ip + n] == CopyMatch(src[lo..ip], ip - m, n)
  {
    var h, r := src[lo..ip], src[lo..ip + n];
    assert r[..|h|] == h;
    CopyMatchFromBack(h, ip - m, n, r);
  }

  /** One more sequence. */
  lemma EmitStep(j: Job, out: seq<uint8>, anchor: int, lo: int, seqs: seq<Sequence>, ip: nat, m: nat, n: nat)
      returns (s: Sequence)
    requires j.Valid() && Emitted(j, out, anchor, lo, seqs)
    requires anchor <= ip <= j.Iend() - MFLIMIT && ip + n <= j.MatchLimit() && IsMatch(j, ip, m, n)
    ensures s == Sequence(j.src[anchor..ip], ip - m, n)
    ensures Emitted(j, out + EncodeSequence(s), ip + n, lo, seqs + [s])
  {
    hide EncodeSequence, CopyMatch, EncodeAll, Expand, Expandable, EndRules, Same;
    s := Sequence(j.src[anchor..ip], ip - m, n);
    var h := j.src[lo..j.source];
    assert j.src[lo..anchor] + j.src[anchor..ip] == j.src[lo..ip];
    AppendSequence(h, seqs, s, j.Iend() - lo);
    SourceMatch(j.src, lo, ip, m, n);
    SizeOf(s);
    SequenceCost(|s.lits|, n - MINMATCH);
  }

  // ---------------------------------------------------------------- one sequence

  /** Moves the match back while the bytes before it agree too. */
  method CatchUp(j: Job, anchor: nat, ip0: nat, m0: nat) returns (ip: nat, m: nat)
    requires j.Valid() && j.source <= anchor <= ip0 < j.MfLimitPlusOne() && IsMatch(j, ip0, m0, 4)
    ensures anchor <= ip <= ip0 && IsMatch(j, ip, m, 4 + (ip0 - ip))
    ensures ip0 - ip == m0 - m == Backward(j, anchor, ip0, m0)
  {
    ip, m := ip0, m0;
    while ip > anchor && m > j.LowLimit() && j.src[ip - 1] == j.src[m - 1]
      invariant anchor <= ip <= ip0 && ip0 - ip == m0 - m && IsMatch(j, ip, m, 4 + (ip0 - ip))
      invariant ip0 - ip + Backward(j, anchor, ip, m) == Backward(j, anchor, ip0, m0)
    {
      ip, m := ip - 1, m - 1;
    }
  }

  lemma TokenNibble(lits: seq<uint8>, low: nat, b: seq<uint8>)
    requires low <= 15 && |b| == |EncodeLiterals(lits, 0)| && b[1..] == EncodeLiterals(lits, 0)[1..]
    requires b[0] == EncodeLiterals(lits, 0)[0] + low
    ensures b == EncodeLiterals(lits, low)
  {
    var c := EncodeLiterals(lits, low);
    assert c[1..] == EncodeLiterals(lits, 0)[1..];
    assert b == [b[0]] + b[1..] && c == [c[0]] + c[1..];
  }

  method AddToToken(dst: array<uint8>, token: nat, low: nat, ghost lits: seq<uint8>)
    requires low <= 15 && Has(dst[..], token, EncodeLiterals(lits, 0))
    modifies dst
    ensures Has(dst[..], token, EncodeLiterals(lits, low)) && Untouched(dst, token, token + 1)
  {
    ghost var before := dst[..];
    ghost var front := EncodeLiterals(lits, 0);
    ghost var end := token + |front|;
    TokenRoom(lits);
    assert before[token..end] == front && before[token] == front[0];
    dst[token] := dst[token] + low;
    assert dst[..][token + 1..end] == before[token + 1..end] == front[1..];
    TokenNibble(lits, low, dst[..][token..end]);
  }

  lemma HasFrame(b: seq<uint8>, c: seq<uint8>, ip: nat, w: seq<uint8>)
    requires Has(b, ip, w) && |b| == |c|
    requires forall i :: ip <= i < ip + |w| ==> b[i] == c[i]
    ensures Has(c, ip, w)
  {
    assert b[ip..ip + |w|] == c[ip..ip + |w|];
  }

  /** The match length: its nibble is added to the token. */
  method WriteMatchLength(dst: array<uint8>, token: nat, op0: nat, n: nat, ghost lits: seq<uint8>)
      returns (op: nat)
    requires token + |EncodeLiterals(lits, 0)| <= op0 && op0 + n / 255 + 4 <= dst.Length
    requires Has(dst[..], token, EncodeLiterals(lits, 0))
    modifies dst
    ensures op == op0 + |ExtraBytes(n)|
    ensures Has(dst[..], token, EncodeLiterals(lits, Nibble(n))) && dst[op0..op] == ExtraBytes(n)
    ensures forall i :: token + |EncodeLiterals(lits, 0)| <= i < op0 ==> dst[i] == old(dst[i])
    ensures Untouched(dst, token, op + 3)
  {
    hide RunBytes, EncodeLiterals, Has;
    TokenRoom(lits);
    SameSize(lits, Nibble(n));
    op := op0;
    AddToToken(dst, token, Nibble(n), lits);
    ghost var marked := dst[..];
    if n >= RUN_MASK { op := WriteWideRun(dst, op, n - RUN_MASK); }
    HasFrame(marked, dst[..], token, EncodeLiterals(lits, Nibble(n)));
  }

  lemma SameSize(lits: seq<uint8>, low: nat)
    requires low <= 15
    ensures |EncodeLiterals(lits, low)| == |EncodeLiterals(lits, 0)|
  {
  }

  lemma TokenRoom(lits: seq<uint8>)
    ensures |EncodeLiterals(lits, 0)| > 0 && EncodeLiterals(lits, 0)[0] <= 240
  {
  }

  /** LZ4_writeLE16. */
  method WriteOffset(dst: array<uint8>, op: nat, offset: Distance)
    requires op + 2 <= dst.Length
    modifies dst
    ensures dst[op..op + 2] == OffsetBytes(offset) && Untouched(dst, op, op + 2)
  {
    dst[op] := offset % 0x100;
    dst[op + 1] := offset / 0x100;
  }

  /** The full length of a match of which some bytes are known. */
  method MeasureMatch(j: Job, ip: nat, m: nat, ghost known: nat) returns (n: MatchSize)
    requires j.Valid() && j.source <= ip < j.MfLimitPlusOne() && IsMatch(j, ip, m, known)
      && ip + known <= j.MatchLimit()
    ensures IsMatch(j, ip, m, n) && known <= n && ip + n <= j.MatchLimit()
    ensures n == Forward(j.src, ip, m, j.Iend() - 5)
  {
    hide Forward;
    ghost var p, q := ip + MINMATCH, m + MINMATCH;
    var matchCode := Count(j.src, ip + MINMATCH, m + MINMATCH, j.MatchLimit());
    SameAppend(j.src, ip, m, MINMATCH, matchCode);
    n := MINMATCH + matchCode;
    ForwardIs(j.src, p, q, j.MatchLimit(), matchCode);
    ForwardSplit(j.src, ip, m, j.MatchLimit(), MINMATCH);
  }

  /** Offset and match length of a sequence whose token and literals are written. */
  method EmitMatch(j: Job, dst: array<uint8>, token: nat, op0: nat, ip: nat, m: nat, olimit: int,
      ghost lits: seq<uint8>,
                   ghost known: nat)
      returns (ok: bool, op: nat, n: MatchSize)
    requires j.Valid() && j.source <= ip < j.MfLimitPlusOne() && IsMatch(j, ip, m, known)
      && ip + known <= j.MatchLimit()
    requires token + |EncodeLiterals(lits, 0)| == op0 && Has(dst[..], token, EncodeLiterals(lits, 0))
    requires op0 + 2 + (j.MatchLimit() - ip) / 255 + 4 <= dst.Length
    modifies dst
    ensures IsMatch(j, ip, m, n) && known <= n && ip + n <= j.MatchLimit()
    ensures n == Forward(j.src, ip, m, j.Iend() - 5)
    ensures ok ==> op == token + |EncodeSequence(Sequence(lits, ip - m, n))|
    ensures ok ==> Has(dst[..], token, EncodeSequence(Sequence(lits, ip - m, n)))
    ensures ok <==> !(j.limited && op0 + 8 + (n - 4) / 256 > olimit)
    ensures Untouched(dst, token, op0 + 2 + (j.MatchLimit() - ip) / 255 + 4)
  {
    hide EncodeLiterals, ExtraBytes, RunBytes, Same, OffsetBytes, EncodeSequence, Forward;
    ghost var before := dst[..];
    op := op0;
    WriteOffset(dst, op, ip - m);
    op := op + 2;
    n := MeasureMatch(j, ip, m, known);
    var matchCode := n - MINMATCH;
    ok := false;
    if j.limited && op + (1 + LASTLITERALS) + matchCode / 256 > olimit { return; }
    ok := true;
    assert dst[..][token..op0] == before[token..op0];
    ghost var s := Sequence(lits, ip - m, n);
    SequenceBytes(s);
    ExtraBytesSize(matchCode);
    op := WriteMatchLength(dst, token, op, matchCode, lits);
    SequenceAssembled(s, dst[..], token, op0);
  }

  lemma SequenceAssembled(s: Sequence, b: seq<uint8>, token: nat, op: nat)
    requires token + |EncodeLiterals(s.lits, 0)| == op
    requires Has(b, token, EncodeLiterals(s.lits, Nibble(s.mlen - MINMATCH)))
    requires Has(b, op, OffsetBytes(s.offset)) && Has(b, op + 2, ExtraBytes(s.mlen - MINMATCH))
    ensures Has(b, token, EncodeSequence(s))
    ensures |EncodeSequence(s)| == op - token + 2 + |ExtraBytes(s.mlen - MINMATCH)|
  {
    hide EncodeLiterals, ExtraBytes, OffsetBytes, EncodeSequence;
    SequenceBytes(s);
    var end := op + 2 + |ExtraBytes(s.mlen - MINMATCH)|;
    assert b[token..end] == b[token..op] + b[op..op + 2] + b[op + 2..end];
  }

  // ---------------------------------------------------------------- space

  /** Literals and their wide copy fit, and the check for them passes, within CompressBound. */
  lemma SpaceForLiterals(n: nat, size: nat, a: nat, ll: nat)
    requires 255 * size <= 256 * a && a + ll <= n - MFLIMIT
    ensures size + 1 + ExtraSize(ll) + ll + 8 <= CompressBound(n)
    ensures size + 1 + ll + (2 + 1 + LASTLITERALS) + ll / 255 <= CompressBound(n)
  {
    assert size <= a + a / 255;
    assert a / 255 + ll / 255 <= n / 255;
  }

  lemma SpaceForMatch(n: nat, size: nat, a: nat, ll: nat, rest: nat)
    requires 255 * size <= 256 * a && a + ll + rest <= n - LASTLITERALS && a + ll <= n - MFLIMIT
    ensures size + 1 + ExtraSize(ll) + ll + 2 + rest / 255 + 4 <= CompressBound(n)
    ensures size + 1 + ExtraSize(ll) + ll + 2 + (1 + LASTLITERALS) + rest / 256 <= CompressBound(n)
  {
    assert size <= a + a / 255;
    assert rest / 256 <= rest / 255;
    assert a / 255 + ll / 255 + rest / 255 <= n / 255;
  }

  /** The whole block fits, and the last check passes. */
  lemma SpaceForLast(n: nat, size: nat, a: nat, ll: nat)
    requires 255 * size <= 256 * a && a + ll == n
    ensures size + 1 + ExtraSize(ll) + ll <= CompressBound(n)
    ensures size + ll + 1 + (ll + 255 - RUN_MASK) / 255 <= CompressBound(n)
    ensures ExtraSize(ll) == (ll + 255 - RUN_MASK) / 255
  {
    assert size <= a + a / 255;
    assert a / 255 + ll / 255 <= n / 255;
  }

  // ---------------------------------------------------------------- a sequence

  lemma LiteralsSize(lits: seq<uint8>, low: nat)
    requires low <= 15
    ensures |EncodeLiterals(lits, low)| == 1 + ExtraSize(|lits|) + |lits|
  {
  }

  /** Token and literals of a sequence; a match that follows another directly has only a token. */
  method EmitLiterals(j: Job, dst: array<uint8>, token: nat, anchor: nat, ip: nat, olimit: int, direct: bool)
      returns (ok: bool, op: nat)
    requires j.Valid() && j.source <= anchor <= ip < j.MfLimitPlusOne() && (direct ==> anchor == ip)
    requires token + 1 + ExtraSize(ip - anchor) + (ip - anchor) + 8 <= dst.Length
    modifies dst
    ensures ok ==>
      op == token + |EncodeLiterals(j.src[anchor..ip], 0)| && Has(dst[..], token, EncodeLiterals(j.src[anchor..ip], 0))
    ensures ok <==> direct || !(j.limited && token + (ip - anchor) + (ip - anchor) / 255 + 9 > olimit)
    ensures Untouched(dst, token, token + 1 + ExtraSize(ip - anchor) + (ip - anchor) + 8)
  {
    hide ExtraBytes, ExtraSize;
    var litLength := ip - anchor;
    ExtraBytesSize(litLength);
    LiteralsSize(j.src[anchor..ip], 0);
    op := token + 1;
    if direct {
      dst[token] := 0;
      EmptyLiterals();
      assert j.src[anchor..ip] == [] && dst[..][token..op] == [0];
      return true, op;
    }
    if j.limited && op + litLength + (2 + 1 + LASTLITERALS) + litLength / 255 > olimit { return false, op; }
    op := WriteLiterals(dst, token, j.src, anchor, litLength);
    assert dst[..][token..op] == dst[token..op];
    return true, op;
  }

  lemma EmptyLiterals()
    ensures EncodeLiterals([], 0) == [0] && ExtraSize(0) == 0
  {
  }

  /** One sequence: the literals from anchor to ip, and the match at ip. */
  method EmitSequence(j: Job, dst: array<uint8>, d0: nat, op0: nat, anchor: nat, ip: nat, m: nat, olimit: int,
                      direct: bool, ghost lo: nat, ghost seqs0: seq<Sequence>, ghost known: nat)
      returns (ok: bool, op: nat, next: nat, ghost s: Sequence)
    requires j.Valid() && d0 <= op0 && d0 + CompressBound(j.inputSize) <= dst.Length && op0 <= dst.Length
    requires Emitted(j, dst[d0..op0], anchor, lo, seqs0)
    requires anchor <= ip < j.MfLimitPlusOne() && (direct ==> anchor == ip)
    requires IsMatch(j, ip, m, known) && ip + known <= j.MatchLimit()
    modifies dst
    ensures ok ==> (op0 <= op <= dst.Length && Emitted(j, dst[d0..op], next, lo, seqs0 + [s])
                    && ip + known <= next <= j.MatchLimit())
    ensures s.lits == j.src[anchor..ip] && s.offset == ip - m && s.mlen == Forward(j.src, ip, m, j.Iend() - 5)
    ensures ok ==> next == ip + s.mlen && op == op0 + |EncodeSequence(s)|
    ensures ok <==> !(j.limited && olimit < op0 + SequenceNeed(s, direct))
    ensures ok || (j.limited && olimit < d0 + CompressBound(j.inputSize))
    ensures Untouched(dst, d0, d0 + CompressBound(j.inputSize))
  {
    hide Emitted, EncodeLiterals, EncodeSequence, ExtraSize, Same, Forward, IsMatch, CompressBound, EncodeAll, Has,
         SequenceNeed;
    ghost var before := dst[..];
    SpaceForSequence(j, dst[d0..op0], d0, op0, anchor, ip, lo, seqs0, dst.Length);
    ForwardMatch(j, ip, m, known);
    s := Sequence(j.src[anchor..ip], ip - m, Forward(j.src, ip, m, j.Iend() - 5));
    ok, op := EmitLiterals(j, dst, op0, anchor, ip, olimit, direct);
    next := ip;
    NeedIs(s, direct);
    if !ok { return; }
    var n;
    ok, op, n := EmitMatch(j, dst, op0, op, ip, m, olimit, j.src[anchor..ip], known);
    if !ok { DivMonotone(n - MINMATCH, j.MatchLimit() - ip); return; }
    next := ip + n;
    SequenceDone(j, before, dst[..], d0, op0, anchor, ip, m, n, lo, seqs0);
    assert dst[d0..op] == dst[..][d0..op];
  }

  lemma SequenceDone(j: Job, before: seq<uint8>, b: seq<uint8>, d0: nat, op0: nat, anchor: nat, ip: nat, m: nat,
      n: MatchSize, lo: nat, seqs: seq<Sequence>)
    requires j.Valid() && d0 <= op0 <= |b| == |before| && forall i :: d0 <= i < op0 ==> b[i] == before[i]
    requires Emitted(j, before[d0..op0], anchor, lo, seqs) && IsMatch(j, ip, m, n)
    requires anchor <= ip < j.MfLimitPlusOne() && ip + n <= j.MatchLimit() && j.source <= anchor
    requires Has(b, op0, EncodeSequence(Sequence(j.src[anchor..ip], ip - m, n)))
    ensures var s := Sequence(j.src[anchor..ip], ip - m, n);
      var op := op0 + |EncodeSequence(s)|;
      op <= |b| && Emitted(j, b[d0..op], ip + n, lo, seqs + [s])
  {
    hide Emitted, EncodeSequence, Same;
    var s := EmitStep(j, before[d0..op0], anchor, lo, seqs, ip, m, n);
    assert b[d0..op0] == before[d0..op0];
    assert b[d0..op0 + |EncodeSequence(s)|] == b[d0..op0] + b[op0..op0 + |EncodeSequence(s)|];
  }

  /** What one sequence takes, its wide copies included, fits within LZ4_compressBound, and the checks
      pass if that much is there. */
  lemma SpaceForSequence(j: Job, out: seq<uint8>, d0: nat, op: nat, anchor: nat, ip: nat, lo: nat, seqs: seq<Sequence>,
      length: nat)
    requires j.Valid() && Emitted(j, out, anchor, lo, seqs) && d0 <= op && |out| == op - d0
    requires anchor <= ip < j.MfLimitPlusOne() && d0 + CompressBound(j.inputSize) <= length
    ensures j.source <= anchor && |EncodeLiterals(j.src[anchor..ip], 0)| == 1 + ExtraSize(ip - anchor) + (ip - anchor)
    ensures var first, end, rest := op + 1 + ExtraSize(ip - anchor) + (ip - anchor), d0 + CompressBound(j.inputSize),
                                    j.MatchLimit() - ip;
      first + 8 <= end <= length && op + (ip - anchor) + (ip - anchor) / 255 + 9 <= end
      && first + 2 + rest / 255 + 4 <= end && first + 8 + rest / 256 <= end
  {
    hide Emitted, EncodeLiterals, CompressBound, ExtraSize, EncodeAll;
    EmittedBounds(j, out, anchor, lo, seqs);
    var a, ll, rest := anchor - j.source, ip - anchor, j.MatchLimit() - ip;
    SpaceForLiterals(j.inputSize, op - d0, a, ll);
    SpaceForMatch(j.inputSize, op - d0, a, ll, rest);
    LiteralsSize(j.src[anchor..ip], 0);
  }

  lemma NeedIs(s: Sequence, direct: bool)
    ensures var ll, tail := |s.lits| + |s.lits| / 255 + 9, |EncodeLiterals(s.lits, 0)| + 8 + (s.mlen - 4) / 256;
      tail <= SequenceNeed(s, direct) && (!direct ==> ll <= SequenceNeed(s, direct))
      && (SequenceNeed(s, direct) == tail || (!direct && SequenceNeed(s, direct) == ll))
  {
    hide EncodeLiterals;
  }

  /** Four bytes of a match are counted. */
  lemma ForwardMatch(j: Job, ip: nat, m: nat, known: nat)
    requires j.Valid() && IsMatch(j, ip, m, known) && ip + known <= j.MatchLimit()
    ensures Forward(j.src, ip, m, j.Iend() - 5) >= known >= 4 && 1 <= ip - m <= 0xffff
  {
    ForwardAtLeast(j.src, ip, m, j.Iend() - 5, known);
  }

  lemma DivMonotone(x: nat, y: nat)
    requires x <= y
    ensures x / 256 <= y / 256
  {
  }

  lemma EmittedBounds(j: Job, out: seq<uint8>, anchor: int, lo: int, seqs: seq<Sequence>)
    requires Emitted(j, out, anchor, lo, seqs)
    ensures 255 * |out| <= 256 * (anchor - j.source) && j.source <= anchor <= j.Iend() && out == EncodeAll(seqs)
  {
  }

  // ---------------------------------------------------------------- the main loop

  datatype Outcome = Resume | Finish | Full

  /** g starts with the sequences written so far, in size bytes with used as the most that a check
      asked for, and goes on with rest. */
  ghost predicate Leads(g: Parse, seqs: seq<Sequence>, size: int, used: nat, rest: Parse) {
    0 <= size && g == Parse(seqs + rest.seqs, rest.anchor, rest.table, Max(used, size + rest.need))
  }

  /** No check asked for more than there is. */
  ghost predicate Passed(j: Job, d0: nat, olimit: int, used: nat) {
    j.limited && used > 0 ==> d0 + used <= olimit
  }

  lemma LeadsOn(g: Parse, seqs: seq<Sequence>, size: int, used: nat, s: Sequence, direct: bool, rest: Parse)
    requires Leads(g, seqs, size, used, Before(s, direct, rest))
    ensures Leads(g, seqs + [s], size + |EncodeSequence(s)|, Max(used, size + SequenceNeed(s, direct)), rest)
    ensures size + SequenceNeed(s, direct) <= g.need
  {
    hide EncodeSequence, SequenceNeed;
    assert seqs + ([s] + rest.seqs) == seqs + [s] + rest.seqs;
  }

  /** The candidate at ip itself, right after a match. */
  method TestNext(j: Job, table: array<uint32>, ip: nat) returns (hit: bool, m: nat)
    requires j.Valid() && j.source < ip < j.MfLimitPlusOne() && TableOk(j, table[..], j.Index(ip))
    modifies table
    ensures TableOk(j, table[..], j.Index(ip) + 1) && table[..] == Entered(j, old(table[..]), ip)
    ensures hit ==> IsMatch(j, ip, m, 4) && m == Target(j, old(table[..]), ip)
    ensures hit <==> Hits(j, old(table[..]), ip)
  {
    hide HashPosition, EntryOk, Same, Hits, Slot;
    m := 0;
    SlotIs(j, ip);
    TestsAreHits(j, table[..], ip);
    var h: nat := HashPosition(j, ip);
    var current: uint32 := j.Index(ip);
    var matchIndex := table[h];
    assert EntryOk(j, table[..][h]);
    PutIndexOnHash(j, table, current, h, j.Index(ip) + 1);
    hit := InReach(j, matchIndex, current);
    if hit {
      ReachIsSafe(j, matchIndex, current);
      m := j.Position(matchIndex);
      SameWords(j.src, ip, m, 4);
      hit := ReadLE(j.src, m, 4) == ReadLE(j.src, ip, 4);
    }
  }

  lemma FollowingHit(j: Job, t: seq<uint32>, anchor: nat, u: seq<uint32>, w: seq<uint32>, s: Sequence)
    requires j.Valid() && |t| == 0x2000 && j.source + 4 <= anchor <= j.Iend() - 12
    requires u == Entered(j, t, anchor - 2) && w == Entered(j, u, anchor) && Hits(j, u, anchor)
    requires s.lits == [] && s.offset == anchor - Target(j, u, anchor)
    requires s.mlen == Forward(j.src, anchor, Target(j, u, anchor), j.Iend() - 5)
    ensures anchor + s.mlen <= j.Iend() - 5
    ensures Following(j, t, anchor) == Before(s, true, Following(j, w, anchor + s.mlen))
  {
    hide Forward, Before, Searching, Entered, Slot, Same;
  }

  lemma FollowingMiss(j: Job, t: seq<uint32>, anchor: nat, u: seq<uint32>, w: seq<uint32>)
    requires j.Valid() && |t| == 0x2000 && j.source + 4 <= anchor <= j.Iend() - 12
    requires u == Entered(j, t, anchor - 2) && w == Entered(j, u, anchor) && !Hits(j, u, anchor)
    ensures Following(j, t, anchor) == Searching(j, w, anchor, anchor + 1)
  {
    hide Forward, Before, Searching, Entered, Hits;
  }

  lemma FollowingEnd(j: Job, t: seq<uint32>, anchor: nat)
    requires j.Valid() && |t| == 0x2000 && j.source + 4 <= anchor <= j.Iend() - 5 && j.Iend() - 12 < anchor
    ensures Following(j, t, anchor) == Last(j, t, anchor)
  {
  }

  /** After a sequence: further sequences that have no literals, until none follows directly. */
  method DirectMatches(j: Job, table: array<uint32>, dst: array<uint8>, d0: nat, op0: nat, anchor0: nat, olimit: int,
                       ghost lo: nat, ghost seqs0: seq<Sequence>, ghost g: Parse, ghost used0: nat)
      returns (st: Outcome, op: nat, anchor: nat, ghost seqs: seq<Sequence>, ghost used: nat)
    requires j.Valid() && d0 <= op0 && d0 + CompressBound(j.inputSize) <= dst.Length && op0 <= dst.Length
    requires Emitted(j, dst[d0..op0], anchor0, lo, seqs0) && seqs0 != []
    requires j.source + MINMATCH <= anchor0 <= j.MatchLimit() && TableOk(j, table[..], j.Index(anchor0))
    requires Leads(g, seqs0, op0 - d0, used0, Following(j, table[..], anchor0)) && Passed(j, d0, olimit, used0)
    modifies table, dst
    ensures d0 <= op <= dst.Length
    ensures st != Full ==> Emitted(j, dst[d0..op], anchor, lo, seqs) && seqs != []
    ensures st != Full ==> anchor0 <= anchor <= j.MatchLimit() && Passed(j, d0, olimit, used)
    ensures st == Resume ==> anchor < j.MfLimitPlusOne() && TableOk(j, table[..], j.Index(anchor) + 1)
    ensures st == Resume ==> Leads(g, seqs, op - d0, used, Searching(j, table[..], anchor, anchor + 1))
    ensures TableOk(j, table[..], j.Index(j.Iend()))
    ensures st == Finish ==> Leads(g, seqs, op - d0, used, Last(j, table[..], anchor))
    ensures st == Full ==> j.limited && olimit < d0 + CompressBound(j.inputSize) && olimit < d0 + g.need
    ensures Untouched(dst, d0, d0 + CompressBound(j.inputSize))
  {
    hide Emitted, HashPosition, EntryOk, Same, Slot, Hits, Searching, Following, Leads, Last, SequenceNeed, Forward,
         Before, Max, EncodeSequence, TableOk, IsMatch;
    TableSize(j, table[..], j.Index(anchor0));
    op, anchor, seqs, st, used := op0, anchor0, seqs0, Finish, used0;
    while anchor < j.MfLimitPlusOne()
      invariant d0 <= op <= dst.Length && Emitted(j, dst[d0..op], anchor, lo, seqs) && seqs != []
      invariant anchor0 <= anchor <= j.MatchLimit() && TableOk(j, table[..], j.Index(anchor))
      invariant Leads(g, seqs, op - d0, used, Following(j, table[..], anchor)) && Passed(j, d0, olimit, used)
      invariant Untouched(dst, d0, d0 + CompressBound(j.inputSize))
      decreases j.MfLimitPlusOne() - anchor
    {
      ghost var t := table[..];
      PutPosition(j, table, anchor - 2, j.Index(anchor));
      ghost var u := table[..];
      var hit, m := TestNext(j, table, anchor);
      TableGrows(j, table[..], j.Index(anchor) + 1, j.Index(j.Iend()));
      if !hit { FollowingMiss(j, t, anchor, u, table[..]); return Resume, op, anchor, seqs, used; }
      ForwardMatch(j, anchor, m, 4);
      ghost var n := Forward(j.src, anchor, m, j.Iend() - 5);
      ghost var s0 := Sequence([], anchor - m, n);
      FollowingHit(j, t, anchor, u, table[..], s0);
      LeadsOn(g, seqs, op - d0, used, s0, true, Following(j, table[..], anchor + n));
      var ok;
      ghost var s;
      ghost var size, p := op - d0, anchor;
      ok, op, anchor, s := EmitSequence(j, dst, d0, op, anchor, anchor, m, olimit, true, lo, seqs, 4);
      assert s == s0;
      if !ok { return Full, d0, anchor, seqs, used; }
      TableGrows(j, table[..], j.Index(p) + 1, j.Index(anchor));
      MaxFits(j, d0, olimit, used, size + SequenceNeed(s, true));
      seqs, used := seqs + [s], Max(used, size + SequenceNeed(s, true));
    }
    TableGrows(j, table[..], j.Index(anchor), j.Index(j.Iend()));
    FollowingEnd(j, table[..], anchor);
  }

  lemma MaxFits(j: Job, d0: nat, olimit: int, a: nat, b: nat)
    requires Passed(j, d0, olimit, a) && (j.limited ==> d0 + b <= olimit)
    ensures Passed(j, d0, olimit, Max(a, b))
  {
  }

  lemma LastDecides(j: Job, d0: nat, olimit: int, used: nat, b: nat)
    requires Passed(j, d0, olimit, used) && b > 0
    ensures j.limited ==> (olimit < d0 + Max(used, b) <==> olimit < d0 + b)
  {
  }

  lemma NothingFound(j: Job, t: seq<uint32>, anchor: nat, p: nat, u: seq<uint32>)
    requires j.Valid() && |t| == 0x2000 && j.source <= anchor < p && anchor <= j.Iend() - 5
    requires Search(j, t, p, 1, 64 * j.acceleration) == Nothing(u)
    ensures Searching(j, t, anchor, p) == Last(j, u, anchor)
  {
    hide Search;
  }

  /** A match that was found, after it has been moved back. */
  lemma FoundSequence(j: Job, t: seq<uint32>, anchor: nat, p: nat, at: nat, from: nat, u: seq<uint32>)
      returns (s: Sequence)
    requires j.Valid() && |t| == 0x2000 && j.source <= anchor < p && anchor <= j.Iend() - 5
    requires Search(j, t, p, 1, 64 * j.acceleration) == Match(at, from, u)
    ensures var k := Backward(j, anchor, at, from);
      anchor <= at - k && k <= from && s.lits == j.src[anchor..at - k] && s.offset == at - from
      && s.mlen == Forward(j.src, at - k, from - k, j.Iend() - 5)
      && 4 <= s.mlen - k <= j.Iend() - 5 - at
      && Searching(j, t, anchor, p) == Before(s, false, Following(j, u, at - k + s.mlen))
  {
    hide Searching, Search, Same, Following, Backward, Forward, Before;
    ForwardAtLeast(j.src, at, from, j.Iend() - 5, 4);
    var k := Backward(j, anchor, at, from);
    s := Sequence(j.src[anchor..at - k], at - from, k + Forward(j.src, at, from, j.Iend() - 5));
    SearchedSequence(j, t, anchor, p, at, from, u, s);
    BackwardSame(j, anchor, at, from);
    ForwardSplit(j.src, at - k, from - k, j.Iend() - 5, k);
  }

  lemma SearchedSequence(j: Job, t: seq<uint32>, anchor: nat, p: nat, at: nat, from: nat, u: seq<uint32>, s: Sequence)
    requires j.Valid() && |t| == 0x2000 && j.source <= anchor < p && anchor <= j.Iend() - 5
    requires Search(j, t, p, 1, 64 * j.acceleration) == Match(at, from, u)
    requires var k, n := Backward(j, anchor, at, from), Forward(j.src, at, from, j.Iend() - 5);
      n >= 4 && s.lits == j.src[anchor..at - k] && s.offset == at - from && s.mlen == k + n
    ensures at + Forward(j.src, at, from, j.Iend() - 5) <= j.Iend() - 5
    ensures (Searching(j, t, anchor, p)
             == Before(s, false, Following(j, u, at + Forward(j.src, at, from, j.Iend() - 5))))
  {
    hide Search, Same, Following, Backward, Forward, Before;
  }

  lemma {:induction false} BackwardSame(j: Job, anchor: int, p: nat, m: nat)
    requires m < p <= |j.src|
    ensures var k := Backward(j, anchor, p, m); Same(j.src, p - k, m - k, k)
    decreases p
  {
    if Backward(j, anchor, p, m) > 0 { BackwardSame(j, anchor, p - 1, m - 1); }
  }

  lemma StartsParse(j: Job, t: seq<uint32>, g: Parse)
    requires j.Valid() && |t| == 0x2000 && g == Greedy(j, t) && j.inputSize >= 13
    ensures Leads(g, [], 0, 0, Searching(j, Entered(j, t, j.source), j.source, j.source + 1))
  {
    hide Searching, Entered;
    assert [] + g.seqs == g.seqs;
  }

  /** All sequences of the block; returns where the last literals start. */
  method EmitSequences(j: Job, table: array<uint32>, dst: array<uint8>, d0: nat, olimit: int, ghost lo: nat,
                       ghost g: Parse)
      returns (ok: bool, op: nat, anchor: nat, ghost seqs: seq<Sequence>, ghost used: nat)
    requires j.Valid() && d0 + CompressBound(j.inputSize) <= dst.Length && lo <= j.LowLimit()
    requires MFLIMIT + 1 <= j.inputSize && TableOk(j, table[..], j.startIndex + 1) && g == Greedy(j, table[..])
    modifies table, dst
    ensures d0 <= op <= dst.Length && TableOk(j, table[..], j.Index(j.Iend()))
    ensures ok ==> Emitted(j, dst[d0..op], anchor, lo, seqs) && (seqs != [] ==> anchor <= j.MatchLimit())
    ensures ok ==> Leads(g, seqs, op - d0, used, Last(j, table[..], anchor)) && Passed(j, d0, olimit, used)
    ensures ok || (j.limited && olimit < d0 + CompressBound(j.inputSize) && olimit < d0 + g.need)
    ensures Untouched(dst, d0, d0 + CompressBound(j.inputSize))
  {
    hide Emitted, HashPosition, EntryOk, Same, IsMatch, Searching, Following, Leads, Search, Before, Backward, Forward,
         SequenceNeed, Last, Slot, Entered, Greedy, TableOk, Max, EncodeSequence, CompressBound;
    TableSize(j, table[..], j.startIndex + 1);
    StartsParse(j, table[..], g);
    op, anchor, seqs, used := d0, j.source, [], 0;
    NothingEmitted(j, dst[d0..op], lo);
    PutPosition(j, table, j.source, j.startIndex + 1);
    var ip := j.source + 1;
    while true
      invariant d0 <= op <= dst.Length && Emitted(j, dst[d0..op], anchor, lo, seqs)
      invariant seqs != [] ==> anchor <= j.MatchLimit()
      invariant j.source <= anchor < ip <= j.MfLimitPlusOne() && TableOk(j, table[..], j.Index(ip))
      invariant Leads(g, seqs, op - d0, used, Searching(j, table[..], anchor, ip)) && Passed(j, d0, olimit, used)
      invariant Untouched(dst, d0, d0 + CompressBound(j.inputSize))
      decreases j.MfLimitPlusOne() - anchor
    {
      ghost var t, p := table[..], ip;
      var found, m;
      found, ip, m := FindMatch(j, table, ip);
      if !found { NothingFound(j, t, anchor, p, table[..]); return true, op, anchor, seqs, used; }
      ghost var at, from, size := ip, m, op - d0;
      ip, m := CatchUp(j, anchor, ip, m);
      ghost var s0 := FoundSequence(j, t, anchor, p, at, from, table[..]);
      LeadsOn(g, seqs, size, used, s0, false, Following(j, table[..], ip + s0.mlen));
      ghost var s;
      ok, op, ip, s := EmitSequence(j, dst, d0, op, anchor, ip, m, olimit, false, lo, seqs, 4 + (at - ip));
      assert s == s0;
      if !ok { return false, d0, anchor, seqs, used; }
      TableGrows(j, table[..], j.Index(at) + 1, j.Index(ip));
      MaxFits(j, d0, olimit, used, size + SequenceNeed(s, false));
      seqs, used := seqs + [s], Max(used, size + SequenceNeed(s, false));
      var st;
      st, op, anchor, seqs, used := DirectMatches(j, table, dst, d0, op, ip, olimit, lo, seqs, g, used);
      if st == Full { return false, d0, anchor, seqs, used; }
      if st == Finish { return true, op, anchor, seqs, used; }
      ip := anchor + 1;
    }
  }

  lemma NothingEmitted(j: Job, out: seq<uint8>, lo: nat)
    requires j.Valid() && out == [] && lo <= j.LowLimit()
    ensures Emitted(j, out, j.source, lo, [])
  {
  }

  /** What a caller gets: a block that decodes to the source after the same history, in every
      buffer large enough and wherever the history lies. */
  ghost predicate Decodes(j: Job, block: seq<uint8>, lo: nat)
    requires lo <= j.source && j.source + j.inputSize <= |j.src|
  {
    forall capacity: nat, ext: nat :: j.inputSize <= capacity ==>
      Decompress(block, j.src[lo..j.source], capacity, ext) == Accept(j.src[lo..j.Iend()])
  }

  lemma LastStep(j: Job, out: seq<uint8>, anchor: int, lo: int, seqs: seq<Sequence>)
    requires j.Valid() && Emitted(j, out, anchor, lo, seqs) && (seqs != [] ==> anchor <= j.MatchLimit())
    ensures Decodes(j, out + EncodeLast(j.src[anchor..j.Iend()]), lo)
  {
    hide Decompress, EncodeAll, EncodeLast, Expandable, Expand, EndRules;
    var h, last := j.src[lo..j.source], j.src[anchor..j.Iend()];
    assert j.src[lo..anchor] + last == j.src[lo..j.Iend()];
    forall capacity: nat, ext: nat | j.inputSize <= capacity
      ensures Decompress(out + EncodeLast(last), h, capacity, ext) == Accept(j.src[lo..j.Iend()])
    {
      BlockAccepted(h, seqs, last, capacity, ext);
    }
  }

  /** LZ4_compress_generic after its checks of the input size. */
  method CompressBlock(j: Job, table: array<uint32>, dst: array<uint8>, d0: nat, olimit: int, ghost lo: nat)
      returns (r: nat)
    requires j.Valid() && d0 + CompressBound(j.inputSize) <= dst.Length && lo <= j.LowLimit()
    requires TableOk(j, table[..], j.startIndex + 1)
    modifies table, dst
    ensures TableOk(j, table[..], j.Index(j.Iend()) + 1)
    ensures r <= CompressBound(j.inputSize) && (j.limited ==> r == 0 || d0 + r <= olimit)
    ensures r == 0 ==> j.limited && olimit < d0 + CompressBound(j.inputSize)
    ensures r > 0 ==> Decodes(j, dst[d0..d0 + r], lo)
    ensures var g := Greedy(j, old(table[..]));
      (r == 0 <==> j.limited && olimit < d0 + g.need)
      && (r > 0 ==> g.anchor <= j.Iend() && dst[d0..d0 + r] == Written(j, g) && table[..] == g.table)
    ensures Untouched(dst, d0, d0 + CompressBound(j.inputSize))
  {
    hide Emitted, EntryOk, Decodes, Searching, Leads, Last, Written, EncodeAll, EncodeLast, Slot, Entered, Max;
    var ok, op, anchor := true, d0, j.source;
    ghost var seqs, used, g := [], 0, Greedy(j, table[..]);
    NothingEmitted(j, dst[d0..op], lo);
    OnlyLiterals(j, table[..]);
    if j.inputSize >= MFLIMIT + 1 {
      ok, op, anchor, seqs, used := EmitSequences(j, table, dst, d0, olimit, lo, g);
      if !ok { return 0; }
    }
    r := FinishBlock(j, dst, d0, op, anchor, olimit, lo, seqs);
    ParseDone(j, table[..], g, seqs, op - d0, used, anchor);
    LastDecides(j, d0, olimit, used, op - d0 + LastNeed(j.Iend() - anchor));
  }

  lemma ParseDone(j: Job, t: seq<uint32>, g: Parse, seqs: seq<Sequence>, size: int, used: nat, anchor: nat)
    requires anchor <= j.Iend() <= |j.src| && Leads(g, seqs, size, used, Last(j, t, anchor))
    ensures g == Parse(seqs, anchor, t, Max(used, size + LastNeed(j.Iend() - anchor)))
    ensures Written(j, g) == EncodeAll(seqs) + EncodeLast(j.src[anchor..j.Iend()])
  {
    hide EncodeAll, EncodeLast;
    assert seqs + [] == seqs;
  }

  lemma OnlyLiterals(j: Job, t: seq<uint32>)
    requires j.Valid() && |t| == 0x2000
    ensures Leads(Last(j, t, j.source), [], 0, 0, Last(j, t, j.source))
  {
  }

  /** The last literals. */
  method FinishBlock(j: Job, dst: array<uint8>, d0: nat, op0: nat, anchor: nat, olimit: int,
                     ghost lo: nat, ghost seqs: seq<Sequence>) returns (r: nat)
    requires j.Valid() && d0 <= op0 <= dst.Length && d0 + CompressBound(j.inputSize) <= dst.Length && lo <= j.LowLimit()
    requires Emitted(j, dst[d0..op0], anchor, lo, seqs) && (seqs != [] ==> anchor <= j.MatchLimit())
    modifies dst
    ensures r <= CompressBound(j.inputSize) && (j.limited ==> r == 0 || d0 + r <= olimit)
    ensures r == 0 ==> j.limited && olimit < d0 + CompressBound(j.inputSize)
    ensures r > 0 ==> Decodes(j, dst[d0..d0 + r], lo)
    ensures anchor <= j.Iend() && (r == 0 <==> j.limited && olimit < op0 + LastNeed(j.Iend() - anchor))
    ensures r > 0 ==> dst[d0..d0 + r] == EncodeAll(seqs) + EncodeLast(j.src[anchor..j.Iend()])
    ensures Untouched(dst, d0, d0 + CompressBound(j.inputSize))
  {
    hide Emitted, Decodes, EncodeLast, EncodeLiterals, ExtraSize, ExtraBytes, EncodeAll;
    EmittedBounds(j, dst[d0..op0], anchor, lo, seqs);
    var lastRun := j.Iend() - anchor;
    SpaceForLast(j.inputSize, op0 - d0, anchor - j.source, lastRun);
    if j.limited && op0 + lastRun + 1 + (lastRun + 255 - RUN_MASK) / 255 > olimit { return 0; }
    LastStep(j, dst[d0..op0], anchor, lo, seqs);
    ExtraBytesSize(lastRun);
    LiteralsSize(j.src[anchor..j.Iend()], 0);
    LastIsLiterals(j.src[anchor..j.Iend()]);
    ghost var before := dst[d0..op0];
    var op := WriteLastLiterals(dst, op0, j.src, anchor, lastRun);
    assert dst[d0..op] == before + dst[op0..op];
    r := op - d0;
  }

  lemma LastIsLiterals(lits: seq<uint8>)
    ensures EncodeLast(lits) == EncodeLiterals(lits, 0)
  {
  }
}
