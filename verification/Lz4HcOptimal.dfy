/** The optimal parser of lz4hc.c: a table of prices over the next positions, its reverse
    traversal, and the sequences written from it. */
module Lz4HcOptimal {
  import opened MachineInts
  import opened Lz4Memory
  import opened Lz4Format
  import opened Lz4Encoding
  import opened Lz4Words
  import opened Lz4Emit
  import opened Lz4Search
  import opened Lz4Greedy
  import opened Lz4Compressor
  import opened Lz4HcFinder
  import opened Lz4HcParse
  import opened Lz4HcChains

  const OPT_NUM: nat := 0x1000
  const TRAILING_LITERALS: nat := 3

  // ---------------------------------------------------------------- writing a sequence

  /** The extra bytes of a match length, two at a time. */
  method WriteRunByTwo(dst: array<uint8>, op0: nat, n: nat) returns (op: nat)
    requires op0 + n / 255 + 1 <= dst.Length
    modifies dst
    ensures op == op0 + n / 255 + 1
    ensures dst[op0..op] == RunBytes(n) && Untouched(dst, op0, op)
  {
    op := op0;
    var length := n;
    while length >= 510
      invariant op0 <= op && op + length / 255 == op0 + n / 255 && length % 255 == n % 255
      invariant forall i :: op0 <= i < op ==> dst[i] == 255
      invariant Untouched(dst, op0, op)
    {
      RunStep(length);
      RunStep(length - 255);
      dst[op] := 255;
      dst[op + 1] := 255;
      op, length := op + 2, length - 510;
    }
    if length >= 255 {
      RunStep(length);
      dst[op] := 255;
      op, length := op + 1, length - 255;
    }
    SmallRun(length);
    dst[op] := length;
    op := op + 1;
    RunWritten(dst[..], op0, op, n);
    assert dst[op0..op] == dst[..][op0..op];
  }

  lemma SmallRun(n: nat)
    requires n < 255
    ensures n / 255 == 0 && n % 255 == n
  {
  }

  /** The match length of a sequence whose token, literals and offset are written. */
  method WriteLongMatch(dst: array<uint8>, token: nat, op0: nat, n: nat, ghost lits: seq<uint8>) returns (op: nat)
    requires token + |EncodeLiterals(lits, 0)| <= op0 && op0 + ExtraSize(n) <= dst.Length
    requires Has(dst[..], token, EncodeLiterals(lits, 0))
    modifies dst
    ensures op == op0 + |ExtraBytes(n)|
    ensures Has(dst[..], token, EncodeLiterals(lits, Nibble(n))) && dst[op0..op] == ExtraBytes(n)
    ensures forall i :: token + |EncodeLiterals(lits, 0)| <= i < op0 ==> dst[i] == old(dst[i])
    ensures Untouched(dst, token, op)
  {
    hide RunBytes, EncodeLiterals, Has;
    TokenRoom(lits);
    SameSize(lits, Nibble(n));
    op := op0;
    AddToToken(dst, token, Nibble(n), lits);
    ghost var marked := dst[..];
    if n >= RUN_MASK { op := WriteRunByTwo(dst, op, n - RUN_MASK); }
    HasFrame(marked, dst[..], token, EncodeLiterals(lits, Nibble(n)));
  }

  /** The bytes of one sequence, up to eight bytes behind its literals touched. */
  method WriteSequence(dst: array<uint8>, token: nat, src: seq<uint8>, anchor: nat, ip: nat, offset: Distance,
      n: MatchSize)
      returns (op: nat)
    requires anchor <= ip && ip + 8 <= |src|
    requires token + 1 + ExtraSize(ip - anchor) + (ip - anchor) + 8 <= dst.Length
    requires token + 1 + ExtraSize(ip - anchor) + (ip - anchor) + 2 + ExtraSize(n - MINMATCH) <= dst.Length
    modifies dst
    ensures op == token + SequenceSize(ip - anchor, n - MINMATCH)
    ensures Has(dst[..], token, EncodeSequence(Sequence(src[anchor..ip], offset, n)))
    ensures Untouched(dst, token, token + 1 + ExtraSize(ip - anchor) + (ip - anchor) + 8 + ExtraSize(n - MINMATCH))
  {
    hide EncodeLiterals, EncodeSequence, ExtraSize, ExtraBytes, OffsetBytes, RunBytes;
    ghost var lits := src[anchor..ip];
    ghost var s := Sequence(lits, offset, n);
    LiteralsSize(lits, 0);
    ExtraBytesSize(ip - anchor);
    ExtraBytesSize(n - MINMATCH);
    SizeOf(s);
    SequenceBytes(s);
    var at := WriteLiterals(dst, token, src, anchor, ip - anchor);
    ghost var front := dst[token..at];
    WriteOffset(dst, at, offset);
    assert dst[..][token..at] == front;
    op := WriteLongMatch(dst, token, at + 2, n - MINMATCH, lits);
    assert dst[..][at..at + 2] == OffsetBytes(s.offset);
    SequenceAssembled(s, dst[..], token, at);
  }

  /** LZ4HC_encodeSequence, without an output limit: the literals from anchor to ip and n bytes
      of match. */
  method EncodeHc(j: Job, dst: array<uint8>, d0: nat, op0: nat, anchor: nat, ip: nat, m: nat, n: nat,
                  ghost lo: nat, ghost seqs0: seq<Sequence>)
      returns (op: nat, ghost seqs: seq<Sequence>)
    requires j.Valid() && d0 <= op0 <= dst.Length && d0 + CompressBound(j.inputSize) <= dst.Length
    requires Emitted(j, dst[d0..op0], anchor, lo, seqs0)
    requires anchor <= ip <= j.Iend() - MFLIMIT && IsMatch(j, ip, m, n) && ip + n <= j.MatchLimit()
    modifies dst
    ensures op0 <= op <= dst.Length && Emitted(j, dst[d0..op], ip + n, lo, seqs)
    ensures |seqs| == |seqs0| + 1 && seqs[..|seqs0|] == seqs0
    ensures var s := seqs[|seqs0|]; s.lits == j.src[anchor..ip] && s.offset == ip - m && s.mlen == n
    ensures Untouched(dst, d0, d0 + CompressBound(j.inputSize))
  {
    hide Emitted, EncodeSequence, ExtraSize, Same;
    ghost var before := dst[d0..op0];
    EmittedBounds(j, before, anchor, lo, seqs0);
    HcSpace(j.inputSize, op0 - d0, anchor - j.source, ip - anchor, n);
    op := WriteSequence(dst, op0, j.src, anchor, ip, ip - m, n);
    ghost var s := EmitStep(j, before, anchor, lo, seqs0, ip, m, n);
    SizeOf(s);
    assert dst[d0..op0] == before;
    assert dst[d0..op] == dst[d0..op0] + dst[..][op0..op];
    seqs := seqs0 + [s];
  }

  /** A sequence with its wide copy of literals fits into CompressBound. */
  lemma HcSpace(n: nat, size: nat, a: nat, ll: nat, ml: nat)
    requires 255 * size <= 256 * a && a + ll <= n - MFLIMIT && a + ll + ml <= n - LASTLITERALS && MINMATCH <= ml
    ensures size + 1 + ExtraSize(ll) + ll + 8 + ExtraSize(ml - MINMATCH) <= CompressBound(n)
  {
    SpaceForLiterals(n, size, a, ll);
    SpaceForMatch(n, size, a, ll, ml);
    ExtraBytesSize(ml - MINMATCH);
    assert (ml - MINMATCH) / 255 <= ml / 255;
  }

  // ---------------------------------------------------------------- prices

  function LiteralsPrice(litlen: int): int {
    if litlen >= RUN_MASK then litlen + 1 + (litlen - RUN_MASK) / 255 else litlen
  }

  function SequencePrice(litlen: int, mlen: int): int {
    3 + LiteralsPrice(litlen) + (if mlen >= RUN_MASK + MINMATCH then 1 + (mlen - (RUN_MASK + MINMATCH)) / 255 else 0)
  }

  lemma PricesAre(litlen: int, mlen: int)
    ensures LiteralsPrice(litlen) == LitPrice(litlen) && SequencePrice(litlen, mlen) == SeqPrice(litlen, mlen)
  {
  }

  /** The price of a full-size sequence is the number of bytes it takes. */
  lemma SequencePriceIsSize(litlen: nat, mlen: MatchSize)
    ensures SequencePrice(litlen, mlen) == SequenceSize(litlen, mlen - MINMATCH)
  {
  }

  // ---------------------------------------------------------------- the table

  /** A match of n bytes at p, in a place where the format allows one. */
  ghost predicate MatchAt(j: Job, p: int, off: int, n: int) {
    IsMatch(j, p, p - off, n) && p <= j.Iend() - MFLIMIT && p + n <= j.MatchLimit()
  }

  lemma MatchShorter(j: Job, p: int, off: int, n: int, k: int)
    requires MatchAt(j, p, off, n) && MINMATCH <= k <= n
    ensures MatchAt(j, p, off, k)
  {
    SameShorter(j.src, p, p - off, n, k);
  }

  /** A literal, or a match that starts at p. */
  ghost predicate StepFrom(j: Job, p: int, e: Optimal) {
    e.mlen == 1 || MatchAt(j, p, e.off, e.mlen)
  }

  /** The entry describes a step that ends at relative position pos and starts at 0 or later. */
  ghost predicate EntryOk(j: Job, ip: int, pos: int, e: Optimal) {
    e.litlen >= 0 && (e.mlen == 1 || (e.mlen <= pos && MatchAt(j, ip + pos - e.mlen, e.off, e.mlen)))
  }

  ghost predicate EntriesOk(j: Job, ip: int, t: seq<Optimal>, n: int) {
    n <= |t| && forall pos :: 0 <= pos < n ==> EntryOk(j, ip, pos, t[pos])
  }

  /** The literals behind the last match. */
  method TrailingLiterals(j: Job, ip: nat, opt: array<Optimal>, last: nat)
    requires last + TRAILING_LITERALS < opt.Length && EntriesOk(j, ip, opt[..], last + 1)
    modifies opt
    ensures EntriesOk(j, ip, opt[..], last + TRAILING_LITERALS + 1)
    ensures opt[..] == Trailing(old(opt[..]), last)
  {
    hide MatchAt, Trailing, LitPrice, LiteralsPrice;
    ghost var t, u := opt[..], Trailing(opt[..], last);
    TrailingElsewhere(t, last);
    var addLit := 1;
    while addLit <= TRAILING_LITERALS
      invariant 1 <= addLit <= TRAILING_LITERALS + 1 && EntriesOk(j, ip, opt[..], last + addLit)
      invariant forall k :: 0 <= k < |t| ==> opt[k] == if k < last + addLit then u[k] else t[k]
    {
      PricesAre(addLit, 0);
      TrailingAt(t, last, last + addLit);
      opt[last + addLit] := Optimal(opt[last].price + LiteralsPrice(addLit), 0, 1, addLit);
      addLit := addLit + 1;
    }
  }

  /** The prices for the first positions and for the first match. */
  method InitialPrices(j: Job, ip: nat, opt: array<Optimal>, llen: nat, matchML: nat, off: nat)
    requires opt.Length == OPT_NUM + TRAILING_LITERALS && MatchAt(j, ip, off, matchML) && matchML < OPT_NUM
    modifies opt
    ensures EntriesOk(j, ip, opt[..], matchML + TRAILING_LITERALS + 1)
    ensures opt[..] == Trailing(FirstPrices(old(opt[..]), llen, matchML, off), matchML)
  {
    hide MatchAt, FirstPrices, LitPrice, LiteralsPrice, SeqPrice, SequencePrice;
    MatchLong(j, ip, off, matchML);
    ghost var t, u := opt[..], FirstPrices(opt[..], llen, matchML, off);
    FirstPricesElsewhere(t, llen, matchML, off);
    var rPos := 0;
    while rPos < MINMATCH
      invariant 0 <= rPos <= MINMATCH && EntriesOk(j, ip, opt[..], rPos)
      invariant forall k :: 0 <= k < |t| ==> opt[k] == if k < rPos then u[k] else t[k]
    {
      PricesAre(llen + rPos, 0);
      FirstPricesAt(t, llen, matchML, off, rPos);
      opt[rPos] := Optimal(LiteralsPrice(llen + rPos), 0, 1, llen + rPos);
      rPos := rPos + 1;
    }
    var mlen := MINMATCH;
    while mlen <= matchML
      invariant MINMATCH <= mlen <= matchML + 1 && EntriesOk(j, ip, opt[..], mlen)
      invariant forall k :: 0 <= k < |t| ==> opt[k] == if k < mlen then u[k] else t[k]
    {
      PricesAre(llen, mlen);
      FirstPricesAt(t, llen, matchML, off, mlen);
      MatchShorter(j, ip, off, matchML, mlen);
      opt[mlen] := Optimal(SequencePrice(llen, mlen), off, mlen, llen);
      mlen := mlen + 1;
    }
    assert opt[..] == u;
    TrailingLiterals(j, ip, opt, matchML);
  }

  lemma MatchLong(j: Job, p: int, off: int, n: int)
    requires MatchAt(j, p, off, n)
    ensures MINMATCH <= n && 1 <= off <= MAX_DISTANCE && p + n <= j.MatchLimit() && p <= j.Iend() - MFLIMIT
  {
  }

  /** The literals before a further match at cur, where they are cheaper than what is known. */
  method UpdateLiterals(j: Job, ip: nat, opt: array<Optimal>, cur: nat, n: nat)
    requires cur + MINMATCH <= n <= opt.Length && EntriesOk(j, ip, opt[..], n)
    modifies opt
    ensures EntriesOk(j, ip, opt[..], n) && opt[..] == WithLiterals(old(opt[..]), cur)
  {
    hide MatchAt, WithLiterals, LitPrice, LiteralsPrice;
    ghost var t, u := opt[..], WithLiterals(opt[..], cur);
    WithLiteralsElsewhere(t, cur);
    var baseLitlen := opt[cur].litlen;
    var litlen := 1;
    while litlen < MINMATCH
      invariant 1 <= litlen <= MINMATCH && EntriesOk(j, ip, opt[..], n)
      invariant forall k :: 0 <= k < |t| ==> opt[k] == if k < cur + litlen then u[k] else t[k]
    {
      PricesAre(baseLitlen, 0);
      PricesAre(baseLitlen + litlen, 0);
      WithLiteralsAt(t, cur, cur + litlen);
      var price := opt[cur].price - LiteralsPrice(baseLitlen) + LiteralsPrice(baseLitlen + litlen);
      var pos := cur + litlen;
      if price < opt[pos].price { opt[pos] := Optimal(price, 0, 1, baseLitlen + litlen); }
      litlen := litlen + 1;
    }
  }

  /** The price of a further match of ml bytes, and the literals before it. */
  method PriceOfMatch(opt: array<Optimal>, cur: nat, ml: nat) returns (price: int, ll: int)
    requires cur < opt.Length && opt[cur].litlen >= 0
    ensures price == MatchPrice(opt[..], cur, ml) && ll == LiteralsAt(opt[..], cur)
  {
    hide LitPrice, LiteralsPrice, SeqPrice, SequencePrice;
    PricesAre(opt[cur].litlen, ml);
    PricesAre(0, ml);
    if opt[cur].mlen == 1 {
      ll := opt[cur].litlen;
      price := (if cur > ll then opt[cur - ll].price else 0) + SequencePrice(ll, ml);
    } else {
      ll := 0;
      price := opt[cur].price + SequencePrice(0, ml);
    }
  }

  /** The further match, where it costs no more. */
  method UpdateMatch(j: Job, ip: nat, opt: array<Optimal>, cur: nat, matchML: nat, off: nat, last0: nat, favor: bool)
      returns (last: nat)
    requires opt.Length == OPT_NUM + TRAILING_LITERALS && MatchAt(j, ip + cur, off, matchML)
    requires 1 <= cur < last0 && cur + matchML < OPT_NUM && last0 < OPT_NUM
    requires EntriesOk(j, ip, opt[..], last0 + TRAILING_LITERALS + 1)
    modifies opt
    ensures last0 <= last < OPT_NUM && EntriesOk(j, ip, opt[..], last + 1)
    ensures last == LastAfter(old(opt[..]), cur, matchML, last0, favor)
    ensures opt[..] == WithMatch(old(opt[..]), cur, matchML, off, last0, favor)
  {
    hide MatchAt, WithMatch, MatchPrice;
    ghost var u, w := opt[..], WithMatch(opt[..], cur, matchML, off, last0, favor);
    WithMatchElsewhere(u, cur, matchML, off, last0, favor);
    var ml := MINMATCH;
    last := last0;
    MatchLong(j, ip + cur, off, matchML);
    while ml <= matchML
      invariant MINMATCH <= ml <= matchML + 1
      invariant if ml <= matchML then last == last0 else last == LastAfter(u, cur, matchML, last0, favor)
      invariant forall k :: 0 <= k < |u| ==> opt[k] == if k < cur + ml then w[k] else u[k]
      invariant EntriesOk(j, ip, opt[..], last0 + TRAILING_LITERALS + 1) && EntriesOk(j, ip, opt[..], cur + ml)
    {
      MatchShorter(j, ip + cur, off, matchML, ml);
      WithMatchAt(u, cur, matchML, off, last0, favor, cur + ml);
      var pos := cur + ml;
      SamePrice(opt[..], u, cur, ml);
      var price, ll := PriceOfMatch(opt, cur, ml);
      if pos > last + TRAILING_LITERALS || price <= opt[pos].price - (if favor then 1 else 0) {
        if ml == matchML && last < pos { last := pos; }
        opt[pos] := Optimal(price, off, ml, ll);
      }
      ml := ml + 1;
    }
  }

  /** The price of a match at cur depends on the entries up to cur. */
  lemma SamePrice(t: seq<Optimal>, u: seq<Optimal>, cur: nat, ml: nat)
    requires cur < |t| == |u| && forall k :: 0 <= k <= cur ==> t[k] == u[k]
    ensures MatchPrice(t, cur, ml) == MatchPrice(u, cur, ml) && LiteralsAt(t, cur) == LiteralsAt(u, cur)
  {
    hide SeqPrice;
  }

  /** What a further match at cur changes. */
  method UpdatePrices(j: Job, ip: nat, opt: array<Optimal>, cur: nat, matchML: nat, off: nat, last0: nat, favor: bool)
      returns (last: nat)
    requires opt.Length == OPT_NUM + TRAILING_LITERALS && MatchAt(j, ip + cur, off, matchML)
    requires 1 <= cur < last0 && cur + matchML < OPT_NUM && last0 < OPT_NUM
    requires EntriesOk(j, ip, opt[..], last0 + TRAILING_LITERALS + 1)
    modifies opt
    ensures last0 <= last < OPT_NUM && EntriesOk(j, ip, opt[..], last + TRAILING_LITERALS + 1)
    ensures last == last0 || last == cur + matchML
    ensures var u := WithLiterals(old(opt[..]), cur);
      last == LastAfter(u, cur, matchML, last0, favor)
      && opt[..] == Trailing(WithMatch(u, cur, matchML, off, last0, favor), last)
  {
    hide MatchAt, WithLiterals, WithMatch, Trailing, EntryOk, Takes;
    UpdateLiterals(j, ip, opt, cur, last0 + TRAILING_LITERALS + 1);
    last := UpdateMatch(j, ip, opt, cur, matchML, off, last0, favor);
    TrailingLiterals(j, ip, opt, last);
  }

  // ---------------------------------------------------------------- traversal

  /** From relative position r the steps of the table lead to cur, and the step there follows. */
  ghost predicate Path(j: Job, ip: int, t: seq<Optimal>, r: int, cur: int)
    decreases cur - r
  {
    0 <= r <= cur < |t| && StepFrom(j, ip + r, t[r])
    && (r < cur ==> t[r].mlen >= 1 && Path(j, ip, t, r + t[r].mlen, cur))
  }

  lemma {:induction false} PathFrame(j: Job, ip: int, t: seq<Optimal>, u: seq<Optimal>, r: int, cur: int)
    requires Path(j, ip, t, r, cur) && |t| == |u| && forall k :: r <= k <= cur ==> t[k] == u[k]
    ensures Path(j, ip, u, r, cur)
    decreases cur - r
  {
    hide StepFrom;
    if r < cur { PathFrame(j, ip, t, u, r + t[r].mlen, cur); }
  }

  lemma {:induction false} RetracedFrame(t: seq<Optimal>, u: seq<Optimal>, w: seq<Optimal>, r: int, cur: int, mlen: int,
      off: int)
    requires Retraced(t, u, r, cur, mlen, off) && |u| == |w| && forall k :: r <= k <= cur ==> u[k] == w[k]
    ensures Retraced(t, w, r, cur, mlen, off)
    decreases cur - r
  {
    if r < cur { RetracedFrame(t, u, w, r + u[r].mlen, cur, mlen, off); }
  }

  /** One step back: the step that t records at the end of the step from r. */
  lemma StepBack(j: Job, ip: int, t: seq<Optimal>, u: seq<Optimal>, r: nat, len: int, step: int, cur: int, mlen: int,
      off: int)
    requires r <= cur < |t| == |u|
    requires len == 1 || MatchAt(j, ip + r, step, len)
    requires (if r == cur then len == mlen && step == off
              else (1 <= len && r + len <= cur && t[r + len].mlen == len && t[r + len].off == step
                    && Path(j, ip, u, r + len, cur) && Retraced(t, u, r + len, cur, mlen, off)))
    ensures var w := u[r := u[r].(mlen := len, off := step)];
      Path(j, ip, w, r, cur) && Retraced(t, w, r, cur, mlen, off)
  {
    hide MatchAt;
    var w := u[r := u[r].(mlen := len, off := step)];
    if r < cur {
      PathFrame(j, ip, u, w, r + len, cur);
      RetracedFrame(t, u, w, r + len, cur, mlen, off);
    }
  }

  lemma TraceEnd(t: seq<Optimal>, u: seq<Optimal>, r: int, cur: int, mlen: int, off: int)
    requires Retraced(t, u, r, cur, mlen, off)
    ensures 0 <= r <= cur < |u| && u[cur].mlen == mlen && u[cur].off == off
    decreases cur - r
  {
    if r < cur { TraceEnd(t, u, r + u[r].mlen, cur, mlen, off); }
  }

  /** The reverse traversal reaches position 0 and leaves the steps in forward order. */
  method ReverseTraversal(j: Job, ip: nat, opt: array<Optimal>, cur: nat, mlen: int, off: int)
    requires cur < opt.Length && EntriesOk(j, ip, opt[..], cur + 1)
    requires mlen == 1 || MatchAt(j, ip + cur, off, mlen)
    modifies opt
    ensures Path(j, ip, opt[..], 0, cur)
    ensures opt[cur].mlen == mlen && opt[cur].off == off
    ensures Retraced(old(opt[..]), opt[..], 0, cur, mlen, off)
  {
    hide MatchAt, Path, Retraced;
    var candidate := cur;
    var selectedLength, selectedOffset := mlen, off;
    ghost var original := opt[..];
    while true
      invariant 0 <= candidate <= cur
      invariant selectedLength == 1 || MatchAt(j, ip + candidate, selectedOffset, selectedLength)
      invariant forall k :: 0 <= k <= candidate ==> opt[k] == original[k]
      invariant if candidate == cur then selectedLength == mlen && selectedOffset == off
                else (1 <= selectedLength && candidate + selectedLength <= cur
                      && original[candidate + selectedLength].mlen == selectedLength
                      && original[candidate + selectedLength].off == selectedOffset
                      && Path(j, ip, opt[..], candidate + selectedLength, cur)
                      && Retraced(original, opt[..], candidate + selectedLength, cur, mlen, off))
      decreases candidate
    {
      assert EntryOk(j, ip, candidate, original[candidate]);
      var nextLength, nextOffset := opt[candidate].mlen, opt[candidate].off;
      StepBack(j, ip, original, opt[..], candidate, selectedLength, selectedOffset, cur, mlen, off);
      ghost var before := opt[..];
      opt[candidate] := opt[candidate].(mlen := selectedLength, off := selectedOffset);
      assert opt[..] == before[candidate := before[candidate].(mlen := selectedLength, off := selectedOffset)];
      TraceEnd(original, opt[..], candidate, cur, mlen, off);
      if nextLength != 1 { MatchLong(j, ip + candidate - nextLength, nextOffset, nextLength); }
      if nextLength > candidate { return; }
      selectedLength, selectedOffset := nextLength, nextOffset;
      candidate := candidate - nextLength;
    }
  }

  /** The forward walk: every match step becomes a sequence, literal steps only move on. */
  method EmitPath(j: Job, dst: array<uint8>, d0: nat, op0: nat, anchor0: nat, ip0: nat, opt: array<Optimal>,
                  ghost cur: nat, last: nat, ghost lo: nat, ghost seqs0: seq<Sequence>)
      returns (op: nat, anchor: nat, ip: nat, ghost seqs: seq<Sequence>)
    requires j.Valid() && d0 <= op0 <= dst.Length && d0 + CompressBound(j.inputSize) <= dst.Length
    requires Emitted(j, dst[d0..op0], anchor0, lo, seqs0) && anchor0 <= ip0
    requires seqs0 != [] ==> anchor0 <= j.MatchLimit()
    requires Path(j, ip0, opt[..], 0, cur) && cur < last <= opt.Length
    requires last == cur + 1 || last == cur + opt[cur].mlen
    modifies dst
    ensures d0 <= op <= dst.Length && Emitted(j, dst[d0..op], anchor, lo, seqs) && anchor <= ip
    ensures seqs != [] ==> anchor <= j.MatchLimit()
    ensures ip == ip0 + cur + old(opt[cur].mlen)
    ensures seqs == seqs0 + PathSequences(j.src, opt[..], ip0, anchor0, 0, last)
    ensures anchor == PathAnchor(opt[..], ip0, anchor0, 0, last)
    ensures Untouched(dst, d0, d0 + CompressBound(j.inputSize))
  {
    hide Emitted, MatchAt, Path, PathSequences, PathAnchor, CompressBound, EncodeSequence;
    op, anchor, ip, seqs := op0, anchor0, ip0, seqs0;
    var rPos := 0;
    ghost var u := opt[..];
    while rPos < last
      invariant 0 <= rPos && ip == ip0 + rPos && anchor <= ip
      invariant rPos <= cur ==> Path(j, ip0, u, rPos, cur)
      invariant rPos > cur ==> rPos == cur + u[cur].mlen
      invariant d0 <= op <= dst.Length && Emitted(j, dst[d0..op], anchor, lo, seqs)
      invariant seqs != [] ==> anchor <= j.MatchLimit()
      invariant (seqs + PathSequences(j.src, u, ip0, anchor, rPos, last)
                 == seqs0 + PathSequences(j.src, u, ip0, anchor0, 0, last))
      invariant PathAnchor(u, ip0, anchor, rPos, last) == PathAnchor(u, ip0, anchor0, 0, last)
      invariant Untouched(dst, d0, d0 + CompressBound(j.inputSize))
      decreases last - rPos
      modifies dst
    {
      PathHead(j, ip0, u, rPos, cur, last);
      var ml, offset := opt[rPos].mlen, opt[rPos].off;
      if ml == 1 {
        PathLiteral(j.src, u, ip0, anchor, rPos, last);
        ip, rPos := ip + 1, rPos + 1;
        continue;
      }
      MatchParts(j, ip, offset, ml);
      ghost var before := seqs;
      PathStep(j.src, u, ip0, anchor, rPos, last);
      rPos := rPos + ml;
      op, seqs := EncodeHc(j, dst, d0, op, anchor, ip, ip - offset, ml, lo, seqs);
      assert seqs == before + [seqs[|before|]];
      ip := ip + ml;
      anchor := ip;
    }
    PathEnd(j.src, u, ip0, anchor, rPos, last);
  }

  lemma PathHead(j: Job, ip: int, u: seq<Optimal>, r: int, cur: int, last: int)
    requires 0 <= cur < last <= |u| && 0 <= r && if r <= cur then Path(j, ip, u, r, cur) else r == cur + u[cur].mlen
    requires (last == cur + 1 || last == cur + u[cur].mlen) && r < last
    ensures r <= cur && StepFrom(j, ip + r, u[r]) && 1 <= u[r].mlen
    ensures r < cur ==> r + u[r].mlen <= cur && Path(j, ip, u, r + u[r].mlen, cur)
  {
    hide MatchAt;
    if u[r].mlen != 1 { MatchLong(j, ip + r, u[r].off, u[r].mlen); }
  }

  lemma PathStep(src: seq<uint8>, u: seq<Optimal>, ip: nat, anchor: nat, r: nat, last: nat)
    requires r < last <= |u| && 4 <= u[r].mlen && 1 <= u[r].off <= 65535 && anchor <= ip + r <= |src|
    ensures var e := u[r];
      PathSequences(src, u, ip, anchor, r, last)
      == [Sequence(src[anchor..ip + r], e.off, e.mlen)]
         + PathSequences(src, u, ip, ip + r + e.mlen, r + e.mlen, last)
      && PathAnchor(u, ip, anchor, r, last) == PathAnchor(u, ip, ip + r + e.mlen, r + e.mlen, last)
  {
  }

  lemma PathLiteral(src: seq<uint8>, u: seq<Optimal>, ip: nat, anchor: nat, r: nat, last: nat)
    requires r < last <= |u| && u[r].mlen == 1
    ensures PathSequences(src, u, ip, anchor, r, last) == PathSequences(src, u, ip, anchor, r + 1, last)
    ensures PathAnchor(u, ip, anchor, r, last) == PathAnchor(u, ip, anchor, r + 1, last)
  {
  }

  lemma PathEnd(src: seq<uint8>, u: seq<Optimal>, ip: nat, anchor: nat, r: nat, last: nat)
    requires last <= r
    ensures PathSequences(src, u, ip, anchor, r, last) == [] && PathAnchor(u, ip, anchor, r, last) == anchor
  {
  }

  lemma MatchParts(j: Job, p: int, off: int, n: int)
    requires MatchAt(j, p, off, n)
    ensures MINMATCH <= n && 0 <= p - off && IsMatch(j, p, p - off, n) && p + n <= j.MatchLimit()
      && p <= j.Iend() - MFLIMIT
  {
  }

  // ---------------------------------------------------------------- the parser

  ghost function SegmentOf(ctx: HcContext, j: Job): Segment
    reads ctx
  {
    Segment(j, ctx.base, ctx.lowLimit, ctx.favorDecSpeed)
  }

  /** What LZ4HC_FindLongerMatch finds is what the parse may find. */
  lemma SearchFinds(ctx: HcContext, j: Job, p: nat, minLen: nat, n: nat, len: nat, off: nat, full: nat)
    requires j.Valid() && j.source <= p <= j.Iend() - 12 && minLen <= full && ctx.Searched(j, p, n, full)
    requires len == if full <= minLen then 0 else if ctx.favorDecSpeed && 18 < full <= 36 then 18 else full
    requires len > 0 ==> IsMatch(j, p, p - off, full) && p + full <= j.MatchLimit()
    ensures MayFind(SegmentOf(ctx, j), p, minLen, n, len, off, full)
  {
    hide NoneLonger;
  }

  /** A search within a stretch. */
  method FindWithin(ctx: HcContext, j: Job, ip: nat, cur: nat, last: nat, level: Level)
      returns (len: nat, distance: nat, ghost full: nat)
    requires ctx.Valid() && ctx.Serves(j) && ctx.Indexed(j.src) && j.source <= ip + cur <= j.Iend() - MFLIMIT
    requires ctx.nextToUpdate <= ip + cur - ctx.base && cur < last && ip + last <= j.MatchLimit()
    modifies ctx`nextToUpdate, ctx.hashTable, ctx.chainTable
    ensures ctx.Valid() && ctx.Serves(j) && ctx.Indexed(j.src) && ctx.nextToUpdate == ip + cur - ctx.base
    ensures MayFindWithin(SegmentOf(ctx, j), level, ip, last, cur, len, distance, full)
    ensures len > 0 ==> MatchAt(j, ip + cur, distance, len) && MINMATCH <= len && ip + cur + len <= j.MatchLimit()
  {
    hide MayFind;
    var minLen := last - cur;
    if level.fullUpdate { minLen := MINMATCH - 1; }
    len, distance, full := ctx.FindLongerMatch(j, ip + cur, minLen, level.nbSearches);
    SearchFinds(ctx, j, ip + cur, minLen, level.nbSearches, len, distance, full);
    if len > 0 { MatchFound(j, ip + cur, distance, len); }
  }

  /** The loop over further positions: which step ends the stretch, and where it starts. */
  method ChoosePath(ctx: HcContext, j: Job, ip: nat, opt: array<Optimal>, first: nat, level: Level)
      returns (cur: nat, mlen: int, off: int, last: nat)
    requires ctx.Valid() && ctx.Serves(j) && ctx.Indexed(j.src) && j.source <= ip <= j.Iend() - MFLIMIT
    requires opt.Length == OPT_NUM + TRAILING_LITERALS && level.sufficientLen < OPT_NUM
    requires MINMATCH <= first < OPT_NUM && ip + first <= j.MatchLimit() && ctx.nextToUpdate <= ip - ctx.base
    requires EntriesOk(j, ip, opt[..], first + TRAILING_LITERALS + 1)
    modifies ctx`nextToUpdate, ctx.hashTable, ctx.chainTable, opt
    ensures ctx.Valid() && ctx.Serves(j) && ctx.Indexed(j.src)
    ensures cur < opt.Length && EntriesOk(j, ip, opt[..], cur + 1)
    ensures mlen == 1 || MatchAt(j, ip + cur, off, mlen)
    ensures mlen >= 1 && ip + cur + mlen <= j.MatchLimit() && ctx.nextToUpdate <= ip + cur + mlen - ctx.base
    ensures cur < last <= opt.Length && (last == cur + 1 || last == cur + mlen)
    ensures Scanned(SegmentOf(ctx, j), level, ip, old(opt[..]), first, 1, Stretch(opt[..], cur, mlen, off, last))
  {
    hide MatchAt, EntryOk, Scanned, MayFindWithin, WithLiterals, WithMatch, LastAfter, Trailing, Chained;
    ghost var g, t0 := SegmentOf(ctx, j), opt[..];
    last, cur := first, 1;
    while cur < last
      invariant 1 <= cur <= last < OPT_NUM && MINMATCH <= last && ip + last <= j.MatchLimit()
      invariant ctx.Valid() && ctx.Serves(j) && ctx.Indexed(j.src) && ctx.nextToUpdate < ip + cur - ctx.base
      invariant EntriesOk(j, ip, opt[..], last + TRAILING_LITERALS + 1)
      invariant forall r :: Scanned(g, level, ip, opt[..], last, cur, r) ==> Scanned(g, level, ip, t0, first, 1, r)
      decreases OPT_NUM - cur
    {
      if ip + cur > j.Iend() - MFLIMIT { break; }
      ghost var t := opt[..];
      if level.fullUpdate {
        if opt[cur + 1].price <= opt[cur].price && opt[cur + MINMATCH].price < opt[cur].price + 3 {
          ScanSkip(g, level, ip, t, last, cur);
          cur := cur + 1;
          continue;
        }
      } else if opt[cur + 1].price <= opt[cur].price {
        ScanSkip(g, level, ip, t, last, cur);
        cur := cur + 1;
        continue;
      }
      var len, distance, full := FindWithin(ctx, j, ip, cur, last, level);
      ScanFound(g, level, ip, t, last, cur, len, distance, full);
      if len == 0 {
        cur := cur + 1;
        continue;
      }
      if len > level.sufficientLen || len + cur >= OPT_NUM {
        return cur, len, distance, cur + 1;
      }
      last := UpdatePrices(j, ip, opt, cur, len, distance, last, ctx.favorDecSpeed);
      cur := cur + 1;
    }
    LastEntry(j, ip, opt[..], last);
    ScanEnd(g, level, ip, opt[..], last, cur);
    mlen, off := opt[last].mlen, opt[last].off;
    cur := last - mlen;
  }

  lemma MatchFound(j: Job, p: nat, off: nat, n: int)
    requires IsMatch(j, p, p - off, n) && p <= j.Iend() - MFLIMIT && p + n <= j.MatchLimit()
    ensures MatchAt(j, p, off, n) && MINMATCH <= n
  {
  }

  lemma LastEntry(j: Job, ip: nat, t: seq<Optimal>, last: nat)
    requires 1 <= last < |t| && EntryOk(j, ip, last, t[last])
    ensures var e := t[last]; 1 <= e.mlen <= last && (e.mlen == 1 || MatchAt(j, ip + last - e.mlen, e.off, e.mlen))
  {
  }

  /** One stretch: a first match is known, and the table decides. */
  method EmitStretch(ctx: HcContext, j: Job, dst: array<uint8>, d0: nat, op0: nat, anchor0: nat, ip0: nat,
                     opt: array<Optimal>, len: nat, distance: nat, level: Level, ghost lo: nat,
                     ghost seqs0: seq<Sequence>)
      returns (op: nat, anchor: nat, ip: nat, ghost seqs: seq<Sequence>, ghost t: seq<Optimal>, ghost r: Stretch,
               ghost u: seq<Optimal>)
    requires ctx.Valid() && ctx.Serves(j) && ctx.Indexed(j.src)
    requires d0 <= op0 <= dst.Length && d0 + CompressBound(j.inputSize) <= dst.Length
    requires Emitted(j, dst[d0..op0], anchor0, lo, seqs0) && (seqs0 != [] ==> anchor0 <= j.MatchLimit())
    requires j.source <= anchor0 <= ip0 <= j.Iend() - MFLIMIT && ctx.nextToUpdate <= ip0 - ctx.base
    requires MatchAt(j, ip0, distance, len) && len <= level.sufficientLen < OPT_NUM
    requires opt.Length == OPT_NUM + TRAILING_LITERALS
    modifies ctx`nextToUpdate, ctx.hashTable, ctx.chainTable, opt, dst
    ensures ctx.Valid() && ctx.Serves(j) && ctx.Indexed(j.src) && ctx.nextToUpdate <= ip - ctx.base
    ensures d0 <= op <= dst.Length && Emitted(j, dst[d0..op], anchor, lo, seqs) && j.source <= anchor <= ip
    ensures (seqs != [] ==> anchor <= j.MatchLimit()) && ip0 < ip <= j.MatchLimit()
    ensures Chosen(SegmentOf(ctx, j), level, ip0, anchor0, len, distance, t, r, u) && ip == ip0 + (r.cur + r.mlen)
    ensures seqs == seqs0 + PathSequences(j.src, u, ip0, anchor0, 0, r.last)
    ensures anchor == PathAnchor(u, ip0, anchor0, 0, r.last)
    ensures Untouched(dst, d0, d0 + CompressBound(j.inputSize))
  {
    hide Emitted, MatchAt, Path, EntriesOk, Scanned, Retraced, PathSequences, PathAnchor, Trailing, FirstPrices;
    MatchLong(j, ip0, distance, len);
    t := opt[..];
    InitialPrices(j, ip0, opt, ip0 - anchor0, len, distance);
    var cur, mlen, off, last := ChoosePath(ctx, j, ip0, opt, len, level);
    r := Stretch(opt[..], cur, mlen, off, last);
    ReverseTraversal(j, ip0, opt, cur, mlen, off);
    u := opt[..];
    op, anchor, ip, seqs := EmitPath(j, dst, d0, op0, anchor0, ip0, opt, cur, last, lo, seqs0);
    EmittedBounds(j, dst[d0..op], anchor, lo, seqs);
  }

  /** LZ4HC_compress_optimal takes no more than this length for sufficient. */
  ghost function Capped(level: Level): Level {
    level.(sufficientLen := if level.sufficientLen >= 4096 then 4095 else level.sufficientLen)
  }

  /** All sequences of LZ4HC_compress_optimal; returns where the last literals start. */
  method OptimalSequences(ctx: HcContext, j: Job, dst: array<uint8>, d0: nat, level: Level, ghost lo: nat)
      returns (op: nat, anchor: nat, ghost seqs: seq<Sequence>)
    requires ctx.Valid() && ctx.Serves(j) && ctx.Indexed(j.src) && d0 + CompressBound(j.inputSize) <= dst.Length
    requires lo <= j.LowLimit() && ctx.nextToUpdate <= j.source - ctx.base
    modifies ctx`nextToUpdate, ctx.hashTable, ctx.chainTable, dst
    ensures ctx.Valid() && ctx.Serves(j) && ctx.Indexed(j.src) && ctx.nextToUpdate <= j.Iend() - ctx.base
    ensures d0 <= op <= dst.Length && Emitted(j, dst[d0..op], anchor, lo, seqs)
    ensures seqs != [] ==> anchor <= j.MatchLimit()
    ensures Parses(SegmentOf(ctx, j), Capped(level), j.source, j.source, seqs, anchor)
    ensures Untouched(dst, d0, d0 + CompressBound(j.inputSize))
  {
    hide Emitted, MatchAt, Parses, Chosen, PathSequences, PathAnchor, MayFind, Chained, CompressBound, Continues;
    var opt := new Optimal[OPT_NUM + TRAILING_LITERALS];
    var sufficient := if level.sufficientLen >= OPT_NUM then OPT_NUM - 1 else level.sufficientLen;
    ghost var g, capped := SegmentOf(ctx, j), Capped(level);
    var ip := j.source;
    op, anchor, seqs := d0, ip, [];
    NothingEmitted(j, dst[d0..op], lo);
    ParseStarts(g, capped);
    while ip <= j.Iend() - MFLIMIT
      invariant ctx.Valid() && ctx.Serves(j) && ctx.Indexed(j.src) && ctx.nextToUpdate <= ip - ctx.base
      invariant j.source <= anchor <= ip && (ip <= j.MatchLimit() || ip == j.source)
      invariant d0 <= op <= dst.Length && Emitted(j, dst[d0..op], anchor, lo, seqs)
      invariant seqs != [] ==> anchor <= j.MatchLimit()
      invariant Continues(g, capped, ip, anchor, seqs)
      invariant Untouched(dst, d0, d0 + CompressBound(j.inputSize))
      decreases j.Iend() - ip
      modifies ctx`nextToUpdate, ctx.hashTable, ctx.chainTable, dst, opt
    {
      var len, distance, full := ctx.FindLongerMatch(j, ip, MINMATCH - 1, level.nbSearches);
      SearchFinds(ctx, j, ip, 3, level.nbSearches, len, distance, full);
      if len == 0 {
        OneLiteral(g, capped, ip, anchor, seqs, distance, full);
        ip := ip + 1;
        continue;
      }
      MatchFound(j, ip, distance, len);
      ghost var before, from := seqs, anchor;
      if len > sufficient {
        op, seqs := EncodeHc(j, dst, d0, op, anchor, ip, ip - distance, len, lo, seqs);
        OneMatch(g, capped, ip, anchor, before, len, distance, full, seqs);
        ip := ip + len;
        anchor := ip;
        continue;
      }
      ghost var p := ip;
      ghost var t, r, u;
      op, anchor, ip, seqs, t, r, u := EmitStretch(ctx, j, dst, d0, op, anchor, ip, opt, len, distance,
                                                   level.(sufficientLen := sufficient), lo, seqs);
      OneStretch(g, capped, p, from, before, len, distance, full, t, r, u, seqs);
    }
    ParseEnds(g, capped, ip, anchor, seqs);
  }

  /** Whatever completes a parse from here completes that of the block behind the sequences so far. */
  ghost predicate Continues(g: Segment, level: Level, ip: nat, anchor: int, seqs: seq<Sequence>) {
    forall rest: seq<Sequence>, end: int :: Parses(g, level, ip, anchor, rest, end) ==>
      Parses(g, level, g.j.source, g.j.source, seqs + rest, end)
  }

  lemma ParseStarts(g: Segment, level: Level)
    ensures Continues(g, level, g.j.source, g.j.source, [])
  {
    hide Parses;
    assert forall rest: seq<Sequence> :: [] + rest == rest;
  }

  lemma ParseEnds(g: Segment, level: Level, ip: nat, anchor: int, seqs: seq<Sequence>)
    requires Continues(g, level, ip, anchor, seqs) && ip > g.j.Iend() - 12
    ensures Parses(g, level, g.j.source, g.j.source, seqs, anchor)
  {
    assert Parses(g, level, ip, anchor, [], anchor);
    assert seqs + [] == seqs;
  }

  lemma OneLiteral(g: Segment, level: Level, ip: nat, anchor: int, seqs: seq<Sequence>, off: nat, full: nat)
    requires Continues(g, level, ip, anchor, seqs) && ip <= g.j.Iend() - 12
    requires MayFind(g, ip, 3, level.nbSearches, 0, off, full)
    ensures Continues(g, level, ip + 1, anchor, seqs)
  {
    hide MayFind;
    forall rest: seq<Sequence>, end: int | Parses(g, level, ip + 1, anchor, rest, end)
      ensures Parses(g, level, g.j.source, g.j.source, seqs + rest, end)
    {
      assert Parses(g, level, ip, anchor, rest, end);
    }
  }

  lemma MatchFirst(g: Segment, level: Level, ip: nat, anchor: int, len: nat, off: nat, full: nat, seqs: seq<Sequence>,
      end: int)
    requires ip <= g.j.Iend() - 12 && 0 <= anchor <= ip <= |g.j.src| && len > level.sufficientLen && len > 0
    requires MayFind(g, ip, 3, level.nbSearches, len, off, full) && seqs != []
    requires seqs[0].lits == g.j.src[anchor..ip] && seqs[0].offset == off && seqs[0].mlen == len
    requires Parses(g, level, ip + len, ip + len, seqs[1..], end)
    ensures Parses(g, level, ip, anchor, seqs, end)
  {
    hide MayFind, Chosen, PathSequences, PathAnchor;
  }

  lemma OneMatch(g: Segment, level: Level, ip: nat, anchor: int, seqs: seq<Sequence>, len: nat, off: nat, full: nat,
      more: seq<Sequence>)
    requires Continues(g, level, ip, anchor, seqs) && ip <= g.j.Iend() - 12 && 0 <= anchor <= ip <= |g.j.src|
    requires MayFind(g, ip, 3, level.nbSearches, len, off, full) && len > level.sufficientLen && len > 0
    requires |more| == |seqs| + 1 && more[..|seqs|] == seqs
    requires var s := more[|seqs|]; s.lits == g.j.src[anchor..ip] && s.offset == off && s.mlen == len
    ensures Continues(g, level, ip + len, ip + len, more)
  {
    hide MayFind, Parses;
    forall rest: seq<Sequence>, end: int | Parses(g, level, ip + len, ip + len, rest, end)
      ensures Parses(g, level, g.j.source, g.j.source, more + rest, end)
    {
      var next := [more[|seqs|]] + rest;
      assert next[1..] == rest;
      MatchFirst(g, level, ip, anchor, len, off, full, next, end);
      assert seqs + next == more + rest;
    }
  }

  lemma StretchFirst(g: Segment, level: Level, ip: nat, anchor: int, len: nat, off: nat, full: nat, t: seq<Optimal>,
      r: Stretch, u: seq<Optimal>, seqs: seq<Sequence>, end: int)
    requires ip <= g.j.Iend() - 12 && 0 < len <= level.sufficientLen && 0 < r.cur + r.mlen
    requires MayFind(g, ip, 3, level.nbSearches, len, off, full) && Chosen(g, level, ip, anchor, len, off, t, r, u)
    requires var first := PathSequences(g.j.src, u, ip, anchor, 0, r.last);
      first <= seqs
      && Parses(g, level, ip + (r.cur + r.mlen), PathAnchor(u, ip, anchor, 0, r.last), seqs[|first|..], end)
    ensures Parses(g, level, ip, anchor, seqs, end)
  {
    hide MayFind, Chosen, PathSequences, PathAnchor;
  }

  lemma OneStretch(g: Segment, level: Level, ip: nat, anchor: int, seqs: seq<Sequence>, len: nat, off: nat, full: nat,
      t: seq<Optimal>, r: Stretch, u: seq<Optimal>, more: seq<Sequence>)
    requires Continues(g, level, ip, anchor, seqs) && ip <= g.j.Iend() - 12 && 0 < len <= level.sufficientLen
    requires MayFind(g, ip, 3, level.nbSearches, len, off, full) && 0 < r.cur + r.mlen
    requires Chosen(g, level, ip, anchor, len, off, t, r, u)
    requires more == seqs + PathSequences(g.j.src, u, ip, anchor, 0, r.last)
    ensures Continues(g, level, ip + (r.cur + r.mlen), PathAnchor(u, ip, anchor, 0, r.last), more)
  {
    hide MayFind, Chosen, PathSequences, PathAnchor, Parses;
    var first := PathSequences(g.j.src, u, ip, anchor, 0, r.last);
    forall rest: seq<Sequence>, end: int |
      Parses(g, level, ip + (r.cur + r.mlen), PathAnchor(u, ip, anchor, 0, r.last), rest, end)
      ensures Parses(g, level, g.j.source, g.j.source, more + rest, end)
    {
      assert (first + rest)[|first|..] == rest;
      StretchFirst(g, level, ip, anchor, len, off, full, t, r, u, first + rest, end);
      assert seqs + (first + rest) == more + rest;
    }
  }
}
