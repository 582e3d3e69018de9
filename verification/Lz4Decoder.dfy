/** LZ4_decompress_generic of lz4.c for whole blocks of known input size, with its wide copies,
    proved to produce what byte-at-a-time decoding produces.  The output buffer, its prefix and
    the bytes beyond the output are one array; positions are indexes into it. */
module Lz4Decoder {
  import opened MachineInts
  import opened Arithmetic
  import opened Lz4Memory
  import opened Lz4Format
  import opened Lz4Reference

  datatype DictMode = NoDict | WithPrefix64k | UsingExtDict

  const MATCH_SAFEGUARD_DISTANCE: int := 12

  // ---------------------------------------------------------------- periodic continuation

  /** The n bytes of b from op on are the first n bytes of the match. */
  ghost predicate Filled(b: seq<uint8>, low: nat, op: nat, offset: nat, n: int) {
    low + offset <= op && op + n <= |b|
    && forall k :: 0 <= k < n ==> b[op + k] == MatchByte(b[low..op], offset, k)
  }

  /** A copy distance that continues the match from byte n on: a multiple of the offset that
      does not reach before the first byte the match repeats. */
  ghost predicate Continues(offset: nat, n: int, dist: int) {
    0 < dist <= n + offset && if offset == 0 then dist <= n else dist % offset == 0
  }

  lemma PeriodByte(h: seq<uint8>, offset: nat, dist: nat, k: nat)
    requires 0 < offset <= |h| && dist % offset == 0 && dist <= k + offset
    ensures MatchByte(h, offset, k)
         == if k < dist then h[|h| + k - dist] else MatchByte(h, offset, k - dist)
  {
    var m := dist / offset;
    assert dist == m * offset;
    if k < dist {
      assert (m - 1) * offset == dist - offset;
      ModUnique(k, m - 1, k - (dist - offset), offset);
    } else {
      var r := (k - dist) % offset;
      var q := (k - dist) / offset;
      assert (q + m) * offset == q * offset + m * offset;
      ModUnique(k, q + m, r, offset);
    }
  }

  lemma {:induction false} Continued(b: seq<uint8>, low: nat, op: nat, offset: nat, n: nat, dist: nat, n2: nat)
    requires Filled(b, low, op, offset, n) && Continues(offset, n, dist) && n <= n2 && op + n2 <= |b|
    requires forall i :: op + n <= i < op + n2 ==> b[i] == b[i - dist]
    ensures Filled(b, low, op, offset, n2)
    decreases n2
  {
    hide MatchByte;
    if n < n2 {
      Continued(b, low, op, offset, n, dist, n2 - 1);
      var k := n2 - 1;
      assert b[op + k] == b[op + k - dist];
      var h := b[low..op];
      if offset > 0 { PeriodByte(h, offset, dist, k); }
      if k < dist {
        assert h[|h| + k - dist] == b[op + k - dist];
      } else {
        assert b[op + (k - dist)] == MatchByte(h, offset, k - dist);
        if offset == 0 { ZeroByte(h, k, k - dist); }
      }
    }
  }

  lemma ZeroByte(h: seq<uint8>, k: nat, j: nat)
    ensures MatchByte(h, 0, k) == MatchByte(h, 0, j)
  {
  }

  lemma FilledFrame(b: seq<uint8>, c: seq<uint8>, low: nat, op: nat, offset: nat, n: nat)
    requires Filled(b, low, op, offset, n) && |b| == |c|
    requires forall i :: 0 <= i < op + n ==> b[i] == c[i]
    ensures Filled(c, low, op, offset, n)
  {
    assert b[low..op] == c[low..op];
  }

  // ---------------------------------------------------------------- matches within the block

  function Inc32(offset: nat): int
    requires offset < 8
  {
    [0, 1, 2, 1, 0, 4, 4, 4][offset]
  }

  function Dec64(offset: nat): int
    requires offset < 8
  {
    [0, 0, 0, -1, -4, 1, 2, 3][offset]
  }

  /** Four single-byte copies; the source may overlap. */
  method FirstFour(dst: array<uint8>, op: int, offset: nat, ghost low: nat)
    requires low + offset <= op && op + 4 <= dst.Length
    requires offset == 0 ==> forall i :: op <= i < op + 4 ==> dst[i] == 0
    modifies dst
    ensures Filled(dst[..], low, op, offset, 4) && Untouched(dst, op, op + 4)
  {
    ghost var h := dst[low..op];
    for i := 0 to 4
      invariant Untouched(dst, op, op + i) && dst[low..op] == h
      invariant offset == 0 ==> forall j :: op <= j < op + 4 ==> dst[j] == 0
      invariant forall k :: 0 <= k < i ==> dst[op + k] == MatchByte(h, offset, k)
    {
      if offset > 0 { MatchByteBack(h, offset, i); }
      assert i < offset ==> dst[op - offset + i] == h[|h| + i - offset];
      assert i >= offset > 0 ==> dst[op + (i - offset)] == MatchByte(h, offset, i - offset);
      dst[op + i] := dst[op - offset + i];
    }
  }

  /** The tables' distances, before and after the second half of the first eight bytes. */
  lemma SmallDistance(offset: nat)
    requires offset < 8
    ensures Continues(offset, 4, 4 + offset - Inc32(offset)) && 4 <= 4 + offset - Inc32(offset)
    ensures Continues(offset, 8, 8 + offset - Inc32(offset) + Dec64(offset))
    ensures 8 <= 8 + offset - Inc32(offset) + Dec64(offset)
  {
  }

  /** The first eight bytes of a match.  The tables move the match pointer so that what remains
      is a distance of at least 8 that is a multiple of the offset. */
  method FirstEight(dst: array<uint8>, op: int, offset: nat, ghost low: nat) returns (m: int)
    requires low + offset <= op && op + 8 <= dst.Length
    requires offset == 0 ==> forall i :: op <= i < op + 4 ==> dst[i] == 0
    modifies dst
    ensures Filled(dst[..], low, op, offset, 8) && Untouched(dst, op, op + 8)
    ensures low <= m <= op && Continues(offset, 8, op + 8 - m)
  {
    if offset < 8 {
      FirstFour(dst, op, offset, low);
      m := op - offset;
      m := m + Inc32(offset);
      SmallDistance(offset);
      ghost var b := dst[..];
      CopyOut(dst, op + 4, m, 4);
      FilledFrame(b, dst[..], low, op, offset, 4);
      Continued(dst[..], low, op, offset, 4, op + 4 - m, 8);
      m := m - Dec64(offset);
    } else {
      m := op - offset;
      ghost var h := dst[low..op];
      CopyOut(dst, op, m, 8);
      forall k | 0 <= k < 8 ensures dst[op + k] == MatchByte(h, offset, k) {
        MatchByteBack(h, offset, k);
        assert dst[op + k] == dst[op + k - offset] == h[|h| + k - offset];
      }
      assert dst[..][low..op] == h;
      m := m + 8;
      ModSmall(0, offset);
      ModShift(0, offset);
    }
  }

  /** After the first eight bytes: the rest of a match that ends near the end of the buffer. */
  method CopyNearEnd(dst: array<uint8>, op: int, m: int, offset: nat, length: nat, oend: int, ghost low: nat)
    requires low <= m <= op && op + length <= oend - LASTLITERALS && op + 12 <= oend <= dst.Length
    requires Filled(dst[..], low, op, offset, 8) && Continues(offset, 8, op + 8 - m)
    modifies dst
    ensures Filled(dst[..], low, op, offset, length) && Untouched(dst, op + 8, oend)
  {
    ghost var b := dst[..];
    var limit := oend - (WILDCOPYLENGTH - 1);
    var o, s := op + 8, m;
    if o < limit {
      WildCopyOut(dst, o, s, limit);
      s := s + (limit - o);
      o := limit;
    }
    while o < op + length
      invariant op + 8 <= o && o - s == op + 8 - m && (o <= op + length || o == limit || o == op + 8)
      invariant forall i :: op + 8 <= i < o ==> dst[i] == dst[i - (op + 8 - m)]
      invariant Untouched(dst, op + 8, oend)
    {
      dst[o] := dst[s];
      o, s := o + 1, s + 1;
    }
    FilledFrame(b, dst[..], low, op, offset, 8);
    if length > 8 { Continued(dst[..], low, op, offset, 8, op + 8 - m, length); }
  }

  /** The rest of a match that ends at least twelve bytes before the end of the buffer. */
  method CopyFar(dst: array<uint8>, op: int, m: int, offset: nat, length: nat, oend: int, ghost low: nat)
    requires low <= m <= op && 4 <= length && op + length <= oend - MATCH_SAFEGUARD_DISTANCE && oend <= dst.Length
    requires Filled(dst[..], low, op, offset, 8) && Continues(offset, 8, op + 8 - m)
    modifies dst
    ensures Filled(dst[..], low, op, offset, length) && Untouched(dst, op + 8, oend)
  {
    ghost var b := dst[..];
    CopyOut(dst, op + 8, m, 8);
    FilledFrame(b, dst[..], low, op, offset, 8);
    Continued(dst[..], low, op, offset, 8, op + 8 - m, 16);
    if length > 16 {
      b := dst[..];
      WildCopyOut(dst, op + 16, m + 8, op + length);
      FilledFrame(b, dst[..], low, op, offset, 16);
      Continued(dst[..], low, op, offset, 16, op + 8 - m, length);
    }
  }

  /** A match that starts within the block or its prefix: refused when it would end among the
      last five bytes of the buffer, otherwise copied in wide steps. */
  method CopyWithinBlock(dst: array<uint8>, op: int, offset: nat, length: nat, oend: int, ghost low: nat)
      returns (ok: bool)
    requires low + offset <= op && op + 12 <= oend <= dst.Length && 4 <= length
    requires offset == 0 ==> forall i :: op <= i < op + 4 ==> dst[i] == 0
    modifies dst
    ensures ok <==> op + length <= oend - LASTLITERALS
    ensures ok ==> Filled(dst[..], low, op, offset, length)
    ensures Untouched(dst, op, oend)
  {
    var m := FirstEight(dst, op, offset, low);
    var cpy := op + length;
    if cpy > oend - MATCH_SAFEGUARD_DISTANCE {
      if cpy > oend - LASTLITERALS { return false; }
      CopyNearEnd(dst, op, m, offset, length, oend, low);
    } else {
      CopyFar(dst, op, m, offset, length, oend, low);
    }
    return true;
  }

  // ---------------------------------------------------------------- decoding

  /** Everything before the output position: the external dictionary, then dst from low on. */
  ghost function View(dst: array<uint8>, dict: seq<uint8>, low: nat, op: nat): seq<uint8>
    requires low <= op <= dst.Length
    reads dst
  {
    dict + dst[low..op]
  }

  datatype Status = Continue | Done | Error

  method ReadLiteralLength(src: seq<uint8>, ip0: int, nibble: nat) returns (ok: bool, ip: nat, length: nat)
    requires 0 <= ip0 <= |src|
    ensures LiteralLength(src, ip0, nibble) == if ok then Length(ip, length) else Overrun(ip)
  {
    ip, length := ip0, nibble;
    if length == 15 {
      if ip >= |src| - RUN_MASK { return false, ip, length; }
      ghost var r := LiteralRun(src, ip, 15);
      var s := 255;
      while ip < |src| - RUN_MASK && s == 255
        invariant ip0 <= ip <= |src| - RUN_MASK
        invariant ip == ip0 ==> s == 255
        invariant if ip < |src| - RUN_MASK && s == 255 then LiteralRun(src, ip, length) == r
                  else r == Length(ip, length)
        decreases |src| - ip
      {
        s := src[ip];
        ip := ip + 1;
        length := length + s;
      }
    }
    ok := true;
  }

  method ReadMatchLength(src: seq<uint8>, ip0: int, nibble: nat) returns (ok: bool, ip: nat, length: nat)
    requires 0 <= ip0 < |src|
    ensures MatchLength(src, ip0, nibble) == if ok then Length(ip, length) else Overrun(ip)
  {
    ip, length := ip0, nibble;
    if length == 15 {
      ghost var r := MatchRun(src, ip, 15);
      var s := 255;
      while s == 255
        invariant ip0 <= ip <= |src|
        invariant s == 255 ==> ip < |src| && MatchRun(src, ip, length) == r
        invariant s != 255 ==> r == Length(ip, length)
        decreases |src| - ip
      {
        s := src[ip];
        ip := ip + 1;
        if ip > |src| - LASTLITERALS { return false, ip, length; }
        length := length + s;
      }
    }
    ok := true;
  }

  /** The match was written as the copy of the bytes in view. */
  lemma ViewExtended(dst: array<uint8>, dict: seq<uint8>, low: nat, op: nat, offset: nat, length: nat, h: seq<uint8>)
    requires Filled(dst[..], low, op, offset, length) && h == dict + dst[low..op]
    ensures View(dst, dict, low, op + length) == CopyMatch(h, offset, length)
  {
    var r := View(dst, dict, low, op + length);
    assert dst[..][low..op] == dst[low..op];
    forall k | 0 <= k < length ensures r[|h| + k] == MatchByte(h, offset, k) {
      assert dst[..][op + k] == MatchByte(dst[low..op], offset, k);
    }
    CopyMatchUnique(h, offset, length, r);
  }

  /** A match that starts in the external dictionary and may run on into the block. */
  method CopyFromDict(dst: array<uint8>, op0: nat, offset: nat, length: nat, dict: seq<uint8>, low: nat)
      returns (op: nat)
    requires low <= op0 && op0 + length <= dst.Length && op0 - low < offset <= |dict| + (op0 - low)
    modifies dst
    ensures op == op0 + length && Untouched(dst, op0, op)
    ensures View(dst, dict, low, op) == CopyMatch(old(View(dst, dict, low, op0)), offset, length)
  {
    op := op0;
    var copySize := offset - (op - low);
    if length <= copySize {
      CopyIn(dst, op, dict, |dict| - copySize, length);
      op := op + length;
    } else {
      var restSize := length - copySize;
      CopyIn(dst, op, dict, |dict| - copySize, copySize);
      op := op + copySize;
      op := CopyFromLow(dst, op, restSize, low, op0);
    }
    DictMatch(dst[..], old(dst[..]), dict, low, op0, offset, length);
  }

  /** restSize bytes from the start of the block or its prefix; the copy may overlap itself. */
  method CopyFromLow(dst: array<uint8>, op0: nat, restSize: nat, low: nat, ghost keep: nat) returns (op: nat)
    requires low <= keep <= op0 && low < op0 && op0 + restSize <= dst.Length
    modifies dst
    ensures op == op0 + restSize && Untouched(dst, op0, op)
    ensures forall i :: op0 <= i < op ==> dst[i] == dst[i - (op0 - low)]
  {
    op := op0;
    if restSize > op - low {
      var copyFrom := low;
      while op < op0 + restSize
        invariant op0 <= op <= op0 + restSize && op - copyFrom == op0 - low
        invariant Untouched(dst, op0, op)
        invariant forall i :: op0 <= i < op ==> dst[i] == dst[i - (op0 - low)]
      {
        dst[op] := dst[copyFrom];
        op, copyFrom := op + 1, copyFrom + 1;
      }
    } else {
      CopyOut(dst, op, low, restSize);
      op := op + restSize;
    }
  }

  lemma DictMatch(b: seq<uint8>, a: seq<uint8>, dict: seq<uint8>, low: nat, op: nat, offset: nat, length: nat)
    requires low <= op && op + length <= |b| == |a| && op - low < offset <= |dict| + (op - low)
    requires forall i :: low <= i < op ==> b[i] == a[i]
    requires var gap := offset - (op - low);
      (forall i :: op <= i < op + length && i < op + gap ==> b[i] == dict[|dict| - gap + (i - op)])
      && forall i :: op + gap <= i < op + length ==> b[i] == b[i - (op + gap - low)]
    ensures dict + b[low..op + length] == CopyMatch(dict + a[low..op], offset, length)
  {
    var h := dict + a[low..op];
    var r := dict + b[low..op + length];
    assert r[..|h|] == h;
    CopyMatchFromBack(h, offset, length, r);
  }

  // ---------------------------------------------------------------- one sequence

  /** How the directives of the decoder describe the bytes before the output: low is where they
      start in dst, lowPrefix what the decoder compares match positions with. */
  ghost predicate Directives(mode: DictMode, dict: seq<uint8>, low: int, lowPrefix: int, op: int) {
    match mode
    case NoDict => dict == [] && lowPrefix == low
    case UsingExtDict => lowPrefix == low
    case WithPrefix64k => dict == [] && low + 0xffff <= op && lowPrefix <= op - 0x10000
  }

  /** What a step leaves: the rest decodes to the target, or the target is reached. */
  ghost predicate Reached(src: seq<uint8>, dst: array<uint8>, dict: seq<uint8>, low: nat, oend: int,
                          st: Status, ip: nat, op: nat, target: Outcome)
    requires low <= op <= dst.Length
    reads dst
  {
    var h := View(dst, dict, low, op);
    match st
    case Continue => ip < |src| && Sequences(src, ip, h, oend - low + |dict|, |dict|) == target
    case Done => target == Accept(h)
    case Error => target == Reject(ip)
  }

  /** The match copy, from whichever memory the match starts in. */
  method WriteMatch(dst: array<uint8>, dict: seq<uint8>, mode: DictMode, low: nat, lowPrefix: int,
                    op: nat, offset: nat, length: nat, oend: nat) returns (ok: bool)
    requires low <= op && op + 12 <= oend <= dst.Length && 4 <= length && offset <= 0xffff
    requires Directives(mode, dict, low, lowPrefix, op) && offset <= |dict| + (op - low)
    modifies dst
    ensures Untouched(dst, op, oend)
    ensures ok <==> op + length <= oend - LASTLITERALS
    ensures ok ==> View(dst, dict, low, op + length) == CopyMatch(old(View(dst, dict, low, op)), offset, length)
  {
    ghost var h := View(dst, dict, low, op);
    ghost var before := dst[..];
    forall k | 0 <= k < 4 { dst[op + k] := 0; }
    assert dst[low..op] == before[low..op];
    if mode == UsingExtDict && op - offset < lowPrefix {
      if op + length > oend - LASTLITERALS { return false; }
      var end := CopyFromDict(dst, op, offset, length, dict, low);
      return true;
    }
    ok := CopyWithinBlock(dst, op, offset, length, oend, low);
    if ok { ViewExtended(dst, dict, low, op, offset, length, h); }
  }

  /** From the label _copy_match to the end of the loop body. */
  method CopyMatchStep(src: seq<uint8>, dst: array<uint8>, dict: seq<uint8>, mode: DictMode, low: nat, lowPrefix: int,
                       tp: nat, ip0: nat, op0: nat, oend: nat, offset: nat, ghost target: Outcome)
      returns (st: Status, ip: nat, op: nat)
    requires low <= op0 && op0 + 12 <= oend <= dst.Length && tp < ip0 < |src| && offset <= 0xffff
    requires Directives(mode, dict, low, lowPrefix, op0)
    requires target == MatchAt(src, tp, ip0, View(dst, dict, low, op0), offset, oend - low + |dict|, |dict|)
    modifies dst
    ensures low <= op <= oend && Untouched(dst, op0, oend) && op >= op0
    ensures Reached(src, dst, dict, low, oend, st, ip, op, target)
    ensures st == Continue ==> ip > tp
    ensures st != Done
  {
    hide Sequences, Matches, CopyMatch, MatchLength;
    ip, op := ip0, op0;
    var m := op - offset;
    if |dict| < 0x10000 && m + |dict| < lowPrefix { return Error, ip, op; }
    var ok, at, length := ReadMatchLength(src, ip, src[tp] % 16);
    ip := at;
    if !ok { return Error, ip, op; }
    length := length + MINMATCH;
    ok := WriteMatch(dst, dict, mode, low, lowPrefix, op, offset, length, oend);
    if !ok { return Error, ip, op; }
    op := op + length;
    return Continue, ip, op;
  }

  /** The shortcut's second stage, with its offset already read: 18 bytes in three copies. */
  method ShortcutMatch(src: seq<uint8>, dst: array<uint8>, dict: seq<uint8>, mode: DictMode, low: nat, lowPrefix: int,
                       tp: nat, ip0: nat, op0: nat, oend: nat, ghost target: Outcome)
      returns (st: Status, ip: nat, op: nat)
    requires low <= op0 && op0 + 18 <= oend <= dst.Length && tp < ip0 && ip0 + 2 < |src|
    requires Directives(mode, dict, low, lowPrefix, op0)
    requires target == Matches(src, tp, ip0, View(dst, dict, low, op0), oend - low + |dict|, |dict|, true)
    modifies dst
    ensures low <= op <= oend && Untouched(dst, op0, oend) && op >= op0
    ensures Reached(src, dst, dict, low, oend, st, ip, op, target)
    ensures st == Continue ==> ip > tp
    ensures st != Done
  {
    hide Sequences, MatchAt, CopyMatch, MatchLength;
    var offset := Offset16(src, ip0);
    ip, op := ip0 + 2, op0;
    var m := op - offset;
    var length := src[tp] % 16;
    if length != 15 && offset >= 8 && (mode == WithPrefix64k || m >= lowPrefix) {
      CopyEighteen(dst, op, offset, low, length + MINMATCH);
      ViewExtended(dst, dict, low, op, offset, length + MINMATCH, old(View(dst, dict, low, op0)));
      op := op + (length + MINMATCH);
      return Continue, ip, op;
    }
    st, ip, op := CopyMatchStep(src, dst, dict, mode, low, lowPrefix, tp, ip, op, oend, offset, target);
  }

  method CopyEighteen(dst: array<uint8>, op: nat, offset: nat, ghost low: nat, ghost length: nat)
    requires 8 <= offset && low + offset <= op && op + 18 <= dst.Length && length <= 18
    modifies dst
    ensures Filled(dst[..], low, op, offset, length) && Untouched(dst, op, op + 18)
    ensures dst[low..op] == old(dst[low..op])
  {
    ghost var h := dst[low..op];
    var m := op - offset;
    CopyOut(dst, op, m, 8);
    CopyOut(dst, op + 8, m + 8, 8);
    CopyOut(dst, op + 16, m + 16, 2);
    assert dst[low..op] == h;
    assert Filled(dst[..], low, op, offset, 0);
    ModUnique(offset, 1, 0, offset);
    Continued(dst[..], low, op, offset, 0, offset, length);
  }

  /** One iteration of the main loop. */
  method DecodeStep(src: seq<uint8>, dst: array<uint8>, dict: seq<uint8>, mode: DictMode, low: nat, lowPrefix: int,
                    ip0: nat, op0: nat, oend: nat, ghost target: Outcome)
      returns (st: Status, ip: nat, op: nat)
    requires low <= op0 <= oend <= dst.Length && ip0 < |src|
    requires Directives(mode, dict, low, lowPrefix, op0)
    requires target == Sequences(src, ip0, View(dst, dict, low, op0), oend - low + |dict|, |dict|)
    modifies dst
    ensures low <= op <= oend && Untouched(dst, op0, oend) && op >= op0
    ensures Reached(src, dst, dict, low, oend, st, ip, op, target)
    ensures st == Continue ==> ip > ip0
  {
    hide Matches, MatchAt, LiteralLength, CopyMatch;
    ghost var h := View(dst, dict, low, op0);
    ip, op := ip0 + 1, op0;
    var length := src[ip0] / 16;
    if length != 15 && ip < |src| - 16 && op <= oend - 32 {
      CopyIn(dst, op, src, ip, 16);
      assert View(dst, dict, low, op + length) == h + src[ip..ip + length];
      st, ip, op := ShortcutMatch(src, dst, dict, mode, low, lowPrefix, ip0, ip + length, op + length, oend, target);
      return;
    }
    var ok, at, ll := ReadLiteralLength(src, ip, length);
    ip := at;
    if !ok { return Error, ip, op; }
    st, ip, op := CopyLiteralsStep(src, dst, dict, mode, low, lowPrefix, ip0, ip, op, oend, ll, target);
  }

  /** The literals of a sequence outside the shortcut, and what follows them. */
  method CopyLiteralsStep(src: seq<uint8>, dst: array<uint8>, dict: seq<uint8>, mode: DictMode, low: nat,
      lowPrefix: int,
                          tp: nat, ip0: nat, op0: nat, oend: nat, length: nat, ghost target: Outcome)
      returns (st: Status, ip: nat, op: nat)
    requires low <= op0 <= oend <= dst.Length && tp < ip0 <= |src|
    requires Directives(mode, dict, low, lowPrefix, op0)
    requires target == LiteralsAt(src, tp, ip0, View(dst, dict, low, op0), length, oend - low + |dict|, |dict|)
    modifies dst
    ensures low <= op <= oend && Untouched(dst, op0, oend) && op >= op0
    ensures Reached(src, dst, dict, low, oend, st, ip, op, target)
    ensures st == Continue ==> ip > tp
  {
    hide Sequences, MatchAt, CopyMatch, MatchLength;
    ghost var h := View(dst, dict, low, op0);
    ip, op := ip0, op0;
    var cpy := op + length;
    if cpy > oend - MFLIMIT || ip + length > |src| - 8 {
      if ip + length != |src| || cpy > oend { return Error, ip, op; }
      CopyIn(dst, op, src, ip, length);
      assert View(dst, dict, low, op + length) == h + src[ip..];
      return Done, ip + length, op + length;
    }
    WildCopyIn(dst, op, src, ip, cpy);
    assert View(dst, dict, low, cpy) == h + src[ip..ip + length];
    ip, op := ip + length, cpy;
    var offset := Offset16(src, ip);
    st, ip, op := CopyMatchStep(src, dst, dict, mode, low, lowPrefix, tp, ip + 2, op, oend, offset, target);
  }

  // ---------------------------------------------------------------- the decoder

  /** The result as the C function reports it: a size, or minus the error position minus one. */
  ghost function Code(r: Outcome, start: nat): int {
    match r
    case Accept(out) => |out| - start
    case Reject(at) => -(at as int) - 1
  }

  method DecompressGeneric(src: seq<uint8>, dst: array<uint8>, d0: nat, outputSize: nat,
                           mode: DictMode, low: nat, lowPrefix: int, dict: seq<uint8>) returns (r: int)
    requires low <= d0 && d0 + outputSize <= dst.Length && Directives(mode, dict, low, lowPrefix, d0)
    modifies dst
    ensures var h := old(View(dst, dict, low, d0));
      var target := Decompress(src, h, outputSize, |dict|);
      r == Code(target, |h|)
      && (target.Accept? ==> 0 <= r <= outputSize && View(dst, dict, low, d0 + r) == target.out)
    ensures Untouched(dst, d0, d0 + outputSize)
  {
    hide Sequences;
    if outputSize == 0 {
      if |src| == 1 && src[0] == 0 { return 0; } else { return -1; }
    }
    if |src| == 0 { return -1; }
    var ip: nat, op: nat := 0, d0;
    var oend := d0 + outputSize;
    ghost var h := View(dst, dict, low, d0);
    ghost var target := Sequences(src, 0, h, |h| + outputSize, |dict|);
    var st := Continue;
    while st == Continue
      invariant low <= d0 <= op <= oend && Untouched(dst, d0, oend)
      invariant Reached(src, dst, dict, low, oend, st, ip, op, target)
      decreases st == Continue, |src| - ip
    {
      st, ip, op := DecodeStep(src, dst, dict, mode, low, lowPrefix, ip, op, oend, target);
    }
    if st == Done { return op - d0; }
    return -(ip as int) - 1;
  }
}
