/** What the optimal parser does, step by step: which matches it may find, the table of prices it
    keeps, the path it chooses and the sequences that come of it.  MayFind leaves open which of several
    equally long matches is taken. */
module Lz4HcParse {
  import opened MachineInts
  import opened Lz4Words
  import opened Lz4Encoding
  import opened Lz4Greedy
  import opened Lz4HcChains

  datatype Optimal = Optimal(price: int, off: int, mlen: int, litlen: int)

  /** The parameters of a compression level. */
  datatype Level = Level(nbSearches: nat, sufficientLen: nat, fullUpdate: bool)

  /** A block, the position of index 0, the first index of its segment, and whether decompression
      speed is favoured. */
  datatype Segment = Segment(j: Job, base: int, low: int, favor: bool)

  /** What a search at p for more than minLen bytes with n attempts may find: a match of full bytes,
      the longest unless the attempts were used up, cut to 18 if it has up to 36 and speed is
      favoured; or nothing. */
  ghost predicate MayFind(g: Segment, p: nat, minLen: int, n: nat, len: nat, off: nat, full: nat) {
    minLen <= full && 5 <= g.j.Iend() && NoneLonger(g.j.src, g.base, g.low, p, g.j.Iend() - 5, g.favor, n, full)
    && len == (if full <= minLen then 0 else if g.favor && 18 < full <= 36 then 18 else full)
    && (len > 0 ==> 1 <= off <= 65535 && Same(g.j.src, p, p - off, full) && p + full <= g.j.Iend() - 5)
  }

  // ---------------------------------------------------------------- prices

  ghost function LitPrice(n: int): int {
    n + (if n >= 15 then 1 + (n - 15) / 255 else 0)
  }

  ghost function SeqPrice(ll: int, ml: int): int {
    3 + LitPrice(ll) + (if ml >= 19 then 1 + (ml - 19) / 255 else 0)
  }

  /** Three literals behind the last match. */
  ghost function Trailing(t: seq<Optimal>, last: int): (u: seq<Optimal>)
    requires 0 <= last < |t|
    ensures |u| == |t|
  {
    seq(|t|, k requires 0 <= k < |t| =>
      if last < k <= last + 3 then Optimal(t[last].price + LitPrice(k - last), 0, 1, k - last) else t[k])
  }

  /** After llen literals: up to three more, or a first match of 4 to n bytes. */
  ghost function FirstPrices(t: seq<Optimal>, llen: nat, n: nat, off: int): (u: seq<Optimal>)
    ensures |u| == |t|
  {
    seq(|t|, k requires 0 <= k < |t| =>
      if k < 4 then Optimal(LitPrice(llen + k), 0, 1, llen + k)
      else if k <= n then Optimal(SeqPrice(llen, k), off, k, llen)
      else t[k])
  }

  /** Up to three literals behind cur, where that is cheaper. */
  ghost function WithLiterals(t: seq<Optimal>, cur: nat): (u: seq<Optimal>)
    requires cur < |t|
    ensures |u| == |t|
  {
    seq(|t|, k requires 0 <= k < |t| =>
      var litlen := t[cur].litlen + (k - cur);
      var price := t[cur].price - LitPrice(t[cur].litlen) + LitPrice(litlen);
      if cur < k < cur + 4 && price < t[k].price then Optimal(price, 0, 1, litlen) else t[k])
  }

  /** The literals before a match at cur. */
  ghost function LiteralsAt(t: seq<Optimal>, cur: nat): int
    requires cur < |t|
  {
    if t[cur].mlen == 1 then t[cur].litlen else 0
  }

  /** The price of a match of ml bytes at cur, from the start of its literals. */
  ghost function MatchPrice(t: seq<Optimal>, cur: nat, ml: int): int
    requires cur < |t|
  {
    var ll := LiteralsAt(t, cur);
    if t[cur].mlen != 1 then t[cur].price + SeqPrice(0, ml)
    else if 0 <= ll < cur then t[cur - ll].price + SeqPrice(ll, ml)
    else SeqPrice(ll, ml)
  }

  /** A match at cur is taken at position k where nothing is known yet or where it costs no more, or
      less if decompression speed is favoured. */
  ghost predicate Takes(t: seq<Optimal>, cur: nat, k: nat, last: int, favor: bool)
    requires cur < |t| && k < |t|
  {
    k > last + 3 || MatchPrice(t, cur, k - cur) <= t[k].price - (if favor then 1 else 0)
  }

  ghost function WithMatch(t: seq<Optimal>, cur: nat, n: nat, off: int, last: int, favor: bool): (u: seq<Optimal>)
    requires cur < |t|
    ensures |u| == |t|
  {
    seq(|t|, k requires 0 <= k < |t| =>
      if cur + 4 <= k <= cur + n && Takes(t, cur, k, last, favor)
      then Optimal(MatchPrice(t, cur, k - cur), off, k - cur, LiteralsAt(t, cur)) else t[k])
  }

  /** The last position moves to the end of the match if that is taken. */
  ghost function LastAfter(t: seq<Optimal>, cur: nat, n: nat, last: int, favor: bool): int
    requires cur < |t| && cur + n < |t|
  {
    if last < cur + n && Takes(t, cur, cur + n, last, favor) then cur + n else last
  }

  // ---------------------------------------------------------------- entries

  lemma TrailingAt(t: seq<Optimal>, last: int, k: int)
    requires 0 <= last < |t| && 0 <= k < |t|
    ensures (Trailing(t, last)[k]
             == if last < k <= last + 3 then Optimal(t[last].price + LitPrice(k - last), 0, 1, k - last) else t[k])
  {
  }

  lemma TrailingElsewhere(t: seq<Optimal>, last: int)
    requires 0 <= last < |t|
    ensures forall k :: 0 <= k < |t| && !(last < k <= last + 3) ==> Trailing(t, last)[k] == t[k]
  {
  }

  lemma FirstPricesAt(t: seq<Optimal>, llen: nat, n: nat, off: int, k: int)
    requires 0 <= k < |t| && k <= n && 4 <= n
    ensures (FirstPrices(t, llen, n, off)[k]
             == if k < 4 then Optimal(LitPrice(llen + k), 0, 1, llen + k) else Optimal(SeqPrice(llen, k), off, k, llen))
  {
  }

  lemma FirstPricesElsewhere(t: seq<Optimal>, llen: nat, n: nat, off: int)
    requires 4 <= n
    ensures forall k :: 0 <= k < |t| && n < k ==> FirstPrices(t, llen, n, off)[k] == t[k]
  {
  }

  lemma WithLiteralsAt(t: seq<Optimal>, cur: nat, k: int)
    requires cur < k < cur + 4 && k < |t|
    ensures var litlen := t[cur].litlen + (k - cur);
      var price := t[cur].price - LitPrice(t[cur].litlen) + LitPrice(litlen);
      WithLiterals(t, cur)[k] == if price < t[k].price then Optimal(price, 0, 1, litlen) else t[k]
  {
    hide LitPrice;
  }

  lemma WithLiteralsElsewhere(t: seq<Optimal>, cur: nat)
    requires cur < |t|
    ensures forall k :: 0 <= k < |t| && !(cur < k < cur + 4) ==> WithLiterals(t, cur)[k] == t[k]
  {
    hide LitPrice;
  }

  lemma WithMatchAt(t: seq<Optimal>, cur: nat, n: nat, off: int, last: int, favor: bool, k: int)
    requires cur + 4 <= k <= cur + n && k < |t|
    ensures (WithMatch(t, cur, n, off, last, favor)[k] == if Takes(t, cur, k, last, favor)
             then Optimal(MatchPrice(t, cur, k - cur), off, k - cur, LiteralsAt(t, cur)) else t[k])
  {
    hide MatchPrice, Takes;
  }

  lemma WithMatchElsewhere(t: seq<Optimal>, cur: nat, n: nat, off: int, last: int, favor: bool)
    requires cur < |t|
    ensures (forall k :: 0 <= k < |t| && !(cur + 4 <= k <= cur + n) ==>
               WithMatch(t, cur, n, off, last, favor)[k] == t[k])
  {
    hide MatchPrice, Takes;
  }

  // ---------------------------------------------------------------- one stretch

  /** The table, the position of the last step, its length and offset, and where the walk ends. */
  datatype Stretch = Stretch(table: seq<Optimal>, cur: int, mlen: int, off: int, last: int)

  /** No search where the next position costs no more. */
  ghost predicate Skips(t: seq<Optimal>, cur: nat, fullUpdate: bool)
    requires cur + 4 < |t|
  {
    t[cur + 1].price <= t[cur].price && (fullUpdate ==> t[cur + 4].price < t[cur].price + 3)
  }

  /** A search within a stretch; below the highest level it must reach beyond the last match. */
  ghost predicate MayFindWithin(g: Segment, level: Level, ip: nat, last: int, cur: int, len: nat, off: nat, full: nat) {
    0 <= cur && MayFind(g, ip + cur, if level.fullUpdate then 3 else last - cur, level.nbSearches, len, off, full)
  }

  /** The positions from cur on are looked at until the last match is reached, and r comes of it. */
  ghost predicate Scanned(g: Segment, level: Level, ip: nat, t: seq<Optimal>, last: int, cur: int, r: Stretch)
    decreases 4096 - cur
  {
    |t| == 4099 && 1 <= cur <= last < 4096
    && if cur == last || ip + cur > g.j.Iend() - 12 then
         r == Stretch(t, last - t[last].mlen, t[last].mlen, t[last].off, last)
       else if Skips(t, cur, level.fullUpdate) then Scanned(g, level, ip, t, last, cur + 1, r)
       else
         exists len: nat, off: nat, full: nat ::
           MayFindWithin(g, level, ip, last, cur, len, off, full)
           && if len == 0 then Scanned(g, level, ip, t, last, cur + 1, r)
              else if len > level.sufficientLen || len + cur >= 4096 then r == Stretch(t, cur, len, off, cur + 1)
              else
                var u := WithLiterals(t, cur);
                var next := LastAfter(u, cur, len, last, g.favor);
                next < 4096
                && Scanned(g, level, ip, Trailing(WithMatch(u, cur, len, off, last, g.favor), next), next, cur + 1, r)
  }

  lemma ScanEnd(g: Segment, level: Level, ip: nat, t: seq<Optimal>, last: int, cur: int)
    requires |t| == 4099 && 1 <= cur <= last < 4096 && (cur == last || ip + cur > g.j.Iend() - 12)
    ensures Scanned(g, level, ip, t, last, cur, Stretch(t, last - t[last].mlen, t[last].mlen, t[last].off, last))
  {
  }

  lemma ScanSkip(g: Segment, level: Level, ip: nat, t: seq<Optimal>, last: int, cur: int)
    requires |t| == 4099 && 1 <= cur < last < 4096 && ip + cur <= g.j.Iend() - 12 && Skips(t, cur, level.fullUpdate)
    ensures forall r :: Scanned(g, level, ip, t, last, cur + 1, r) ==> Scanned(g, level, ip, t, last, cur, r)
  {
  }

  /** A search within a stretch, and what follows from it. */
  lemma ScanFound(g: Segment, level: Level, ip: nat, t: seq<Optimal>, last: int, cur: int, len: nat, off: nat,
      full: nat)
    requires |t| == 4099 && 1 <= cur < last < 4096 && ip + cur <= g.j.Iend() - 12 && !Skips(t, cur, level.fullUpdate)
    requires MayFindWithin(g, level, ip, last, cur, len, off, full)
    ensures len == 0 ==> forall r :: Scanned(g, level, ip, t, last, cur + 1, r) ==>
      Scanned(g, level, ip, t, last, cur, r)
    ensures (len > 0 && (len > level.sufficientLen || len + cur >= 4096) ==>
               Scanned(g, level, ip, t, last, cur, Stretch(t, cur, len, off, cur + 1)))
    ensures (len > 0 && len <= level.sufficientLen && len + cur < 4096 ==>
               var u := WithLiterals(t, cur);
               var next := LastAfter(u, cur, len, last, g.favor);
               forall r :: next < 4096
                 && Scanned(g, level, ip, Trailing(WithMatch(u, cur, len, off, last, g.favor), next), next, cur + 1, r)
                 ==> Scanned(g, level, ip, t, last, cur, r))
  {
    hide MayFindWithin, Skips, WithLiterals, WithMatch, Trailing, LastAfter;
  }

  /** The steps back from cur, in forward order: the step from r is the one that t records where it ends. */
  ghost predicate Retraced(t: seq<Optimal>, u: seq<Optimal>, r: int, cur: int, mlen: int, off: int)
    decreases cur - r
  {
    0 <= r <= cur < |t| == |u|
    && if r == cur then u[r].mlen == mlen && u[r].off == off
       else
         var n := r + u[r].mlen;
         r < n <= cur && t[n].mlen == u[r].mlen && t[n].off == u[r].off && Retraced(t, u, n, cur, mlen, off)
  }

  /** The sequences of the steps from r on. */
  ghost function PathSequences(src: seq<uint8>, u: seq<Optimal>, ip: nat, anchor: int, r: nat, last: int): seq<Sequence>
    decreases last - r
  {
    if r >= last || r >= |u| || u[r].mlen < 1 then []
    else
      var e := u[r];
      if e.mlen == 1 then PathSequences(src, u, ip, anchor, r + 1, last)
      else if e.mlen < 4 || !(1 <= e.off <= 65535) || !(0 <= anchor <= ip + r <= |src|) then []
      else
        [Sequence(src[anchor..ip + r], e.off, e.mlen)]
        + PathSequences(src, u, ip, ip + r + e.mlen, r + e.mlen, last)
  }

  /** Where the literals behind the last of them start. */
  ghost function PathAnchor(u: seq<Optimal>, ip: nat, anchor: int, r: nat, last: int): int
    decreases last - r
  {
    if r >= last || r >= |u| || u[r].mlen < 1 then anchor
    else if u[r].mlen == 1 then PathAnchor(u, ip, anchor, r + 1, last)
    else PathAnchor(u, ip, ip + r + u[r].mlen, r + u[r].mlen, last)
  }

  /** A first match of len bytes at ip, at most the sufficient length; the table decides. */
  ghost predicate Chosen(g: Segment, level: Level, ip: nat, anchor: int, len: nat, off: nat, t: seq<Optimal>,
      r: Stretch, u: seq<Optimal>)
  {
    |t| == 4099 && anchor <= ip && len < |t|
    && Scanned(g, level, ip, Trailing(FirstPrices(t, ip - anchor, len, off), len), len, 1, r)
    && Retraced(r.table, u, 0, r.cur, r.mlen, r.off)
  }

  // ---------------------------------------------------------------- the block

  /** Everything is parsed up to anchor, the search goes on at ip, and seqs are the sequences that
      follow; the last literals start at end. */
  ghost predicate Parses(g: Segment, level: Level, ip: nat, anchor: int, seqs: seq<Sequence>, end: int)
    decreases g.j.Iend() - ip
  {
    if ip > g.j.Iend() - 12 then seqs == [] && end == anchor
    else
      exists len: nat, off: nat, full: nat ::
        MayFind(g, ip, 3, level.nbSearches, len, off, full)
        && if len == 0 then Parses(g, level, ip + 1, anchor, seqs, end)
           else if len > level.sufficientLen then
             seqs != [] && 0 <= anchor <= ip <= |g.j.src| && seqs[0].lits == g.j.src[anchor..ip]
             && seqs[0].offset == off && seqs[0].mlen == len
             && Parses(g, level, ip + len, ip + len, seqs[1..], end)
           else
             exists t: seq<Optimal>, r: Stretch, u: seq<Optimal> ::
               Chosen(g, level, ip, anchor, len, off, t, r, u) && 0 < r.cur + r.mlen
               && var first := PathSequences(g.j.src, u, ip, anchor, 0, r.last);
                  first <= seqs
                  && Parses(g, level, ip + (r.cur + r.mlen), PathAnchor(u, ip, anchor, 0, r.last), seqs[|first|..], end)
  }
}
