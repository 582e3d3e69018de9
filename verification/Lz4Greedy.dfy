/** What the fast compressor chooses: the sequences of the greedy parse, as a function of the block,
    the table it starts from and the acceleration. */
module Lz4Greedy {
  import opened MachineInts
  import opened Arithmetic
  import opened Lz4Format
  import opened Lz4Words
  import opened Lz4Encoding

  datatype TableType = Cleared | ByU32 | ByU16

  /** The constants of one call of LZ4_compress_generic.  src is the memory that holds the block
      (from source on) and the prefix before it; positions are indexes into src. */
  datatype Job = Job(src: seq<uint8>, source: nat, inputSize: nat, prefix: nat, startIndex: nat,
                     tableType: TableType, small: bool, acceleration: nat, limited: bool) {
    ghost predicate Valid() {
      prefix <= source && source + inputSize <= |src| && tableType != Cleared
      && startIndex + inputSize <= 0x8000_0000
      && (tableType == ByU16 ==> prefix == 0 && startIndex + inputSize < 0x1_000b)
      && (small ==> prefix <= startIndex)
      && 1 <= acceleration <= 0x100_0000
    }

    function Iend(): nat { source + inputSize }

    function MfLimitPlusOne(): int { Iend() - MFLIMIT + 1 }

    function MatchLimit(): int { Iend() - LASTLITERALS }

    function LowLimit(): int { source - prefix }

    /** The table index of position p. */
    function Index(p: int): int { p - source + startIndex }

    function Position(index: int): int { index - startIndex + source }
  }

  // ---------------------------------------------------------------- the table

  /** The entry that stands for the bytes at p: of four bytes and 13 bits, or of five bytes
      and 12 bits. */
  ghost function Slot(j: Job, p: nat): (h: nat)
    requires p + 8 <= |j.src|
    ensures h < 0x2000
  {
    if j.tableType == ByU16 then ReadLE(j.src, p, 4) * 2654435761 / 0x8_0000 % 0x2000
    else ReadLE(j.src, p, 5) * 889523592379 / 0x1000_0000 % 0x1000
  }

  /** The table after position p is entered. */
  ghost function Entered(j: Job, t: seq<uint32>, p: nat): (u: seq<uint32>)
    requires j.Valid() && |t| == 0x2000 && j.source <= p <= j.Iend() - 12
    ensures |u| == 0x2000
  {
    t[Slot(j, p) := j.startIndex + (p - j.source)]
  }

  /** The position in the entry for p. */
  ghost function Target(j: Job, t: seq<uint32>, p: nat): int
    requires |t| == 0x2000 && p + 8 <= |j.src|
  {
    j.source + t[Slot(j, p)] - j.startIndex
  }

  /** The entry for p is a match: in the prefix or the block, at most 65535 before p, with the same
      four bytes. */
  ghost predicate Hits(j: Job, t: seq<uint32>, p: nat)
    requires |t| == 0x2000 && p + 8 <= |j.src|
  {
    var m := Target(j, t, p);
    j.source - j.prefix <= m < p <= m + 65535 && Same(j.src, p, m, 4)
  }

  // ---------------------------------------------------------------- a match

  datatype Found = Nothing(table: seq<uint32>) | Match(at: nat, from: nat, table: seq<uint32>)

  /** The first hit among p, p + step and so on; of every 64 positions the next ones are one further
      apart.  A position whose successor is among the last eleven is no longer tried. */
  ghost function Search(j: Job, t: seq<uint32>, p: nat, step: nat, tries: nat): (r: Found)
    requires j.Valid() && |t| == 0x2000 && j.source <= p && 1 <= step && 64 <= tries
    ensures |r.table| == 0x2000
    ensures r.Match? ==> p <= r.at <= j.Iend() - 12 && j.source - j.prefix <= r.from < r.at <= r.from + 65535
    ensures r.Match? ==> Same(j.src, r.at, r.from, 4)
    decreases j.Iend() - p
  {
    if p + step > j.Iend() - 11 then Nothing(t)
    else if Hits(j, t, p) then Match(p, Target(j, t, p), Entered(j, t, p))
    else Search(j, Entered(j, t, p), p + step, tries / 64, tries + 1)
  }

  /** How many bytes before p and m agree, down to anchor and the start of the prefix. */
  ghost function Backward(j: Job, anchor: int, p: nat, m: nat): (k: nat)
    requires m < p <= |j.src|
    ensures k <= m && (anchor <= p ==> k <= p - anchor)
    ensures j.source - j.prefix <= m ==> j.source - j.prefix <= m - k
    decreases p
  {
    if p > anchor && m > 0 && m > j.source - j.prefix && j.src[p - 1] == j.src[m - 1]
    then 1 + Backward(j, anchor, p - 1, m - 1) else 0
  }

  /** How many bytes from p and m on agree, up to limit. */
  ghost function Forward(src: seq<uint8>, p: nat, m: nat, limit: int): (n: nat)
    requires m <= p && limit <= |src|
    ensures p <= limit ==> p + n <= limit
    decreases limit - p
  {
    if p < limit && src[p] == src[m] then 1 + Forward(src, p + 1, m + 1, limit) else 0
  }

  lemma {:induction false} ForwardAtLeast(src: seq<uint8>, p: nat, m: nat, limit: int, n: nat)
    requires m <= p && limit <= |src| && p + n <= limit && Same(src, p, m, n)
    ensures Forward(src, p, m, limit) >= n
    decreases n
  {
    if n > 0 { ForwardAtLeast(src, p + 1, m + 1, limit, n - 1); }
  }

  // ---------------------------------------------------------------- the parse

  /** The sequences, where the last literals start, the table left behind, and the least capacity
      with which no check of the remaining space fails. */
  datatype Parse = Parse(seqs: seq<Sequence>, anchor: nat, table: seq<uint32>, need: nat)

  ghost function Max(a: nat, b: nat): nat {
    if a < b then b else a
  }

  /** What the checks of one sequence ask for: of its literals, if there can be any, and of its match. */
  ghost function SequenceNeed(s: Sequence, direct: bool): nat {
    Max(if direct then 0 else |s.lits| + |s.lits| / 255 + 9, |EncodeLiterals(s.lits, 0)| + 8 + (s.mlen - 4) / 256)
  }

  ghost function LastNeed(n: nat): nat {
    n + 1 + (n + 240) / 255
  }

  ghost function Before(s: Sequence, direct: bool, rest: Parse): Parse {
    Parse([s] + rest.seqs, rest.anchor, rest.table, Max(SequenceNeed(s, direct), |EncodeSequence(s)| + rest.need))
  }

  ghost function Last(j: Job, t: seq<uint32>, anchor: nat): Parse
    requires anchor <= j.Iend()
  {
    Parse([], anchor, t, LastNeed(j.Iend() - anchor))
  }

  /** Everything is parsed up to anchor; the search starts at p. */
  ghost function Searching(j: Job, t: seq<uint32>, anchor: nat, p: nat): Parse
    requires j.Valid() && |t| == 0x2000 && j.source <= anchor < p && anchor <= j.Iend() - 5
    decreases j.Iend() - anchor, 0
  {
    match Search(j, t, p, 1, 64 * j.acceleration)
    case Nothing(u) => Last(j, u, anchor)
    case Match(at, from, u) =>
      ForwardAtLeast(j.src, at, from, j.Iend() - 5, 4);
      var k, n := Backward(j, anchor, at, from), Forward(j.src, at, from, j.Iend() - 5);
      Before(Sequence(j.src[anchor..at - k], at - from, k + n), false, Following(j, u, at + n))
  }

  /** Right behind a match: another match there, or the search goes on one further. */
  ghost function Following(j: Job, t: seq<uint32>, anchor: nat): Parse
    requires j.Valid() && |t| == 0x2000 && j.source + 4 <= anchor <= j.Iend() - 5
    decreases j.Iend() - anchor, 1
  {
    if anchor >= j.Iend() - 11 then Last(j, t, anchor)
    else
      var u := Entered(j, t, anchor - 2);
      var w := Entered(j, u, anchor);
      if Hits(j, u, anchor) then
        var from := Target(j, u, anchor);
        ForwardAtLeast(j.src, anchor, from, j.Iend() - 5, 4);
        var n := Forward(j.src, anchor, from, j.Iend() - 5);
        Before(Sequence([], anchor - from, n), true, Following(j, w, anchor + n))
      else Searching(j, w, anchor, anchor + 1)
  }

  /** The parse of the whole block; fewer than 13 bytes are literals. */
  ghost function Greedy(j: Job, t: seq<uint32>): Parse
    requires j.Valid() && |t| == 0x2000
  {
    if j.inputSize < 13 then Last(j, t, j.source)
    else Searching(j, Entered(j, t, j.source), j.source, j.source + 1)
  }

  /** The bytes of a parse. */
  ghost function Written(j: Job, g: Parse): seq<uint8>
    requires g.anchor <= j.Iend() <= |j.src|
  {
    EncodeAll(g.seqs) + EncodeLast(j.src[g.anchor..j.Iend()])
  }

  // ---------------------------------------------------------------- facts

  /** A count that cannot go on is the count of agreeing bytes. */
  lemma {:induction false} ForwardIs(src: seq<uint8>, p: nat, m: nat, limit: nat, n: nat)
    requires m <= p && limit <= |src| && CommonLength(src, p, m, limit, n)
    ensures Forward(src, p, m, limit) == n
    decreases n
  {
    if n > 0 { ForwardIs(src, p + 1, m + 1, limit, n - 1); }
  }

  lemma {:induction false} ForwardSplit(src: seq<uint8>, p: nat, m: nat, limit: nat, n: nat)
    requires m <= p && limit <= |src| && p + n <= limit && Same(src, p, m, n)
    ensures Forward(src, p, m, limit) == n + Forward(src, p + n, m + n, limit)
    decreases n
  {
    if n > 0 { ForwardSplit(src, p + 1, m + 1, limit, n - 1); }
  }
}
