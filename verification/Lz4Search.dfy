/** The hash table of the fast compressor and its search for a match. */
module Lz4Search {
  import opened MachineInts
  import opened Lz4Format
  import opened Arithmetic
  import opened TwosComplement
  import opened Lz4Words
  import opened Lz4Greedy

  const HASH_TABLE_LENGTH: nat := 0x2000
  const SKIP_TRIGGER: nat := 64

  // ---------------------------------------------------------------- hashing

  function Hash4(sequence: nat): (h: nat)
    ensures h < 0x2000
  {
    (sequence * 2654435761 % 0x1_0000_0000) / 0x8_0000
  }

  function Hash5(sequence: nat): (h: nat)
    ensures h < 0x1000
  {
    ((sequence * 0x100_0000 % 0x1_0000_0000_0000_0000) * 889523592379 % 0x1_0000_0000_0000_0000) / 0x10_0000_0000_0000
  }

  function HashPosition(j: Job, p: nat): (h: nat)
    requires p + 8 <= |j.src|
    ensures h < HASH_TABLE_LENGTH
  {
    if j.tableType == ByU32 then Hash5(ReadLE(j.src, p, 8)) else Hash4(ReadLE(j.src, p, 4))
  }

  // ---------------------------------------------------------------- the hash is the entry of the parse

  lemma HashFourIs(x: nat)
    ensures Hash4(x) == x * 2654435761 / 0x8_0000 % 0x2000
  {
    ModDiv(x * 2654435761, 0x8_0000, 0x2000);
  }

  /** Of eight bytes the shift keeps five. */
  lemma HashFiveIs(low: nat, upper: nat)
    requires low < 0x100_0000_0000
    ensures Hash5(low + 0x100_0000_0000 * upper) == low * 889523592379 / 0x1000_0000 % 0x1000
  {
    var x := low + 0x100_0000_0000 * upper;
    ModUnique(x * 0x100_0000, upper, low * 0x100_0000, 0x1_0000_0000_0000_0000);
    var y := low * 889523592379;
    assert (low * 0x100_0000) * 889523592379 == y * 0x100_0000;
    ModDiv(y * 0x100_0000, 0x10_0000_0000_0000, 0x1000);
    DivShift(y, 0x100_0000, 0x1000_0000);
  }

  lemma {:induction false} ReadBelow(s: seq<uint8>, p: nat, n: nat)
    requires p + n <= |s|
    ensures ReadLE(s, p, n) < Pow2(8 * n)
    decreases n
  {
    if n > 0 {
      ReadBelow(s, p + 1, n - 1);
      Pow2Add(8, 8 * (n - 1));
      assert Pow2(8) == 0x100;
    }
  }

  lemma {:induction false} ReadSplit(s: seq<uint8>, p: nat, n: nat, m: nat)
    requires p + n + m <= |s|
    ensures ReadLE(s, p, n + m) == ReadLE(s, p, n) + Pow2(8 * n) * ReadLE(s, p + n, m)
    decreases n
  {
    if n > 0 {
      ReadSplit(s, p + 1, n - 1, m);
      Pow2Add(8, 8 * (n - 1));
      assert Pow2(8) == 0x100;
      Shifted(ReadLE(s, p + 1, n - 1), Pow2(8 * (n - 1)), ReadLE(s, p + n, m));
    }
  }

  lemma Shifted(a: int, w: int, r: int)
    ensures 0x100 * (a + w * r) == 0x100 * a + (0x100 * w) * r
  {
  }

  lemma SlotIs(j: Job, p: nat)
    requires j.tableType != Cleared && p + 8 <= |j.src|
    ensures HashPosition(j, p) == Slot(j, p)
  {
    hide ReadLE, Hash5, Hash4;
    if j.tableType == ByU32 {
      ReadBelow(j.src, p, 5);
      ReadSplit(j.src, p, 5, 3);
      Pow2Of40();
      HashFiveIs(ReadLE(j.src, p, 5), ReadLE(j.src, p + 5, 3));
    } else {
      HashFourIs(ReadLE(j.src, p, 4));
    }
  }

  lemma Pow2Of40()
    ensures Pow2(40) == 0x100_0000_0000
  {
    assert Pow2(8) == 0x100;
    Pow2Add(8, 8);
    Pow2Add(16, 16);
    Pow2Add(32, 8);
  }

  // ---------------------------------------------------------------- table invariant

  /** An entry either lies in the prefix or the block, or one of the two distance tests of the
      search rejects it at every position of the block. */
  ghost predicate EntryOk(j: Job, e: int) {
    j.startIndex <= e + j.prefix || j.small || (j.tableType == ByU32 && e + MAX_DISTANCE <= j.startIndex)
  }

  ghost predicate TableOk(j: Job, t: seq<uint32>, bound: int) {
    |t| == HASH_TABLE_LENGTH && forall h :: 0 <= h < |t| ==> t[h] < bound && EntryOk(j, t[h]) && Fits(j.tableType, t[h])
  }

  /** The entries of a table of 16-bit numbers. */
  predicate Fits(t: TableType, e: int) {
    t == ByU16 ==> e < 0x1_0000
  }

  /** The tests a candidate must pass before its bytes are compared. */
  predicate InReach(j: Job, matchIndex: nat, current: nat) {
    !(j.small && matchIndex + j.prefix < j.startIndex)
    && !(j.tableType != ByU16 && matchIndex + MAX_DISTANCE < current)
  }

  lemma ReachIsSafe(j: Job, e: nat, current: nat)
    requires j.Valid() && EntryOk(j, e) && InReach(j, e, current)
    requires e < current && j.startIndex < current <= j.Index(j.Iend() - MFLIMIT)
    ensures j.LowLimit() <= j.Position(e) < j.Position(current)
    ensures current - e <= MAX_DISTANCE
  {
  }

  /** The tests of a candidate accept exactly the entries that are matches. */
  lemma TestsAreHits(j: Job, t: seq<uint32>, p: nat)
    requires j.Valid() && j.source < p <= j.Iend() - 12 && TableOk(j, t, j.Index(p))
    ensures var m := Target(j, t, p);
      Hits(j, t, p) <==>
        (InReach(j, t[Slot(j, p)], j.Index(p)) && 0 <= m < p && ReadLE(j.src, m, 4) == ReadLE(j.src, p, 4))
  {
    hide ReadLE, Slot, Same, EntryOk;
    var e := t[Slot(j, p)];
    assert EntryOk(j, e);
    if InReach(j, e, j.Index(p)) { ReachIsSafe(j, e, j.Index(p)); }
    var m := Target(j, t, p);
    if 0 <= m < p { SameWords(j.src, p, m, 4); }
  }

  /** A match of at least four bytes at ip. */
  ghost predicate IsMatch(j: Job, ip: int, m: int, n: int) {
    0 <= j.LowLimit() <= m < ip <= m + MAX_DISTANCE && MINMATCH <= n && Same(j.src, ip, m, n)
  }

  lemma NewEntryOk(j: Job, e: int)
    requires j.startIndex <= e
    ensures EntryOk(j, e)
  {
  }

  /** LZ4_putIndexOnHash: a 16-bit table takes the low 16 bits, which are the whole index. */
  method PutIndexOnHash(j: Job, table: array<uint32>, index: uint32, h: nat, ghost bound: int)
    requires j.Valid() && TableOk(j, table[..], bound) && h < HASH_TABLE_LENGTH
    requires j.startIndex <= index < bound && index <= j.Index(j.Iend() - MFLIMIT)
    modifies table
    ensures table[..] == old(table[..])[h := index] && TableOk(j, table[..], bound)
  {
    hide EntryOk;
    NewEntryOk(j, index);
    table[h] := if j.tableType == ByU16 then index % 0x1_0000 else index;
  }

  method PutPosition(j: Job, table: array<uint32>, p: nat, ghost bound: int)
    requires j.Valid() && TableOk(j, table[..], bound) && j.source <= p <= j.Iend() - MFLIMIT && j.Index(p) < bound
    modifies table
    ensures table[..] == Entered(j, old(table[..]), p) && TableOk(j, table[..], bound)
  {
    hide HashPosition, Slot;
    SlotIs(j, p);
    PutIndexOnHash(j, table, j.Index(p), HashPosition(j, p), bound);
  }

  /** The search: ever larger steps until a candidate in reach shows the same four bytes. */
  method FindMatch(j: Job, table: array<uint32>, ip0: nat) returns (found: bool, ip: nat, m: nat)
    requires j.Valid() && j.source < ip0 <= j.MfLimitPlusOne()
    requires TableOk(j, table[..], j.Index(ip0))
    modifies table
    ensures found ==> ip0 <= ip < j.MfLimitPlusOne() && IsMatch(j, ip, m, 4)
    ensures found ==> TableOk(j, table[..], j.Index(ip) + 1)
    ensures TableOk(j, table[..], j.Index(j.Iend()))
    ensures var f := Search(j, old(table[..]), ip0, 1, 64 * j.acceleration);
      f == if found then Match(ip, m, table[..]) else Nothing(table[..])
  {
    hide HashPosition, EntryOk, Same, InReach, Hits, Slot, TableOk;
    TableSize(j, table[..], j.Index(ip0));
    ip, m, found := ip0, 0, false;
    var forwardIp := ip0;
    var forwardH: nat := HashPosition(j, forwardIp);
    var step := 1;
    var searchMatchNb: uint32 := j.acceleration * SKIP_TRIGGER;
    ghost var f := Search(j, table[..], ip0, 1, 64 * j.acceleration);
    while true
      invariant ip0 <= forwardIp <= j.MfLimitPlusOne() && 1 <= step && !found
      invariant forwardH == HashPosition(j, forwardIp)
      invariant SKIP_TRIGGER <= searchMatchNb <= j.acceleration * SKIP_TRIGGER + (forwardIp - ip0)
      invariant table.Length == HASH_TABLE_LENGTH && TableOk(j, table[..], j.Index(forwardIp))
      invariant Search(j, table[..], forwardIp, step, searchMatchNb) == f
      decreases j.MfLimitPlusOne() - forwardIp
    {
      var h := forwardH;
      var current: uint32 := j.Index(forwardIp);
      var matchIndex := table[h];
      ghost var t := table[..];
      ip := forwardIp;
      forwardIp := forwardIp + step;
      step := searchMatchNb / SKIP_TRIGGER;
      searchMatchNb := searchMatchNb + 1;
      if forwardIp > j.MfLimitPlusOne() { TableGrows(j, table[..], current, j.Index(j.Iend())); return; }
      SlotIs(j, ip);
      TestsAreHits(j, t, ip);
      forwardH := HashPosition(j, forwardIp);
      TableGrows(j, table[..], current, current + 1);
      PutIndexOnHash(j, table, current, h, current + 1);
      TableGrows(j, table[..], current + 1, j.Index(forwardIp));
      TableGrows(j, table[..], current + 1, j.Index(j.Iend()));
      EntryOfTable(j, t, current, h);
      var reach: uint32 := matchIndex + MAX_DISTANCE;
      if InReach(j, matchIndex, current) {
        ReachIsSafe(j, matchIndex, current);
        m := j.Position(matchIndex);
        SameWords(j.src, ip, m, 4);
        if ReadLE(j.src, m, 4) == ReadLE(j.src, ip, 4) {
          found := true;
          return;
        }
      }
    }
  }

  lemma TableSize(j: Job, t: seq<uint32>, bound: int)
    requires TableOk(j, t, bound)
    ensures |t| == HASH_TABLE_LENGTH
  {
  }

  lemma EntryOfTable(j: Job, t: seq<uint32>, bound: int, h: nat)
    requires TableOk(j, t, bound) && h < |t|
    ensures t[h] < bound && EntryOk(j, t[h])
  {
  }

  lemma TableGrows(j: Job, t: seq<uint32>, bound: int, higher: int)
    requires TableOk(j, t, bound) && bound <= higher
    ensures TableOk(j, t, higher)
  {
    hide EntryOk;
  }
}
