/** Data that no shorter block stands for: there is some of every size. */
module Lz4Incompressible {
  import opened MachineInts
  import opened Arithmetic
  import Lz4Reference
  import Lz4Stream

  /** No block shorter than data decodes to it. */
  ghost predicate Incompressible(data: seq<uint8>) {
    forall block: seq<uint8> :: |block| < |data| ==> !Lz4Stream.Regenerates(block, [], data)
  }

  // ---------------------------------------------------------------- counting

  /** The elements of s with one of the first k bytes behind them. */
  ghost function Extended(s: set<seq<uint8>>, k: nat): set<seq<uint8>>
    requires k <= 0x100
  {
    if k == 0 then {} else Extended(s, k - 1) + WithByte(s, k - 1)
  }

  ghost function WithByte(s: set<seq<uint8>>, b: uint8): set<seq<uint8>> {
    set x | x in s :: x + [b]
  }

  lemma SameFront(x: seq<uint8>, y: seq<uint8>, b: uint8)
    ensures x + [b] == y + [b] ==> x == y
  {
    assert x == (x + [b])[..|x + [b]| - 1] && y == (y + [b])[..|y + [b]| - 1];
  }

  lemma {:induction false} WithByteSize(s: set<seq<uint8>>, b: uint8)
    ensures |WithByte(s, b)| == |s|
  {
    if s != {} {
      var x :| x in s;
      var rest := s - {x};
      WithByteSize(rest, b);
      assert WithByte(s, b) == WithByte(rest, b) + {x + [b]};
      forall y | y in rest ensures y + [b] != x + [b] { SameFront(x, y, b); }
    }
  }

  lemma {:induction false} ExtendedMembers(s: set<seq<uint8>>, k: nat, y: seq<uint8>)
    requires k <= 0x100
    ensures y in Extended(s, k) <==> y != [] && y[|y| - 1] < k && y[..|y| - 1] in s
  {
    if k > 0 {
      ExtendedMembers(s, k - 1, y);
      if y in WithByte(s, k - 1) {
        var x :| x in s && y == x + [(k - 1) as uint8];
        assert y[..|y| - 1] == x;
      }
      if y != [] && y[|y| - 1] == k - 1 && y[..|y| - 1] in s { assert y == y[..|y| - 1] + [(k - 1) as uint8]; }
    }
  }

  lemma {:induction false} ExtendedSize(s: set<seq<uint8>>, k: nat)
    requires k <= 0x100
    ensures |Extended(s, k)| == k * |s|
  {
    if k > 0 {
      ExtendedSize(s, k - 1);
      WithByteSize(s, k - 1);
      var a, b := Extended(s, k - 1), WithByte(s, k - 1);
      assert a !! b by { Disjoint(s, k - 1); }
      assert |a + b| == |a| + |b|;
      NextMultiple(k - 1, |s|);
    }
  }

  lemma Disjoint(s: set<seq<uint8>>, k: nat)
    requires k < 0x100
    ensures Extended(s, k) !! WithByte(s, k)
  {
    hide Extended;
    forall x | x in s ensures x + [k as uint8] !in Extended(s, k) { ExtendedMembers(s, k, x + [k as uint8]); }
  }

  /** All byte strings of length n. */
  ghost function Strings(n: nat): set<seq<uint8>> {
    if n == 0 then {[]} else Extended(Strings(n - 1), 0x100)
  }

  lemma {:induction false} StringsMembers(n: nat, y: seq<uint8>)
    ensures y in Strings(n) <==> |y| == n
  {
    if n > 0 {
      ExtendedMembers(Strings(n - 1), 0x100, y);
      if y != [] { StringsMembers(n - 1, y[..|y| - 1]); }
    }
  }

  /** All shorter ones. */
  ghost function Shorter(n: nat): set<seq<uint8>> {
    if n == 0 then {} else Shorter(n - 1) + Strings(n - 1)
  }

  lemma {:induction false} ShorterMembers(n: nat, y: seq<uint8>)
    ensures y in Shorter(n) <==> |y| < n
  {
    if n > 0 {
      ShorterMembers(n - 1, y);
      StringsMembers(n - 1, y);
    }
  }

  /** There are fewer shorter strings than strings. */
  lemma {:induction false} ShorterAreFewer(n: nat)
    ensures |Shorter(n)| < |Strings(n)|
  {
    if n > 0 {
      ShorterAreFewer(n - 1);
      ExtendedSize(Strings(n - 1), 0x100);
      UnionSize(Shorter(n - 1), Strings(n - 1));
    }
  }

  lemma UnionSize(a: set<seq<uint8>>, b: set<seq<uint8>>)
    ensures |a + b| <= |a| + |b|
  {
    assert a + b == a + (b - a);
    SubsetSize(b - a, b);
  }

  lemma {:induction false} SubsetSize(a: set<seq<uint8>>, b: set<seq<uint8>>)
    requires a <= b
    ensures |a| <= |b|
  {
    assert b == a + (b - a);
  }

  // ---------------------------------------------------------------- decoding

  /** What a block decodes to in a buffer of n bytes. */
  ghost function Decoded(block: seq<uint8>, n: nat): seq<uint8> {
    var d := Lz4Reference.Decompress(block, [], n, 0);
    if d.Accept? then d.out else []
  }

  ghost function AllDecoded(blocks: set<seq<uint8>>, n: nat): set<seq<uint8>> {
    set block | block in blocks :: Decoded(block, n)
  }

  lemma {:induction false} AllDecodedSize(blocks: set<seq<uint8>>, n: nat)
    ensures |AllDecoded(blocks, n)| <= |blocks|
  {
    hide Decoded;
    if blocks != {} {
      var block :| block in blocks;
      AllDecodedSize(blocks - {block}, n);
      assert AllDecoded(blocks, n) == AllDecoded(blocks - {block}, n) + {Decoded(block, n)};
    }
  }

  /** Whatever the compressor: of every size there is data that no shorter block stands for. */
  lemma SomeIncompressible(n: nat) returns (data: seq<uint8>)
    ensures |data| == n && Incompressible(data)
  {
    hide Lz4Reference.Decompress, Shorter, Strings;
    var images := AllDecoded(Shorter(n), n);
    AllDecodedSize(Shorter(n), n);
    ShorterAreFewer(n);
    if Strings(n) <= images { SubsetSize(Strings(n), images); }
    data :| data in Strings(n) && data !in images;
    StringsMembers(n, data);
    forall block: seq<uint8> | |block| < |data| ensures !Lz4Stream.Regenerates(block, [], data) {
      ShorterMembers(n, block);
      assert Decoded(block, n) in images;
      DecodedRegenerates(block, data);
    }
  }

  lemma DecodedRegenerates(block: seq<uint8>, data: seq<uint8>)
    ensures Lz4Stream.Regenerates(block, [], data) ==> Decoded(block, |data|) == data
  {
    hide Lz4Reference.Decompress;
    assert [] + data == data;
  }

  /** A single byte in particular: the only shorter block is the empty one. */
  lemma ByteIsIncompressible(b: uint8)
    ensures Incompressible([b])
  {
    forall block: seq<uint8> | |block| < 1 ensures !Lz4Stream.Regenerates(block, [], [b]) {
      assert block == [];
      assert !(Lz4Reference.Decompress([], [], 1, 0).Accept?);
    }
  }

  // ---------------------------------------------------------------- capacities

  /** A size that a call may write for data, if it writes at most most, and no less for data that
      does not compress. */
  ghost predicate Takes(data: seq<uint8>, n: nat, most: nat) {
    n <= most && (Incompressible(data) ==> n == most)
  }

  /** Whatever the call writes for data exceeds the capacity. */
  ghost predicate Exceeds(data: seq<uint8>, most: nat, capacity: nat) {
    forall n: nat :: Takes(data, n, most) ==> n > capacity
  }

  /** A capacity is kept for all data of a size if and only if it holds the most that is written;
      if it does not, there is data of this size that certainly exceeds it. */
  lemma WorstCase(size: nat, most: nat, capacity: nat)
    ensures (forall data: seq<uint8>, n: nat :: |data| == size && Takes(data, n, most) ==> n <= capacity) <==>
      most <= capacity
    ensures (exists data: seq<uint8> :: |data| == size && Exceeds(data, most, capacity)) <==> most > capacity
  {
    hide Incompressible;
    var data := SomeIncompressible(size);
    assert Takes(data, most, most);
    if most > capacity { assert Exceeds(data, most, capacity); }
    forall d: seq<uint8> | |d| == size && Exceeds(d, most, capacity) ensures most > capacity {
      assert Takes(d, most, most);
    }
  }
}
