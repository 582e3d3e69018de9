/** Decoding an LZ4 block one byte at a time.  DecodeBlock follows the format alone.
    Decompress also applies the decoder's own rules about the ends of its two buffers,
    in the order in which lz4.c applies them. */
module Lz4Reference {
  import opened MachineInts
  import opened Lz4Format

  datatype Length = Length(at: nat, value: nat) | Overrun(at: nat)

  /** Accept carries the history followed by the decoded bytes; Reject the input position
      at which the decoder gave up. */
  datatype Outcome = Accept(out: seq<uint8>) | Reject(at: nat)

  function Offset16(src: seq<uint8>, ip: nat): (r: nat)
    requires ip + 2 <= |src|
    ensures r <= 0xffff
  {
    src[ip] + 0x100 * (src[ip + 1] as int)
  }

  // ---------------------------------------------------------------- the format

  /** A length continued in extra bytes, the last of which is not 255. */
  ghost function FormatRun(src: seq<uint8>, ip: nat, acc: nat): (r: Length)
    requires ip <= |src|
    ensures r.Length? ==> ip < r.at <= |src| && r.value >= acc
    decreases |src| - ip
  {
    if ip == |src| then Overrun(ip)
    else if src[ip] == 255 then FormatRun(src, ip + 1, acc + 255)
    else Length(ip + 1, acc + src[ip])
  }

  ghost function FormatLength(src: seq<uint8>, ip: nat, nibble: nat): (r: Length)
    requires ip <= |src|
    ensures r.Length? ==> ip <= r.at <= |src|
  {
    if nibble == 15 then FormatRun(src, ip, 15) else Length(ip, nibble)
  }

  /** The block format: every sequence is a token, literals, an offset and a match; the last
      one ends with its literals. */
  ghost function DecodeBlock(src: seq<uint8>, ip: nat, h: seq<uint8>): Outcome
    requires ip <= |src|
    decreases |src| - ip, 1
  {
    if ip == |src| then Reject(ip) else
    match FormatLength(src, ip + 1, src[ip] / 16)
    case Overrun(at) => Reject(at)
    case Length(at, ll) =>
      if at + ll > |src| then Reject(at)
      else if at + ll == |src| then Accept(h + src[at..])
      else if at + ll + 2 > |src| then Reject(at + ll)
      else DecodeMatch(src, ip, at + ll, h + src[at..at + ll])
  }

  ghost function DecodeMatch(src: seq<uint8>, tp: nat, ip: nat, h: seq<uint8>): Outcome
    requires tp < ip && ip + 2 <= |src|
    decreases |src| - tp, 0
  {
    var offset := Offset16(src, ip);
    if offset > |h| then Reject(ip + 2) else
    match FormatLength(src, ip + 2, src[tp] % 16)
    case Overrun(at) => Reject(at)
    case Length(at, ml) => DecodeBlock(src, at, CopyMatch(h, offset, ml + 4))
  }

  // ---------------------------------------------------------------- the decoder's rules

  /** The extra bytes of a literal length: the run also stops 15 bytes before the end. */
  ghost function LiteralRun(src: seq<uint8>, ip: nat, acc: nat): (r: Length)
    requires ip < |src| - 15
    ensures r.Length? && ip < r.at <= |src| - 15 && r.value >= acc
    decreases |src| - ip
  {
    if ip + 1 < |src| - 15 && src[ip] == 255 then LiteralRun(src, ip + 1, acc + 255)
    else Length(ip + 1, acc + src[ip])
  }

  ghost function LiteralLength(src: seq<uint8>, ip: nat, nibble: nat): (r: Length)
    requires ip <= |src|
    ensures r.Length? ==> ip <= r.at <= |src|
  {
    if nibble != 15 then Length(ip, nibble)
    else if ip >= |src| - 15 then Overrun(ip)
    else LiteralRun(src, ip, 15)
  }

  /** The extra bytes of a match length: none may lie among the last five of the input. */
  ghost function MatchRun(src: seq<uint8>, ip: nat, acc: nat): (r: Length)
    requires ip < |src|
    ensures r.Length? ==> ip < r.at <= |src| - 5 && r.value >= acc
    decreases |src| - ip
  {
    if ip + 1 > |src| - 5 then Overrun(ip + 1)
    else if src[ip] == 255 then MatchRun(src, ip + 1, acc + 255)
    else Length(ip + 1, acc + src[ip])
  }

  ghost function MatchLength(src: seq<uint8>, ip: nat, nibble: nat): (r: Length)
    requires ip < |src|
    ensures r.Length? ==> ip <= r.at < |src|
  {
    if nibble != 15 then Length(ip, nibble) else MatchRun(src, ip, 15)
  }

  /** The two-stage shortcut applies far enough from both ends. */
  ghost predicate Shortcut(src: seq<uint8>, ip: nat, op: int, oend: int, nibble: nat) {
    nibble != 15 && ip < |src| - 16 && op <= oend - 32
  }

  /** One sequence from its token on.  h is everything before the output position, of which
      the first ext bytes are in the external dictionary; oend is the length h may reach. */
  ghost function Sequences(src: seq<uint8>, ip: nat, h: seq<uint8>, oend: int, ext: nat): Outcome
    requires ip < |src|
    decreases |src| - ip, 2
  {
    var nibble := src[ip] / 16;
    if Shortcut(src, ip + 1, |h|, oend, nibble) then
      Matches(src, ip, ip + 1 + nibble, h + src[ip + 1..ip + 1 + nibble], oend, ext, true)
    else
      match LiteralLength(src, ip + 1, nibble)
      case Overrun(at) => Reject(at)
      case Length(at, ll) => LiteralsAt(src, ip, at, h, ll, oend, ext)
  }

  /** The literals of a sequence whose literal length has been read. */
  ghost function LiteralsAt(src: seq<uint8>, tp: nat, at: nat, h: seq<uint8>, ll: nat, oend: int, ext: nat): Outcome
    requires tp < at <= |src|
    decreases |src| - tp, 1
  {
    if |h| + ll > oend - 12 || at + ll > |src| - 8 then
      if at + ll != |src| || |h| + ll > oend then Reject(at) else Accept(h + src[at..])
    else
      Matches(src, tp, at + ll, h + src[at..at + ll], oend, ext, false)
  }

  /** The rest of a sequence from its offset on. */
  ghost function Matches(src: seq<uint8>, tp: nat, ip: nat, h: seq<uint8>, oend: int, ext: nat,
                         shortcut: bool): Outcome
    requires tp < ip && ip + 2 < |src|
    decreases |src| - tp, 0
  {
    var offset := Offset16(src, ip);
    var nibble := src[tp] % 16;
    if shortcut && nibble != 15 && offset >= 8 && offset <= |h| - ext then
      Sequences(src, ip + 2, CopyMatch(h, offset, nibble + 4), oend, ext)
    else MatchAt(src, tp, ip + 2, h, offset, oend, ext)
  }

  /** A match whose offset has been read. */
  ghost function MatchAt(src: seq<uint8>, tp: nat, ip: nat, h: seq<uint8>, offset: nat, oend: int, ext: nat): Outcome
    requires tp < ip < |src|
    decreases |src| - ip, 3
  {
    if offset > |h| then Reject(ip)
    else
      match MatchLength(src, ip, src[tp] % 16)
      case Overrun(at) => Reject(at)
      case Length(at, ml) =>
        if |h| + ml + 4 > oend - 5 then Reject(at)
        else Sequences(src, at, CopyMatch(h, offset, ml + 4), oend, ext)
  }

  /** The whole block into a buffer of the given capacity. */
  ghost function Decompress(src: seq<uint8>, h: seq<uint8>, capacity: nat, ext: nat): Outcome {
    if capacity == 0 then if src == [0] then Accept(h) else Reject(0)
    else if src == [] then Reject(0)
    else Sequences(src, 0, h, |h| + capacity, ext)
  }

  // ---------------------------------------------------------------- acceptance implies the format

  lemma {:induction false} LiteralRunIsFormat(src: seq<uint8>, ip: nat, acc: nat)
    requires ip < |src| - 15 && acc >= 15
    requires LiteralRun(src, ip, acc).at + LiteralRun(src, ip, acc).value <= |src|
    ensures FormatRun(src, ip, acc) == LiteralRun(src, ip, acc)
    decreases |src| - ip
  {
    if ip + 1 < |src| - 15 && src[ip] == 255 { LiteralRunIsFormat(src, ip + 1, acc + 255); }
  }

  lemma {:induction false} MatchRunIsFormat(src: seq<uint8>, ip: nat, acc: nat)
    requires ip < |src| && MatchRun(src, ip, acc).Length?
    ensures FormatRun(src, ip, acc) == MatchRun(src, ip, acc)
    decreases |src| - ip
  {
    if src[ip] == 255 { MatchRunIsFormat(src, ip + 1, acc + 255); }
  }

  lemma {:induction false} SequencesIsFormat(src: seq<uint8>, ip: nat, h: seq<uint8>, oend: int, ext: nat)
    requires ip < |src| && Sequences(src, ip, h, oend, ext).Accept?
    ensures DecodeBlock(src, ip, h) == Sequences(src, ip, h, oend, ext)
    decreases |src| - ip, 1
  {
    var nibble := src[ip] / 16;
    if Shortcut(src, ip + 1, |h|, oend, nibble) {
      MatchesIsFormat(src, ip, ip + 1 + nibble, h + src[ip + 1..ip + 1 + nibble], oend, ext, true);
    } else {
      LiteralLengthIsFormat(src, ip + 1, nibble);
      var r := LiteralLength(src, ip + 1, nibble);
      if |h| + r.value <= oend - 12 && r.at + r.value <= |src| - 8 {
        MatchesIsFormat(src, ip, r.at + r.value, h + src[r.at..r.at + r.value], oend, ext, false);
      }
    }
  }

  lemma LiteralLengthIsFormat(src: seq<uint8>, ip: nat, nibble: nat)
    requires ip <= |src|
    ensures var r := LiteralLength(src, ip, nibble);
      r.Length? && r.at + r.value <= |src| ==> FormatLength(src, ip, nibble) == r
  {
    var r := LiteralLength(src, ip, nibble);
    if nibble == 15 && r.Length? && r.at + r.value <= |src| { LiteralRunIsFormat(src, ip, 15); }
  }

  lemma {:induction false} MatchesIsFormat(src: seq<uint8>, tp: nat, ip: nat, h: seq<uint8>,
                                           oend: int, ext: nat, shortcut: bool)
    requires tp < ip && ip + 2 < |src| && Matches(src, tp, ip, h, oend, ext, shortcut).Accept?
    ensures DecodeMatch(src, tp, ip, h) == Matches(src, tp, ip, h, oend, ext, shortcut)
    decreases |src| - tp, 0
  {
    var offset := Offset16(src, ip);
    var nibble := src[tp] % 16;
    if shortcut && nibble != 15 && offset >= 8 && offset <= |h| - ext {
      SequencesIsFormat(src, ip + 2, CopyMatch(h, offset, nibble + 4), oend, ext);
    } else {
      var r := MatchLength(src, ip + 2, nibble);
      if nibble == 15 { MatchRunIsFormat(src, ip + 2, 15); }
      SequencesIsFormat(src, r.at, CopyMatch(h, offset, r.value + 4), oend, ext);
    }
  }

  /** What the decoder accepts it decodes as the format says, for every block and capacity. */
  lemma AcceptedIsFormat(src: seq<uint8>, h: seq<uint8>, capacity: nat, ext: nat)
    requires Decompress(src, h, capacity, ext).Accept?
    ensures DecodeBlock(src, 0, h) == Decompress(src, h, capacity, ext)
  {
    if capacity == 0 {
      assert src[0] == 0 && h + src[1..] == h;
      assert FormatLength(src, 1, 0) == Length(1, 0);
    } else {
      SequencesIsFormat(src, 0, h, |h| + capacity, ext);
    }
  }
}
