/** Decoding with an external dictionary against decoding with the same bytes placed just before
    the output.  The two agree unless a match that starts in the dictionary ends among the last
    five bytes of the output buffer, which the shortcut lets pass only in the second case. */
module Lz4Dictionary {
  import opened MachineInts
  import opened Lz4Format
  import opened Lz4Reference

  /** Along the block, no match that starts in the first ext bytes of the history ends among the
      last five bytes below oend. */
  ghost predicate DictMatchesClear(src: seq<uint8>, ip: nat, h: seq<uint8>, oend: int, ext: nat)
    requires ip <= |src|
    decreases |src| - ip, 1
  {
    ip < |src| ==>
      var r := FormatLength(src, ip + 1, src[ip] / 16);
      r.Length? && r.at + r.value + 2 <= |src| ==>
        DictMatchClear(src, ip, r.at + r.value, h + src[r.at..r.at + r.value], oend, ext)
  }

  ghost predicate DictMatchClear(src: seq<uint8>, tp: nat, ip: nat, h: seq<uint8>, oend: int, ext: nat)
    requires tp < ip && ip + 2 <= |src|
    decreases |src| - tp, 0
  {
    var offset := Offset16(src, ip);
    var r := FormatLength(src, ip + 2, src[tp] % 16);
    offset <= |h| && r.Length? ==>
      (offset > |h| - ext ==> |h| + r.value + MINMATCH <= oend - LASTLITERALS)
      && DictMatchesClear(src, r.at, CopyMatch(h, offset, r.value + MINMATCH), oend, ext)
  }

  /** The comparison at one point of the block. */
  ghost predicate Agree(separate: Outcome, joined: Outcome, clear: bool) {
    (separate.Accept? <==> joined.Accept? && clear) && (separate.Accept? ==> separate == joined)
  }

  lemma {:induction false} SequencesAgree(src: seq<uint8>, ip: nat, h: seq<uint8>, oend: int, ext: nat)
    requires ip < |src|
    ensures Agree(Sequences(src, ip, h, oend, ext), Sequences(src, ip, h, oend, 0),
                  DictMatchesClear(src, ip, h, oend, ext))
    decreases |src| - ip, 3
  {
    hide Matches, DictMatchClear;
    var nibble := src[ip] / 16;
    if Shortcut(src, ip + 1, |h|, oend, nibble) {
      MatchesAgree(src, ip, ip + 1 + nibble, h + src[ip + 1..ip + 1 + nibble], oend, ext, true);
    } else {
      LiteralLengthIsFormat(src, ip + 1, nibble);
      var r := LiteralLength(src, ip + 1, nibble);
      if r.Length? { LiteralsAgree(src, ip, r.at, h, r.value, oend, ext); }
    }
  }

  lemma {:induction false} LiteralsAgree(src: seq<uint8>, tp: nat, at: nat, h: seq<uint8>, ll: nat, oend: int, ext: nat)
    requires tp < at <= |src|
    ensures LiteralsAt(src, tp, at, h, ll, oend, ext).Accept? ==> at + ll <= |src|
    ensures LiteralsAt(src, tp, at, h, ll, oend, 0).Accept? ==> at + ll <= |src|
    ensures Agree(LiteralsAt(src, tp, at, h, ll, oend, ext), LiteralsAt(src, tp, at, h, ll, oend, 0),
                  at + ll + 2 <= |src| ==> DictMatchClear(src, tp, at + ll, h + src[at..at + ll], oend, ext))
    decreases |src| - tp, 2
  {
    hide Matches, DictMatchClear;
    if |h| + ll <= oend - MFLIMIT && at + ll <= |src| - 8 {
      MatchesAgree(src, tp, at + ll, h + src[at..at + ll], oend, ext, false);
    }
  }

  lemma {:induction false} MatchesAgree(src: seq<uint8>, tp: nat, ip: nat, h: seq<uint8>, oend: int, ext: nat,
                                        shortcut: bool)
    requires tp < ip && ip + 2 < |src|
    ensures Agree(Matches(src, tp, ip, h, oend, ext, shortcut), Matches(src, tp, ip, h, oend, 0, shortcut),
                  DictMatchClear(src, tp, ip, h, oend, ext))
    decreases |src| - tp, 1
  {
    hide Sequences, DictMatchesClear, CopyMatch;
    var offset := Offset16(src, ip);
    var nibble := src[tp] % 16;
    if offset <= |h| {
      if nibble != 15 {
        SequencesAgree(src, ip + 2, CopyMatch(h, offset, nibble + MINMATCH), oend, ext);
      } else {
        var r := MatchLength(src, ip + 2, 15);
        if r.Length? {
          MatchRunIsFormat(src, ip + 2, 15);
          SequencesAgree(src, r.at, CopyMatch(h, offset, r.value + MINMATCH), oend, ext);
        }
      }
    }
  }

  /** For every block, history and capacity: the decoder accepts with the first ext bytes of the
      history in an external dictionary exactly when it accepts with all of the history in front
      of the output and no match that starts in the dictionary ends among the last five bytes of
      the buffer; the results are then the same. */
  lemma ExternalEqualsPrefix(src: seq<uint8>, h: seq<uint8>, capacity: nat, ext: nat)
    requires ext <= |h|
    ensures Agree(Decompress(src, h, capacity, ext), Decompress(src, h, capacity, 0),
                  capacity > 0 ==> DictMatchesClear(src, 0, h, |h| + capacity, ext))
  {
    if capacity > 0 && src != [] { SequencesAgree(src, 0, h, |h| + capacity, ext); }
  }

  lemma {:induction false} RoomLeftClear(src: seq<uint8>, ip: nat, h: seq<uint8>, oend: int, ext: nat)
    requires ip <= |src| && DecodeBlock(src, ip, h).Accept?
    ensures |h| <= |DecodeBlock(src, ip, h).out|
    ensures |DecodeBlock(src, ip, h).out| <= oend - LASTLITERALS ==> DictMatchesClear(src, ip, h, oend, ext)
    decreases |src| - ip
  {
    hide CopyMatch;
    var r := FormatLength(src, ip + 1, src[ip] / 16);
    if r.at + r.value < |src| {
      var at := r.at + r.value;
      var h1 := h + src[r.at..at];
      var r2 := FormatLength(src, at + 2, src[ip] % 16);
      RoomLeftClear(src, r2.at, CopyMatch(h1, Offset16(src, at), r2.value + MINMATCH), oend, ext);
    }
  }

  /** A buffer with five bytes to spare makes the two ways of decoding indistinguishable. */
  lemma RoomMakesEqual(src: seq<uint8>, h: seq<uint8>, capacity: nat, ext: nat)
    requires ext <= |h|
    requires Decompress(src, h, capacity, 0).Accept?
    requires |Decompress(src, h, capacity, 0).out| + LASTLITERALS <= |h| + capacity
    ensures Decompress(src, h, capacity, ext) == Decompress(src, h, capacity, 0)
  {
    AcceptedIsFormat(src, h, capacity, 0);
    RoomLeftClear(src, 0, h, |h| + capacity, ext);
    ExternalEqualsPrefix(src, h, capacity, ext);
  }

  /** A block that the two ways of decoding treat differently: fourteen literals and a match of
      eighteen bytes from the start of an eighteen-byte dictionary exactly fill the buffer. */
  ghost function TightBlock(): seq<uint8> {
    [0xee] + seq(14, i => 0) + [32, 0, 0]
  }

  lemma TightBlockDiffers()
    ensures Decompress(TightBlock(), seq(18, i => 0), 32, 0).Accept?
    ensures Decompress(TightBlock(), seq(18, i => 0), 32, 18) == Reject(17)
  {
    hide CopyMatch;
    var src: seq<uint8>, h: seq<uint8> := TightBlock(), seq(18, i => 0);
    assert src[0] == 0xee && src[15] == 32 && src[16] == 0 && src[17] == 0 && |src| == 18;
    var h1 := h + src[1..15];
    assert |h1| == 32 && Offset16(src, 15) == 32;
    assert Sequences(src, 17, CopyMatch(h1, 32, 18), 50, 0).Accept?;
    assert MatchAt(src, 0, 17, h1, 32, 50, 18) == Reject(17);
  }
}
