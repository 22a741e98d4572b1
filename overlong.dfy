/**
 * Lines longer than 32767 bytes in the current `frcode` crate
 * (crates/frcode/src/lib.rs). Its encoder only asserts that a line's
 * suffix is shorter than 32768 bytes, so a long line that extends the line
 * before it is written; its decoder then adds the prefix length and the
 * suffix length as i16 and panics on the overflow. The older crate refuses
 * such a line before writing anything, and with that guard every database
 * written reads back.
 */
module Overlong {
  import opened Wrappers
  import opened Unicode
  import opened FrontCoding

  /** A line that extends `first` shares all of `first`'s scalars with it. */
  lemma ExtensionShares(first: string, tail: string)
    ensures CommonPrefixCount(first + tail, first) == |first|
    ensures PrefixByteLen(first + tail, first) == |Utf8(first)|
  {
    var line := first + tail;
    assert line[..|first|] == first[..|first|];
    CommonPrefixCountUnique(line, first, |first|);
  }

  /** The bytes of an extension are those of `first`, then those of `tail`. */
  lemma ExtensionBytes(first: string, tail: string)
    ensures |Utf8(first + tail)| == |Utf8(first)| + |Utf8(tail)|
    ensures Utf8(first + tail)[|Utf8(first)|..] == Utf8(tail)
  {
    Utf8Concat(first, tail);
  }

  /** The current encoder's chunk for `first + tail` after `first`: the
      offset is the whole of `first`'s bytes and the suffix is `tail`'s,
      however long the line is as a whole. */
  lemma ExtensionChunk(first: string, tail: string)
    requires |Utf8(first)| <= 32767 && |Utf8(tail)| < 32768
    ensures var r := EncodeRecord(Current, Cursor(true, 0, first), first + tail);
            r.0 == Chunk(EntryBytes(|Utf8(first)|, Utf8(tail)))
  {
    ExtensionShares(first, tail);
    ExtensionBytes(first, tail);
    CurrentChunk(Cursor(true, 0, first), first + tail, |Utf8(first)|);
  }

  /** The current encoder's chunk for a line whose shared prefix is `p`
      bytes, after a line whose own prefix length was 0: no header, offset
      `p`, and the bytes after the first `p`. */
  lemma CurrentChunk(cur: Cursor, line: string, p: nat)
    requires cur.init && cur.precPrefixLen == 0
    requires PrefixByteLen(line, cur.prec) == p && p <= 32767
    requires |Utf8(line)| - p < 32768
    ensures EncodeRecord(Current, cur, line).0 == Chunk(EntryBytes(p, Utf8(line)[p..]))
  {
    assert WrapI16(WrapI16(p) - 0) == p;
    assert Opening(true) == [];
  }

  /** The database the current encoder writes for `first` and then
      `first + tail`: the first line's chunk, then the extension's. */
  lemma ExtensionDatabase(first: string, tail: string)
    requires |Utf8(first)| <= 32767 && |Utf8(tail)| < 32768
    ensures EncodeRecord(Current, START, first).0.Chunk?
    ensures EncodeRecord(Current, START, first).1 == Cursor(true, 0, first)
    ensures Compress(Current, START, [first, first + tail])
            == Some(EncodeRecord(Current, START, first).0.bytes + EntryBytes(|Utf8(first)|, Utf8(tail)))
  {
    var lines := [first, first + tail];
    var next := Cursor(true, 0, first);
    ChunkBytes(Current, START, first, 0);
    assert first[..0] == [];
    ExtensionChunk(first, tail);
    var c2 := EntryBytes(|Utf8(first)|, Utf8(tail));
    assert lines[1..] == [first + tail] && [first + tail][1..] == [];
    assert Compress(Current, next, lines[1..]) == Some(c2 + []);
    CompressCons(Current, START, lines);
    assert c2 + [] == c2;
  }

  /** As written: the current encoder writes the lines `first` and
      `first + tail` when `first` and `tail` each fit but together exceed
      32767 bytes, and the current decoder yields `first` and then panics
      on the second line (a 20000-byte line followed by a 40000-byte line
      that extends it is one such input). */
  lemma OverlongExtensionPanics(first: string, tail: string)
    requires |Utf8(first)| <= 32767 && |Utf8(tail)| < 32768
    requires |Utf8(first)| + |Utf8(tail)| > 32767
    ensures |Utf8(first + tail)| > 32767
    ensures Compress(Current, START, [first, first + tail]).Some?
    ensures DecodeRun(Current, DecoderState(START, Compress(Current, START, [first, first + tail]).value))
            == [Entry(first), Panic]
  {
    Utf8Concat(first, tail);
    ExtensionDatabase(first, tail);
    ExtensionRun(first, tail);
  }

  /** Decoding those two chunks: `first`, then a panic. */
  lemma ExtensionRun(first: string, tail: string)
    requires |Utf8(first)| <= 32767 && |Utf8(tail)| < 32768
    requires |Utf8(first)| + |Utf8(tail)| > 32767
    ensures EncodeRecord(Current, START, first).0.Chunk?
    ensures DecodeRun(Current, DecoderState(START, EncodeRecord(Current, START, first).0.bytes
                                                   + EntryBytes(|Utf8(first)|, Utf8(tail))))
            == [Entry(first), Panic]
  {
    var next := Cursor(true, 0, first);
    ChunkBytes(Current, START, first, 0);
    assert first[..0] == [];
    var c1 := EncodeRecord(Current, START, first).0.bytes;
    var c2 := EntryBytes(|Utf8(first)|, Utf8(tail));
    DecodeChunk(Current, START, first, c2);
    DecodeRunEntry(Current, DecoderState(START, c1 + c2), first, DecoderState(next, c2));
    ExtensionEntryPanics(first, tail);
    DecodeRunStops(Current, DecoderState(next, c2));
  }

  /** The current decoder, after `first`, panics on the entry of an
      extension whose prefix and suffix lengths sum past 32767. */
  lemma ExtensionEntryPanics(first: string, tail: string)
    requires |Utf8(first)| <= 32767 && |Utf8(tail)| < 32768
    requires |Utf8(first)| + |Utf8(tail)| > 32767
    ensures DecodeStep(Current, DecoderState(Cursor(true, 0, first), EntryBytes(|Utf8(first)|, Utf8(tail)))).0
            == Panic
  {
    var c2 := EntryBytes(|Utf8(first)|, Utf8(tail));
    ReadEntryBytes(Current, Cursor(true, 0, first), |Utf8(first)|, Utf8(tail), []);
    assert c2 + [] == c2;
    DecodeUtf8OfUtf8(tail);
  }

  /** On a line of at most 32767 bytes the two encoders take the same
      step. */
  lemma EncodersAgree(cur: Cursor, line: string)
    requires |Utf8(line)| <= 32767
    ensures EncodeRecord(Legacy, cur, line) == EncodeRecord(Current, cur, line)
  {
  }

  /** On lines of at most 32767 bytes the two encoders write the same
      database. */
  lemma {:induction false} CompressAgree(cur: Cursor, lines: seq<string>)
    requires Representable(lines)
    ensures Compress(Legacy, cur, lines) == Compress(Current, cur, lines)
    decreases |lines|
  {
    if lines != [] {
      RepresentableTail(lines);
      EncodersAgree(cur, lines[0]);
      CompressAgree(EncodeRecord(Current, cur, lines[0]).1, lines[1..]);
    }
  }

  /** Corrected: with the older encoder's guard (a line over 32767 bytes
      ends the iteration), whatever lines are given, the database written
      is read back by the current decoder as exactly the lines before the
      first over-long one, with no error and no panic. */
  lemma GuardedDatabaseReadsBack(lines: seq<string>)
    ensures Compress(Legacy, START, lines).Some?
    ensures DecodeRun(Current, DecoderState(START, Compress(Legacy, START, lines).value))
            == Entries(KeptPrefix(lines))
  {
    LegacyDropsFromOverlong(START, lines);
    CompressAgree(START, KeptPrefix(lines));
    RoundTrip(Current, KeptPrefix(lines));
  }
}
