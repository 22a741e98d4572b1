/**
 * The front-coded path database shared by both versions of the `frcode`
 * crate (crates/frcode/src/lib.rs, the current one, and frcode/src/lib.rs,
 * the older one): its byte format, the prefix rule, and one encoder step and
 * one decoder step as functions of the cursor state. The classes of modules
 * FrCode and FrCodeLegacy are proved to follow these steps; the round trip
 * and the truncation behaviour are proved here, once, for both versions.
 *
 * A database is a header record (offset 0, length 7, the bytes `LOCATEW`)
 * followed by one record per line: the offset (this line's shared-prefix
 * byte length minus the previous line's), the suffix byte length, then the
 * suffix bytes. Both integer fields are one signed byte, or the escape byte
 * 0x80 followed by a big-endian i16.
 */
module FrontCoding {
  import opened Wrappers
  import opened Unicode

  /** The two versions differ on three points: the older encoder refuses a
      line longer than 32767 bytes; the current encoder asserts that a suffix
      is shorter than 32768 bytes; and on a short read the current decoder
      trips an `assert_eq!` where the older one returns None. */
  datatype Version = Current | Legacy

  // ---------------------------------------------------------------------
  // Header
  // ---------------------------------------------------------------------

  const LABEL: string := "LOCATEW"

  /** `b"LOCATEW"` */
  const LABEL_BYTES: seq<byte> := [0x4C, 0x4F, 0x43, 0x41, 0x54, 0x45, 0x57]

  /** The header record: a zero offset, the label length, the label. */
  const HEADER: seq<byte> := [0, |LABEL_BYTES|] + LABEL_BYTES

  /** The message of the invalid-label error (FrError::InvalidLabelError in
      the older crate, a boxed string in the current one). */
  const INVALID_LABEL_MESSAGE: string := "Fichier updateDB invalide"

  lemma LabelBytes()
    ensures Utf8(LABEL) == LABEL_BYTES
    ensures DecodeUtf8(LABEL_BYTES) == Some(LABEL)
    ensures HEADER == [0x00, 0x07, 0x4C, 0x4F, 0x43, 0x41, 0x54, 0x45, 0x57]
  {
    LabelUtf8();
    DecodeUtf8OfUtf8(LABEL);
  }

  lemma LabelUtf8()
    ensures Utf8(LABEL) == LABEL_BYTES
  {
    assert Utf8(LABEL) == EncodeChar('L') + Utf8(LABEL[1..]);
    assert Utf8(LABEL[1..]) == EncodeChar('O') + Utf8(LABEL[2..]);
    assert Utf8(LABEL[2..]) == EncodeChar('C') + Utf8(LABEL[3..]);
    assert Utf8(LABEL[3..]) == EncodeChar('A') + Utf8(LABEL[4..]);
    assert Utf8(LABEL[4..]) == EncodeChar('T') + Utf8(LABEL[5..]);
    assert Utf8(LABEL[5..]) == EncodeChar('E') + Utf8(LABEL[6..]);
    assert Utf8(LABEL[6..]) == EncodeChar('W') + Utf8(LABEL[7..]);
  }

  // ---------------------------------------------------------------------
  // Integer fields
  // ---------------------------------------------------------------------

  const ESCAPE: byte := 0x80

  predicate IsI16(v: int)
  {
    -32768 <= v < 32768
  }

  /** Rust's `as i16` on an integer: two's-complement wrap-around. */
  function WrapI16(x: int): (r: int)
    ensures IsI16(r)
    ensures (x - r) % 65536 == 0
    ensures IsI16(x) ==> r == x
  {
    if IsI16(x) then x else (x + 32768) % 65536 - 32768
  }

  /** `(v as i8).to_be_bytes()` */
  function I8Byte(v: int): byte
    requires -128 <= v < 128
  {
    if v < 0 then v + 256 else v
  }

  /** `i8::from_be_bytes([b]) as i16`: sign extension. */
  function SignExtend(b: byte): (v: int)
    ensures -128 <= v < 128
  {
    if b < 128 then b else b - 256
  }

  /** `v.to_be_bytes()` for an i16. */
  function I16BigEndian(v: int): seq<byte>
    requires IsI16(v)
  {
    var u := if v < 0 then v + 65536 else v;
    [u / 256, u % 256]
  }

  /** `i16::from_be_bytes([hi, lo])` */
  function FromI16BigEndian(hi: byte, lo: byte): (v: int)
    ensures IsI16(v)
  {
    var u := hi * 256 + lo;
    if u < 32768 then u else u - 65536
  }

  /** One integer field, as both encoders write the offset and the suffix
      length: one byte when the value lies strictly between -128 and 128,
      else the escape byte and the big-endian i16. (For a suffix length the
      source's test is `suffix_len < 128`, the same thing for a length.) */
  function EncodeCount(v: int): (r: seq<byte>)
    requires IsI16(v)
    ensures |r| == 1 || |r| == 3
    ensures |r| == 1 <==> -128 < v < 128
    ensures |r| == 1 ==> r[0] != ESCAPE
    ensures |r| == 3 ==> r[0] == ESCAPE
  {
    if -128 < v < 128 then [I8Byte(v)] else [ESCAPE] + I16BigEndian(v)
  }

  /** The escape boundary: 127 and -127 take one byte, 128 and -128 three. */
  lemma EncodeCountBoundaries()
    ensures EncodeCount(127) == [0x7F]
    ensures EncodeCount(-127) == [0x81]
    ensures EncodeCount(128) == [0x80, 0x00, 0x80]
    ensures EncodeCount(-128) == [0x80, 0xFF, 0x80]
    ensures EncodeCount(-129) == [0x80, 0xFF, 0x7F]
    ensures EncodeCount(32767) == [0x80, 0x7F, 0xFF]
  {
  }

  /** What `count_from_bytes` finds: clean end of input before the field,
      a field cut short after the escape byte, or a value and what follows. */
  datatype CountRead = Eof | Short | Count(value: int, rest: seq<byte>)

  /** Reading one integer field; a byte other than 0x80 is sign-extended. */
  function ReadCount(input: seq<byte>): (r: CountRead)
    ensures r.Eof? <==> input == []
    ensures r.Short? <==> input != [] && input[0] == ESCAPE && |input| < 3
    ensures r.Count? ==> IsI16(r.value) && |r.rest| < |input| && r.rest == input[|input| - |r.rest|..]
  {
    if input == [] then Eof
    else if input[0] != ESCAPE then Count(SignExtend(input[0]), input[1..])
    else if |input| < 3 then Short
    else Count(FromI16BigEndian(input[1], input[2]), input[3..])
  }

  /** Reading a field gives back the value written, whatever follows it. */
  lemma ReadEncodedCount(v: int, rest: seq<byte>)
    requires IsI16(v)
    ensures ReadCount(EncodeCount(v) + rest) == Count(v, rest)
  {
    var e := EncodeCount(v);
    assert (e + rest)[0] == e[0];
    if |e| == 3 {
      var u := if v < 0 then v + 65536 else v;
      assert u == (u / 256) * 256 + u % 256;
      assert (e + rest)[1] == u / 256 && (e + rest)[2] == u % 256;
      assert (e + rest)[3..] == rest;
    } else {
      assert (e + rest)[1..] == rest;
    }
  }

  /** Reading a field from the first `j` bytes of an encoded field and what
      follows it: a cut inside the field is a clean end or a short read, a
      cut past it reads the same value. */
  lemma ReadTruncatedCount(v: int, rest: seq<byte>, j: nat)
    requires IsI16(v) && j <= |EncodeCount(v) + rest|
    ensures j < |EncodeCount(v)| ==> ReadCount((EncodeCount(v) + rest)[..j]) in {Eof, Short}
    ensures j >= |EncodeCount(v)| ==>
      ReadCount((EncodeCount(v) + rest)[..j]) == Count(v, rest[..j - |EncodeCount(v)|])
  {
    var e := EncodeCount(v);
    if j >= |e| {
      assert (e + rest)[..j] == e + rest[..j - |e|];
      ReadEncodedCount(v, rest[..j - |e|]);
    } else if j > 0 {
      assert (e + rest)[..j][0] == e[0];
    }
  }

  /** What `suffix_from_bytes` takes from the input: `len` bytes, or fewer
      when the input ends first (a negative `len` becomes a huge `usize`). */
  datatype TakeRead = ShortTake | Taken(bytes: seq<byte>, rest: seq<byte>)

  function TakeBytes(input: seq<byte>, len: int): (r: TakeRead)
    ensures r.ShortTake? <==> len < 0 || len > |input|
    ensures r.Taken? ==> r.bytes + r.rest == input && |r.bytes| == len
    ensures r.Taken? ==> r.bytes == input[..len] && r.rest == input[len..]
  {
    if 0 <= len <= |input| then Taken(input[..len], input[len..]) else ShortTake
  }

  // ---------------------------------------------------------------------
  // The prefix rule
  // ---------------------------------------------------------------------

  /** Number of leading scalars `a` and `b` share: the longest common prefix. */
  function CommonPrefixCount(a: seq<char>, b: seq<char>): (k: nat)
    ensures k <= |a| && k <= |b| && a[..k] == b[..k]
    ensures k < |a| && k < |b| ==> a[k] != b[k]
  {
    if a == [] || b == [] || a[0] != b[0] then 0
    else
      var k := 1 + CommonPrefixCount(a[1..], b[1..]);
      assert a[..k] == [a[0]] + a[1..][..k - 1];
      assert b[..k] == [b[0]] + b[1..][..k - 1];
      k
  }

  /** `CommonPrefixCount` is the only count with its two properties. */
  lemma CommonPrefixCountUnique(a: seq<char>, b: seq<char>, i: nat)
    requires i <= |a| && i <= |b| && a[..i] == b[..i]
    requires i < |a| && i < |b| ==> a[i] != b[i]
    ensures i == CommonPrefixCount(a, b)
  {
    var k := CommonPrefixCount(a, b);
    if i < k {
      assert false;
    } else if k < i {
      assert false;
    }
  }

  /** The shared-prefix byte length of `line` against `prec`: the UTF-8
      length of their common leading scalars. */
  function PrefixByteLen(line: seq<char>, prec: seq<char>): (p: nat)
    ensures p <= |Utf8(line)| && p <= |Utf8(prec)|
  {
    var k := CommonPrefixCount(line, prec);
    Utf8Split(line, k);
    Utf8Split(prec, k);
    |Utf8(line[..k])|
  }

  /** The prefix rule: the two lines' bytes agree on the first `p` bytes,
      `p` is a scalar boundary of both (slicing either at `p` succeeds), and
      no longer run of shared leading scalars exists. */
  lemma PrefixByteLenSpec(line: seq<char>, prec: seq<char>)
    ensures Utf8(line)[..PrefixByteLen(line, prec)] == Utf8(prec)[..PrefixByteLen(line, prec)]
    ensures ByteSlice(line, PrefixByteLen(line, prec)).Some?
    ensures ByteSlice(prec, PrefixByteLen(line, prec)).Some?
    ensures forall j :: 0 <= j <= |line| && j <= |prec| && line[..j] == prec[..j] ==>
      |Utf8(line[..j])| <= PrefixByteLen(line, prec)
  {
    var k := CommonPrefixCount(line, prec);
    Utf8Split(line, k);
    Utf8Split(prec, k);
    ByteSliceAtBoundary(line, k);
    ByteSliceAtBoundary(prec, k);
    forall j | 0 <= j <= |line| && j <= |prec| && line[..j] == prec[..j]
      ensures |Utf8(line[..j])| <= PrefixByteLen(line, prec)
    {
      if j > k {
        assert false;
      }
      assert line[..j] == line[..k][..j];
      Utf8Split(line[..k], j);
    }
  }

  /** The prefix scan of both `next` methods: walk the two lines scalar by
      scalar, summing `len_utf8` while they agree. */
  method ScanPrefix(line: seq<char>, prec: seq<char>) returns (prefixLen: nat)
    ensures prefixLen == PrefixByteLen(line, prec)
  {
    prefixLen := 0;
    var i := 0;
    while i < |line| && i < |prec|
      invariant i <= |line| && i <= |prec|
      invariant line[..i] == prec[..i]
      invariant prefixLen == |Utf8(line[..i])|
    {
      if line[i] == prec[i] {
        Utf8Snoc(line[..i], line[i]);
        assert line[..i + 1] == line[..i] + [line[i]];
        assert prec[..i + 1] == prec[..i] + [prec[i]];
        prefixLen := prefixLen + Utf8Len(line[i]);
        i := i + 1;
      } else {
        break;
      }
    }
    CommonPrefixCountUnique(line, prec, i);
  }

  // ---------------------------------------------------------------------
  // The encoder step
  // ---------------------------------------------------------------------

  /** The cursor both codecs keep: the header flag, the previous line's
      shared-prefix byte length (an i16), and the previous line. */
  datatype Cursor = Cursor(init: bool, precPrefixLen: int, prec: string)

  const START := Cursor(false, 0, "")

  /** What one call of `FrCompress::next` produces: nothing left, a chunk,
      a line the older encoder refuses (it returns None), or the current
      encoder's `assert!(suffix_len < 32768)` failing (a panic). */
  datatype EncodeItem = Exhausted | Chunk(bytes: seq<byte>) | Rejected | SuffixTooLong

  /** What opens a chunk: the header, before the first entry only. */
  function Opening(init: bool): seq<byte>
  {
    if init then [] else HEADER
  }

  /** One entry on the wire: the offset field, the suffix-length field and
      the suffix bytes. */
  function EntryBytes(offset: int, suffix: seq<byte>): seq<byte>
    requires IsI16(offset) && |suffix| < 32768
  {
    EncodeCount(offset) + EncodeCount(|suffix|) + suffix
  }

  /** One call of `next` on a line: the header if not yet written, then
      the entry; the cursor moves to this line. The current version casts
      the prefix length with `as i16` and subtracts in i16 (wrapping in a
      release build). */
  function EncodeRecord(v: Version, cur: Cursor, line: string): (r: (EncodeItem, Cursor))
    ensures r.0.Chunk? || r.0.Rejected? || r.0.SuffixTooLong?
    ensures v == Current ==> !r.0.Rejected?
    ensures v == Legacy ==> !r.0.SuffixTooLong?
    ensures r.0.Rejected? <==> v == Legacy && |Utf8(line)| > 32767
    ensures r.0.SuffixTooLong? <==> v == Current && |Utf8(line)| - PrefixByteLen(line, cur.prec) >= 32768
    ensures r.1.init
  {
    var bytes := Utf8(line);
    if v == Legacy && |bytes| > 32767 then (Rejected, cur.(init := true))
    else
      var prefixLen := PrefixByteLen(line, cur.prec);
      var offset := WrapI16(WrapI16(prefixLen) - cur.precPrefixLen);
      if |bytes| - prefixLen >= 32768 then
        assert v == Current;
        (SuffixTooLong, cur.(init := true))
      else
        (Chunk(Opening(cur.init) + EntryBytes(offset, bytes[prefixLen..])),
         Cursor(true, WrapI16(prefixLen), line))
  }

  /** The chunk for a line of at most 32767 bytes, from a cursor holding an
      i16 prefix length: no wrap-around happens; with `k` the number of
      shared leading scalars and `p` their byte length, the offset is p
      minus the previous p, the suffix is the bytes of the scalars after
      the first `k` (so it never starts inside a scalar), and the cursor
      then holds this line and p. */
  lemma ChunkLayout(v: Version, cur: Cursor, line: string)
    requires 0 <= cur.precPrefixLen <= 32767 && |Utf8(line)| <= 32767
    ensures var k := CommonPrefixCount(line, cur.prec);
            var p := |Utf8(line[..k])|;
            && k <= |line| && k <= |cur.prec| && line[..k] == cur.prec[..k]
            && p == PrefixByteLen(line, cur.prec)
            && p + |Utf8(line[k..])| == |Utf8(line)|
            && EncodeRecord(v, cur, line).0.Chunk?
            && EncodeRecord(v, cur, line).0.bytes
               == Opening(cur.init) + EntryBytes(p - cur.precPrefixLen, Utf8(line[k..]))
            && EncodeRecord(v, cur, line).1 == Cursor(true, p, line)
  {
    var k := CommonPrefixCount(line, cur.prec);
    var p := PrefixByteLen(line, cur.prec);
    assert WrapI16(p) == p;
    assert WrapI16(p - cur.precPrefixLen) == p - cur.precPrefixLen;
    Utf8Split(line, k);
  }

  /** The concatenated chunks of the lines from a cursor on: all of them,
      or up to the first line the older encoder refuses (iteration ends
      there); None when the current encoder panics. */
  function Compress(v: Version, cur: Cursor, lines: seq<string>): Option<seq<byte>>
    decreases |lines|
  {
    if lines == [] then Some([])
    else match EncodeRecord(v, cur, lines[0])
      case (Chunk(c), next) =>
        (match Compress(v, next, lines[1..])
         case None => None
         case Some(rest) => Some(c + rest))
      case (SuffixTooLong, _) => None
      case (_, _) => Some([])
  }

  /** No line of `lines` is longer than 32767 bytes. */
  predicate Representable(lines: seq<string>)
  {
    forall i | 0 <= i < |lines| :: |Utf8(lines[i])| <= 32767
  }

  /** The older encoder refuses a line over 32767 bytes: the iteration
      ends there with nothing written, not even the header, and only the
      `init` flag moves, to true. */
  lemma LegacyRejects(cur: Cursor, line: string, rest: seq<string>)
    requires |Utf8(line)| > 32767
    ensures EncodeRecord(Legacy, cur, line) == (Rejected, Cursor(true, cur.precPrefixLen, cur.prec))
    ensures Compress(Legacy, cur, [line] + rest) == Some([])
  {
    assert ([line] + rest)[0] == line;
  }

  /** The leading lines that are at most 32767 bytes long. */
  function KeptPrefix(lines: seq<string>): (r: seq<string>)
    ensures |r| <= |lines| && r == lines[..|r|] && Representable(r)
    ensures |r| < |lines| ==> |Utf8(lines[|r|])| > 32767
  {
    if lines == [] || |Utf8(lines[0])| > 32767 then []
    else
      var r := [lines[0]] + KeptPrefix(lines[1..]);
      assert r == lines[..|r|];
      r
  }

  /** The older encoder drops a line over 32767 bytes and every line after
      it; the database it writes is that of the lines before. */
  lemma {:induction false} LegacyDropsFromOverlong(cur: Cursor, lines: seq<string>)
    ensures Compress(Legacy, cur, lines) == Compress(Legacy, cur, KeptPrefix(lines))
    decreases |lines|
  {
    if lines != [] && |Utf8(lines[0])| <= 32767 {
      var kept := KeptPrefix(lines);
      assert kept[0] == lines[0] && kept[1..] == KeptPrefix(lines[1..]);
      match EncodeRecord(Legacy, cur, lines[0])
      case (Chunk(c), next) =>
        LegacyDropsFromOverlong(next, lines[1..]);
      case (_, _) =>
    }
  }

  /** The database of a non-empty list opens with the header. */
  lemma CompressStartsWithHeader(v: Version, lines: seq<string>)
    requires lines != [] && Representable(lines)
    ensures Compress(v, START, lines).Some?
    ensures |Compress(v, START, lines).value| >= |HEADER|
    ensures Compress(v, START, lines).value[..|HEADER|] == HEADER
  {
    ChunkLayout(v, START, lines[0]);
    RoundTripFrom(v, START, lines);
    var c := EncodeRecord(v, START, lines[0]).0.bytes;
    assert c[..|HEADER|] == HEADER;
  }

  // ---------------------------------------------------------------------
  // The decoder step
  // ---------------------------------------------------------------------

  /** The decoder: its cursor and the bytes its byte iterator has yet to
      produce. */
  datatype DecoderState = DecoderState(cursor: Cursor, input: seq<byte>)

  datatype DecodeError =
    | InvalidLabel                   // INVALID_LABEL_MESSAGE
    | InvalidUtf8(bytes: seq<byte>)  // FromUtf8Error, with the bytes refused

  /** What one call of `FrDecompress::next` produces: None, a line, an
      error, or a panic (an `assert_eq!`, an i16 overflow, or a slice of
      `prec` out of range or inside a scalar). */
  datatype Item = EndOfStream | Entry(line: string) | Failure(error: DecodeError) | Panic

  /** A read that runs out of input part-way: the current version's
      `assert_eq!` fails, the older one returns None; either way the byte
      iterator has been drained. */
  function ShortRead(v: Version, st: DecoderState): (Item, DecoderState)
  {
    (ShortItem(v), st.(input := []))
  }

  /** The item of a read cut short. */
  function ShortItem(v: Version): Item
  {
    if v == Current then Panic else EndOfStream
  }

  /** `next` once the header has been read: an offset, a suffix length,
      the suffix; then the line is rebuilt from the cursor. */
  function ReadEntry(v: Version, st: DecoderState): (r: (Item, DecoderState))
    ensures Consumes(st, r)
  {
    match ReadCount(st.input)
    case Eof => (EndOfStream, st)
    case Short => ShortRead(v, st)
    case Count(offset, rest1) =>
      match ReadCount(rest1)
      case Eof => (EndOfStream, st.(input := rest1))
      case Short => ShortRead(v, st)
      case Count(suffixLen, rest2) =>
        match TakeBytes(rest2, suffixLen)
        case ShortTake => ShortRead(v, st)
        case Taken(suffixBytes, rest3) =>
          var (item, cursor) := Rebuild(st.cursor, offset, suffixBytes);
          (item, DecoderState(cursor, rest3))
  }

  /** The line is `prec[..prec_prefix_len + offset] ++ suffix`. A suffix
      that is not UTF-8 is an error that leaves the cursor alone; a prefix
      length outside 0..=32767 or a line longer than 32767 bytes overflows
      i16 (a panic in a debug build, a capacity or slice panic after
      wrapping in a release build), and so does a slice of `prec` past its
      end or inside a scalar. */
  function Rebuild(cur: Cursor, offset: int, suffixBytes: seq<byte>): (r: (Item, Cursor))
    ensures r.0.Entry? ==> r.1 == Cursor(true, cur.precPrefixLen + offset, r.0.line)
    ensures !r.0.Entry? ==> r.1 == cur && r.0 != EndOfStream
  {
    match DecodeUtf8(suffixBytes)
    case None => (Failure(InvalidUtf8(suffixBytes)), cur)
    case Some(suffix) => Splice(cur, cur.precPrefixLen + offset, |suffixBytes|, suffix)
  }

  /** Rebuilding fails exactly when the suffix bytes are not UTF-8, and the
      error is then the UTF-8 error on those bytes; every other outcome is
      a line or a panic. */
  lemma RebuildFails(cur: Cursor, offset: int, suffixBytes: seq<byte>)
    ensures Rebuild(cur, offset, suffixBytes).0.Failure? <==> DecodeUtf8(suffixBytes).None?
    ensures DecodeUtf8(suffixBytes).None? ==> Rebuild(cur, offset, suffixBytes).0 == Failure(InvalidUtf8(suffixBytes))
    ensures DecodeUtf8(suffixBytes).Some? ==> Rebuild(cur, offset, suffixBytes).0.Entry? || Rebuild(cur, offset, suffixBytes).0 == Panic
  {
  }

  /** The line made of the previous line's first `prefixLen` bytes and a
      decoded suffix of `suffixLen` bytes. */
  function Splice(cur: Cursor, prefixLen: int, suffixLen: nat, suffix: string): (r: (Item, Cursor))
    ensures r.0.Entry? ==> r.1 == Cursor(true, prefixLen, r.0.line)
    ensures !r.0.Entry? ==> r.1 == cur && r.0 == Panic
  {
    if prefixLen < 0 || prefixLen + suffixLen > 32767 then (Panic, cur)
    else match ByteSlice(cur.prec, prefixLen)
      case None => (Panic, cur)
      case Some(head) => (Entry(head + suffix), Cursor(true, prefixLen, head + suffix))
  }

  /** A rebuilt line, in bytes, is the previous line's first
      `prec_prefix_len + offset` bytes followed by the suffix bytes, and it
      fits the i16 range. */
  lemma RebuildBytes(cur: Cursor, offset: int, suffixBytes: seq<byte>)
    ensures var r := Rebuild(cur, offset, suffixBytes);
            r.0.Entry? ==>
              && 0 <= r.1.precPrefixLen <= 32767 && |Utf8(r.0.line)| <= 32767
              && r.1.precPrefixLen <= |Utf8(cur.prec)|
              && Utf8(r.0.line) == Utf8(cur.prec)[..r.1.precPrefixLen] + suffixBytes
  {
    var r := Rebuild(cur, offset, suffixBytes);
    if r.0.Entry? {
      var suffix := DecodeUtf8(suffixBytes).value;
      var head := ByteSlice(cur.prec, cur.precPrefixLen + offset).value;
      RebuiltBytes(cur.prec, head, suffix, suffixBytes);
    }
  }

  /** The bytes of a rebuilt line: the head's bytes, which are a prefix of
      the previous line's, then the suffix bytes. */
  lemma RebuiltBytes(prec: string, head: string, suffix: string, suffixBytes: seq<byte>)
    requires |head| <= |prec| && head == prec[..|head|]
    requires DecodeUtf8(suffixBytes) == Some(suffix)
    ensures |Utf8(head)| <= |Utf8(prec)|
    ensures Utf8(head + suffix) == Utf8(prec)[..|Utf8(head)|] + suffixBytes
  {
    Utf8Split(prec, |head|);
    Utf8Concat(head, suffix);
    Utf8OfDecodeUtf8(suffixBytes, suffix);
  }

  /** The input left after a step is a suffix of the input before, and
      it is strictly shorter unless the stream has ended. */
  predicate Consumes(st: DecoderState, r: (Item, DecoderState))
  {
    && |r.1.input| <= |st.input| && r.1.input == st.input[|st.input| - |r.1.input|..]
    && (r.0 != EndOfStream ==> |r.1.input| < |st.input|)
  }

  /** The first call of `FrDecompress::next`: skip one byte unchecked, read
      the label length and the label, which must be `LOCATEW`, then read
      the first entry. */
  function OpenStream(v: Version, st: DecoderState): (r: (Item, DecoderState))
    ensures Consumes(st, r)
  {
    if st.input == [] then (EndOfStream, st)
    else
      var input := st.input[1..];
      match ReadCount(input)
      case Eof => (EndOfStream, st.(input := input))
      case Short => ShortRead(v, st)
      case Count(len, rest) =>
        match TakeBytes(rest, len)
        case ShortTake => ShortRead(v, st)
        case Taken(labelBytes, rest') =>
          var st' := st.(input := rest');
          match DecodeUtf8(labelBytes)
          case None => (Failure(InvalidUtf8(labelBytes)), st')
          case Some(name) =>
            if name == LABEL then ReadEntry(v, DecoderState(Cursor(true, st.cursor.precPrefixLen, st.cursor.prec), rest'))
            else (Failure(InvalidLabel), st')
  }

  /** `FrDecompress::next`. Every call that does not end the stream
      consumes input, and the input left is always a suffix of the input
      before. */
  function DecodeStep(v: Version, st: DecoderState): (r: (Item, DecoderState))
    ensures Consumes(st, r)
  {
    if st.cursor.init then ReadEntry(v, st) else OpenStream(v, st)
  }

  /** Pulling items until the stream ends (not included) or panics (the
      panic is the last item). Errors do not stop the iteration. */
  function DecodeRun(v: Version, st: DecoderState): seq<Item>
    decreases |st.input|
  {
    var (item, next) := DecodeStep(v, st);
    match item
    case EndOfStream => []
    case Panic => [Panic]
    case _ => [item] + DecodeRun(v, next)
  }

  /** No end-of-stream marker among `items`, and a panic only last. */
  predicate WellShaped(items: seq<Item>)
  {
    EndOfStream !in items && forall i | 0 <= i < |items| - 1 :: items[i] != Panic
  }

  lemma ShapeCons(item: Item, rest: seq<Item>)
    requires item != EndOfStream && item != Panic && WellShaped(rest)
    ensures WellShaped([item] + rest)
  {
    var items := [item] + rest;
    forall i | 0 <= i < |items| - 1 ensures items[i] != Panic {
      if i > 0 {
        assert items[i] == rest[i - 1];
      }
    }
  }

  /** A run never yields the end-of-stream marker, and a panic can only be
      its last item. */
  lemma {:induction false} DecodeRunShape(v: Version, st: DecoderState)
    ensures WellShaped(DecodeRun(v, st))
    decreases |st.input|
  {
    var (item, next) := DecodeStep(v, st);
    if item != EndOfStream && item != Panic {
      DecodeRunShape(v, next);
      ShapeCons(item, DecodeRun(v, next));
    }
  }

  /** The items a decoder yields for `lines`. */
  function Entries(lines: seq<string>): (r: seq<Item>)
    ensures |r| == |lines| && forall i | 0 <= i < |lines| :: r[i] == Entry(lines[i])
  {
    seq(|lines|, i requires 0 <= i < |lines| => Entry(lines[i]))
  }

  // ---------------------------------------------------------------------
  // Round trip
  // ---------------------------------------------------------------------

  /** Reading an entry gives back the fields written, whatever follows. */
  lemma ReadEntryBytes(v: Version, cur: Cursor, offset: int, suffix: seq<byte>, tail: seq<byte>)
    requires cur.init && IsI16(offset) && |suffix| < 32768
    ensures ReadEntry(v, DecoderState(cur, EntryBytes(offset, suffix) + tail))
            == (Rebuild(cur, offset, suffix).0, DecoderState(Rebuild(cur, offset, suffix).1, tail))
  {
    var input := EntryBytes(offset, suffix) + tail;
    assert input == EncodeCount(offset) + (EncodeCount(|suffix|) + (suffix + tail));
    ReadEncodedCount(offset, EncodeCount(|suffix|) + (suffix + tail));
    ReadEncodedCount(|suffix|, suffix + tail);
    assert TakeBytes(suffix + tail, |suffix|) == Taken(suffix, tail);
  }

  /** A line that shares its first `k` scalars with `prec`, cut there:
      the suffix bytes decode back, the byte lengths add up, and slicing
      `prec` at the prefix's byte length gives the prefix. */
  lemma LineParts(prec: string, line: string, k: nat)
    requires k <= |line| && k <= |prec| && line[..k] == prec[..k]
    ensures DecodeUtf8(Utf8(line[k..])) == Some(line[k..])
    ensures |Utf8(line[..k])| + |Utf8(line[k..])| == |Utf8(line)|
    ensures ByteSlice(prec, |Utf8(line[..k])|) == Some(line[..k])
    ensures line[..k] + line[k..] == line
  {
    DecodeUtf8OfUtf8(line[k..]);
    Utf8Split(line, k);
    ByteSliceAtBoundary(prec, k);
  }

  /** A suffix that decodes is spliced onto the previous line's prefix. */
  lemma RebuildSplice(cur: Cursor, prefixLen: int, suffixBytes: seq<byte>, suffix: string)
    requires DecodeUtf8(suffixBytes) == Some(suffix)
    ensures Rebuild(cur, prefixLen - cur.precPrefixLen, suffixBytes) == Splice(cur, prefixLen, |suffixBytes|, suffix)
  {
    assert cur.precPrefixLen + (prefixLen - cur.precPrefixLen) == prefixLen;
  }

  /** Splicing within the i16 range at a scalar boundary of the previous
      line gives the new line. */
  lemma SpliceLine(cur: Cursor, prefixLen: int, suffixLen: nat, head: string, suffix: string, line: string)
    requires 0 <= prefixLen && prefixLen + suffixLen <= 32767
    requires ByteSlice(cur.prec, prefixLen) == Some(head) && head + suffix == line
    ensures Splice(cur, prefixLen, suffixLen, suffix) == (Entry(line), Cursor(true, prefixLen, line))
  {
  }

  /** A byte below 0x80 is a one-byte field. */
  lemma ReadSmallCount(b: byte, rest: seq<byte>)
    requires b < 0x80
    ensures ReadCount([b] + rest) == Count(b, rest)
  {
    assert ([b] + rest)[1..] == rest;
  }

  /** Taking as many bytes as a prefix has gives that prefix back. */
  lemma TakePrefix(a: seq<byte>, b: seq<byte>)
    ensures TakeBytes(a + b, |a|) == Taken(a, b)
  {
    assert (a + b)[..|a|] == a && (a + b)[|a|..] == b;
  }

  /** After its skipped byte, the header is the label length and the label. */
  lemma HeaderParts(rest: seq<byte>)
    ensures HEADER + rest != [] && (HEADER + rest)[1..] == [7] + (LABEL_BYTES + rest)
  {
  }

  /** A valid header is accepted and consumed, and the first entry follows. */
  lemma OpenStreamHeader(v: Version, cur: Cursor, rest: seq<byte>)
    ensures OpenStream(v, DecoderState(cur, HEADER + rest))
            == ReadEntry(v, DecoderState(Cursor(true, cur.precPrefixLen, cur.prec), rest))
  {
    LabelBytes();
    HeaderParts(rest);
    ReadSmallCount(7, LABEL_BYTES + rest);
    TakePrefix(LABEL_BYTES, rest);
  }

  /** Reading the entry the encoder writes for `line` gives back `line`
      and moves the cursor to it, whatever follows. */
  lemma ReadEntryOfLine(v: Version, ppl: int, prec: string, line: string, k: nat, tail: seq<byte>)
    requires k <= |line| && k <= |prec| && line[..k] == prec[..k]
    requires 0 <= ppl <= 32767 && |Utf8(line)| <= 32767
    ensures |Utf8(line[..k])| + |Utf8(line[k..])| == |Utf8(line)|
    ensures ReadEntry(v, DecoderState(Cursor(true, ppl, prec),
                                      EntryBytes(|Utf8(line[..k])| - ppl, Utf8(line[k..])) + tail))
            == (Entry(line), DecoderState(Cursor(true, |Utf8(line[..k])|, line), tail))
  {
    var cur := Cursor(true, ppl, prec);
    var head, rest := line[..k], line[k..];
    var p, suffix := |Utf8(head)|, Utf8(rest);
    LineParts(prec, line, k);
    RebuildSplice(cur, p, suffix, rest);
    SpliceLine(cur, p, |suffix|, head, rest, line);
    ReadEntryBytes(v, cur, p - ppl, suffix, tail);
  }

  /** A chunk is read as its entry, the header first when it has one. */
  lemma DecodeOpening(v: Version, cur: Cursor, entry: seq<byte>, tail: seq<byte>)
    ensures DecodeStep(v, DecoderState(cur, Opening(cur.init) + entry + tail))
            == ReadEntry(v, DecoderState(Cursor(true, cur.precPrefixLen, cur.prec), entry + tail))
  {
    if cur.init {
      assert Cursor(true, cur.precPrefixLen, cur.prec) == cur;
      assert Opening(cur.init) + entry + tail == entry + tail;
    } else {
      assert Opening(cur.init) + entry + tail == HEADER + (entry + tail);
      OpenStreamHeader(v, cur, entry + tail);
    }
  }

  /** Decoding one chunk from the cursor that encoded it yields the line
      and moves the decoder's cursor exactly where the encoder's went. */
  lemma DecodeChunk(v: Version, cur: Cursor, line: string, tail: seq<byte>)
    requires 0 <= cur.precPrefixLen <= 32767 && |Utf8(line)| <= 32767
    ensures EncodeRecord(v, cur, line).0.Chunk?
    ensures 0 <= EncodeRecord(v, cur, line).1.precPrefixLen <= 32767
    ensures DecodeStep(v, DecoderState(cur, EncodeRecord(v, cur, line).0.bytes + tail))
            == (Entry(line), DecoderState(EncodeRecord(v, cur, line).1, tail))
  {
    var k := CommonPrefixCount(line, cur.prec);
    DecodeLineChunk(v, cur, line, k, tail);
    ChunkBytes(v, cur, line, k);
  }

  /** The bytes and cursor of that chunk, as the decoder reads them. */
  lemma ChunkBytes(v: Version, cur: Cursor, line: string, k: nat)
    requires 0 <= cur.precPrefixLen <= 32767 && |Utf8(line)| <= 32767
    requires k == CommonPrefixCount(line, cur.prec)
    ensures |Utf8(line[..k])| + |Utf8(line[k..])| == |Utf8(line)|
    ensures EncodeRecord(v, cur, line).0.Chunk?
    ensures EncodeRecord(v, cur, line).0.bytes
            == Opening(cur.init) + EntryBytes(|Utf8(line[..k])| - cur.precPrefixLen, Utf8(line[k..]))
    ensures EncodeRecord(v, cur, line).1 == Cursor(true, |Utf8(line[..k])|, line)
  {
    ChunkLayout(v, cur, line);
  }

  /** The chunk written for `line` against a previous line sharing its
      first `k` scalars decodes as `line`, whatever follows. */
  lemma DecodeLineChunk(v: Version, cur: Cursor, line: string, k: nat, tail: seq<byte>)
    requires k <= |line| && k <= |cur.prec| && line[..k] == cur.prec[..k]
    requires 0 <= cur.precPrefixLen <= 32767 && |Utf8(line)| <= 32767
    ensures |Utf8(line[..k])| + |Utf8(line[k..])| == |Utf8(line)|
    ensures DecodeStep(v, DecoderState(cur, Opening(cur.init)
                                            + EntryBytes(|Utf8(line[..k])| - cur.precPrefixLen, Utf8(line[k..]))
                                            + tail))
            == (Entry(line), DecoderState(Cursor(true, |Utf8(line[..k])|, line), tail))
  {
    var p, suffix := |Utf8(line[..k])|, Utf8(line[k..]);
    ReadEntryOfLine(v, cur.precPrefixLen, cur.prec, line, k, tail);
    var entry := EntryBytes(p - cur.precPrefixLen, suffix);
    var next := DecoderState(Cursor(true, p, line), tail);
    assert ReadEntry(v, DecoderState(Cursor(true, cur.precPrefixLen, cur.prec), entry + tail)) == (Entry(line), next);
    ChunkStep(v, cur, entry, tail, Entry(line), next);
  }

  /** A chunk is decoded as the entry it holds, its header checked first. */
  lemma ChunkStep(v: Version, cur: Cursor, entry: seq<byte>, tail: seq<byte>, item: Item, next: DecoderState)
    requires ReadEntry(v, DecoderState(Cursor(true, cur.precPrefixLen, cur.prec), entry + tail)) == (item, next)
    ensures DecodeStep(v, DecoderState(cur, Opening(cur.init) + entry + tail)) == (item, next)
  {
    DecodeOpening(v, cur, entry, tail);
  }

  /** A step that yields an entry is followed by the rest of the run. */
  lemma DecodeRunEntry(v: Version, st: DecoderState, line: string, next: DecoderState)
    requires DecodeStep(v, st) == (Entry(line), next)
    ensures DecodeRun(v, st) == [Entry(line)] + DecodeRun(v, next)
  {
  }

  /** Nothing is decoded from no bytes. */
  lemma DecodeRunEmpty(v: Version, cur: Cursor)
    ensures DecodeRun(v, DecoderState(cur, [])) == []
  {
    assert DecodeStep(v, DecoderState(cur, [])).0 == EndOfStream;
  }

  /** The chunks of a list are the first line's chunk, then the others'. */
  lemma CompressCons(v: Version, cur: Cursor, lines: seq<string>)
    requires lines != [] && EncodeRecord(v, cur, lines[0]).0.Chunk?
    requires Compress(v, EncodeRecord(v, cur, lines[0]).1, lines[1..]).Some?
    ensures Compress(v, cur, lines)
            == Some(EncodeRecord(v, cur, lines[0]).0.bytes
                    + Compress(v, EncodeRecord(v, cur, lines[0]).1, lines[1..]).value)
  {
  }

  lemma RepresentableTail(lines: seq<string>)
    requires lines != [] && Representable(lines)
    ensures |Utf8(lines[0])| <= 32767 && Representable(lines[1..])
  {
    forall i | 0 <= i < |lines[1..]| ensures |Utf8(lines[1..][i])| <= 32767 {
      assert lines[1..][i] == lines[i + 1];
    }
  }

  /** The encoder's cursor keeps an i16 prefix length on representable
      lines, which always yield a chunk. */
  lemma ChunkCursor(v: Version, cur: Cursor, line: string)
    requires 0 <= cur.precPrefixLen <= 32767 && |Utf8(line)| <= 32767
    ensures EncodeRecord(v, cur, line).0.Chunk?
    ensures 0 <= EncodeRecord(v, cur, line).1.precPrefixLen <= 32767
  {
    ChunkLayout(v, cur, line);
  }

  /** A step that yields the first line, followed by a run that yields
      the others, is a run that yields all of them. */
  lemma RunCons(v: Version, st: DecoderState, next: DecoderState, lines: seq<string>)
    requires lines != [] && DecodeStep(v, st) == (Entry(lines[0]), next)
    requires DecodeRun(v, next) == Entries(lines[1..])
    ensures DecodeRun(v, st) == Entries(lines)
  {
    DecodeRunEntry(v, st, lines[0], next);
    EntriesCons(lines);
  }

  lemma EntriesCons(lines: seq<string>)
    requires lines != []
    ensures Entries(lines) == [Entry(lines[0])] + Entries(lines[1..])
  {
  }

  /** One round-trip step: the first line's chunk decodes to the first
      line, then the decoder goes on exactly as it would on the rest. */
  lemma RoundTripCons(v: Version, cur: Cursor, lines: seq<string>)
    requires lines != [] && 0 <= cur.precPrefixLen <= 32767 && |Utf8(lines[0])| <= 32767
    requires var next := EncodeRecord(v, cur, lines[0]).1;
             && Compress(v, next, lines[1..]).Some?
             && DecodeRun(v, DecoderState(next, Compress(v, next, lines[1..]).value)) == Entries(lines[1..])
    ensures Compress(v, cur, lines).Some?
    ensures DecodeRun(v, DecoderState(cur, Compress(v, cur, lines).value)) == Entries(lines)
  {
    var next := EncodeRecord(v, cur, lines[0]).1;
    var tail := Compress(v, next, lines[1..]).value;
    DecodeChunk(v, cur, lines[0], tail);
    CompressCons(v, cur, lines);
    RunCons(v, DecoderState(cur, Compress(v, cur, lines).value), DecoderState(next, tail), lines);
  }

  /** The round trip from any cursor holding an i16 prefix length. */
  lemma {:induction false} RoundTripFrom(v: Version, cur: Cursor, lines: seq<string>)
    requires 0 <= cur.precPrefixLen <= 32767 && Representable(lines)
    ensures Compress(v, cur, lines).Some?
    ensures DecodeRun(v, DecoderState(cur, Compress(v, cur, lines).value)) == Entries(lines)
    decreases |lines|
  {
    if lines == [] {
      DecodeRunEmpty(v, cur);
    } else {
      RepresentableTail(lines);
      ChunkCursor(v, cur, lines[0]);
      RoundTripFrom(v, EncodeRecord(v, cur, lines[0]).1, lines[1..]);
      RoundTripCons(v, cur, lines);
    }
  }

  /** Round trip: decoding the concatenated chunks of any lines of at most
      32767 bytes yields exactly those lines, in order, with no error, and
      then a clean end of stream. */
  lemma RoundTrip(v: Version, lines: seq<string>)
    requires Representable(lines)
    ensures Compress(v, START, lines).Some?
    ensures DecodeRun(v, DecoderState(START, Compress(v, START, lines).value)) == Entries(lines)
  {
    RoundTripFrom(v, START, lines);
  }

  // ---------------------------------------------------------------------
  // Truncation
  // ---------------------------------------------------------------------

  /** An entry cut after `j` of its bytes: a cut before the offset or
      between the two fields is a clean end; any other cut is a short
      read (a panic in the current version, a clean end in the older). */
  lemma TruncatedEntry(v: Version, cur: Cursor, offset: int, suffix: seq<byte>, j: nat)
    requires cur.init && IsI16(offset) && |suffix| < 32768
    requires j < |EntryBytes(offset, suffix)|
    ensures ReadEntry(v, DecoderState(cur, EntryBytes(offset, suffix)[..j])).0
            == if j == 0 || j == |EncodeCount(offset)| then EndOfStream else ShortItem(v)
  {
    var o := EncodeCount(offset);
    var rest := EncodeCount(|suffix|) + suffix;
    assert EntryBytes(offset, suffix) == o + rest;
    if j <= |o| {
      CutInOffset(v, cur, offset, rest, j);
    } else {
      assert (o + rest)[..j] == o + rest[..j - |o|];
      CutAfterOffset(v, cur, offset, suffix, j - |o|);
    }
  }

  /** A cut inside, or right after, the offset field of an entry. */
  lemma CutInOffset(v: Version, cur: Cursor, offset: int, rest: seq<byte>, j: nat)
    requires cur.init && IsI16(offset) && j <= |EncodeCount(offset)|
    ensures ReadEntry(v, DecoderState(cur, (EncodeCount(offset) + rest)[..j])).0
            == if j == 0 || j == |EncodeCount(offset)| then EndOfStream else ShortItem(v)
  {
    var o := EncodeCount(offset);
    ReadTruncatedCount(offset, rest, j);
    if j == |o| {
      assert (o + rest)[..j] == o + [];
      ReadEncodedCount(offset, []);
    }
  }

  /** A cut after the offset field and before the end of the suffix. */
  lemma CutAfterOffset(v: Version, cur: Cursor, offset: int, suffix: seq<byte>, j: nat)
    requires cur.init && IsI16(offset) && |suffix| < 32768
    requires 0 < j < |EncodeCount(|suffix|) + suffix|
    ensures ReadEntry(v, DecoderState(cur, EncodeCount(offset) + (EncodeCount(|suffix|) + suffix)[..j])).0
            == ShortItem(v)
  {
    var rest := EncodeCount(|suffix|) + suffix;
    var cut := rest[..j];
    var st := DecoderState(cur, EncodeCount(offset) + cut);
    ReadEncodedCount(offset, cut);
    assert ReadCount(st.input) == Count(offset, cut);
    ReadTruncatedCount(|suffix|, suffix, j);
    var n := |EncodeCount(|suffix|)|;
    if j < n {
      assert ReadCount(cut).Short?;
    } else {
      var part := suffix[..j - n];
      assert cut == EncodeCount(|suffix|) + part;
      ReadEncodedCount(|suffix|, part);
      assert ReadCount(cut) == Count(|suffix|, part);
      assert TakeBytes(part, |suffix|).ShortTake?;
    }
    assert ReadEntry(v, st) == ShortRead(v, st);
  }

  /** The header cut after `j` of its bytes: nothing, or only the skipped
      byte, is a clean end; a cut inside the label is a short read. */
  lemma TruncatedHeader(v: Version, cur: Cursor, j: nat)
    requires j < |HEADER|
    ensures OpenStream(v, DecoderState(cur, HEADER[..j])).0
            == if j <= 1 then EndOfStream else ShortItem(v)
  {
    if j >= 2 {
      assert HEADER[..j][1..] == [7] + LABEL_BYTES[..j - 2];
      OpenShortLabel(v, cur, HEADER[..j], LABEL_BYTES[..j - 2]);
    }
  }

  /** A header whose label is cut short. */
  lemma OpenShortLabel(v: Version, cur: Cursor, input: seq<byte>, cutLabel: seq<byte>)
    requires input != [] && input[1..] == [7] + cutLabel && |cutLabel| < 7
    ensures OpenStream(v, DecoderState(cur, input)).0 == ShortItem(v)
  {
    ReadSmallCount(7, cutLabel);
  }

  /** A header whose label is anything but `LOCATEW` gives an error
      before any line: an invalid-label error, or a UTF-8 error when the
      label is not UTF-8. The header is consumed and the decoder is still
      waiting for a header, so a run goes on from the bytes after it. */
  lemma BadLabel(v: Version, cur: Cursor, skipped: byte, labelBytes: seq<byte>, rest: seq<byte>)
    requires !cur.init && |labelBytes| <= 32767 && labelBytes != LABEL_BYTES
    ensures var st := DecoderState(cur, [skipped] + EncodeCount(|labelBytes|) + labelBytes + rest);
            var failure := if DecodeUtf8(labelBytes).None? then Failure(InvalidUtf8(labelBytes))
                           else Failure(InvalidLabel);
            && DecodeStep(v, st) == (failure, DecoderState(cur, rest))
            && DecodeRun(v, st) == [failure] + DecodeRun(v, DecoderState(cur, rest))
  {
    var input := [skipped] + EncodeCount(|labelBytes|) + labelBytes + rest;
    assert input != [] && input[1..] == EncodeCount(|labelBytes|) + (labelBytes + rest);
    var name := DecodeUtf8(labelBytes);
    assert name.Some? ==> name.value != LABEL by {
      if name.Some? {
        LabelBytes();
        Utf8OfDecodeUtf8(labelBytes, name.value);
      }
    }
    OpenBadLabel(v, cur, input, labelBytes, rest);
  }

  lemma OpenBadLabel(v: Version, cur: Cursor, input: seq<byte>, labelBytes: seq<byte>, rest: seq<byte>)
    requires !cur.init && |labelBytes| <= 32767
    requires input != [] && input[1..] == EncodeCount(|labelBytes|) + (labelBytes + rest)
    requires DecodeUtf8(labelBytes) != Some(LABEL)
    ensures var failure := if DecodeUtf8(labelBytes).None? then Failure(InvalidUtf8(labelBytes))
                           else Failure(InvalidLabel);
            OpenStream(v, DecoderState(cur, input)) == (failure, DecoderState(cur, rest))
  {
    ReadEncodedCount(|labelBytes|, labelBytes + rest);
    TakePrefix(labelBytes, rest);
  }

  /** A record whose suffix bytes are not UTF-8 gives one UTF-8 error:
      the record is consumed, the cursor stays where it was, and a run goes
      on from the bytes after it. */
  lemma BadSuffix(v: Version, cur: Cursor, offset: int, suffix: seq<byte>, rest: seq<byte>)
    requires cur.init && IsI16(offset) && |suffix| < 32768 && DecodeUtf8(suffix).None?
    ensures var st := DecoderState(cur, EntryBytes(offset, suffix) + rest);
            && DecodeStep(v, st) == (Failure(InvalidUtf8(suffix)), DecoderState(cur, rest))
            && DecodeRun(v, st) == [Failure(InvalidUtf8(suffix))] + DecodeRun(v, DecoderState(cur, rest))
  {
    ReadEntryBytes(v, cur, offset, suffix, rest);
  }

  /** What a run yields when its first step ends or panics. */
  lemma DecodeRunStops(v: Version, st: DecoderState)
    requires DecodeStep(v, st).0 == EndOfStream || DecodeStep(v, st).0 == Panic
    ensures DecodeRun(v, st) == if DecodeStep(v, st).0 == Panic then [Panic] else []
  {
  }

  /** A chunk cut after `j` of its bytes yields no line: either a clean
      end, or (current version only) a panic. */
  lemma TruncatedOpening(v: Version, cur: Cursor, offset: int, suffix: seq<byte>, j: nat)
    requires IsI16(offset) && |suffix| < 32768
    requires j < |Opening(cur.init) + EntryBytes(offset, suffix)|
    ensures var items := DecodeRun(v, DecoderState(cur, (Opening(cur.init) + EntryBytes(offset, suffix))[..j]));
            items == [] || (v == Current && items == [Panic])
  {
    var entry := EntryBytes(offset, suffix);
    var c := Opening(cur.init) + entry;
    var st := DecoderState(cur, c[..j]);
    if cur.init {
      assert c[..j] == entry[..j];
      TruncatedEntry(v, cur, offset, suffix, j);
    } else if j < |HEADER| {
      assert c[..j] == HEADER[..j];
      TruncatedHeader(v, cur, j);
    } else {
      var j' := j - |HEADER|;
      assert c[..j] == HEADER + entry[..j'];
      OpenStreamHeader(v, cur, entry[..j']);
      TruncatedEntry(v, Cursor(true, cur.precPrefixLen, cur.prec), offset, suffix, j');
    }
    DecodeRunStops(v, st);
  }

  /** The same, for the chunk the encoder writes for `line`. */
  lemma TruncatedChunk(v: Version, cur: Cursor, line: string, j: nat)
    requires 0 <= cur.precPrefixLen <= 32767 && |Utf8(line)| <= 32767
    requires EncodeRecord(v, cur, line).0.Chunk? && j < |EncodeRecord(v, cur, line).0.bytes|
    ensures var items := DecodeRun(v, DecoderState(cur, EncodeRecord(v, cur, line).0.bytes[..j]));
            items == [] || (v == Current && items == [Panic])
  {
    ChunkLayout(v, cur, line);
    var k := CommonPrefixCount(line, cur.prec);
    TruncatedOpening(v, cur, |Utf8(line[..k])| - cur.precPrefixLen, Utf8(line[k..]), j);
  }

  /** How many chunks of the database of `lines` (from `cur`) lie wholly
      within its first `j` bytes. */
  function WholeChunks(v: Version, cur: Cursor, lines: seq<string>, j: int): (m: nat)
    ensures m <= |lines|
    decreases |lines|
  {
    if lines == [] then 0
    else
      var r := EncodeRecord(v, cur, lines[0]);
      if r.0.Chunk? && |r.0.bytes| <= j then 1 + WholeChunks(v, r.1, lines[1..], j - |r.0.bytes|) else 0
  }

  /** What a decoder yields on a cut database: the lines `done`, then
      nothing or, in the current version only, a panic. */
  predicate CutOutcome(v: Version, items: seq<Item>, done: seq<string>)
  {
    items == Entries(done) || (v == Current && items == Entries(done) + [Panic])
  }

  /** A cut inside the first chunk yields no line. */
  lemma TruncatedFirst(v: Version, cur: Cursor, lines: seq<string>, j: nat)
    requires lines != [] && 0 <= cur.precPrefixLen <= 32767 && |Utf8(lines[0])| <= 32767
    requires Compress(v, cur, lines).Some? && j <= |Compress(v, cur, lines).value|
    requires EncodeRecord(v, cur, lines[0]).0.Chunk? && j < |EncodeRecord(v, cur, lines[0]).0.bytes|
    requires Compress(v, EncodeRecord(v, cur, lines[0]).1, lines[1..]).Some?
    ensures WholeChunks(v, cur, lines, j) == 0
    ensures CutOutcome(v, DecodeRun(v, DecoderState(cur, Compress(v, cur, lines).value[..j])), [])
  {
    var c := EncodeRecord(v, cur, lines[0]).0.bytes;
    var tail := Compress(v, EncodeRecord(v, cur, lines[0]).1, lines[1..]).value;
    CompressCons(v, cur, lines);
    assert (c + tail)[..j] == c[..j];
    TruncatedChunk(v, cur, lines[0], j);
  }

  /** A cut past the first chunk yields the first line, then what the
      same cut yields on the rest. */
  lemma TruncatedCons(v: Version, cur: Cursor, lines: seq<string>, j: nat, c: seq<byte>, next: Cursor)
    requires lines != [] && 0 <= cur.precPrefixLen <= 32767 && |Utf8(lines[0])| <= 32767
    requires IsChunk(EncodeRecord(v, cur, lines[0]), c, next)
    requires Compress(v, next, lines[1..]).Some?
    requires |c| <= j <= |c| + |Compress(v, next, lines[1..]).value|
    requires CutOutcome(v, DecodeRun(v, DecoderState(next, Compress(v, next, lines[1..]).value[..j - |c|])),
                        lines[1..][..WholeChunks(v, next, lines[1..], j - |c|)])
    ensures Compress(v, cur, lines).Some? && j <= |Compress(v, cur, lines).value|
    ensures CutOutcome(v, DecodeRun(v, DecoderState(cur, Compress(v, cur, lines).value[..j])),
                       lines[..WholeChunks(v, cur, lines, j)])
  {
    var line := lines[0];
    var tail := Compress(v, next, lines[1..]).value;
    var m := WholeChunks(v, next, lines[1..], j - |c|);
    var items := DecodeRun(v, DecoderState(next, tail[..j - |c|]));
    CompressCons(v, cur, lines);
    assert Compress(v, cur, lines).value == c + tail;
    CutChunkRun(v, cur, line, c, next, tail, j);
    CutLines(v, cur, lines, c, next, j, m);
    CutOutcomeCons(v, line, items, lines[1..][..m]);
  }

  /** An encoder step that wrote the chunk `c` and moved to `next`. */
  predicate IsChunk(r: (EncodeItem, Cursor), c: seq<byte>, next: Cursor)
  {
    r.0.Chunk? && r.0.bytes == c && r.1 == next
  }

  /** A cut past a whole chunk decodes that chunk's line, then whatever
      the cut leaves of the rest. */
  lemma CutChunkRun(v: Version, cur: Cursor, line: string, c: seq<byte>, next: Cursor, tail: seq<byte>, j: nat)
    requires 0 <= cur.precPrefixLen <= 32767 && |Utf8(line)| <= 32767
    requires IsChunk(EncodeRecord(v, cur, line), c, next)
    requires |c| <= j <= |c| + |tail|
    ensures DecodeRun(v, DecoderState(cur, (c + tail)[..j]))
            == [Entry(line)] + DecodeRun(v, DecoderState(next, tail[..j - |c|]))
  {
    CutPastChunk(c, tail, j);
    DecodeChunk(v, cur, line, tail[..j - |c|]);
    DecodeRunEntry(v, DecoderState(cur, c + tail[..j - |c|]), line, DecoderState(next, tail[..j - |c|]));
  }

  /** A cut past the first whole chunk keeps its line and the lines whose
      chunks the rest of the cut holds. */
  lemma CutLines(v: Version, cur: Cursor, lines: seq<string>, c: seq<byte>, next: Cursor, j: nat, m: nat)
    requires lines != [] && IsChunk(EncodeRecord(v, cur, lines[0]), c, next)
    requires |c| <= j && m == WholeChunks(v, next, lines[1..], j - |c|)
    ensures WholeChunks(v, cur, lines, j) == m + 1 <= |lines|
    ensures lines[..WholeChunks(v, cur, lines, j)] == [lines[0]] + lines[1..][..m]
  {
    WholeChunksStep(v, cur, lines, c, next, j);
    TakeCons(lines, m);
  }

  /** A cut past the first chunk counts that chunk and goes on after it. */
  lemma WholeChunksStep(v: Version, cur: Cursor, lines: seq<string>, c: seq<byte>, next: Cursor, j: nat)
    requires lines != [] && IsChunk(EncodeRecord(v, cur, lines[0]), c, next) && |c| <= j
    ensures WholeChunks(v, cur, lines, j) == 1 + WholeChunks(v, next, lines[1..], j - |c|)
  {
  }

  lemma CutPastChunk(c: seq<byte>, tail: seq<byte>, j: nat)
    requires |c| <= j <= |c| + |tail|
    ensures (c + tail)[..j] == c + tail[..j - |c|]
  {
  }

  lemma TakeCons<T>(s: seq<T>, m: nat)
    requires m < |s|
    ensures s[..m + 1] == [s[0]] + s[1..][..m]
  {
  }

  lemma CutOutcomeCons(v: Version, line: string, items: seq<Item>, done: seq<string>)
    requires CutOutcome(v, items, done)
    ensures CutOutcome(v, [Entry(line)] + items, [line] + done)
  {
    assert Entries([line] + done) == [Entry(line)] + Entries(done);
    assert [Entry(line)] + (Entries(done) + [Panic]) == Entries([line] + done) + [Panic];
  }

  /** Truncation: a database cut after any `j` of its bytes yields exactly
      the lines of the chunks wholly before the cut, in order, with no
      error; then it ends cleanly or, in the current version only, panics. */
  lemma {:induction false} TruncatedFrom(v: Version, cur: Cursor, lines: seq<string>, j: nat)
    requires 0 <= cur.precPrefixLen <= 32767 && Representable(lines)
    requires Compress(v, cur, lines).Some? && j <= |Compress(v, cur, lines).value|
    ensures CutOutcome(v, DecodeRun(v, DecoderState(cur, Compress(v, cur, lines).value[..j])),
                       lines[..WholeChunks(v, cur, lines, j)])
    decreases |lines|
  {
    if lines == [] {
      DecodeRunEmpty(v, cur);
    } else {
      var c, next := FirstChunk(v, cur, lines, j);
      if j < |c| {
        TruncatedFirst(v, cur, lines, j);
      } else {
        TruncatedFrom(v, next, lines[1..], j - |c|);
        TruncatedCons(v, cur, lines, j, c, next);
      }
    }
  }

  /** The first chunk `c` of a representable database, the cursor `next`
      after it, and what a cut at `j` leaves of the rest. */
  lemma FirstChunk(v: Version, cur: Cursor, lines: seq<string>, j: nat) returns (c: seq<byte>, next: Cursor)
    requires lines != [] && 0 <= cur.precPrefixLen <= 32767 && Representable(lines)
    requires Compress(v, cur, lines).Some? && j <= |Compress(v, cur, lines).value|
    ensures EncodeRecord(v, cur, lines[0]).0.Chunk?
    ensures c == EncodeRecord(v, cur, lines[0]).0.bytes && next == EncodeRecord(v, cur, lines[0]).1
    ensures IsChunk(EncodeRecord(v, cur, lines[0]), c, next)
    ensures |Utf8(lines[0])| <= 32767 && Representable(lines[1..]) && 0 <= next.precPrefixLen <= 32767
    ensures Compress(v, next, lines[1..]).Some?
    ensures |c| <= j ==> j - |c| <= |Compress(v, next, lines[1..]).value|
  {
    RepresentableTail(lines);
    ChunkCursor(v, cur, lines[0]);
    c, next := EncodeRecord(v, cur, lines[0]).0.bytes, EncodeRecord(v, cur, lines[0]).1;
    RoundTripFrom(v, next, lines[1..]);
    CompressCons(v, cur, lines);
  }

  /** The older decoder on a database cut anywhere: exactly the lines of
      the whole chunks before the cut, and never an error or a panic. */
  lemma LegacyTruncation(lines: seq<string>, j: nat)
    requires Representable(lines)
    requires Compress(Legacy, START, lines).Some? && j <= |Compress(Legacy, START, lines).value|
    ensures DecodeRun(Legacy, DecoderState(START, Compress(Legacy, START, lines).value[..j]))
            == Entries(lines[..WholeChunks(Legacy, START, lines, j)])
  {
    TruncatedFrom(Legacy, START, lines, j);
  }
}
