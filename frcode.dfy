/** The iterators of the front-coding codec: `FrCompress` turns lines into
    chunks, `FrDecompress` turns bytes back into lines. Both keep the
    cursor of `FrontCoding` in fields they update on every call; each class
    carries the crate version it models, since the older crate differs only
    in how it treats over-long lines and short reads. */
module FrCode {
  import opened Wrappers
  import opened Unicode
  import opened FrontCoding

  class FrCompress {
    const version: Version
    var init: bool
    var precPrefixLen: int
    var prec: string
    /** The lines the reader has yet to give (I/O errors are not modelled). */
    var lines: seq<string>

    function State(): Cursor
      reads this
    {
      Cursor(init, precPrefixLen, prec)
    }

    constructor (version: Version, lines: seq<string>)
      ensures this.version == version && State() == START && this.lines == lines
    {
      this.version := version;
      init := false;
      precPrefixLen := 0;
      prec := "";
      this.lines := lines;
    }

    /** `FrCompress::next`: the chunk for the next line, or the reason
        there is none; the cursor moves as `EncodeRecord` says and the line
        is used up. */
    method Next() returns (item: EncodeItem)
      modifies this
      ensures old(lines) == [] ==> item == Exhausted && State() == old(State()) && lines == []
      ensures old(lines) != [] ==>
                && (item, State()) == EncodeRecord(version, old(State()), old(lines)[0])
                && lines == old(lines)[1..]
    {
      if lines == [] {
        return Exhausted;
      }
      var line := lines[0];
      lines := lines[1..];
      ghost var started := init;
      var outBytes: seq<byte> := [];
      if !init {
        outBytes := outBytes + [0, |LABEL_BYTES| as byte];
        outBytes := outBytes + LABEL_BYTES;
        init := true;
      }
      assert outBytes == Opening(started);
      item := WriteEntry(outBytes, line, started);
    }

    /** The rest of `next`, once the header is written (or not) into
        `outBytes`: the length check of the older crate, the prefix scan,
        the two fields and the suffix; then the cursor moves to `line`. */
    method WriteEntry(outBytes: seq<byte>, line: string, ghost started: bool) returns (item: EncodeItem)
      requires init && outBytes == Opening(started)
      modifies this`precPrefixLen, this`prec
      ensures (item, State()) == EncodeRecord(version, Cursor(started, old(precPrefixLen), old(prec)), line)
    {
      ghost var cur := Cursor(started, precPrefixLen, prec);
      var bytes := Utf8(line);
      if version == Legacy && |bytes| > 32767 {
        return Rejected;
      }
      var prefixLen := ScanPrefix(line, prec);
      var offset := WrapI16(WrapI16(prefixLen) - precPrefixLen);
      var out := outBytes + EncodeCount(offset);
      var suffixLen := |bytes| - prefixLen;
      if suffixLen >= 32768 {
        return SuffixTooLong;
      }
      out := out + EncodeCount(suffixLen);
      out := out + bytes[prefixLen..];
      assert out == Opening(started) + EntryBytes(offset, bytes[prefixLen..]);
      precPrefixLen := WrapI16(prefixLen);
      prec := line;
      item := Chunk(out);
    }
  }

  /** The database bytes the encoder's chunks add up to, after `written`,
      or None when the encoder panics. */
  function After(written: seq<byte>, rest: Option<seq<byte>>): Option<seq<byte>>
  {
    match rest
    case None => None
    case Some(r) => Some(written + r)
  }

  /** `compress_file` without the files: the chunks of `FrCompress` are
      written one after the other and `ctr` counts their bytes. `panicked`
      is the current encoder's assertion on a suffix of 32768 bytes or
      more. The bytes written are the database of `Compress`, and when no
      line is longer than 32767 bytes they decode back to the lines. */
  method CompressFile(version: Version, input: seq<string>) returns (written: seq<byte>, ctr: nat, panicked: bool)
    ensures panicked <==> Compress(version, START, input).None?
    ensures !panicked ==> written == Compress(version, START, input).value && ctr == |written|
    ensures Representable(input) ==>
              !panicked && DecodeRun(version, DecoderState(START, written)) == Entries(input)
  {
    var compressed := new FrCompress(version, input);
    written, ctr, panicked := [], 0, false;
    var done := false;
    AfterEmpty(Compress(version, START, input));
    while !done
      invariant compressed.version == version
      invariant ctr == |written|
      invariant !done ==> !panicked && Compress(version, START, input)
                          == After(written, Compress(version, compressed.State(), compressed.lines))
      invariant done ==> if panicked then Compress(version, START, input).None?
                         else Compress(version, START, input) == Some(written)
      decreases !done, |compressed.lines|
    {
      ghost var cur, lines := compressed.State(), compressed.lines;
      var chunk := compressed.Next();
      match chunk
      case Chunk(c) =>
        CompressNext(version, cur, lines);
        AfterAfter(written, c, Compress(version, compressed.State(), compressed.lines));
        written := written + c;
        ctr := ctr + |c|;
      case SuffixTooLong =>
        panicked, done := true, true;
      case _ =>
        assert written + [] == written;
        done := true;
    }
    if panicked {
      written, ctr := [], 0;
    }
    if Representable(input) {
      RoundTrip(version, input);
    }
  }

  lemma AfterEmpty(rest: Option<seq<byte>>)
    ensures After([], rest) == rest
  {
    if rest.Some? {
      assert [] + rest.value == rest.value;
    }
  }

  lemma AfterAfter(written: seq<byte>, c: seq<byte>, rest: Option<seq<byte>>)
    ensures After(written, After(c, rest)) == After(written + c, rest)
  {
    if rest.Some? {
      assert written + (c + rest.value) == written + c + rest.value;
    }
  }

  /** The database from a cursor is the chunk of its first line followed
      by the database of the rest, from the next cursor. */
  lemma CompressNext(version: Version, cur: Cursor, lines: seq<string>)
    requires lines != [] && EncodeRecord(version, cur, lines[0]).0.Chunk?
    ensures Compress(version, cur, lines)
            == After(EncodeRecord(version, cur, lines[0]).0.bytes,
                     Compress(version, EncodeRecord(version, cur, lines[0]).1, lines[1..]))
  {
  }

  /** What `suffix_from_bytes` gives: the bytes taken, or a short take;
      and, for bytes taken, the string they decode to (`String::from_utf8`). */
  datatype SuffixRead = ShortSuffix | Suffix(bytes: seq<byte>, text: Option<string>)

  class FrDecompress {
    const version: Version
    var init: bool
    var precPrefixLen: int
    var prec: string
    /** The bytes the reader has yet to give. */
    var bytes: seq<byte>

    function State(): DecoderState
      reads this
    {
      DecoderState(Cursor(init, precPrefixLen, prec), bytes)
    }

    constructor (version: Version, input: seq<byte>)
      ensures this.version == version && State() == DecoderState(START, input)
    {
      this.version := version;
      init := false;
      precPrefixLen := 0;
      prec := "";
      bytes := input;
    }

    /** `count_from_bytes`: the field `ReadCount` reads; the bytes it
        looked at are used up, all of them on a short read. */
    method CountFromBytes() returns (r: CountRead)
      modifies this`bytes
      ensures r == ReadCount(old(bytes))
      ensures bytes == if r.Count? then r.rest else []
    {
      if bytes == [] {
        return Eof;
      }
      var first := bytes[0];
      bytes := bytes[1..];
      if first != ESCAPE {
        return Count(SignExtend(first), bytes);
      }
      if |bytes| < 2 {
        bytes := [];
        return Short;
      }
      var hi, lo := bytes[0], bytes[1];
      bytes := bytes[2..];
      r := Count(FromI16BigEndian(hi, lo), bytes);
    }

    /** `suffix_from_bytes(len)`: `len` bytes and their decoding, or a
        short take when fewer are left (a negative `len` is a huge usize);
        a short take drains the input. */
    method SuffixFromBytes(len: int) returns (r: SuffixRead)
      modifies this`bytes
      ensures r.ShortSuffix? <==> TakeBytes(old(bytes), len).ShortTake?
      ensures r.Suffix? ==> && r.bytes == TakeBytes(old(bytes), len).bytes
                            && r.text == DecodeUtf8(r.bytes)
                            && bytes == TakeBytes(old(bytes), len).rest
      ensures r.ShortSuffix? ==> bytes == []
    {
      if len < 0 || len > |bytes| {
        bytes := [];
        return ShortSuffix;
      }
      var taken := bytes[..len];
      bytes := bytes[len..];
      r := Suffix(taken, DecodeUtf8(taken));
    }

    /** `FrDecompress::next`: what `DecodeStep` yields, and the new state. */
    method Next() returns (item: Item)
      modifies this
      ensures (item, State()) == DecodeStep(version, old(State()))
    {
      if init {
        item := NextEntry();
        return;
      }
      ghost var st := State();
      if bytes == [] {
        return EndOfStream;
      }
      bytes := bytes[1..];
      var len := CountFromBytes();
      match len
      case Eof =>
        return EndOfStream;
      case Short =>
        return ShortItem(version);
      case Count(n, _) =>
        var name := SuffixFromBytes(n);
        match name
        case ShortSuffix =>
          return ShortItem(version);
        case Suffix(labelBytes, text) =>
          if text.None? {
            return Failure(InvalidUtf8(labelBytes));
          }
          if text.value != LABEL {
            return Failure(InvalidLabel);
          }
          init := true;
          item := NextEntry();
    }

    /** The rest of `next` once the header is read: what `ReadEntry`
        yields, and the new state. */
    method NextEntry() returns (item: Item)
      requires init
      modifies this
      ensures (item, State()) == ReadEntry(version, old(State()))
    {
      ghost var st := State();
      var offset := CountFromBytes();
      match offset
      case Eof =>
        return EndOfStream;
      case Short =>
        return ShortItem(version);
      case Count(offsetValue, _) =>
        var suffixLen := CountFromBytes();
        match suffixLen
        case Eof =>
          return EndOfStream;
        case Short =>
          return ShortItem(version);
        case Count(len, rest2) =>
          var suffix := SuffixFromBytes(len);
          match suffix
          case ShortSuffix =>
            return ShortItem(version);
          case Suffix(suffixBytes, text) =>
            assert TakeBytes(rest2, len) == Taken(suffixBytes, bytes);
            item := PushLine(offsetValue, suffixBytes, text);
    }

    /** Building the line from `prec` and the suffix, and moving the
        cursor to it: what `Rebuild` gives. */
    method PushLine(offset: int, suffixBytes: seq<byte>, text: Option<string>) returns (item: Item)
      requires init && text == DecodeUtf8(suffixBytes)
      modifies this
      ensures (item, State().cursor) == Rebuild(old(State().cursor), offset, suffixBytes)
      ensures bytes == old(bytes)
    {
      if text.None? {
        return Failure(InvalidUtf8(suffixBytes));
      }
      var prefixLen := precPrefixLen + offset;
      if prefixLen < 0 || prefixLen + |suffixBytes| > 32767 {
        return Panic;
      }
      var head := ByteSlice(prec, prefixLen);
      if head.None? {
        return Panic;
      }
      var line := head.value + text.value;
      precPrefixLen := prefixLen;
      prec := line;
      item := Entry(line);
    }
  }

  /** The loop over `FrDecompress` (`for line in decompressed_lines`):
      the items of `DecodeRun`, in order, ending at the end of the input
      or at a panic. */
  method DecompressAll(version: Version, input: seq<byte>) returns (items: seq<Item>)
    ensures items == DecodeRun(version, DecoderState(START, input))
    ensures WellShaped(items)
  {
    var decompressed := new FrDecompress(version, input);
    ghost var whole := DecodeRun(version, DecoderState(START, input));
    items := [];
    var done := false;
    while !done
      invariant decompressed.version == version
      invariant done ==> items == whole
      invariant !done ==> items + DecodeRun(version, decompressed.State()) == whole
      decreases !done, |decompressed.bytes|
    {
      ghost var st := decompressed.State();
      var item := decompressed.Next();
      if item == EndOfStream || item == Panic {
        assert items + (if item == Panic then [Panic] else []) == whole by {
          DecodeRunStops(version, st);
        }
        items := items + (if item == Panic then [Panic] else []);
        done := true;
      } else {
        assert (items + [item]) + DecodeRun(version, decompressed.State()) == whole by {
          DecodeRunItem(version, st, item, decompressed.State());
          AppendItem(items, item, DecodeRun(version, decompressed.State()));
        }
        items := items + [item];
      }
    }
    assert WellShaped(items) by {
      DecodeRunShape(version, DecoderState(START, input));
    }
  }

  lemma AppendItem<T>(items: seq<T>, item: T, rest: seq<T>)
    ensures (items + [item]) + rest == items + ([item] + rest)
  {
  }

  lemma DecodeRunItem(version: Version, st: DecoderState, item: Item, next: DecoderState)
    requires DecodeStep(version, st) == (item, next) && item != EndOfStream && item != Panic
    ensures DecodeRun(version, st) == [item] + DecodeRun(version, next)
    ensures |next.input| < |st.input|
  {
  }

  /** The paths of the crate's own test `compress_decompress_ok`. */
  const TEST_PATHS: seq<string> := [
    "C:\\Users",
    "C:\\Users\\Fourmilier",
    "C:\\Users\\Fourmilier\\Documents\\B\U{00E9}b\U{00E9} Aardvark.jpg",
    "C:\\Users\\Fourmilier\\Documents\\B\U{00E9}b\U{00E9} Armadillo.jpg",
    "C:\\Windows",
    "D:\\\U{0645}\U{0627}\U{0631}\U{064A}\U{0648}.txt",
    "E:\\aaaaaaaaaaaaaaaaaaaaaaaaaaaaaaaaaaaaaaaaaaaaaaaaaa"
      + "\\bbbbbbbbbbbbbbbbbbbbbbbbbbbbbbbbbbbbbbbbbbbbbbbbbb"
      + "\\cccccccccccccccccccccccccccccccccccccccccccccccccc"
      + "\\dddddddddddddddddddddddddddddddddddddddddddddddddd",
    "E:\\aaaaaaaaaaaaaaaaaaaaaaaaaaaaaaaaaaaaaaaaaaaaaaaaaa"
      + "\\bbbbbbbbbbbbbbbbbbbbbbbbbbbbbbbbbbbbbbbbbbbbbbbbbb"
      + "\\cccccccccccccccccccccccccccccccccccccccccccccccccc"
      + "\\dddddddddddddddddddddddddddddddddddddddddddddddddd"
      + "\\e",
    "E:\\f"
  ]

  /** `compress_decompress_ok`: compressing the test paths and
      decompressing the bytes gives every path back, in order, with
      neither error nor panic, in both crates. */
  lemma CompressDecompressOk(version: Version)
    ensures Compress(version, START, TEST_PATHS).Some?
    ensures DecodeRun(version, DecoderState(START, Compress(version, START, TEST_PATHS).value))
            == Entries(TEST_PATHS)
  {
    forall i | 0 <= i < |TEST_PATHS| ensures |Utf8(TEST_PATHS[i])| <= 32767 {
      Utf8Length(TEST_PATHS[i]);
    }
    RoundTrip(version, TEST_PATHS);
  }
}
