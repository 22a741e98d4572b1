# locate-rs, modelled in Dafny

locate-rs is a Windows port of `updatedb`/`locate`. `updatedb` walks every
fixed drive and writes one line per path; a directory's line ends with `\`.
It then front-codes the list into a database in a LOCATE02-style layout:
- a header (a zero offset, a length, the label `LOCATEW`);
- then, per line, a signed offset-differential count, a suffix length and
  the suffix bytes.

Counts and lengths take one byte when they fit, and otherwise `0x80`
followed by a big-endian 16-bit value. `locate` decodes the database and
prints the paths that match a set of globs. It has options for the basename
only, all patterns, count and limit. The repository holds two generations
of each program:
- the current crates (`crates/frcode`, `crates/locate`, `crates/updatedb`);
- the older `frcode` and `updatedb`.

The project has these modules:

- `Unicode`: UTF-8 encoding and decoding of `seq<char>` as `seq<byte>`.
  It also has `ByteSlice`, which models Rust's byte-indexed `&s[..n]`.
  `ByteSlice` fails when `n` is not a character boundary.
- `FrontCoding`: the wire format, shared by both `frcode` generations and
  selected by `Version` (`Current` or `Legacy`). It covers:
  - counts and their encoding;
  - the common-prefix scan;
  - one encoder step (`EncodeRecord`) and the whole stream (`Compress`);
  - one decoder step (`DecodeStep`) and the whole decoded stream
    (`DecodeRun`).

  The main theorems are:
  - the round trip;
  - which lines a cut database yields in both versions, and the exact
    outcome of a cut inside the header or inside one record;
  - rejection of a bad header.
- `FrCode`: the two Rust iterators as classes, `FrCompress` and
  `FrDecompress`, with their fields updated in place, plus `compress_file`.
  Each method is proved against the `FrontCoding` function for the same
  step.
- `Locate`: pattern normalisation, building the glob set, the producer
  thread, the main matching loop and the limit-0 early exit.
- `UpdateDb`: the `DwordBits` iterator, the selection of fixed drives, the
  walk that writes the directory list and counts statistics, and the whole
  current `updatedb` run.
- `Overlong`: what the current `frcode` does with a line longer than
  32767 bytes, and the older encoder's guard against it.
- `UpdateDbLegacy`: the older `updatedb`, with its own drive list, its own
  statistics and its panic on a path that is not valid Unicode.

The glob matcher, the drive-type query, each drive's directory walk and the
database bytes are parameters.

Three behaviours of the code are easy to misread:

- The encoder writes offset `-128` in three bytes (`0x80 0xFF 0x80`),
  because its test is `offset > -128`. Only `-127..127` fit in one byte
  (`FrontCoding.EncodeCountBoundaries`).
- The current decoder panics on some truncated databases. A cut inside
  a three-byte count or inside a suffix trips an `assert_eq!`; the model
  represents that as a `Panic` item. The legacy decoder ends quietly
  instead.
  - `FrontCoding.TruncatedFrom` proves which lines a cut database yields
    in both versions.
  - `FrontCoding.LegacyTruncation` proves that the legacy decoder yields
    exactly the lines whose records are whole, and nothing else.
- The legacy encoder stops the whole stream at the first line longer than
  32767 bytes. The current encoder panics on a suffix of 32768 bytes or
  more. Before that bound, its `as i16` casts wrap around; the model writes
  the wrap-around out (`FrontCoding.WrapI16`).

## Model

| member | source | states |
|---|---|---|
| Unicode.DecodeUtf8OfUtf8 | crates/frcode/src/lib.rs:122-127 | decoding the UTF-8 bytes of any string (`String::from_utf8`) gives the string back |
| Unicode.Utf8OfDecodeUtf8 | crates/frcode/src/lib.rs:122-127 | bytes that decode successfully are exactly the encoding of the decoded string |
| Unicode.Utf8Injective | crates/frcode/src/lib.rs:142 | two strings with the same UTF-8 bytes are equal, so comparing the label as text is comparing its bytes |
| Unicode.Utf8Concat | crates/frcode/src/lib.rs:158-159 | the bytes of a concatenation are the concatenation of the bytes |
| Unicode.Utf8Split | crates/frcode/src/lib.rs:79 | the bytes of a string split at character `k` are the bytes of its two parts, so `line[prefix_len..]` is the tail after the prefix |
| Unicode.ByteSlice | crates/frcode/src/lib.rs:158 | a successful byte slice `prec[..n]` is a prefix of `prec` whose encoding is exactly `n` bytes long |
| Unicode.ByteSliceAtBoundary | crates/frcode/src/lib.rs:158 | slicing at the byte length of the first `k` characters succeeds and gives those `k` characters |
| Unicode.ByteSliceSucceedsIff | crates/frcode/src/lib.rs:158 | the byte slice succeeds if and only if `n` is the byte length of some prefix, i.e. a character boundary within the string |
| FrontCoding.LabelBytes | crates/frcode/src/lib.rs:39-45 | the header is the bytes `00 07 'LOCATEW'`, and the label's bytes decode to the label |
| FrontCoding.WrapI16 | crates/frcode/src/lib.rs:58 | the result is an `i16` congruent to the input modulo 65536, and equal to it when it already fits |
| FrontCoding.EncodeCount | crates/frcode/src/lib.rs:57-78 | a count takes one byte exactly when it lies in `-127..127`, and that byte is never the escape `0x80`; otherwise it takes three bytes starting with the escape |
| FrontCoding.EncodeCountBoundaries | crates/frcode/src/lib.rs:59-66 | the exact bytes at the boundaries 127, -127, 128, -128, -129 and 32767, including the three-byte form of -128 |
| FrontCoding.ReadCount | crates/frcode/src/lib.rs:108-120 | end of input is reported only on empty input, a short read only on an escape with fewer than two bytes after it; a count read is an `i16` and consumes a prefix of the input |
| FrontCoding.ReadEncodedCount | crates/frcode/src/lib.rs:108-120 | reading the encoding of any `i16` gives that value back, with the rest of the input untouched |
| FrontCoding.ReadTruncatedCount | frcode/src/lib.rs:125-146 | reading a count cut before its end reports end of input or a short read, never a value |
| FrontCoding.TakeBytes | crates/frcode/src/lib.rs:122-125 | taking `len` bytes fails exactly when fewer are left (or `len` is negative), and otherwise splits the input into those bytes and the rest |
| FrontCoding.CommonPrefixCount | crates/frcode/src/lib.rs:47-55 | the count is the longest common prefix: the strings agree up to it and differ at it when both go on |
| FrontCoding.CommonPrefixCountUnique | crates/frcode/src/lib.rs:47-55 | any index with those two properties is the common-prefix count |
| FrontCoding.PrefixByteLenSpec | crates/frcode/src/lib.rs:47-55 | the prefix length in bytes ends at a character boundary of both strings, both encodings agree up to it, and it is the largest such length |
| FrontCoding.ScanPrefix | crates/frcode/src/lib.rs:48-55 | the loop over the zipped characters computes the byte length of the common prefix |
| FrontCoding.EncodeRecord | crates/frcode/src/lib.rs:34-89 | one encoder step gives a record, a rejection or the suffix-length panic, and always leaves the stream started; it is a rejection exactly when the version is the legacy one and the line is longer than 32767 bytes, and the panic exactly when the version is the current one and the bytes after the common prefix number 32768 or more |
| FrontCoding.ChunkLayout | crates/frcode/src/lib.rs:39-81 | a representable line is written as the header when not yet started, the offset from the previous prefix length, the suffix length and the suffix bytes, and the cursor becomes the line with its prefix length |
| FrontCoding.LegacyRejects | frcode/src/lib.rs:63-67 | a line longer than 32767 bytes emits nothing, leaves the cursor unchanged and ends the legacy stream |
| FrontCoding.KeptPrefix | frcode/src/lib.rs:63-67 | the lines before the first over-long line form a representable prefix of the input |
| FrontCoding.LegacyDropsFromOverlong | frcode/src/lib.rs:63-67 | the legacy output is the output for the lines before the first over-long line |
| FrontCoding.CompressStartsWithHeader | crates/frcode/src/lib.rs:39-45 | the database of a non-empty list of representable lines exists and begins with the header |
| FrontCoding.ReadEntry | crates/frcode/src/lib.rs:149-165 | reading one record never grows the input and consumes something unless the input ended |
| FrontCoding.Rebuild | crates/frcode/src/lib.rs:156-163 | a rebuilt line sets the cursor to the new prefix length and line; a failure leaves the cursor and is never an end of stream |
| FrontCoding.RebuildFails | crates/frcode/src/lib.rs:150-163 | rebuilding fails exactly when the suffix bytes are not UTF-8, with the UTF-8 error on those bytes; otherwise it gives a line or a panic |
| FrontCoding.RebuildBytes | crates/frcode/src/lib.rs:156-159 | the rebuilt line's bytes are the previous line's first `prefix_len` bytes followed by the suffix bytes |
| FrontCoding.OpenStream | crates/frcode/src/lib.rs:134-147 | reading the header consumes input, as a step of the decoder |
| FrontCoding.DecodeStep | crates/frcode/src/lib.rs:133-166 | each decoder step consumes input unless the input ended, so the decoding stream terminates |
| FrontCoding.DecodeRunShape | crates/frcode/src/lib.rs:133-166 | the decoded stream never holds an end-of-stream item and holds a panic only as its last item; errors (a bad label, a suffix that is not UTF-8) may occur anywhere, and decoding carries on after them |
| FrontCoding.DecodeChunk | crates/frcode/src/lib.rs:133-166 | decoding the record written for a representable line, followed by anything, gives that line and leaves the decoder on the encoder's new cursor |
| FrontCoding.RoundTripFrom | crates/frcode/src/lib.rs:34-89 | from any cursor the encoder and decoder share, representable lines compress, and the bytes decode to exactly those lines |
| FrontCoding.RoundTrip | crates/frcode/src/lib.rs:169-183 | for both versions, compressing representable lines and decompressing the bytes gives the same lines in order, with no error and no panic |
| FrontCoding.TruncatedEntry | crates/frcode/src/lib.rs:149-154 | a record cut at its start or right after its offset reads as end of input; cut anywhere else, the current decoder panics and the legacy one ends quietly |
| FrontCoding.TruncatedHeader | frcode/src/lib.rs:169-175 | a header cut within its first two bytes ends the stream; cut inside the label, it panics in the current version and ends the stream in the legacy one |
| FrontCoding.BadLabel | frcode/src/lib.rs:168-182 | a header whose label is not `LOCATEW` (any label of up to 32767 bytes, its length written in one or three bytes) yields one error (invalid UTF-8 or invalid label), and decoding carries on after it |
| FrontCoding.BadSuffix | crates/frcode/src/lib.rs:149-154 | a record whose suffix is not UTF-8 yields one UTF-8 error, keeps the cursor, and decoding carries on from the bytes after the record |
| FrontCoding.TruncatedChunk | crates/frcode/src/lib.rs:133-166 | a cut strictly inside one record yields no line: nothing, or a panic in the current version |
| FrontCoding.WholeChunks | crates/frcode/src/lib.rs:34-89 | the number of whole records before a cut is at most the number of lines |
| FrontCoding.TruncatedFrom | crates/frcode/src/lib.rs:108-166 | a database cut at any byte decodes to the lines whose records are whole, followed (current version only) by at most one panic |
| FrontCoding.LegacyTruncation | frcode/src/lib.rs:125-201 | the legacy decoder on a database cut at any byte yields exactly the lines whose records are whole, and nothing else |
| Overlong.OverlongExtensionPanics | crates/frcode/src/lib.rs:67-80 | the current encoder writes a line of over 32767 bytes that extends the line before it by fewer than 32768 bytes, and the current decoder yields the line before it and then panics |
| Overlong.CompressAgree | frcode/src/lib.rs:63-67 | on lines of at most 32767 bytes the older and the current encoder write the same database |
| Overlong.GuardedDatabaseReadsBack | frcode/src/lib.rs:63-67 | with the older encoder's length guard, the current decoder reads back exactly the lines before the first over-long one, with no error and no panic |
| FrCode.FrCompress.constructor | crates/frcode/src/lib.rs:20-29 | a new encoder holds the lines and starts with no header written, an empty previous line and prefix length 0 |
| FrCode.FrCompress.Next | crates/frcode/src/lib.rs:34-89 | consumes the next line and returns the step of `EncodeRecord` from the old cursor, updating the cursor; with no line left it returns nothing and changes nothing |
| FrCode.FrCompress.WriteEntry | crates/frcode/src/lib.rs:47-81 | the bytes written and the new cursor are those of `EncodeRecord` for the line |
| FrCode.CompressFile | crates/frcode/src/lib.rs:169-183 | panics exactly when the compressed stream does not exist; otherwise writes that stream and returns its length; representable input decodes back to itself |
| FrCode.FrDecompress.constructor | crates/frcode/src/lib.rs:98-106 | a new decoder holds the bytes, not yet started, with an empty previous line |
| FrCode.FrDecompress.CountFromBytes | crates/frcode/src/lib.rs:108-120 | returns `ReadCount` of the input and leaves the rest of the bytes, or none after a short read |
| FrCode.FrDecompress.SuffixFromBytes | crates/frcode/src/lib.rs:122-127 | fails exactly when fewer than `len` bytes are left, and otherwise returns those bytes and the text they decode to |
| FrCode.FrDecompress.Next | crates/frcode/src/lib.rs:133-166 | one call returns the item of `DecodeStep` and moves the decoder to its next state |
| FrCode.FrDecompress.NextEntry | crates/frcode/src/lib.rs:149-165 | one record is read as `ReadEntry` specifies |
| FrCode.FrDecompress.PushLine | crates/frcode/src/lib.rs:156-163 | the line is rebuilt from the previous one as `Rebuild` specifies, leaving the input untouched |
| FrCode.DecompressAll | crates/frcode/src/lib.rs:130-167 | draining the iterator gives `DecodeRun` of the input, in which a panic can only be the last item; errors may occur anywhere, and the iterator carries on after them |
| FrCode.CompressDecompressOk | crates/frcode/src/lib.rs:206-239 | the repository's test paths compress and decompress back to themselves in order, in both versions |
| Locate.NormalizePattern | crates/locate/src/main.rs:138-144 | a leading `/` is removed; a pattern starting or ending with `*` is kept; any other `p` becomes exactly `*p*` |
| Locate.NormalizeIdempotent | crates/locate/src/main.rs:138-144 | normalising a pattern that does not start with `/` twice gives the same result as once |
| Locate.BuildGlobs | crates/locate/src/main.rs:136-155 | the glob set exists exactly when every normalised pattern compiles, and then holds the normalised patterns in order |
| Locate.StripDir | crates/locate/src/main.rs:164-167 | an entry is a directory exactly when it ends with `\`, which is then removed |
| Locate.Basename | crates/locate/src/main.rs:173 | the text after the last `\`, which exists exactly when the entry holds a `\` |
| Locate.AcceptsIff | crates/locate/src/main.rs:178-184 | an entry is accepted when some glob matches it, or, with `--all` and several globs, only when all of them match; with one glob `--all` makes no difference |
| Locate.Judge | crates/locate/src/main.rs:162-184 | a turn panics exactly in basename mode on a non-directory entry holding no `\`; a printed entry is the entry without its trailing `\`; basename mode never prints a directory |
| Locate.JudgeDecides | crates/locate/src/main.rs:169-184 | an entry is printed exactly when the match decision accepts its candidate: in basename mode the basename of a non-directory entry, otherwise the entry without its trailing `\` |
| Locate.ResultsAreMatches | crates/locate/src/main.rs:162-195 | every printed path comes from a database entry that the loop accepts, at an index no smaller than its own |
| Locate.ResultsInOrder | crates/locate/src/main.rs:162-195 | the printed paths map to the entries that printed them by a strictly increasing index map: they appear in the order of the entries |
| Locate.NoCrashWithoutBasename | crates/locate/src/main.rs:169-176 | without basename mode the loop never panics |
| Locate.Limited | crates/locate/src/main.rs:191-194 | the printed lines are a prefix of the accepted ones: exactly `limit` of them when more are accepted, and all of them when there is no limit or it is not reached |
| Locate.Consume | crates/locate/src/main.rs:160-199 | the loop prints exactly the accepted entries up to the limit, counts them, and panics exactly when a basename panic comes before the limit is reached |
| Locate.Produce | crates/locate/src/main.rs:117-129 | the producer sends the decoded lines up to the first error, panic or end of stream |
| Locate.SentDatabase | crates/locate/src/main.rs:117-129 | for a database written by the encoder, the producer sends exactly the original lines |
| Locate.Search | crates/locate/src/main.rs:99-199 | a limit of 0 prints only `0` in count mode; a glob error happens exactly when a pattern does not compile; otherwise the output is that of the loop over the decoded database |
| UpdateDb.YieldsValue | crates/updatedb/src/main.rs:37-46 | the 32 bits the iterator yields, least significant first, are the binary digits of the double word |
| UpdateDb.DwordBits.constructor | crates/updatedb/src/main.rs:28-32 | a new iterator will yield the 32 bits of the double word, lowest first |
| UpdateDb.DwordBits.Next | crates/updatedb/src/main.rs:37-46 | yields bit `ctr` and advances while `ctr < 32`, and nothing after; it always yields the head of what remains |
| UpdateDb.Drain | crates/updatedb/src/main.rs:61-62 | draining the iterator gives exactly the bits that remained |
| UpdateDb.DwordBitsTwelve | crates/updatedb/src/main.rs:143-151 | for 12 the iterator yields false, false, true, true and then 28 times false |
| UpdateDb.FixedDrivesIff | crates/updatedb/src/main.rs:61-81 | a root is kept exactly when its bit among the low 26 is set and its drive type is fixed (3), and it is its letter followed by `:\` |
| UpdateDb.FixedDrivesOrdered | crates/updatedb/src/main.rs:61-81 | the kept roots come in increasing letter order, with no repetition |
| UpdateDb.HighBitsIgnored | crates/updatedb/src/main.rs:61-62 | bits above the 26th do not change the kept drives, because `zip` stops after `Z` |
| UpdateDb.TallyLines | crates/updatedb/src/main.rs:89-104 | one line is written per entry whose metadata was read, and the directory and file counts add up to that number |
| UpdateDb.ReadBack | crates/updatedb/src/main.rs:94-100 | reading a written line back as `locate` does gives the path and whether it is a directory |
| UpdateDb.WalkDrive | crates/updatedb/src/main.rs:90-103 | after one drive's walk, the directory list and statistics are those of every entry seen so far |
| UpdateDb.Record | crates/updatedb/src/main.rs:92-102 | one entry appends its line and updates its counter and the file bytes |
| UpdateDb.WalkAll | crates/updatedb/src/main.rs:89-104 | the directory list and statistics are those of every entry of every fixed drive, in drive order |
| UpdateDb.Update | crates/updatedb/src/main.rs:49-110 | a zero drive mask is an error; otherwise the list is written and front-coded, panicking exactly when the coder does, and representable lines decode back from the database |
| UpdateDbLegacy.DriveRoots | updatedb/src/main.rs:77-84 | one root per letter, the letter followed by `:\` |
| UpdateDbLegacy.AllRootsShape | updatedb/src/main.rs:77-84 | the 26 roots `A:\` to `Z:\` in order |
| UpdateDbLegacy.SameDrives | updatedb/src/main.rs:86-103 | the legacy drive selection keeps the same roots as the current one, in increasing order |
| UpdateDbLegacy.ListBytes | updatedb/src/main.rs:112-128 | the directory list's length in bytes is the path bytes counted plus two per directory and one per file |
| UpdateDbLegacy.TalliesAgree | updatedb/src/main.rs:115-125 | both generations count the same directories and files; the newer counts only file path bytes, so no more bytes than the older, and the older never sets its compressed size |
| UpdateDbLegacy.Record | updatedb/src/main.rs:115-126 | one entry panics exactly when its path is not valid Unicode, and otherwise appends its line and updates the counters |
| UpdateDbLegacy.WalkDrive | updatedb/src/main.rs:113-127 | a drive's walk panics exactly when one of its entries does, and otherwise records every entry |
| UpdateDbLegacy.WalkAll | updatedb/src/main.rs:112-128 | the walk of all fixed drives panics exactly when some entry does, and otherwise gives the list and statistics of every entry |
| UpdateDbLegacy.Update | updatedb/src/main.rs:64-129 | a zero drive mask is an error; otherwise the fixed drives are walked, panicking exactly on a non-Unicode path |

## Findings

| source | as written | input that shows it | evidently intended | confidence | as-written member | corrected member |
|---|---|---|---|---|---|---|
| crates/frcode/src/lib.rs:67-80 | the current encoder checks only that a suffix is under 32768 bytes, so it writes a line of more than 32767 bytes when it shares a long prefix with the line before; the decoder then computes `prefix_len + suffix_len` in i16 (line 157), which overflows | a 20000-byte path followed by a 40000-byte path that starts with it | refuse a line over 32767 bytes, as the older encoder does, so that every database written reads back | not executed | Overlong.OverlongExtensionPanics | Overlong.GuardedDatabaseReadsBack |

## Left out

- Reading lines with `BufRead::lines`: the encoder takes the lines directly. A path holding a newline, which would be split into two lines, is not modelled.
- The `filter_map(Result::ok)` on bytes and walk entries drops I/O errors. The model's inputs hold no I/O errors.
- File creation, writing, flushing, renaming and removal, including the temporary file names. The directory list is handed to the encoder in memory.
- The legacy `updatedb` opens its output files with `File::open`, which is read-only, so a real write fails. The model describes the intended writes.
- `decompress_file` in both `frcode` crates: it is a thin file-to-file wrapper over the decoder.
- The producer thread and the channel: they are modelled as the sequence of lines the producer sends. When the receiver stops early, the sender's error message is not modelled.
- The glob library: matching, the case-insensitivity option and compilation are parameters (`matcher`, `compiles`).
- Command-line parsing, the `--stats` report, locale formatting of numbers, the JSON statistics file and elapsed time.
- The missing-database error.
- `GetLogicalDrives`, `GetDriveTypeW` and the UTF-16 conversion: the drive mask and the drive-type query are parameters.
- `WalkDir` and the file metadata: each drive's walk is a parameter giving entries with their path and, when readable, whether they are directories. Lossy conversion of non-Unicode paths is represented by the entry's `lossless` flag.
- Machine-width counters (`usize`) are unbounded in the model.
- FrontCoding.EncodeRecord: the current encoder's `prefix_len as i16 - self.prec_prefix_len` is modelled with release-build wrap-around. A debug build panics on that overflow instead, which the model does not capture. It cannot happen for lines of at most 32767 bytes.
- Locate.Consume: it requires the limit not to be 0, because `main` returns before the loop in that case. `Locate.Search` models that path.
- Locate.NormalizeIdempotent: it is stated only for patterns that do not start with `/`, because stripping a leading `/` exposes a new first character.
