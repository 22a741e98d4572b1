/** The database builder: the logical-drive bit iterator, the choice of
    fixed drives, and the accounting over the directory walk whose lines
    are front-coded into the database. */
module UpdateDb {
  import opened Wrappers
  import opened Unicode
  import opened FrontCoding
  import FrCode
  import Locate

  /** One more than the largest `u32`. */
  const U32_LIMIT: nat := 0x1_0000_0000

  /** The drive type that `GetDriveTypeW` reports for a fixed drive. */
  const DRIVE_FIXED: int := 3

  const LETTERS: string := "ABCDEFGHIJKLMNOPQRSTUVWXYZ"

  // ---------------------------------------------------------------------
  // DwordBits
  // ---------------------------------------------------------------------

  /** Bit `k` of `dword`, counting from the least significant bit: what
      `dword & (1 << k) != 0` tests. */
  function Bit(dword: nat, k: nat): bool
  {
    if k == 0 then dword % 2 == 1 else Bit(dword / 2, k - 1)
  }

  /** The number whose binary digits, least significant first, are `bits`. */
  function Value(bits: seq<bool>): nat
  {
    if bits == [] then 0 else (if bits[0] then 1 else 0) + 2 * Value(bits[1..])
  }

  /** The items an iterator over `dword` yields from counter `ctr` on. */
  function Yields(dword: nat, ctr: nat): (r: seq<bool>)
    requires ctr <= 32
    ensures |r| == 32 - ctr
    ensures forall k | 0 <= k < |r| :: r[k] == Bit(dword, ctr + k)
    decreases 32 - ctr
  {
    if ctr == 32 then [] else [Bit(dword, ctr)] + Yields(dword, ctr + 1)
  }

  /** The low `n` binary digits of `d`, least significant first. */
  function LowBits(d: nat, n: nat): (r: seq<bool>)
    ensures |r| == n
  {
    if n == 0 then [] else [d % 2 == 1] + LowBits(d / 2, n - 1)
  }

  lemma {:induction false} LowBitsAre(d: nat, n: nat, k: nat)
    requires k < n
    ensures LowBits(d, n)[k] == Bit(d, k)
  {
    if k > 0 {
      LowBitsAre(d / 2, n - 1, k - 1);
    }
  }

  lemma {:induction false} LowBitsValue(d: nat, n: nat, p: nat)
    requires d < p && p == Power2(n)
    ensures Value(LowBits(d, n)) == d
  {
    if n > 0 {
      assert d / 2 < Power2(n - 1);
      LowBitsValue(d / 2, n - 1, Power2(n - 1));
      assert LowBits(d, n)[1..] == LowBits(d / 2, n - 1);
    }
  }

  function Power2(n: nat): (p: nat)
    ensures p >= 1
  {
    if n == 0 then 1 else 2 * Power2(n - 1)
  }

  lemma {:induction false} Power2Add(a: nat, b: nat)
    ensures Power2(a + b) == Power2(a) * Power2(b)
  {
    if a > 0 {
      Power2Add(a - 1, b);
    }
  }

  lemma Power2Of32()
    ensures Power2(32) == U32_LIMIT
  {
    assert Power2(8) == 256;
    Power2Add(8, 8);
    Power2Add(16, 16);
  }

  /** The 32 items of a fresh iterator are exactly the binary digits of
      its `u32`: reading them back as a number gives the dword again. */
  lemma YieldsValue(dword: nat)
    requires dword < U32_LIMIT
    ensures Value(Yields(dword, 0)) == dword
  {
    Power2Of32();
    forall k | 0 <= k < 32
      ensures Yields(dword, 0)[k] == LowBits(dword, 32)[k]
    {
      LowBitsAre(dword, 32, k);
    }
    assert Yields(dword, 0) == LowBits(dword, 32);
    LowBitsValue(dword, 32, Power2(32));
  }

  /** The iterator over the bits of a `u32`, least significant first. */
  class DwordBits {
    const dword: nat
    var ctr: nat

    /** The items still to come. */
    function Remaining(): seq<bool>
      reads this
      requires ctr <= 32
    {
      Yields(dword, ctr)
    }

    constructor(dword: nat)
      requires dword < U32_LIMIT
      ensures this.dword == dword && ctr == 0
      ensures Remaining() == Yields(dword, 0)
    {
      this.dword := dword;
      ctr := 0;
    }

    /** The next bit, or None once all 32 have been yielded; the counter
        never passes 32. */
    method Next() returns (item: Option<bool>)
      requires ctr <= 32
      modifies this`ctr
      ensures ctr <= 32
      ensures old(ctr) == 32 ==> item == None && ctr == 32
      ensures old(ctr) < 32 ==> item == Some(Bit(dword, old(ctr))) && ctr == old(ctr) + 1
      ensures item.None? <==> old(Remaining()) == []
      ensures item.Some? ==> item.value == old(Remaining())[0] && Remaining() == old(Remaining())[1..]
    {
      if ctr == 32 {
        return None;
      }
      item := Some(Bit(dword, ctr));
      ctr := ctr + 1;
    }
  }

  /** Runs the iterator to its end, collecting what it yields. */
  method Drain(bits: DwordBits) returns (items: seq<bool>)
    requires bits.ctr <= 32
    modifies bits
    ensures items == old(bits.Remaining()) && bits.ctr == 32
  {
    ghost var start := bits.Remaining();
    items := [];
    var done := false;
    while !done
      invariant bits.ctr <= 32
      invariant items + bits.Remaining() == start
      invariant done ==> bits.ctr == 32
      decreases 32 - bits.ctr, !done
    {
      ghost var due := bits.Remaining();
      var item := bits.Next();
      match item {
        case None =>
          done := true;
        case Some(b) =>
          TakeFirst(items, due);
          items := items + [b];
      }
    }
    assert items + [] == items;
  }

  lemma TakeFirst<T>(done: seq<T>, due: seq<T>)
    requires due != []
    ensures (done + [due[0]]) + due[1..] == done + due
  {
    assert [due[0]] + due[1..] == due;
  }

  lemma BitsOfZero(k: nat)
    ensures !Bit(0, k)
  {
  }

  /** The iterator over 12 yields false, false, true, true, and then only
      false until it ends after 32 items. */
  method DwordBitsTwelve() returns (first: seq<Option<bool>>, rest: seq<bool>)
    ensures first == [Some(false), Some(false), Some(true), Some(true)]
    ensures |rest| == 28 && forall b <- rest :: !b
  {
    var bits := new DwordBits(12);
    var a := bits.Next();
    var b := bits.Next();
    var c := bits.Next();
    var d := bits.Next();
    first := [a, b, c, d];
    assert Bit(12, 2) && Bit(12, 3);
    rest := Drain(bits);
    forall k | 0 <= k < |rest|
      ensures !rest[k]
    {
      assert Bit(12, 4 + k) == Bit(6, 3 + k) == Bit(3, 2 + k) == Bit(1, 1 + k) == Bit(0, k);
      BitsOfZero(k);
    }
  }

  // ---------------------------------------------------------------------
  // Fixed drives
  // ---------------------------------------------------------------------

  /** The root of the drive named `letter`: the letter, then `:\`. */
  function Root(letter: char): string
  {
    [letter, ':', Locate.SEPARATOR]
  }

  /** Zips `bits` with `letters`, stopping at the shorter, and keeps the
      root of each letter whose bit is set and whose drive is fixed. */
  function FixedRoots(bits: seq<bool>, letters: string, driveType: string -> int): seq<string>
    decreases |letters|
  {
    if bits == [] || letters == [] then []
    else
      var rest := FixedRoots(bits[1..], letters[1..], driveType);
      if bits[0] && driveType(Root(letters[0])) == DRIVE_FIXED then [Root(letters[0])] + rest else rest
  }

  /** The fixed drives of the logical-drive mask `ldBits`. */
  function FixedDrives(ldBits: nat, driveType: string -> int): seq<string>
  {
    FixedRoots(Yields(ldBits, 0), LETTERS, driveType)
  }

  predicate Kept(bits: seq<bool>, letters: string, driveType: string -> int, k: int)
  {
    0 <= k < |bits| && k < |letters| && bits[k] && driveType(Root(letters[k])) == DRIVE_FIXED
  }

  lemma {:induction false} FixedRootsIff(bits: seq<bool>, letters: string, driveType: string -> int, s: string)
    ensures s in FixedRoots(bits, letters, driveType) <==>
            exists k :: Kept(bits, letters, driveType, k) && s == Root(letters[k])
    decreases |letters|
  {
    if bits != [] && letters != [] {
      FixedRootsIff(bits[1..], letters[1..], driveType, s);
      if s in FixedRoots(bits[1..], letters[1..], driveType) {
        var k :| Kept(bits[1..], letters[1..], driveType, k) && s == Root(letters[1..][k]);
        assert Kept(bits, letters, driveType, k + 1);
      }
      if exists k :: Kept(bits, letters, driveType, k) && s == Root(letters[k]) {
        var k :| Kept(bits, letters, driveType, k) && s == Root(letters[k]);
        if k > 0 {
          assert Kept(bits[1..], letters[1..], driveType, k - 1);
        }
      }
    }
  }

  /** A drive is kept exactly when its bit among the low 26 is set and its
      type is fixed; each kept drive is its letter followed by `:\`. */
  lemma FixedDrivesIff(ldBits: nat, driveType: string -> int, s: string)
    ensures s in FixedDrives(ldBits, driveType) <==>
            exists k :: 0 <= k < 26 && Bit(ldBits, k) && driveType(Root(LETTERS[k])) == DRIVE_FIXED
                        && s == Root(LETTERS[k])
  {
    FixedRootsIff(Yields(ldBits, 0), LETTERS, driveType, s);
  }

  lemma {:induction false} FixedRootsLetters(bits: seq<bool>, letters: string, driveType: string -> int)
    ensures forall s <- FixedRoots(bits, letters, driveType) :: |s| == 3 && s[0] in letters
    decreases |letters|
  {
    if bits != [] && letters != [] {
      FixedRootsLetters(bits[1..], letters[1..], driveType);
    }
  }

  predicate Ascending(letters: string)
  {
    forall i, j | 0 <= i < j < |letters| :: letters[i] < letters[j]
  }

  /** Roots in strictly increasing order of their letters. */
  predicate RootsAscending(r: seq<string>)
  {
    forall i, j | 0 <= i < j < |r| :: |r[i]| == 3 && |r[j]| == 3 && r[i][0] < r[j][0]
  }

  lemma RootsAscendingCons(root: string, rest: seq<string>)
    requires RootsAscending(rest) && |root| == 3
    requires forall s <- rest :: |s| == 3 && root[0] < s[0]
    ensures RootsAscending([root] + rest)
  {
    var r := [root] + rest;
    forall i, j | 0 <= i < j < |r|
      ensures |r[i]| == 3 && |r[j]| == 3 && r[i][0] < r[j][0]
    {
      assert r[j] == rest[j - 1];
      if i > 0 {
        assert r[i] == rest[i - 1];
      }
    }
  }

  lemma {:induction false} FixedRootsAscending(bits: seq<bool>, letters: string, driveType: string -> int)
    requires Ascending(letters)
    ensures RootsAscending(FixedRoots(bits, letters, driveType))
    decreases |letters|
  {
    if bits != [] && letters != [] {
      var rest := FixedRoots(bits[1..], letters[1..], driveType);
      assert Ascending(letters[1..]);
      FixedRootsAscending(bits[1..], letters[1..], driveType);
      FixedRootsLetters(bits[1..], letters[1..], driveType);
      forall s <- rest
        ensures |s| == 3 && letters[0] < s[0]
      {
        var j :| 0 <= j < |letters[1..]| && letters[1..][j] == s[0];
        assert letters[j + 1] == s[0];
      }
      if bits[0] && driveType(Root(letters[0])) == DRIVE_FIXED {
        RootsAscendingCons(Root(letters[0]), rest);
      }
    }
  }

  lemma LettersAscending()
    ensures Ascending(LETTERS)
  {
    assert LETTERS == seq(26, i requires 0 <= i < 26 => (65 + i) as char);
  }

  /** The fixed drives come in A to Z order, each once. */
  lemma FixedDrivesOrdered(ldBits: nat, driveType: string -> int)
    ensures RootsAscending(FixedDrives(ldBits, driveType))
  {
    LettersAscending();
    FixedRootsAscending(Yields(ldBits, 0), LETTERS, driveType);
  }

  lemma {:induction false} FixedRootsPrefix(a: seq<bool>, b: seq<bool>, letters: string, driveType: string -> int)
    requires |a| >= |letters| && |b| >= |letters| && a[..|letters|] == b[..|letters|]
    ensures FixedRoots(a, letters, driveType) == FixedRoots(b, letters, driveType)
    decreases |letters|
  {
    if letters != [] {
      assert a[0] == a[..|letters|][0] && b[0] == b[..|letters|][0];
      assert a[1..][..|letters| - 1] == a[..|letters|][1..];
      assert b[1..][..|letters| - 1] == b[..|letters|][1..];
      FixedRootsPrefix(a[1..], b[1..], letters[1..], driveType);
    }
  }

  /** Bits 26 to 31 play no part: the zip with 26 letters stops first. */
  lemma HighBitsIgnored(a: nat, b: nat, driveType: string -> int)
    requires forall k | 0 <= k < 26 :: Bit(a, k) == Bit(b, k)
    ensures FixedDrives(a, driveType) == FixedDrives(b, driveType)
  {
    assert Yields(a, 0)[..26] == Yields(b, 0)[..26];
    FixedRootsPrefix(Yields(a, 0), Yields(b, 0), LETTERS, driveType);
  }

  // ---------------------------------------------------------------------
  // The walk
  // ---------------------------------------------------------------------

  /** One entry of a drive walk: its path as text, and whether it is a
      directory when its metadata could be read (None when it could not).
      `lossless` says the path was valid Unicode, so that no replacement
      character stands in it. */
  datatype WalkEntry = WalkEntry(path: string, isDir: Option<bool>, lossless: bool)

  datatype Statistics = Statistics(dirs: nat, files: nat, filesBytes: nat, dbSize: nat)

  /** The line written for a path: a directory gets a trailing `\`. */
  function Line(path: string, isDir: bool): string
  {
    if isDir then path + [Locate.SEPARATOR] else path
  }

  /** The entries whose metadata could be read, as (path, is directory). */
  function Listed(entries: seq<WalkEntry>): (r: seq<(string, bool)>)
    ensures |r| <= |entries|
  {
    if entries == [] then []
    else
      var e := entries[|entries| - 1];
      Listed(entries[..|entries| - 1]) + (if e.isDir.Some? then [(e.path, e.isDir.value)] else [])
  }

  /** The lines of the directory list, one per listed entry. */
  function WalkLines(entries: seq<WalkEntry>): seq<string>
  {
    if entries == [] then []
    else
      var e := entries[|entries| - 1];
      WalkLines(entries[..|entries| - 1]) + (if e.isDir.Some? then [Line(e.path, e.isDir.value)] else [])
  }

  /** The counters after the walk of `entries`: directories, files, and the
      UTF-8 bytes of the file paths (directory paths are not counted). */
  function Tally(entries: seq<WalkEntry>): Statistics
  {
    if entries == [] then Statistics(0, 0, 0, 0)
    else
      Count(Tally(entries[..|entries| - 1]), entries[|entries| - 1])
  }

  /** The counters after one more entry. */
  function Count(s: Statistics, e: WalkEntry): Statistics
  {
    match e.isDir
    case None => s
    case Some(true) => s.(dirs := s.dirs + 1)
    case Some(false) => s.(files := s.files + 1, filesBytes := s.filesBytes + ByteLen(e.path))
  }

  /** The lines of an entry stream extended by one entry. */
  lemma WalkSnoc(before: seq<WalkEntry>, e: WalkEntry)
    ensures WalkLines(before + [e]) ==
              WalkLines(before) + (if e.isDir.Some? then [Line(e.path, e.isDir.value)] else [])
    ensures Tally(before + [e]) == Count(Tally(before), e)
  {
    assert (before + [e])[..|before|] == before;
  }

  /** Every listed entry gives one line, and the counters split them into
      directories and files. */
  lemma {:induction false} TallyLines(entries: seq<WalkEntry>)
    ensures |WalkLines(entries)| == |Listed(entries)| == Tally(entries).dirs + Tally(entries).files
    ensures Tally(entries).dbSize == 0
  {
    if entries != [] {
      TallyLines(entries[..|entries| - 1]);
    }
  }

  /** Reading the directory list back the way the search does: stripping
      one trailing `\` recovers each listed path and its kind, provided no
      file path itself ends with `\`. */
  lemma {:induction false} ReadBack(entries: seq<WalkEntry>)
    requires forall e <- entries :: e.isDir == Some(false) ==> !Locate.EndsWith(e.path, Locate.SEPARATOR)
    ensures |WalkLines(entries)| == |Listed(entries)|
    ensures forall k | 0 <= k < |Listed(entries)| :: Locate.StripDir(WalkLines(entries)[k]) == Listed(entries)[k]
  {
    if entries != [] {
      var init := entries[..|entries| - 1];
      assert forall e <- init :: e in entries;
      ReadBack(init);
      var e := entries[|entries| - 1];
      if e.isDir == Some(true) {
        var line := Line(e.path, true);
        assert line[..|line| - 1] == e.path;
      }
    }
  }

  // ---------------------------------------------------------------------
  // The program
  // ---------------------------------------------------------------------

  /** The walk streams of `drives`, one after the other. */
  function Walked(drives: seq<string>, walk: string -> seq<WalkEntry>): seq<WalkEntry>
  {
    if drives == [] then [] else Walked(drives[..|drives| - 1], walk) + walk(drives[|drives| - 1])
  }

  /** Walks one drive, appending its lines to the directory list and
      counting its entries on top of those already walked. */
  method WalkDrive(ghost before: seq<WalkEntry>, stream: seq<WalkEntry>, dirlist: string, stats: Statistics)
    returns (dirlist': string, stats': Statistics)
    requires dirlist == Locate.Lines(WalkLines(before)) && stats == Tally(before)
    ensures dirlist' == Locate.Lines(WalkLines(before + stream)) && stats' == Tally(before + stream)
  {
    dirlist', stats' := dirlist, stats;
    ghost var seen := before;
    var i := 0;
    assert before + stream[..0] == before;
    while i < |stream|
      invariant 0 <= i <= |stream| && seen == before + stream[..i]
      invariant dirlist' == Locate.Lines(WalkLines(seen)) && stats' == Tally(seen)
    {
      dirlist', stats' := Record(seen, stream[i], dirlist', stats');
      assert stream[..i + 1] == stream[..i] + [stream[i]];
      assert before + stream[..i + 1] == (before + stream[..i]) + [stream[i]];
      seen := seen + [stream[i]];
      i := i + 1;
    }
    assert stream[..i] == stream;
  }

  /** Writes the line of one entry and counts it; an entry whose
      metadata could not be read is passed over. */
  method Record(ghost seen: seq<WalkEntry>, e: WalkEntry, dirlist: string, stats: Statistics)
    returns (dirlist': string, stats': Statistics)
    requires dirlist == Locate.Lines(WalkLines(seen)) && stats == Tally(seen)
    ensures dirlist' == Locate.Lines(WalkLines(seen + [e])) && stats' == Tally(seen + [e])
  {
    WalkSnoc(seen, e);
    dirlist', stats' := dirlist, stats;
    match e.isDir {
      case None =>
        assert WalkLines(seen) + [] == WalkLines(seen);
      case Some(isDir) =>
        var line := Line(e.path, isDir);
        Locate.LinesSnoc(WalkLines(seen), line);
        dirlist' := dirlist' + line + "\n";
        if isDir {
          stats' := stats'.(dirs := stats'.dirs + 1);
        } else {
          stats' := stats'.(files := stats'.files + 1, filesBytes := stats'.filesBytes + ByteLen(e.path));
        }
    }
  }

  datatype Outcome =
    | NoDrives
    | Panicked
    | Done(dirlist: string, db: seq<byte>, stats: Statistics)

  /** The whole run: the drive mask, the drive types and each drive's walk
      are given. A zero mask is an error; otherwise the fixed drives are
      walked in order, their lines front-coded, and the size of the
      database recorded. Coding panics on a line too long for its field. */
  method Update(ldBits: nat, driveType: string -> int, walk: string -> seq<WalkEntry>) returns (r: Outcome)
    requires ldBits < U32_LIMIT
    ensures r.NoDrives? <==> ldBits == 0
    ensures ldBits != 0 ==>
              var entries := Walked(FixedDrives(ldBits, driveType), walk);
              var lines := WalkLines(entries);
              && (r.Panicked? <==> Compress(Current, START, lines).None?)
              && (r.Done? ==>
                    && r.dirlist == Locate.Lines(lines)
                    && r.db == Compress(Current, START, lines).value
                    && r.stats == Tally(entries).(dbSize := |r.db|))
              && (Representable(lines) ==>
                    r.Done? && DecodeRun(Current, DecoderState(START, r.db)) == Entries(lines))
  {
    if ldBits == 0 {
      return NoDrives;
    }
    var bits := new DwordBits(ldBits);
    var mask := Drain(bits);
    var entries, dirlist, stats := WalkAll(FixedRoots(mask, LETTERS, driveType), walk);
    var db, size, panicked := FrCode.CompressFile(Current, WalkLines(entries));
    if panicked {
      return Panicked;
    }
    r := Done(dirlist, db, stats.(dbSize := size));
  }

  /** Walks the drives in order into one directory list and one set of
      counters. */
  method WalkAll(drives: seq<string>, walk: string -> seq<WalkEntry>)
    returns (entries: seq<WalkEntry>, dirlist: string, stats: Statistics)
    ensures entries == Walked(drives, walk)
    ensures dirlist == Locate.Lines(WalkLines(entries)) && stats == Tally(entries)
  {
    dirlist, stats := "", Statistics(0, 0, 0, 0);
    entries := [];
    var j := 0;
    while j < |drives|
      invariant 0 <= j <= |drives|
      invariant entries == Walked(drives[..j], walk)
      invariant dirlist == Locate.Lines(WalkLines(entries)) && stats == Tally(entries)
    {
      assert drives[..j + 1][..j] == drives[..j];
      dirlist, stats := WalkDrive(entries, walk(drives[j]), dirlist, stats);
      entries := entries + walk(drives[j]);
      j := j + 1;
    }
    assert drives[..j] == drives;
  }
}
