/** The first database builder: the same bit iterator, the drive roots
    built up front and zipped with the bits, and a walk that counts the
    bytes of every path, directories included. It writes the directory
    list but does not code it. */
module UpdateDbLegacy {
  import opened Wrappers
  import opened Unicode
  import UpdateDb
  import Locate

  /** The root of each letter, in order. */
  function DriveRoots(letters: string): (r: seq<string>)
    ensures |r| == |letters|
    ensures forall k | 0 <= k < |letters| :: r[k] == [letters[k], ':', Locate.SEPARATOR]
  {
    if letters == [] then [] else [UpdateDb.Root(letters[0])] + DriveRoots(letters[1..])
  }

  /** All drive roots, A to Z. */
  function AllRoots(): seq<string>
  {
    DriveRoots(UpdateDb.LETTERS)
  }

  /** There are 26 roots, the k-th being the k-th letter followed by `:\`. */
  lemma AllRootsShape()
    ensures |AllRoots()| == 26
    ensures forall k | 0 <= k < 26 :: AllRoots()[k] == [UpdateDb.LETTERS[k], ':', '\\']
  {
  }

  /** Zips `bits` with `roots`, stopping at the shorter, and keeps each root
      whose bit is set and whose drive is fixed. */
  function KeepFixed(bits: seq<bool>, roots: seq<string>, driveType: string -> int): seq<string>
    decreases |roots|
  {
    if bits == [] || roots == [] then []
    else
      var rest := KeepFixed(bits[1..], roots[1..], driveType);
      if bits[0] && driveType(roots[0]) == UpdateDb.DRIVE_FIXED then [roots[0]] + rest else rest
  }

  /** The fixed drives of the logical-drive mask `ldBits`. */
  function FixedDrives(ldBits: nat, driveType: string -> int): seq<string>
  {
    KeepFixed(UpdateDb.Yields(ldBits, 0), AllRoots(), driveType)
  }

  lemma {:induction false} KeepFixedRoots(bits: seq<bool>, letters: string, driveType: string -> int)
    ensures KeepFixed(bits, DriveRoots(letters), driveType) == UpdateDb.FixedRoots(bits, letters, driveType)
    decreases |letters|
  {
    if bits != [] && letters != [] {
      assert DriveRoots(letters)[1..] == DriveRoots(letters[1..]);
      KeepFixedRoots(bits[1..], letters[1..], driveType);
    }
  }

  /** Both builders pick the same drives in the same order, so the legacy
      choice is kept exactly when the bit is set and the drive is fixed,
      in A to Z order. */
  lemma SameDrives(ldBits: nat, driveType: string -> int)
    ensures FixedDrives(ldBits, driveType) == UpdateDb.FixedDrives(ldBits, driveType)
    ensures UpdateDb.RootsAscending(FixedDrives(ldBits, driveType))
  {
    assert FixedDrives(ldBits, driveType) == UpdateDb.FixedDrives(ldBits, driveType) by {
      KeepFixedRoots(UpdateDb.Yields(ldBits, 0), UpdateDb.LETTERS, driveType);
    }
    UpdateDb.FixedDrivesOrdered(ldBits, driveType);
  }

  // ---------------------------------------------------------------------
  // The walk
  // ---------------------------------------------------------------------

  datatype Statistics = Statistics(nbDirs: nat, nbFiles: nat, uncompressed: nat, compressed: nat)

  /** The counters after the walk of `entries`: every listed path adds its
      UTF-8 length, and the listed entries are split into directories and
      files. Nothing is ever compressed. */
  function Tally(entries: seq<UpdateDb.WalkEntry>): Statistics
  {
    if entries == [] then Statistics(0, 0, 0, 0)
    else Count(Tally(entries[..|entries| - 1]), entries[|entries| - 1])
  }

  function Count(s: Statistics, e: UpdateDb.WalkEntry): Statistics
  {
    match e.isDir
    case None => s
    case Some(true) => s.(nbDirs := s.nbDirs + 1, uncompressed := s.uncompressed + ByteLen(e.path))
    case Some(false) => s.(nbFiles := s.nbFiles + 1, uncompressed := s.uncompressed + ByteLen(e.path))
  }

  /** The path of a listed entry that is not valid Unicode cannot be
      turned into text: the program panics there. */
  predicate Panics(e: UpdateDb.WalkEntry)
  {
    e.isDir.Some? && !e.lossless
  }

  predicate AnyPanics(entries: seq<UpdateDb.WalkEntry>)
  {
    exists e <- entries :: Panics(e)
  }

  lemma AnyPanicsStep(stream: seq<UpdateDb.WalkEntry>, i: nat)
    requires i < |stream|
    ensures AnyPanics(stream[..i + 1]) <==> AnyPanics(stream[..i]) || Panics(stream[i])
    ensures Panics(stream[i]) ==> AnyPanics(stream)
  {
    assert stream[..i + 1] == stream[..i] + [stream[i]];
    assert stream[i] in stream;
  }

  lemma TallySnoc(before: seq<UpdateDb.WalkEntry>, e: UpdateDb.WalkEntry)
    ensures Tally(before + [e]) == Count(Tally(before), e)
  {
    assert (before + [e])[..|before|] == before;
  }

  lemma NewlineBytes(path: string)
    ensures ByteLen(path + "\n") == ByteLen(path) + 1
    ensures ByteLen(path + [Locate.SEPARATOR]) == ByteLen(path) + 1
  {
    ByteLenConcat(path, "\n");
    ByteLenConcat(path, [Locate.SEPARATOR]);
  }

  lemma LinesBytesSnoc(lines: seq<string>, line: string)
    ensures ByteLen(Locate.Lines(lines + [line])) == ByteLen(Locate.Lines(lines)) + ByteLen(line) + 1
  {
    Locate.LinesSnoc(lines, line);
    ByteLenConcat(Locate.Lines(lines), line + "\n");
    assert Locate.Lines(lines) + line + "\n" == Locate.Lines(lines) + (line + "\n");
    NewlineBytes(line);
  }

  /** The directory list takes exactly the counted bytes plus one `\` per
      directory and one newline per line. */
  lemma {:induction false} ListBytes(entries: seq<UpdateDb.WalkEntry>)
    ensures var t := Tally(entries);
            ByteLen(Locate.Lines(UpdateDb.WalkLines(entries))) == t.uncompressed + 2 * t.nbDirs + t.nbFiles
  {
    if entries != [] {
      var init := entries[..|entries| - 1];
      var e := entries[|entries| - 1];
      ListBytes(init);
      assert entries == init + [e];
      UpdateDb.WalkSnoc(init, e);
      TallySnoc(init, e);
      if e.isDir.Some? {
        LinesBytesSnoc(UpdateDb.WalkLines(init), UpdateDb.Line(e.path, e.isDir.value));
        NewlineBytes(e.path);
      } else {
        assert UpdateDb.WalkLines(init) + [] == UpdateDb.WalkLines(init);
      }
    }
  }

  /** Both builders count the same directories and files; the legacy byte
      count covers every path, so it is at least the newer count of file
      path bytes. */
  lemma {:induction false} TalliesAgree(entries: seq<UpdateDb.WalkEntry>)
    ensures var old_ := Tally(entries);
            var new_ := UpdateDb.Tally(entries);
            && old_.nbDirs == new_.dirs && old_.nbFiles == new_.files
            && new_.filesBytes <= old_.uncompressed && old_.compressed == 0
  {
    if entries != [] {
      TalliesAgree(entries[..|entries| - 1]);
    }
  }

  // ---------------------------------------------------------------------
  // The program
  // ---------------------------------------------------------------------

  /** Writes the line of one entry and counts it, or panics on a path that
      is not valid Unicode; an entry whose metadata could not be read is
      passed over. */
  method Record(ghost seen: seq<UpdateDb.WalkEntry>, e: UpdateDb.WalkEntry, dirlist: string, stats: Statistics)
    returns (dirlist': string, stats': Statistics, panicked: bool)
    requires dirlist == Locate.Lines(UpdateDb.WalkLines(seen)) && stats == Tally(seen)
    ensures panicked <==> Panics(e)
    ensures !panicked ==> dirlist' == Locate.Lines(UpdateDb.WalkLines(seen + [e])) && stats' == Tally(seen + [e])
  {
    UpdateDb.WalkSnoc(seen, e);
    TallySnoc(seen, e);
    dirlist', stats', panicked := dirlist, stats, false;
    match e.isDir {
      case None =>
        assert UpdateDb.WalkLines(seen) + [] == UpdateDb.WalkLines(seen);
      case Some(isDir) =>
        if !e.lossless {
          panicked := true;
          return;
        }
        stats' := stats'.(uncompressed := stats'.uncompressed + ByteLen(e.path));
        var line := UpdateDb.Line(e.path, isDir);
        Locate.LinesSnoc(UpdateDb.WalkLines(seen), line);
        dirlist' := dirlist' + line + "\n";
        if isDir {
          stats' := stats'.(nbDirs := stats'.nbDirs + 1);
        } else {
          stats' := stats'.(nbFiles := stats'.nbFiles + 1);
        }
    }
  }

  /** Walks one drive on top of the entries already walked, stopping at a
      panic. */
  method WalkDrive(ghost before: seq<UpdateDb.WalkEntry>, stream: seq<UpdateDb.WalkEntry>, dirlist: string, stats: Statistics)
    returns (dirlist': string, stats': Statistics, panicked: bool)
    requires dirlist == Locate.Lines(UpdateDb.WalkLines(before)) && stats == Tally(before)
    ensures panicked <==> AnyPanics(stream)
    ensures !panicked ==>
              dirlist' == Locate.Lines(UpdateDb.WalkLines(before + stream)) && stats' == Tally(before + stream)
  {
    dirlist', stats', panicked := dirlist, stats, false;
    var i := 0;
    assert before + stream[..0] == before;
    while i < |stream| && !panicked
      invariant 0 <= i <= |stream|
      invariant Walking(before, stream, i, dirlist', stats', panicked)
    {
      ghost var seen := before + stream[..i];
      var e := stream[i];
      dirlist', stats', panicked := Record(seen, e, dirlist', stats');
      WalkingStep(before, stream, i, dirlist', stats', panicked);
      i := i + 1;
    }
    if !panicked {
      assert stream[..i] == stream;
    }
  }

  /** The per-drive loop's invariant: before a panic the first `i` entries
      are written and counted and none of them panics; after one, some
      entry of the stream panics. */
  predicate Walking(before: seq<UpdateDb.WalkEntry>, stream: seq<UpdateDb.WalkEntry>, i: nat,
                    dirlist: string, stats: Statistics, panicked: bool)
    requires i <= |stream|
  {
    if panicked then AnyPanics(stream)
    else
      && !AnyPanics(stream[..i])
      && dirlist == Locate.Lines(UpdateDb.WalkLines(before + stream[..i]))
      && stats == Tally(before + stream[..i])
  }

  lemma WalkingStep(before: seq<UpdateDb.WalkEntry>, stream: seq<UpdateDb.WalkEntry>, i: nat,
                    dirlist: string, stats: Statistics, panicked: bool)
    requires i < |stream| && !AnyPanics(stream[..i])
    requires panicked <==> Panics(stream[i])
    requires !panicked ==>
               && dirlist == Locate.Lines(UpdateDb.WalkLines(before + stream[..i] + [stream[i]]))
               && stats == Tally(before + stream[..i] + [stream[i]])
    ensures Walking(before, stream, i + 1, dirlist, stats, panicked)
  {
    AnyPanicsStep(stream, i);
    assert before + stream[..i + 1] == before + stream[..i] + [stream[i]];
  }

  /** Walks the drives in order, stopping at a panic. */
  method WalkAll(drives: seq<string>, walk: string -> seq<UpdateDb.WalkEntry>)
    returns (dirlist: string, stats: Statistics, panicked: bool)
    ensures panicked <==> AnyPanics(UpdateDb.Walked(drives, walk))
    ensures !panicked ==>
              dirlist == Locate.Lines(UpdateDb.WalkLines(UpdateDb.Walked(drives, walk))) && stats == Tally(UpdateDb.Walked(drives, walk))
  {
    dirlist, stats, panicked := "", Statistics(0, 0, 0, 0), false;
    var j := 0;
    while j < |drives| && !panicked
      invariant 0 <= j <= |drives|
      invariant !panicked ==> !AnyPanics(UpdateDb.Walked(drives[..j], walk))
      invariant !panicked ==> dirlist == Locate.Lines(UpdateDb.WalkLines(UpdateDb.Walked(drives[..j], walk)))
      invariant !panicked ==> stats == Tally(UpdateDb.Walked(drives[..j], walk))
      invariant panicked ==> AnyPanics(UpdateDb.Walked(drives, walk))
    {
      assert drives[..j + 1][..j] == drives[..j];
      ghost var before := UpdateDb.Walked(drives[..j], walk);
      assert UpdateDb.Walked(drives[..j + 1], walk) == before + walk(drives[j]);
      dirlist, stats, panicked := WalkDrive(before, walk(drives[j]), dirlist, stats);
      if panicked {
        WalkedGrows(drives, walk, j);
      }
      j := j + 1;
    }
    if !panicked {
      assert drives[..j] == drives;
    }
  }

  /** Every entry of one drive's walk is among the entries of all walks. */
  lemma {:induction false} WalkedGrows(drives: seq<string>, walk: string -> seq<UpdateDb.WalkEntry>, j: nat)
    requires j < |drives|
    ensures forall e <- walk(drives[j]) :: e in UpdateDb.Walked(drives, walk)
    decreases |drives|
  {
    var init := drives[..|drives| - 1];
    if j < |drives| - 1 {
      assert init[j] == drives[j];
      WalkedGrows(init, walk, j);
    }
  }

  datatype Outcome =
    | NoDrives
    | Panicked
    | Done(dirlist: string, stats: Statistics)

  /** The whole run: the drive mask, the drive types and each drive's walk
      are given. A zero mask is an error; a path that is not valid Unicode
      panics; otherwise the fixed drives are walked in order. */
  method Update(ldBits: nat, driveType: string -> int, walk: string -> seq<UpdateDb.WalkEntry>) returns (r: Outcome)
    requires ldBits < UpdateDb.U32_LIMIT
    ensures r.NoDrives? <==> ldBits == 0
    ensures ldBits != 0 ==>
              var entries := UpdateDb.Walked(FixedDrives(ldBits, driveType), walk);
              && (r.Panicked? <==> AnyPanics(entries))
              && (r.Done? ==>
                    r.dirlist == Locate.Lines(UpdateDb.WalkLines(entries)) && r.stats == Tally(entries))
  {
    if ldBits == 0 {
      return NoDrives;
    }
    var bits := new UpdateDb.DwordBits(ldBits);
    var mask := UpdateDb.Drain(bits);
    var dirlist, stats, panicked := WalkAll(KeepFixed(mask, AllRoots(), driveType), walk);
    if panicked {
      return Panicked;
    }
    r := Done(dirlist, stats);
  }
}
