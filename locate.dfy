/** The query side of `locate`: patterns become globs, the decoder thread
    sends the database's lines, and the main loop prints (or counts) the
    lines whose candidate the globs accept, up to the limit. Glob matching
    itself is a parameter: `matcher(glob, candidate)` stands for one glob of
    the compiled `GlobSet`, with its case option, and `compiles(glob)` for
    `GlobBuilder::build` succeeding. */
module Locate {
  import opened Wrappers
  import opened Unicode
  import opened FrontCoding
  import FrCode

  /** The command-line switches the search uses: `--all`, `--basename`,
      `--count`, and `--limit` when given on the command line. */
  datatype Options = Options(all: bool, base: bool, count: bool, limit: Option<nat>)

  const SEPARATOR: char := '\\'

  // ---------------------------------------------------------------------
  // Patterns
  // ---------------------------------------------------------------------

  predicate StartsWith(s: string, c: char)
  {
    |s| > 0 && s[0] == c
  }

  predicate EndsWith(s: string, c: char)
  {
    |s| > 0 && s[|s| - 1] == c
  }

  /** A pattern as it is given to the glob builder: a leading `/` is
      removed and the rest taken as it is; a pattern with a `*` at either
      end is taken as it is; any other pattern `p` becomes `*p*`. */
  function NormalizePattern(p: string): (r: string)
    ensures StartsWith(p, '/') ==> "/" + r == p
    ensures !StartsWith(p, '/') && (StartsWith(p, '*') || EndsWith(p, '*')) ==> r == p
    ensures !StartsWith(p, '/') ==> StartsWith(r, '*') || EndsWith(r, '*')
    ensures !StartsWith(p, '/') && r != p ==> |r| == |p| + 2 && r[1..|r| - 1] == p
    ensures !StartsWith(p, '/') && !StartsWith(p, '*') && !EndsWith(p, '*') ==> r == "*" + p + "*"
  {
    if StartsWith(p, '/') then p[1..]
    else if StartsWith(p, '*') || EndsWith(p, '*') then p
    else "*" + p + "*"
  }

  /** Normalising is idempotent on patterns that do not start with `/`:
      their glob already has a `*` at one end and is left alone. (A
      pattern `/q` is not: `q` is normalised again as a pattern.) */
  lemma NormalizeIdempotent(p: string)
    requires !StartsWith(p, '/')
    ensures NormalizePattern(NormalizePattern(p)) == NormalizePattern(p)
  {
    var r := NormalizePattern(p);
    if r != p {
      assert r[0] == '*';
    }
  }

  /** The loop that fills the `GlobSetBuilder`: each pattern is normalised
      and compiled, in order; the first that does not compile ends the
      program with an error. */
  method BuildGlobs(patterns: seq<string>, compiles: string -> bool) returns (globs: Option<seq<string>>)
    ensures globs.Some? <==> forall i | 0 <= i < |patterns| :: compiles(NormalizePattern(patterns[i]))
    ensures globs.Some? ==> |globs.value| == |patterns|
    ensures globs.Some? ==> forall i | 0 <= i < |patterns| :: globs.value[i] == NormalizePattern(patterns[i])
  {
    var built: seq<string> := [];
    var i := 0;
    while i < |patterns|
      invariant 0 <= i <= |patterns| && |built| == i
      invariant forall k | 0 <= k < i :: built[k] == NormalizePattern(patterns[k])
      invariant forall k | 0 <= k < i :: compiles(NormalizePattern(patterns[k]))
    {
      var pattern := NormalizePattern(patterns[i]);
      if !compiles(pattern) {
        assert !compiles(NormalizePattern(patterns[i]));
        return None;
      }
      built := built + [pattern];
      i := i + 1;
    }
    assert i == |patterns|;
    globs := Some(built);
  }

  // ---------------------------------------------------------------------
  // One entry
  // ---------------------------------------------------------------------

  /** `entry.strip_suffix('\\')`: a directory entry ends with one `\`,
      which is removed; any other entry is kept whole. */
  function StripDir(entry: string): (r: (string, bool))
    ensures r.1 <==> EndsWith(entry, SEPARATOR)
    ensures r.1 ==> r.0 + [SEPARATOR] == entry
    ensures !r.1 ==> r.0 == entry
  {
    if EndsWith(entry, SEPARATOR) then
      var dir := entry[..|entry| - 1];
      assert dir + [SEPARATOR] == entry;
      (dir, true)
    else (entry, false)
  }

  /** Index of the last `\` of `s`, if any. */
  function LastSeparator(s: string): (r: Option<nat>)
    ensures r.None? <==> SEPARATOR !in s
    ensures r.Some? ==> r.value < |s| && s[r.value] == SEPARATOR
    ensures r.Some? ==> forall j | r.value < j < |s| :: s[j] != SEPARATOR
  {
    if s == [] then None
    else if s[|s| - 1] == SEPARATOR then Some(|s| - 1)
    else
      var r := LastSeparator(s[..|s| - 1]);
      assert s == s[..|s| - 1] + [s[|s| - 1]];
      r
  }

  /** `s.rsplit_once('\\').unwrap().1`: the text after the last `\`, or
      None where `unwrap` panics (no `\` in `s`). */
  function Basename(s: string): (r: Option<string>)
    ensures r.None? <==> SEPARATOR !in s
    ensures r.Some? ==> SEPARATOR !in r.value
    ensures r.Some? ==> exists dir :: s == dir + [SEPARATOR] + r.value
  {
    match LastSeparator(s)
    case None => None
    case Some(i) =>
      var name := s[i + 1..];
      assert s == s[..i] + [SEPARATOR] + name;
      assert forall k | 0 <= k < |name| :: name[k] == s[i + 1 + k];
      Some(name)
  }

  /** Number of globs that match the candidate
      (`matches_candidate(..).len()`). */
  function MatchCount(globs: seq<string>, matcher: (string, string) -> bool, candidate: string): (n: nat)
    ensures n <= |globs|
  {
    if globs == [] then 0
    else (if matcher(globs[0], candidate) then 1 else 0) + MatchCount(globs[1..], matcher, candidate)
  }

  /** Every glob matches exactly when the count of matching globs is the
      number of globs. */
  lemma {:induction false} MatchCountAll(globs: seq<string>, matcher: (string, string) -> bool, candidate: string)
    ensures MatchCount(globs, matcher, candidate) == |globs|
            <==> forall i | 0 <= i < |globs| :: matcher(globs[i], candidate)
  {
    if globs != [] {
      MatchCountAll(globs[1..], matcher, candidate);
      if forall i | 0 <= i < |globs| - 1 :: matcher(globs[1..][i], candidate) {
        assert forall i | 1 <= i < |globs| :: matcher(globs[i], candidate) by {
          forall i | 1 <= i < |globs| ensures matcher(globs[i], candidate) {
            assert globs[i] == globs[1..][i - 1];
          }
        }
      } else {
        var i :| 0 <= i < |globs| - 1 && !matcher(globs[1..][i], candidate);
        assert !matcher(globs[i + 1], candidate);
      }
    }
  }

  /** The match decision: with one glob, or without `--all`, one matching
      glob is enough (`is_match_candidate`); with `--all` and several,
      all of them must match. */
  function Accepts(globs: seq<string>, matcher: (string, string) -> bool, all: bool, candidate: string): bool
  {
    if |globs| == 1 || !all then exists i | 0 <= i < |globs| :: matcher(globs[i], candidate)
    else MatchCount(globs, matcher, candidate) == |globs|
  }

  /** The decision stated on the globs: any for a single glob or without
      `--all`, every one with `--all`; and a single glob decides alike in
      both modes. */
  lemma AcceptsIff(globs: seq<string>, matcher: (string, string) -> bool, all: bool, candidate: string)
    ensures Accepts(globs, matcher, all, candidate)
            <==> if all && |globs| != 1 then forall i | 0 <= i < |globs| :: matcher(globs[i], candidate)
                 else exists i | 0 <= i < |globs| :: matcher(globs[i], candidate)
    ensures |globs| == 1 ==> Accepts(globs, matcher, true, candidate) == Accepts(globs, matcher, false, candidate)
  {
    MatchCountAll(globs, matcher, candidate);
  }

  /** What the main loop does with one entry. */
  datatype Verdict = Skipped | Emitted(text: string) | Crashed

  /** One turn of the main loop: directories are skipped in basename
      mode; the candidate is the basename (which panics without a `\`) or
      the entry; an accepted entry is printed without its trailing `\`. */
  function Judge(opts: Options, globs: seq<string>, matcher: (string, string) -> bool, entry: string): (v: Verdict)
    ensures v.Crashed? ==> opts.base
    ensures v.Emitted? ==> v.text == StripDir(entry).0
    ensures v.Emitted? && opts.base ==> !EndsWith(entry, SEPARATOR)
    ensures var (out, dir) := StripDir(entry);
            v.Crashed? <==> opts.base && !dir && SEPARATOR !in out
  {
    var (entryOut, isDir) := StripDir(entry);
    if opts.base && isDir then Skipped
    else
      var candidate := if opts.base then Basename(entryOut) else Some(entryOut);
      match candidate
      case None => Crashed
      case Some(c) => if Accepts(globs, matcher, opts.all, c) then Emitted(entryOut) else Skipped
  }

  /** The decision of one turn stated on the entry: the candidate is the
      basename of the entry (without its trailing `\`) in basename mode,
      where directories are never printed, and the entry itself
      otherwise; the entry is printed exactly when the match decision
      accepts that candidate. */
  lemma JudgeDecides(opts: Options, globs: seq<string>, matcher: (string, string) -> bool, entry: string)
    ensures var (out, dir) := StripDir(entry);
            Judge(opts, globs, matcher, entry).Emitted?
            <==> if opts.base then !dir && Basename(out).Some? && Accepts(globs, matcher, opts.all, Basename(out).value)
                 else Accepts(globs, matcher, opts.all, out)
  {
  }

  /** The lines printed for `entries` with no limit, and whether a
      panic ended the loop. */
  function Results(opts: Options, globs: seq<string>, matcher: (string, string) -> bool, entries: seq<string>)
    : (r: (seq<string>, bool))
    ensures |r.0| <= |entries|
  {
    if entries == [] then ([], false)
    else
      match Judge(opts, globs, matcher, entries[0])
      case Crashed => ([], true)
      case Skipped => Results(opts, globs, matcher, entries[1..])
      case Emitted(t) =>
        var rest := Results(opts, globs, matcher, entries[1..]);
        ([t] + rest.0, rest.1)
  }

  /** Every printed line comes from an accepted entry, at an index no
      smaller than its own. */
  lemma {:induction false} ResultsAreMatches(opts: Options, globs: seq<string>, matcher: (string, string) -> bool,
                                             entries: seq<string>, k: nat)
    requires k < |Results(opts, globs, matcher, entries).0|
    ensures exists i | 0 <= i < |entries| ::
              && Judge(opts, globs, matcher, entries[i]) == Emitted(Results(opts, globs, matcher, entries).0[k])
              && k <= i
    decreases |entries|
  {
    var r := Results(opts, globs, matcher, entries);
    var rest := Results(opts, globs, matcher, entries[1..]);
    match Judge(opts, globs, matcher, entries[0])
    case Crashed =>
    case Skipped =>
      ResultsAreMatches(opts, globs, matcher, entries[1..], k);
      var i :| 0 <= i < |entries[1..]| && Judge(opts, globs, matcher, entries[1..][i]) == Emitted(rest.0[k]) && k <= i;
      assert entries[i + 1] == entries[1..][i];
    case Emitted(t) =>
      if k == 0 {
        assert Judge(opts, globs, matcher, entries[0]) == Emitted(r.0[0]);
      } else {
        ResultsAreMatches(opts, globs, matcher, entries[1..], k - 1);
        var i :| 0 <= i < |entries[1..]| && Judge(opts, globs, matcher, entries[1..][i]) == Emitted(rest.0[k - 1]) && k - 1 <= i;
        assert entries[i + 1] == entries[1..][i];
      }
  }

  /** `idx` maps each printed line to the entry that printed it, in
      strictly increasing order of entries. */
  predicate PrintedFrom(opts: Options, globs: seq<string>, matcher: (string, string) -> bool,
                        entries: seq<string>, printed: seq<string>, idx: seq<nat>)
  {
    && |idx| == |printed|
    && (forall k | 0 <= k < |idx| ::
          idx[k] < |entries| && Judge(opts, globs, matcher, entries[idx[k]]) == Emitted(printed[k]))
    && (forall k, l | 0 <= k < l < |idx| :: idx[k] < idx[l])
  }

  /** Every index of `idx` moved one entry on. */
  function Shifted(idx: seq<nat>): (r: seq<nat>)
    ensures |r| == |idx| && forall k | 0 <= k < |idx| :: r[k] == idx[k] + 1
  {
    seq(|idx|, k requires 0 <= k < |idx| => idx[k] + 1)
  }

  /** The printed lines come from accepted entries, in the order of the
      entries: there is a strictly increasing map from printed lines to
      the entries that printed them. */
  lemma {:induction false} ResultsInOrder(opts: Options, globs: seq<string>, matcher: (string, string) -> bool,
                                          entries: seq<string>)
    ensures exists idx :: PrintedFrom(opts, globs, matcher, entries, Results(opts, globs, matcher, entries).0, idx)
    decreases |entries|
  {
    var r := Results(opts, globs, matcher, entries).0;
    if entries == [] || Judge(opts, globs, matcher, entries[0]).Crashed? {
      assert PrintedFrom(opts, globs, matcher, entries, r, []);
    } else {
      var rest := Results(opts, globs, matcher, entries[1..]).0;
      ResultsInOrder(opts, globs, matcher, entries[1..]);
      var idx :| PrintedFrom(opts, globs, matcher, entries[1..], rest, idx);
      PrintedFromSkip(opts, globs, matcher, entries, rest, idx);
      if Judge(opts, globs, matcher, entries[0]).Emitted? {
        PrintedFromEmit(opts, globs, matcher, entries, rest, idx);
      }
    }
  }

  /** An entry put in front moves every index one entry on. */
  lemma PrintedFromSkip(opts: Options, globs: seq<string>, matcher: (string, string) -> bool,
                        entries: seq<string>, printed: seq<string>, idx: seq<nat>)
    requires entries != [] && PrintedFrom(opts, globs, matcher, entries[1..], printed, idx)
    ensures PrintedFrom(opts, globs, matcher, entries, printed, Shifted(idx))
  {
    var moved := Shifted(idx);
    forall k | 0 <= k < |moved| ensures entries[moved[k]] == entries[1..][idx[k]] { }
  }

  /** A printed entry put in front is mapped to index 0, before all others. */
  lemma PrintedFromEmit(opts: Options, globs: seq<string>, matcher: (string, string) -> bool,
                        entries: seq<string>, printed: seq<string>, idx: seq<nat>)
    requires entries != [] && Judge(opts, globs, matcher, entries[0]).Emitted?
    requires PrintedFrom(opts, globs, matcher, entries, printed, Shifted(idx))
    ensures PrintedFrom(opts, globs, matcher, entries,
                        [Judge(opts, globs, matcher, entries[0]).text] + printed, [0] + Shifted(idx))
  {
    var all := [0] + Shifted(idx);
    forall k | 0 < k < |all| ensures all[k] == Shifted(idx)[k - 1] { }
  }

  /** Without `--basename` nothing panics: every entry is a candidate. */
  lemma {:induction false} NoCrashWithoutBasename(opts: Options, globs: seq<string>, matcher: (string, string) -> bool,
                                                  entries: seq<string>)
    requires !opts.base
    ensures !Results(opts, globs, matcher, entries).1
    decreases |entries|
  {
    if entries != [] {
      NoCrashWithoutBasename(opts, globs, matcher, entries[1..]);
    }
  }

  lemma ResultsStep(opts: Options, globs: seq<string>, matcher: (string, string) -> bool, entries: seq<string>, i: nat)
    requires i < |entries|
    ensures Results(opts, globs, matcher, entries[i..])
            == Follow(Judge(opts, globs, matcher, entries[i]), Results(opts, globs, matcher, entries[i + 1..]))
  {
    assert entries[i..][0] == entries[i];
    assert entries[i..][1..] == entries[i + 1..];
  }

  /** The text written for the printed lines: each followed by `\n`. */
  function Lines(lines: seq<string>): string
  {
    if lines == [] then "" else Lines(lines[..|lines| - 1]) + lines[|lines| - 1] + "\n"
  }

  /** The first `n` lines of `s` when a limit `n` is given. */
  function Limited(limit: Option<nat>, s: seq<string>): (r: seq<string>)
    ensures limit.Some? ==> |r| <= limit.value
    ensures |r| <= |s| && r == s[..|r|]
    ensures limit.None? || |s| <= limit.value ==> r == s
    ensures limit.Some? && |s| > limit.value ==> |r| == limit.value
  {
    if limit.Some? && |s| > limit.value then s[..limit.value] else s
  }

  /** The main loop over the received entries: prints (unless counting)
      each accepted entry, counts it in `ctr`, and stops right after the
      `limit`-th one. A panic on an entry without `\` in basename mode
      ends it, unless the limit was reached first. The source's caller
      has already returned when the limit is 0. */
  method Consume(opts: Options, globs: seq<string>, matcher: (string, string) -> bool, entries: seq<string>)
    returns (printed: seq<string>, written: string, ctr: nat, panicked: bool)
    requires opts.limit != Some(0)
    ensures printed == Limited(opts.limit, Results(opts, globs, matcher, entries).0)
    ensures ctr == |printed|
    ensures panicked <==> Results(opts, globs, matcher, entries).1
                          && (opts.limit.None? || |Results(opts, globs, matcher, entries).0| < opts.limit.value)
    ensures written == if opts.count then "" else Lines(printed)
  {
    ghost var all := Results(opts, globs, matcher, entries);
    printed, written, ctr, panicked := [], "", 0, false;
    var i := 0;
    var stop := false;
    assert entries[0..] == entries;
    assert printed + all.0 == all.0;
    while i < |entries| && !stop
      invariant 0 <= i <= |entries|
      invariant ctr == |printed| && written == (if opts.count then "" else Lines(printed))
      invariant LoopState(opts.limit, all, printed, stop, panicked, Results(opts, globs, matcher, entries[i..]))
      decreases |entries| - i, !stop
    {
      var verdict := Judge(opts, globs, matcher, entries[i]);
      ghost var rest := Results(opts, globs, matcher, entries[i + 1..]);
      assert Results(opts, globs, matcher, entries[i..]) == Follow(verdict, rest) by {
        ResultsStep(opts, globs, matcher, entries, i);
      }
      match verdict {
        case Crashed =>
          Crash(opts.limit, all, printed, rest);
          panicked, stop := true, true;
        case Skipped =>
        case Emitted(entryOut) =>
          if !opts.count {
            written := written + entryOut + "\n";
          }
          LinesSnoc(printed, entryOut);
          Emit(opts.limit, all, printed, entryOut, rest);
          printed := printed + [entryOut];
          ctr := ctr + 1;
          if opts.limit.Some? && ctr == opts.limit.value {
            stop := true;
          }
      }
      i := i + 1;
    }
    if !stop {
      assert entries[i..] == [];
    }
    Finish(opts.limit, all, printed, stop, panicked, Results(opts, globs, matcher, entries[i..]));
  }

  /** The results from an entry on, by its verdict and the results after it. */
  function Follow(verdict: Verdict, rest: (seq<string>, bool)): (seq<string>, bool)
  {
    match verdict
    case Crashed => ([], true)
    case Skipped => rest
    case Emitted(t) => ([t] + rest.0, rest.1)
  }

  /** The main loop's invariant: while it runs, the results `due` from
      the current entry on follow those printed and the limit is not
      reached; once stopped, either the limit was reached on a prefix of
      all results, or a panic came before it, after all results. */
  predicate LoopState(limit: Option<nat>, all: (seq<string>, bool), printed: seq<string>,
                      stop: bool, panicked: bool, due: (seq<string>, bool))
  {
    if !stop then
      && !panicked && (limit.None? || |printed| < limit.value)
      && all == (printed + due.0, due.1)
    else if panicked then
      all == (printed, true) && (limit.None? || |printed| < limit.value)
    else
      limit.Some? && |printed| == limit.value && |all.0| >= |printed| && printed == all.0[..|printed|]
  }

  lemma Crash(limit: Option<nat>, all: (seq<string>, bool), printed: seq<string>, rest: (seq<string>, bool))
    requires LoopState(limit, all, printed, false, false, Follow(Crashed, rest))
    ensures LoopState(limit, all, printed, true, true, rest)
  {
    assert printed + [] == printed;
  }

  lemma Emit(limit: Option<nat>, all: (seq<string>, bool), printed: seq<string>, t: string, rest: (seq<string>, bool))
    requires LoopState(limit, all, printed, false, false, Follow(Emitted(t), rest))
    ensures var stop := limit.Some? && |printed| + 1 == limit.value;
            LoopState(limit, all, printed + [t], stop, false, rest)
  {
    assert printed + ([t] + rest.0) == (printed + [t]) + rest.0;
    if limit.Some? && |printed| + 1 == limit.value {
      assert all.0[..|printed| + 1] == printed + [t];
    }
  }

  /** How the loop's end state gives the limited results. */
  lemma Finish(limit: Option<nat>, all: (seq<string>, bool), printed: seq<string>, stop: bool, panicked: bool,
               due: (seq<string>, bool))
    requires LoopState(limit, all, printed, stop, panicked, due)
    requires !stop ==> due == ([], false)
    ensures printed == Limited(limit, all.0)
    ensures panicked <==> all.1 && (limit.None? || |all.0| < limit.value)
  {
    if !stop {
      assert printed + [] == printed;
    } else if !panicked && |all.0| == |printed| {
      assert all.0[..|printed|] == all.0;
    }
  }

  lemma LinesSnoc(lines: seq<string>, t: string)
    ensures Lines(lines + [t]) == Lines(lines) + t + "\n"
  {
    assert (lines + [t])[..|lines|] == lines;
  }

  // ---------------------------------------------------------------------
  // The decoder thread and the whole search
  // ---------------------------------------------------------------------

  /** What the decoder thread sends: the lines of the leading entries of
      the decoded items; `entry.unwrap()` panics on the first error, and
      that thread's panic closes the channel. */
  function Sent(items: seq<Item>): (r: seq<string>)
    ensures |r| <= |items| && forall i | 0 <= i < |r| :: items[i] == Entry(r[i])
  {
    if items == [] || !items[0].Entry? then [] else [items[0].line] + Sent(items[1..])
  }

  /** The decoder thread's loop: pull from `FrDecompress`, send each
      line, stop at the end, at an error or at a panic. */
  method Produce(db: seq<byte>) returns (sent: seq<string>)
    ensures sent == Sent(DecodeRun(Current, DecoderState(START, db)))
  {
    var decompressed := new FrCode.FrDecompress(Current, db);
    ghost var whole := Sent(DecodeRun(Current, DecoderState(START, db)));
    sent := [];
    var done := false;
    while !done
      invariant decompressed.version == Current
      invariant done ==> sent == whole
      invariant !done ==> sent + Sent(DecodeRun(Current, decompressed.State())) == whole
      decreases !done, |decompressed.bytes|
    {
      ghost var st := decompressed.State();
      var item := decompressed.Next();
      if item.Entry? {
        assert (sent + [item.line]) + Sent(DecodeRun(Current, decompressed.State())) == whole by {
          FrCode.DecodeRunItem(Current, st, item, decompressed.State());
          FrCode.AppendItem(sent, item.line, Sent(DecodeRun(Current, decompressed.State())));
        }
        sent := sent + [item.line];
      } else {
        assert sent == whole by {
          SentStops(st, item, decompressed.State());
        }
        done := true;
      }
    }
  }

  lemma SentStops(st: DecoderState, item: Item, next: DecoderState)
    requires DecodeStep(Current, st) == (item, next) && !item.Entry?
    ensures Sent(DecodeRun(Current, st)) == []
  {
  }

  /** A database written by the encoder sends exactly its lines. */
  lemma SentDatabase(lines: seq<string>)
    requires Representable(lines)
    ensures Compress(Current, START, lines).Some?
    ensures Sent(DecodeRun(Current, DecoderState(START, Compress(Current, START, lines).value))) == lines
  {
    RoundTrip(Current, lines);
    SentEntries(lines);
  }

  lemma {:induction false} SentEntries(lines: seq<string>)
    ensures Sent(Entries(lines)) == lines
  {
    if lines != [] {
      assert Entries(lines)[1..] == Entries(lines[1..]);
      SentEntries(lines[1..]);
    }
  }

  /** How `main` ends. */
  datatype Exit = Success | GlobError | Panicked

  /** `main` on a search: the database's bytes are given, the printed
      count is the number (its locale formatting is not modelled). A limit
      of 0 reads nothing and prints `0` in count mode only. */
  method Search(opts: Options, patterns: seq<string>, compiles: string -> bool,
                matcher: (string, string) -> bool, db: seq<byte>)
    returns (written: string, count: Option<nat>, exit: Exit)
    ensures opts.limit == Some(0) ==>
              written == "" && count == (if opts.count then Some(0) else None) && exit == Success
    ensures opts.limit != Some(0) && exit == GlobError <==>
              opts.limit != Some(0) && exists i | 0 <= i < |patterns| :: !compiles(NormalizePattern(patterns[i]))
    ensures exit != GlobError && opts.limit != Some(0) ==>
              var globs := seq(|patterns|, i requires 0 <= i < |patterns| => NormalizePattern(patterns[i]));
              var all := Results(opts, globs, matcher, Sent(DecodeRun(Current, DecoderState(START, db))));
              var printed := Limited(opts.limit, all.0);
              && written == (if opts.count then "" else Lines(printed))
              && (exit == Panicked <==> all.1 && (opts.limit.None? || |all.0| < opts.limit.value))
              && count == (if opts.count && exit == Success then Some(|printed|) else None)
  {
    if opts.limit == Some(0) {
      return "", if opts.count then Some(0) else None, Success;
    }
    var entries := Produce(db);
    var globs := BuildGlobs(patterns, compiles);
    if globs.None? {
      return "", None, GlobError;
    }
    assert globs.value == seq(|patterns|, i requires 0 <= i < |patterns| => NormalizePattern(patterns[i]));
    var printed, ctr, panicked;
    printed, written, ctr, panicked := Consume(opts, globs.value, matcher, entries);
    if panicked {
      return written, None, Panicked;
    }
    count := if opts.count then Some(ctr) else None;
    exit := Success;
  }
}
