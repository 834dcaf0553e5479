/** The line search of src/fauxgrep-mt.c.

    `fauxgrep_file` reads a file line by line with `getline` and prints
    `path:lineno:line` for every line that contains the needle (`strstr`),
    numbering lines from 0. A file is given here as the sequence of lines
    `getline` returns, each with its line terminator, or as `None` when
    `fopen` fails; printing is the list of reports it produces, and the
    printed text of a report is `Format`. */
module FauxGrep {
  import opened Common
  import opened JobQueue

  /** `strstr(line, needle) != NULL`: the needle starts at the first position
      or somewhere further on. */
  function Occurs(needle: string, line: string): (r: bool)
    ensures needle == [] ==> r
    ensures r ==> |needle| <= |line|
    decreases |line|
  {
    needle <= line || (line != [] && Occurs(needle, line[1..]))
  }

  /** The needle stands at position `i` of the line. */
  ghost predicate OccursAt(needle: string, line: string, i: int)
  {
    0 <= i <= |line| - |needle| && line[i..i + |needle|] == needle
  }

  /** A window equal to the needle is found by the scan. */
  lemma {:induction false} OccursAtIsFound(needle: string, line: string, i: int)
    requires OccursAt(needle, line, i)
    ensures Occurs(needle, line)
    decreases i
  {
    if i == 0 {
      assert line[..|needle|] == needle;
    } else {
      assert line[1..][i - 1..i - 1 + |needle|] == line[i..i + |needle|];
      OccursAtIsFound(needle, line[1..], i - 1);
    }
  }

  /** `Occurs` is "is a substring of": some window of the line equals the
      needle. */
  lemma {:induction false} OccursIsSubstring(needle: string, line: string)
    ensures Occurs(needle, line) <==> exists i :: OccursAt(needle, line, i)
    decreases |line|
  {
    forall i | OccursAt(needle, line, i)
      ensures Occurs(needle, line)
    {
      OccursAtIsFound(needle, line, i);
    }
    if needle <= line {
      assert OccursAt(needle, line, 0);
    } else if line != [] && Occurs(needle, line[1..]) {
      OccursIsSubstring(needle, line[1..]);
      var i :| OccursAt(needle, line[1..], i);
      assert line[1..][i..i + |needle|] == line[i + 1..i + 1 + |needle|];
      assert OccursAt(needle, line, i + 1);
    }
  }

  /** One line of output: `printf("%s:%d:%s", path, lineno, line)`. */
  datatype Report = Report(path: string, lineno: int, line: string)

  /** The reports for `lines`, the first of which has number `first`: one per
      line containing the needle, in order. */
  function Matches(needle: string, path: string, lines: seq<string>, first: int): (r: seq<Report>)
    ensures |r| <= |lines|
    decreases |lines|
  {
    if lines == [] then []
    else
      (if Occurs(needle, lines[0]) then [Report(path, first, lines[0])] else [])
      + Matches(needle, path, lines[1..], first + 1)
  }

  /** Every report names the file, a line number in range, that line as
      read, and a line that contains the needle; reports come in increasing
      line-number order. */
  lemma {:induction false} MatchesSound(needle: string, path: string, lines: seq<string>, first: int)
    ensures forall i :: 0 <= i < |Matches(needle, path, lines, first)| ==>
              var r := Matches(needle, path, lines, first)[i];
              r.path == path && first <= r.lineno < first + |lines|
              && r.line == lines[r.lineno - first] && Occurs(needle, r.line)
    ensures forall i, j :: 0 <= i < j < |Matches(needle, path, lines, first)| ==>
              Matches(needle, path, lines, first)[i].lineno < Matches(needle, path, lines, first)[j].lineno
    decreases |lines|
  {
    if lines != [] {
      MatchesSound(needle, path, lines[1..], first + 1);
    }
  }

  /** No matching line is left out. */
  lemma {:induction false} MatchesComplete(needle: string, path: string, lines: seq<string>, first: int, k: int)
    requires 0 <= k < |lines| && Occurs(needle, lines[k])
    ensures Report(path, first + k, lines[k]) in Matches(needle, path, lines, first)
    decreases k
  {
    if k > 0 {
      MatchesComplete(needle, path, lines[1..], first + 1, k - 1);
    }
  }

  /** An empty needle occurs in every line, so every line is reported. */
  lemma {:induction false} EmptyNeedleReportsEveryLine(path: string, lines: seq<string>, first: int)
    ensures |Matches("", path, lines, first)| == |lines|
    decreases |lines|
  {
    if lines != [] {
      EmptyNeedleReportsEveryLine(path, lines[1..], first + 1);
    }
  }

  /** `fauxgrep_file`: -1 and no output when the file does not open;
      otherwise 0, with one report per matching line, numbered from 0 by a
      counter that advances on every line read. */
  method GrepFile(needle: string, path: string, file: Option<seq<string>>) returns (status: int, reports: seq<Report>)
    ensures file.None? ==> status == -1 && reports == []
    ensures file.Some? ==> status == 0 && reports == Matches(needle, path, file.value, 0)
  {
    if file.None? {
      return -1, [];
    }
    var lines := file.value;
    reports := [];
    var lineno := 0;
    while lineno < |lines|
      invariant 0 <= lineno <= |lines|
      invariant reports + Matches(needle, path, lines[lineno..], lineno) == Matches(needle, path, lines, 0)
    {
      var line := lines[lineno];
      assert lines[lineno..][1..] == lines[lineno + 1..];
      if Occurs(needle, line) {
        reports := reports + [Report(path, lineno, line)];
      }
      lineno := lineno + 1;
    }
    return 0, reports;
  }

  /** Only the characters `0` to `9`. */
  predicate AllDigits(s: string)
  {
    forall i :: 0 <= i < |s| ==> '0' <= s[i] <= '9'
  }

  /** The decimal digits of `n`, most significant first and without a
      leading zero, as `%d` prints them. */
  function Digits(n: nat): (s: string)
    ensures |s| > 0 && AllDigits(s)
    ensures n == 0 ==> s == "0"
    ensures n > 0 ==> s[0] != '0'
    decreases n
  {
    var d := [(('0' as int) + n % 10) as char];
    if n < 10 then d else Digits(n / 10) + d
  }

  /** The number a string of decimal digits denotes. */
  function DigitsValue(s: string): nat
    requires AllDigits(s)
    decreases |s|
  {
    if s == [] then 0
    else DigitsValue(s[..|s| - 1]) * 10 + (s[|s| - 1] as int - '0' as int)
  }

  lemma {:induction false} DigitsRoundTrip(n: nat)
    ensures DigitsValue(Digits(n)) == n
    decreases n
  {
    if n >= 10 {
      DigitsRoundTrip(n / 10);
      var s := Digits(n);
      assert s[..|s| - 1] == Digits(n / 10);
    }
  }

  /** `%d`. */
  function Decimal(n: int): (s: string)
    ensures |s| > 0
    ensures n >= 0 ==> AllDigits(s) && DigitsValue(s) == n
    ensures n < 0 ==> s[0] == '-' && AllDigits(s[1..]) && DigitsValue(s[1..]) == -n
    ensures n == 0 ==> s == "0"
    ensures n > 0 ==> s[0] != '0'
    ensures n < 0 ==> |s| > 1 && s[1] != '0'
  {
    if n < 0 then
      DigitsRoundTrip(-n);
      assert ("-" + Digits(-n))[1..] == Digits(-n);
      "-" + Digits(-n)
    else
      DigitsRoundTrip(n);
      Digits(n)
  }

  /** The text printed for a report. */
  function Format(r: Report): (s: string)
    ensures |s| > |r.path| + |r.line| + 2
    ensures s[..|r.path|] == r.path && s[|r.path|] == ':'
    ensures s[|s| - |r.line| - 1] == ':' && s[|s| - |r.line|..] == r.line
  {
    r.path + ":" + Decimal(r.lineno) + ":" + r.line
  }

  /** The position of the first `c` in `s`, or `|s|` when there is none. */
  function IndexOf(s: string, c: char): (k: nat)
    ensures k <= |s| && (k < |s| ==> s[k] == c)
    ensures forall j :: 0 <= j < k ==> s[j] != c
    decreases |s|
  {
    if s == [] then 0
    else if s[0] == c then 0
    else 1 + IndexOf(s[1..], c)
  }

  /** Reads a printed report back: the path up to the first colon, the
      decimal number up to the next, then the line. */
  function ParseReport(s: string): Option<Report>
  {
    var k := IndexOf(s, ':');
    if k == |s| then None
    else
      var rest := s[k + 1..];
      var m := IndexOf(rest, ':');
      if m == |rest| || m == 0 || !AllDigits(rest[..m]) then None
      else Some(Report(s[..k], DigitsValue(rest[..m]), rest[m + 1..]))
  }

  /** The first `c` after a prefix free of `c`. */
  lemma {:induction false} IndexOfAfter(a: string, c: char, b: string)
    requires c !in a
    ensures IndexOf(a + [c] + b, c) == |a|
    decreases |a|
  {
    if a != [] {
      assert (a + [c] + b)[1..] == a[1..] + [c] + b;
      IndexOfAfter(a[1..], c, b);
    }
  }

  /** The printed form loses nothing when the path has no colon: the line is
      printed as read and can be recovered with its path and number. */
  lemma FormatRoundTrip(r: Report)
    requires ':' !in r.path && r.lineno >= 0
    ensures ParseReport(Format(r)) == Some(r)
  {
    var ds := Digits(r.lineno);
    var s := Format(r);
    assert s == r.path + [':'] + (ds + [':'] + r.line);
    IndexOfAfter(r.path, ':', ds + [':'] + r.line);
    var rest := s[|r.path| + 1..];
    assert rest == ds + [':'] + r.line;
    assert ':' !in ds;
    IndexOfAfter(ds, ':', r.line);
    assert rest[..|ds|] == ds && rest[|ds| + 1..] == r.line && s[..|r.path|] == r.path;
    DigitsRoundTrip(r.lineno);
  }

  /** All reports for the files in `paths` that open, file after file. */
  function GrepAll(needle: string, paths: seq<string>, fs: string -> Option<seq<string>>): seq<Report>
    decreases |paths|
  {
    if paths == [] then []
    else
      var last := paths[|paths| - 1];
      GrepAll(needle, paths[..|paths| - 1], fs)
      + (if fs(last).Some? then Matches(needle, last, fs(last).value, 0) else [])
  }

  /** One more path appends that file's reports. */
  lemma GrepAllAppend(needle: string, done: seq<string>, path: string, fs: string -> Option<seq<string>>)
    ensures GrepAll(needle, done + [path], fs)
            == GrepAll(needle, done, fs) + (if fs(path).Some? then Matches(needle, path, fs(path).value, 0) else [])
  {
    assert (done + [path])[..|done|] == done;
  }

  /** `worker` run alone on the queue: it pops paths until none is left and
      greps each; it stops with -1 on a destroyed queue and where C would
      wait for more jobs on a live one. */
  method Worker(jq: JobQueue<string>, needle: string, fs: string -> Option<seq<string>>)
    returns (last: Outcome<string>, out: seq<Report>)
    requires jq.Valid()
    modifies jq
    ensures jq.Valid() && jq.contents == [] && jq.destroyed == old(jq.destroyed)
    ensures last == if jq.destroyed then Shutdown else WouldBlock
    ensures out == GrepAll(needle, old(jq.contents), fs)
  {
    ghost var done: seq<string> := [];
    out := [];
    while true
      invariant jq.Valid() && jq.destroyed == old(jq.destroyed)
      invariant old(jq.contents) == done + jq.contents
      invariant out == GrepAll(needle, done, fs)
      decreases jq.count
    {
      ghost var pending := jq.contents;
      last := jq.Pop();
      if !last.Job? {
        break;
      }
      var path := last.job;
      TakeFront(old(jq.contents), done, pending, jq.contents);
      var _, reports := GrepFile(needle, path, fs(path));
      GrepAllAppend(needle, done, path, fs);
      done := done + [path];
      out := out + reports;
    }
    assert jq.contents == [];
    assert old(jq.contents) == done;
  }

  /** The parsed command line: worker count, needle and roots to walk. */
  datatype Args = Args(threads: int, needle: string, paths: seq<string>)

  /** `main`'s argument handling (lines 70-89), with `atoi` as a parameter:
      a usage error without arguments; `-n N` is taken only when a needle
      follows it, and N must be at least 1; otherwise one thread. The needle
      is always the argument just before the paths. */
  function ParseArgs(argv: seq<string>, atoi: string -> int): (r: Result<Args, ArgError>)
    ensures r.Failure? <==> |argv| < 2 || (|argv| > 3 && argv[1] == "-n" && atoi(argv[2]) < 1)
    ensures r == Failure(Usage) <==> |argv| < 2
    ensures r.Failure? && |argv| >= 2 ==> |argv| > 3 && r == Failure(InvalidThreadCount(argv[2]))
    ensures r.Success? ==>
              r.value.threads >= 1 && |r.value.paths| + 2 <= |argv|
              && r.value.paths == argv[|argv| - |r.value.paths|..]
              && r.value.needle == argv[|argv| - |r.value.paths| - 1]
  {
    if |argv| < 2 then Failure(Usage)
    else if |argv| > 3 && argv[1] == "-n" then
      if atoi(argv[2]) < 1 then Failure(InvalidThreadCount(argv[2]))
      else Success(Args(atoi(argv[2]), argv[3], argv[4..]))
    else Success(Args(1, argv[1], argv[2..]))
  }

  /** `prog -n N needle paths...` asks for `atoi(N)` threads, and is rejected
      naming N when that is below 1. */
  lemma ParseFlagged(prog: string, n: string, needle: string, paths: seq<string>, atoi: string -> int)
    ensures atoi(n) >= 1 ==> ParseArgs([prog, "-n", n, needle] + paths, atoi) == Success(Args(atoi(n), needle, paths))
    ensures atoi(n) < 1 ==> ParseArgs([prog, "-n", n, needle] + paths, atoi) == Failure(InvalidThreadCount(n))
  {
    assert ([prog, "-n", n, needle] + paths)[4..] == paths;
  }

  /** Without the flag the first argument is the needle and one thread is
      used, unless that needle is `-n` and at least two more arguments
      follow. */
  lemma ParsePlain(prog: string, needle: string, paths: seq<string>, atoi: string -> int)
    ensures ParseArgs([prog, needle] + paths, atoi) == Success(Args(1, needle, paths))
            <==> !(needle == "-n" && |paths| >= 2)
  {
    var argv := [prog, needle] + paths;
    assert argv[2..] == paths;
    if needle == "-n" && |paths| >= 2 {
      assert |argv[4..]| < |paths|;
    }
  }
}
