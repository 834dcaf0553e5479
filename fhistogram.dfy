/** The bit histogram of src/fhistogram-mt.c.

    Every worker reads a file block by block and counts, for each bit
    position 0..7, how many bytes have that bit set. It keeps the counts in a
    local array and adds them into the shared histogram `g_hist` whenever
    32768 bytes have piled up, and once more at the end of the file; after a
    merge it asks for a redraw when at least `PRINT_STEP` bytes were counted
    since the last one. The shared histogram and its byte counters are a
    class; the mutex around them is left out, so each locked region is one
    method. A file is the sequence of blocks `fread` returns. */
module FHistogram {
  import opened Common
  import opened JobQueue

  /** `PRINT_STEP`: bytes between two redraws. */
  const PrintStep: nat := 100000
  /** Local bytes that trigger a merge into the shared histogram. */
  const MergeThreshold: nat := 32768

  /** The byte with only bit `bit` set. */
  function Mask(bit: nat): bv8
    requires bit < 8
  {
    1 << bit
  }

  /** `(b >> bit) & 1`: 1 exactly when bit `bit` of `b` is set. */
  function BitOf(b: bv8, bit: nat): (r: nat)
    requires bit < 8
    ensures r <= 1
    ensures r == 1 <==> b & Mask(bit) != 0
  {
    ((b >> bit) & 1) as nat
  }

  /** The sum of `(b >> bit) & 1` over the bytes of `block`. */
  function BitCount(block: seq<bv8>, bit: nat): (r: nat)
    requires bit < 8
    ensures r <= |block|
    decreases |block|
  {
    if block == [] then 0
    else BitCount(block[..|block| - 1], bit) + BitOf(block[|block| - 1], bit)
  }

  /** The positions in `block` of the bytes whose bit `bit` is set. */
  ghost function SetPositions(block: seq<bv8>, bit: nat): set<int>
    requires bit < 8
  {
    set i | 0 <= i < |block| && block[i] & Mask(bit) != 0
  }

  /** The histogram entry counts exactly the bytes that have the bit set. */
  lemma {:induction false} BitCountIsNumberOfSetBytes(block: seq<bv8>, bit: nat)
    requires bit < 8
    ensures BitCount(block, bit) == |SetPositions(block, bit)|
    decreases |block|
  {
    if block != [] {
      var n := |block| - 1;
      var front := block[..n];
      BitCountIsNumberOfSetBytes(front, bit);
      var last := if block[n] & Mask(bit) != 0 then {n} else {};
      assert SetPositions(block, bit) == SetPositions(front, bit) + last;
      assert n !in SetPositions(front, bit);
    }
  }

  /** Counting is additive over a split of the bytes. */
  lemma {:induction false} BitCountAppend(a: seq<bv8>, b: seq<bv8>, bit: nat)
    requires bit < 8
    ensures BitCount(a + b, bit) == BitCount(a, bit) + BitCount(b, bit)
    decreases |b|
  {
    if b != [] {
      var n := |b| - 1;
      assert (a + b)[..|a + b| - 1] == a + b[..n];
      assert (a + b)[|a + b| - 1] == b[n];
      BitCountAppend(a, b[..n], bit);
    } else {
      assert a + b == a;
    }
  }

  /** The bytes of a file, given as the blocks `fread` returned. */
  function Flatten(blocks: seq<seq<bv8>>): seq<bv8>
    decreases |blocks|
  {
    if blocks == [] then [] else Flatten(blocks[..|blocks| - 1]) + blocks[|blocks| - 1]
  }

  /** `local_hist` and the counting loop for one block (lines 68-74): each
      entry grows by the number of bytes of the block with that bit set,
      hence by at most the block's length. */
  method CountBlock(localHist: array<int>, block: seq<bv8>)
    requires localHist.Length == 8
    modifies localHist
    ensures forall bit :: 0 <= bit < 8 ==> localHist[bit] == old(localHist[bit]) + BitCount(block, bit)
    ensures forall bit :: 0 <= bit < 8 ==> localHist[bit] <= old(localHist[bit]) + |block|
  {
    var i := 0;
    while i < |block|
      invariant 0 <= i <= |block|
      invariant forall bit :: 0 <= bit < 8 ==> localHist[bit] == old(localHist[bit]) + BitCount(block[..i], bit)
    {
      var b := block[i];
      assert block[..i + 1][..i] == block[..i];
      var bit := 0;
      while bit < 8
        invariant 0 <= bit <= 8
        invariant forall k :: 0 <= k < bit ==> localHist[k] == old(localHist[k]) + BitCount(block[..i + 1], k)
        invariant forall k :: bit <= k < 8 ==> localHist[k] == old(localHist[k]) + BitCount(block[..i], k)
      {
        localHist[bit] := localHist[bit] + BitOf(b, bit);
        bit := bit + 1;
      }
      i := i + 1;
    }
    assert block[..|block|] == block;
  }

  /** `g_hist`, `g_total_bytes` and `g_last_ui_bytes`. */
  class SharedHistogram {
    const hist: array<int>
    var totalBytes: nat
    var lastUiBytes: nat

    /** Eight counters, and the last redraw never ahead of the byte count, so
        the `size_t` difference of lines 87 and 104 never wraps. */
    ghost predicate Valid()
      reads this
    {
      hist.Length == 8 && lastUiBytes <= totalBytes
    }

    /** The zero-initialised globals. */
    constructor ()
      ensures Valid() && fresh(hist)
      ensures forall bit :: 0 <= bit < 8 ==> hist[bit] == 0
      ensures totalBytes == 0 && lastUiBytes == 0
    {
      hist := new int[8](_ => 0);
      totalBytes, lastUiBytes := 0, 0;
    }

    /** Lines 87-88 and 104-105: a redraw is due once `PRINT_STEP` bytes were
        counted since the last one, and it moves the mark up to the total. */
    method MaybeRedraw() returns (redraw: bool)
      requires Valid()
      modifies this`lastUiBytes
      ensures Valid()
      ensures redraw <==> old(totalBytes - lastUiBytes) >= PrintStep
      ensures redraw ==> lastUiBytes == totalBytes && lastUiBytes >= old(lastUiBytes) + PrintStep
      ensures !redraw ==> lastUiBytes == old(lastUiBytes)
    {
      redraw := totalBytes - lastUiBytes >= PrintStep;
      if redraw {
        lastUiBytes := totalBytes;
      }
    }

    /** Lines 78-93: nothing happens below the threshold; at or above it the
        local counts move into the shared ones (their sums per bit are kept),
        the local counts and the local byte count drop to zero, and the byte
        count moves into the total. */
    method MergeIfDue(localHist: array<int>, sinceMerge: nat) returns (leftover: nat, redraw: bool)
      requires Valid() && localHist.Length == 8 && localHist != hist
      modifies hist, localHist, this`totalBytes, this`lastUiBytes
      ensures Valid()
      ensures forall bit :: 0 <= bit < 8 ==> hist[bit] + localHist[bit] == old(hist[bit] + localHist[bit])
      ensures totalBytes + leftover == old(totalBytes) + sinceMerge
      ensures sinceMerge >= MergeThreshold ==> leftover == 0 && forall bit :: 0 <= bit < 8 ==> localHist[bit] == 0
      ensures sinceMerge < MergeThreshold ==>
                leftover == sinceMerge && !redraw && totalBytes == old(totalBytes)
                && hist[..] == old(hist[..]) && localHist[..] == old(localHist[..])
      ensures redraw <==> sinceMerge >= MergeThreshold && totalBytes - old(lastUiBytes) >= PrintStep
      ensures redraw ==> lastUiBytes == totalBytes && lastUiBytes >= old(lastUiBytes) + PrintStep
      ensures !redraw ==> lastUiBytes == old(lastUiBytes)
    {
      if sinceMerge < MergeThreshold {
        return sinceMerge, false;
      }
      for bit := 0 to 8
        modifies hist, localHist
        invariant forall k :: 0 <= k < bit ==> hist[k] == old(hist[k] + localHist[k]) && localHist[k] == 0
        invariant forall k :: bit <= k < 8 ==> hist[k] == old(hist[k]) && localHist[k] == old(localHist[k])
      {
        hist[bit] := hist[bit] + localHist[bit];
        localHist[bit] := 0;
      }
      totalBytes := totalBytes + sinceMerge;
      leftover := 0;
      redraw := MaybeRedraw();
    }

    /** Lines 98-107: the leftover local counts and bytes of a finished file
        are added in. */
    method MergeFinal(localHist: array<int>, sinceMerge: nat) returns (redraw: bool)
      requires Valid() && localHist.Length == 8 && localHist != hist
      modifies hist, this`totalBytes, this`lastUiBytes
      ensures Valid()
      ensures forall bit :: 0 <= bit < 8 ==> hist[bit] == old(hist[bit]) + localHist[bit]
      ensures totalBytes == old(totalBytes) + sinceMerge
      ensures redraw <==> totalBytes - old(lastUiBytes) >= PrintStep
      ensures redraw ==> lastUiBytes == totalBytes && lastUiBytes >= old(lastUiBytes) + PrintStep
      ensures !redraw ==> lastUiBytes == old(lastUiBytes)
    {
      for bit := 0 to 8
        modifies hist
        invariant forall k :: 0 <= k < bit ==> hist[k] == old(hist[k]) + localHist[k]
        invariant forall k :: bit <= k < 8 ==> hist[k] == old(hist[k])
      {
        hist[bit] := hist[bit] + localHist[bit];
      }
      totalBytes := totalBytes + sinceMerge;
      redraw := MaybeRedraw();
    }
  }

  /** One opened file in `worker_fn` (lines 60-108): whatever the block
      boundaries and whenever the merges happen, the shared histogram grows
      by the bit counts of the file's bytes and the total by its length;
      each redraw accounts for `PRINT_STEP` bytes at least. */
  method ProcessFile(shared: SharedHistogram, blocks: seq<seq<bv8>>) returns (redraws: nat)
    requires shared.Valid()
    modifies shared, shared.hist
    ensures shared.Valid()
    ensures forall bit :: 0 <= bit < 8 ==> shared.hist[bit] == old(shared.hist[bit]) + BitCount(Flatten(blocks), bit)
    ensures shared.totalBytes == old(shared.totalBytes) + |Flatten(blocks)|
    ensures shared.lastUiBytes >= old(shared.lastUiBytes) + redraws * PrintStep
  {
    var localHist := new int[8](_ => 0);
    var sinceMerge: nat := 0;
    redraws := 0;
    var k := 0;
    while k < |blocks|
      invariant 0 <= k <= |blocks|
      invariant shared.Valid() && localHist.Length == 8 && fresh(localHist)
      invariant forall bit :: 0 <= bit < 8 ==>
                  shared.hist[bit] + localHist[bit] == old(shared.hist[bit]) + BitCount(Flatten(blocks[..k]), bit)
      invariant shared.totalBytes + sinceMerge == old(shared.totalBytes) + |Flatten(blocks[..k])|
      invariant shared.lastUiBytes >= old(shared.lastUiBytes) + redraws * PrintStep
    {
      assert blocks[..k + 1][..k] == blocks[..k];
      forall bit | 0 <= bit < 8
        ensures BitCount(Flatten(blocks[..k + 1]), bit) == BitCount(Flatten(blocks[..k]), bit) + BitCount(blocks[k], bit)
      {
        BitCountAppend(Flatten(blocks[..k]), blocks[k], bit);
      }
      CountBlock(localHist, blocks[k]);
      sinceMerge := sinceMerge + |blocks[k]|;
      var redraw;
      sinceMerge, redraw := shared.MergeIfDue(localHist, sinceMerge);
      if redraw {
        redraws := redraws + 1;
      }
      k := k + 1;
    }
    assert blocks[..k] == blocks;
    var redraw := shared.MergeFinal(localHist, sinceMerge);
    if redraw {
      redraws := redraws + 1;
    }
  }

  /** The bit counts of all files in `paths` that open, in order; a file
      that does not open (`fs` gives `None`) counts nothing. */
  function FilesBitCount(paths: seq<string>, fs: string -> Option<seq<seq<bv8>>>, bit: nat): nat
    requires bit < 8
    decreases |paths|
  {
    if paths == [] then 0
    else
      var last := paths[|paths| - 1];
      FilesBitCount(paths[..|paths| - 1], fs, bit) + (if fs(last).Some? then BitCount(Flatten(fs(last).value), bit) else 0)
  }

  /** The total length of all files in `paths` that open. */
  function FilesBytes(paths: seq<string>, fs: string -> Option<seq<seq<bv8>>>): nat
    decreases |paths|
  {
    if paths == [] then 0
    else
      var last := paths[|paths| - 1];
      FilesBytes(paths[..|paths| - 1], fs) + (if fs(last).Some? then |Flatten(fs(last).value)| else 0)
  }

  /** One more job adds that file's counts. */
  lemma FilesAppend(done: seq<string>, path: string, fs: string -> Option<seq<seq<bv8>>>)
    ensures forall bit :: 0 <= bit < 8 ==>
              FilesBitCount(done + [path], fs, bit)
              == FilesBitCount(done, fs, bit) + (if fs(path).Some? then BitCount(Flatten(fs(path).value), bit) else 0)
    ensures FilesBytes(done + [path], fs)
            == FilesBytes(done, fs) + (if fs(path).Some? then |Flatten(fs(path).value)| else 0)
  {
    assert (done + [path])[..|done|] == done;
  }

  /** One job of `worker_fn` (lines 49-110): a file that does not open is
      skipped with a warning and changes nothing; one that opens is
      counted. */
  method ProcessJob(shared: SharedHistogram, path: string, fs: string -> Option<seq<seq<bv8>>>)
    requires shared.Valid()
    modifies shared, shared.hist
    ensures shared.Valid()
    ensures forall bit :: 0 <= bit < 8 ==>
              shared.hist[bit] == old(shared.hist[bit]) + (if fs(path).Some? then BitCount(Flatten(fs(path).value), bit) else 0)
    ensures shared.totalBytes == old(shared.totalBytes) + (if fs(path).Some? then |Flatten(fs(path).value)| else 0)
    ensures fs(path).None? ==> shared.lastUiBytes == old(shared.lastUiBytes)
  {
    var file := fs(path);
    if file.None? {
      return;
    }
    var _ := ProcessFile(shared, file.value);
  }

  /** `worker_fn` run alone on the queue: it pops and processes jobs until the
      queue has none left, counting every file that opens and skipping the
      others. It stops with -1 on a destroyed queue and where C would wait
      for more jobs on a live one. */
  method Worker(jq: JobQueue<string>, shared: SharedHistogram, fs: string -> Option<seq<seq<bv8>>>)
    returns (last: Outcome<string>)
    requires jq.Valid() && shared.Valid()
    modifies jq, shared, shared.hist
    ensures jq.Valid() && shared.Valid()
    ensures jq.contents == [] && jq.destroyed == old(jq.destroyed)
    ensures last == if jq.destroyed then Shutdown else WouldBlock
    ensures forall bit :: 0 <= bit < 8 ==>
              shared.hist[bit] == old(shared.hist[bit]) + FilesBitCount(old(jq.contents), fs, bit)
    ensures shared.totalBytes == old(shared.totalBytes) + FilesBytes(old(jq.contents), fs)
  {
    ghost var done: seq<string> := [];
    assert forall bit :: 0 <= bit < 8 ==> FilesBitCount(done, fs, bit) == 0;
    while true
      invariant jq.Valid() && shared.Valid()
      invariant jq.destroyed == old(jq.destroyed)
      invariant old(jq.contents) == done + jq.contents
      invariant forall bit {:trigger shared.hist[bit]} :: 0 <= bit < 8 ==>
                  shared.hist[bit] == old(shared.hist[bit]) + FilesBitCount(done, fs, bit)
      invariant shared.totalBytes == old(shared.totalBytes) + FilesBytes(done, fs)
      decreases jq.count
    {
      ghost var pending := jq.contents;
      last := jq.Pop();
      if !last.Job? {
        break;
      }
      var path := last.job;
      TakeFront(old(jq.contents), done, pending, jq.contents);
      FilesAppend(done, path, fs);
      done := done + [path];
      ProcessJob(shared, path, fs);
    }
    assert jq.contents == [];
    assert old(jq.contents) == done;
  }

  /** The parsed command line: the worker count and the roots to walk. */
  datatype Args = Args(threads: int, paths: seq<string>)

  /** `main`'s argument handling (lines 119-132), with `atoi` as a parameter:
      a usage error without arguments; `-n N` is taken only when it is
      followed by at least one path, and N must be at least 1; otherwise one
      thread and every argument is a path. */
  function ParseArgs(argv: seq<string>, atoi: string -> int): (r: Result<Args, ArgError>)
    ensures r.Failure? <==> |argv| < 2 || (|argv| > 3 && argv[1] == "-n" && atoi(argv[2]) < 1)
    ensures r == Failure(Usage) <==> |argv| < 2
    ensures r.Failure? && |argv| >= 2 ==> |argv| > 3 && r == Failure(InvalidThreadCount(argv[2]))
    ensures r.Success? ==> r.value.threads >= 1 && r.value.paths != [] && |r.value.paths| < |argv|
                           && r.value.paths == argv[|argv| - |r.value.paths|..]
  {
    if |argv| < 2 then Failure(Usage)
    else if |argv| > 3 && argv[1] == "-n" then
      if atoi(argv[2]) < 1 then Failure(InvalidThreadCount(argv[2]))
      else Success(Args(atoi(argv[2]), argv[3..]))
    else Success(Args(1, argv[1..]))
  }

  /** `prog -n N paths...` asks for `atoi(N)` threads over exactly those
      paths, and is rejected naming N when that is below 1. */
  lemma ParseFlagged(prog: string, n: string, paths: seq<string>, atoi: string -> int)
    requires paths != []
    ensures atoi(n) >= 1 ==> ParseArgs([prog, "-n", n] + paths, atoi) == Success(Args(atoi(n), paths))
    ensures atoi(n) < 1 ==> ParseArgs([prog, "-n", n] + paths, atoi) == Failure(InvalidThreadCount(n))
  {
    assert ([prog, "-n", n] + paths)[3..] == paths;
  }

  /** A command line without the flag means one thread over all arguments,
      unless the first path is itself `-n` and at least two more follow. */
  lemma ParsePlain(prog: string, paths: seq<string>, atoi: string -> int)
    requires paths != []
    ensures ParseArgs([prog] + paths, atoi) == Success(Args(1, paths)) <==> !(|paths| > 2 && paths[0] == "-n")
  {
    var argv := [prog] + paths;
    assert argv[1..] == paths;
    if |paths| > 2 && paths[0] == "-n" {
      assert |argv[3..]| < |paths|;
    }
  }
}
