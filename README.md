# Bounded job queue with two file-processing tools

This project models the core of a small C program family built on a bounded,
thread-safe job queue. A producer walks a directory tree and pushes file
paths into the queue. A fixed pool of workers pops the paths and processes
them. Two tools use the queue:

- `fhistogram-mt` counts, for each bit position 0..7, how many bytes of
  every file have that bit set. Each worker counts into a local histogram
  and merges it into a shared one.
- `fauxgrep-mt` prints `path:lineno:line` for every line that contains a
  needle.

The model has four modules:

- `Common` (`common.dfy`): `Option`, `Result` and the two command-line errors.
- `JobQueue` (`job_queue.dfy`): the logical queue and the C structure.
  - The logical queue is a value: capacity, jobs front first, shutdown flag.
    Push, pop and destroy are functions on it. `Run` executes any sequence of
    calls, in the order the mutex serialises them. Lemmas over `Run` give
    FIFO order, the capacity bound, the permanent shutdown and the draining
    of the backlog.
  - The C structure is the class `JobQueue`. It has an `array` buffer and
    the fields `count`, `head`, `tail` and `destroyed`, plus a ghost
    `contents` sequence. Its validity predicate ties `contents[i]` to the
    buffer slot `(head + i) % capacity`. Each method is proved to take
    exactly the logical step on `contents`.
  - Each critical section is one atomic method. Where C would wait on a
    condition variable, the method returns `WouldBlock`. A push or pop that
    would wait leaves the state unchanged; a destroy that would wait has
    already set the flag. A caller may try again, which is what C does after
    it wakes.
  - `destroy` sets the flag at once. It returns `Done` only when the queue is
    empty, and `WouldBlock` while jobs remain.
- `FHistogram` (`fhistogram.dfy`): the per-block bit-count loop over a local
  array, the class `SharedHistogram`, the worker loop and `-n` parsing.
  - `SharedHistogram` holds `g_hist`, `g_total_bytes` and `g_last_ui_bytes`.
    It has the periodic merge, the final merge and the redraw rule.
  - The worker loop runs over a queue. A file is the sequence of byte
    blocks `fread` returns, or `None` when `fopen` fails.
- `FauxGrep` (`fauxgrep.dfy`): `strstr`, the line loop of `fauxgrep_file`,
  the printed report format, the worker loop and argument parsing. A file
  is the sequence of lines `getline` returns, or `None` when `fopen` fails.

`atoi` is a parameter `string -> int` of the argument parsers. The file
system is a parameter `fs` that maps a path to the file's contents or to
`None`.

The usage messages of the two tools and their argument handling differ in
two places. The model follows the argument handling in both:

- `fauxgrep-mt` prints `usage: [-n INT] STRING paths...`
  (src/fauxgrep-mt.c:71), which asks for paths. Its argument handling
  (src/fauxgrep-mt.c:78-88) accepts none: with `prog needle` or
  `prog -n N needle`, the path list is empty.
- `fhistogram-mt` prints `usage: [-n N] paths...` (src/fhistogram-mt.c:120).
  It takes `-n` only when `argc > 3` (src/fhistogram-mt.c:126). So
  `prog -n 4` treats `-n` and `4` as two paths and uses one thread.

## Model

| member | source | states |
|---|---|---|
| JobQueue.InitState | src/job_queue.c:9-21 | init fails exactly for a capacity of at most 0; otherwise the queue has that capacity and is empty, live and within its bound |
| JobQueue.PushStep | src/job_queue.c:62-90 | -1 exactly when destroyed; blocks exactly when live and full; otherwise completes and the job joins the back; a refused push leaves the state as it was |
| JobQueue.PopStep | src/job_queue.c:94-114 | yields a job exactly when one is held, and that job is the front, with the rest left in order; -1 exactly when empty and destroyed; blocks exactly when empty and live; capacity and flag are kept |
| JobQueue.DestroyStep | src/job_queue.c:43-58 | sets the flag and keeps the jobs and the capacity; completes exactly when the queue is empty, otherwise blocks |
| JobQueue.Run | src/job_queue.c:43-114 | the calls run one after another, as the mutex serialises them: one outcome per call, the capacity never changes, a set flag stays set, and each call adds at most one job |
| JobQueue.JobQueue.Init | src/job_queue.c:9-21 | returns None exactly when capacity <= 0; otherwise a fresh valid queue with count, head and tail 0 and not destroyed, equal to the logical initial state |
| JobQueue.JobQueue.constructor | src/job_queue.c:13-21 | allocates a buffer of `capacity` slots and zeroes count, head, tail and the flag |
| JobQueue.JobQueue.Push | src/job_queue.c:62-90 | -1 exactly when destroyed; blocks exactly when live and full; otherwise stores the job at the old tail, advances tail modulo capacity, increments count and appends the job to the contents; a refused push changes no slot, count, head or tail |
| JobQueue.JobQueue.Pop | src/job_queue.c:94-114 | -1 exactly when destroyed and empty; blocks exactly when live and empty; otherwise returns buffer[head], which is the front of the contents, advances head modulo capacity, decrements count and drops the front |
| JobQueue.JobQueue.Destroy | src/job_queue.c:43-58 | sets the flag for good; completes exactly when count is 0, otherwise blocks; the contents are untouched |
| JobQueue.JobQueue.SlotOfJob | src/job_queue.c:83-84 | each job i of the contents sits in slot (head + i) % capacity, and tail is always (head + count) % capacity, also for an empty queue |
| JobQueue.ApplyPreservesInv | src/job_queue.c:70-85 | a single push, pop or destroy keeps 0 < capacity and count <= capacity |
| JobQueue.RunPreservesInv | src/job_queue.c:70-109 | any sequence of calls keeps the capacity and never exceeds it |
| JobQueue.StepFifo | src/job_queue.c:83-85 | for one call, held jobs plus the job it accepts equal the job it hands out plus the jobs held afterwards |
| JobQueue.Fifo | src/job_queue.c:83-85 | over any sequence of calls, the initial jobs followed by all accepted pushes equal all popped jobs followed by what is left: nothing is lost, duplicated or reordered |
| JobQueue.PopOrder | src/job_queue.c:107-109 | the popped jobs are a prefix of the initial jobs followed by the accepted pushes, in push order |
| JobQueue.DestroyedRejectsPushes | src/job_queue.c:46 | from a destroyed state, the flag stays set, every push returns -1 and no job is accepted |
| JobQueue.PushAfterDestroyFails | src/job_queue.c:65-68 | a push made at any point after a destroy call returns -1, whatever happened in between |
| JobQueue.DrainAfterDestroy | src/job_queue.c:97-109 | popping a destroyed queue yields its whole backlog in order; only the pop after the last job returns -1 |
| JobQueue.DrainedQueueIsInert | src/job_queue.c:43-58 | once destroyed and empty, the state never changes: pushes and pops return -1 and destroy completes at once |
| FHistogram.BitOf | src/fhistogram-mt.c:72 | `(b >> bit) & 1` is 0 or 1, and is 1 exactly when bit `bit` of `b` is set |
| FHistogram.BitCount | src/fhistogram-mt.c:68-74 | the count for a block never exceeds the block's length |
| FHistogram.BitCountIsNumberOfSetBytes | src/fhistogram-mt.c:68-74 | the per-bit sum equals the number of bytes whose bit `bit` is set |
| FHistogram.BitCountAppend | src/fhistogram-mt.c:66-75 | counts are additive over a split of the bytes into blocks |
| FHistogram.CountBlock | src/fhistogram-mt.c:68-74 | after a block, local_hist[bit] has grown by exactly the number of bytes with that bit set, hence by at most the block length |
| FHistogram.SharedHistogram.constructor | src/fhistogram-mt.c:21-23 | the shared histogram and both byte counters start at zero |
| FHistogram.SharedHistogram.MaybeRedraw | src/fhistogram-mt.c:87-88 | a redraw happens exactly when total - last >= PRINT_STEP, and moves last up to total; last <= total is kept, so the unsigned difference never wraps |
| FHistogram.SharedHistogram.MergeIfDue | src/fhistogram-mt.c:78-93 | below 32768 local bytes nothing changes; otherwise g_hist[bit] + local_hist[bit] and g_total_bytes + local bytes are preserved, the local counts are reset to zero, and a redraw happens exactly when the new total is PRINT_STEP or more past the last redraw |
| FHistogram.SharedHistogram.MergeFinal | src/fhistogram-mt.c:98-108 | the leftover local counts and bytes are added into the shared ones; a redraw happens exactly when the new total is PRINT_STEP or more past the last redraw, and moves the mark to the total |
| FHistogram.ProcessFile | src/fhistogram-mt.c:60-108 | whatever the block boundaries and merge timing, g_hist[bit] grows by the bit count of the whole file and g_total_bytes by its length; each redraw advances last by at least PRINT_STEP |
| FHistogram.ProcessJob | src/fhistogram-mt.c:49-110 | a file that fails to open changes neither the histogram, the total nor the redraw mark; one that opens is counted in full |
| FHistogram.Worker | src/fhistogram-mt.c:44-114 | popping until the queue is empty counts every queued file that opens, in the histogram and in the total; stops with -1 on a destroyed queue |
| FHistogram.ParseArgs | src/fhistogram-mt.c:119-132 | a usage error exactly when there is no argument; any other failure is the thread-count error naming argv[2], and it happens exactly when `-n` is taken and atoi gives less than 1; otherwise at least one thread and a non-empty suffix of argv as paths |
| FHistogram.ParseFlagged | src/fhistogram-mt.c:126-131 | `prog -n N paths...` with at least one path gives atoi(N) threads over exactly those paths, or the error naming N |
| FHistogram.ParsePlain | src/fhistogram-mt.c:123-126 | a command line gives one thread over all its arguments exactly when it is not `-n` followed by two or more arguments |
| FauxGrep.Occurs | src/fauxgrep-mt.c:41 | `strstr(line, needle) != NULL`: the empty needle is found in every line, and a needle longer than the line is never found |
| FauxGrep.OccursAtIsFound | src/fauxgrep-mt.c:41 | if the needle stands at some position of the line, the search finds it |
| FauxGrep.OccursIsSubstring | src/fauxgrep-mt.c:41 | the search succeeds exactly when some window of the line equals the needle |
| FauxGrep.Matches | src/fauxgrep-mt.c:39-47 | never more reports than lines |
| FauxGrep.MatchesSound | src/fauxgrep-mt.c:40-46 | every report carries the path, a line number in range, that line as read and a line containing the needle; reports come in increasing line-number order |
| FauxGrep.MatchesComplete | src/fauxgrep-mt.c:40-46 | every line containing the needle is reported with its 0-based number |
| FauxGrep.EmptyNeedleReportsEveryLine | src/fauxgrep-mt.c:41 | the empty needle matches every line, so there is one report per line |
| FauxGrep.GrepFile | src/fauxgrep-mt.c:28-52 | -1 and no output when the file does not open; otherwise 0 and exactly the matching lines, numbered from 0 by a counter that advances on every line |
| FauxGrep.Digits | src/fauxgrep-mt.c:43 | `%d` of a natural number is a non-empty string of decimal digits with no leading zero: "0" for 0, and a first digit other than 0 otherwise |
| FauxGrep.Decimal | src/fauxgrep-mt.c:43 | `%d` is non-empty; for n >= 0 it is the decimal digits denoting n, with no leading zero; for n < 0 it is a minus sign followed by the digits of -n, again with no leading zero |
| FauxGrep.Format | src/fauxgrep-mt.c:43 | the printed text starts with the path and a colon, and ends with a colon and the line exactly as read |
| FauxGrep.DigitsRoundTrip | src/fauxgrep-mt.c:43 | the printed digits read back as the number |
| FauxGrep.FormatRoundTrip | src/fauxgrep-mt.c:43 | the printed `path:lineno:line` loses nothing when the path has no colon: path, number and line read back unchanged |
| FauxGrep.Worker | src/fauxgrep-mt.c:56-65 | popping until the queue is empty greps every queued path in queue order, and files that do not open report nothing; stops with -1 on a destroyed queue |
| FauxGrep.ParseArgs | src/fauxgrep-mt.c:70-89 | a usage error exactly when there is no argument; any other failure is the thread-count error naming argv[2], and it happens exactly when `-n` is taken and atoi gives less than 1; otherwise at least one thread, the needle is the argument just before the paths, and the paths are a suffix of argv |
| FauxGrep.ParseFlagged | src/fauxgrep-mt.c:78-84 | `prog -n N needle paths...` gives atoi(N) threads, that needle and those paths, or the error naming N |
| FauxGrep.ParsePlain | src/fauxgrep-mt.c:85-88 | `prog needle paths...` gives one thread, that needle and those paths, exactly when it is not `-n` followed by two or more arguments |

## Left out

- Mutex, condition variables, signal and broadcast in src/job_queue.c are not modelled. A wait is a `WouldBlock` outcome, and each critical section is one atomic step. Wake-up order, lost wake-ups between the two waiters on `not_full`, and the deadlock of a destroy with no consumer are concurrency properties outside a sequential model.
- The re-checks of `destroyed` after a wait in push (src/job_queue.c:72-81) are modelled only through the first check. In a sequential model nothing can set the flag while a push waits.
- The `malloc` and `pthread_*_init` failure paths (src/job_queue.c:13-16, 23-37) are left out. They depend on the allocator and the thread library.
- Freeing the buffer in destroy (src/job_queue.c:56) is left out. `DrainedQueueIsInert` shows that no later push or pop reads or writes it.
- JobQueue.DestroyStep: the model does not capture that `job_queue_destroy` is not idempotent. A second call on a drained queue runs `free` on the buffer again (src/job_queue.c:56), a double free. A `DestroyOp` after `Done` models only the re-check of the wait loop (src/job_queue.c:48-50), not a fresh call, and the model cannot tell the two apart. Neither `main` calls destroy twice.
- Thread creation and join, the `fts` directory walk and the producer loop in both `main` functions are left out. They are I/O and thread management; the queue contents stand for the paths pushed.
- The queue capacity 64 chosen in both `main` functions is left out. The model works for every positive capacity.
- `fopen`, `fread`, `getline` and `fclose` are left out. A file is a given sequence of blocks or lines, or `None` when it fails to open. Lines containing NUL bytes, which `strstr` would cut short, are not modelled.
- `warn`, `err`, `printf` and the terminal output of `ui_print_locked`, `print_histogram` and `move_lines` are left out. `histogram.h` is not part of this model. A redraw is the boolean `redraw` result, and printed lines are `Report` values with their text given by `Format`.
- `atoi` is a parameter of the parsers, because it is a C library call.
- FHistogram.SharedHistogram.MergeIfDue: overflow of the `int g_hist[8]` counters and of the `size_t` byte counters is not modelled, because all counters are unbounded integers.
- FauxGrep.GrepFile: overflow of the `int lineno` counter past 2^31 - 1 lines is not modelled, because line numbers are unbounded integers.
- FHistogram.Worker and FauxGrep.Worker run one worker alone on the queue. The interleaving of several workers, and of their output, is concurrency.
- benchmark.py and create_dataset.py are left out. They are timing, file copying and random data generation.
