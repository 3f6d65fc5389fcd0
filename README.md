# Debug-log reader of the Avalon environment helpers

This project models the one piece of real logic in `avalon/datagen/env_helper.py`: how the
simulator's line-delimited JSON debug log is read while another process may still be
appending to it (`_read_debug_json_log`), and how `get_debug_json_logs` picks the episode to
read and decides whether it is still ongoing.

The reader decodes lines in file order. It stops at the first line that does not decode,
then takes exactly one more line from the file iterator:

- if that line exists, the bad line was interior and the read fails;
- if it does not, the bad line was the last one. It is an error when the episode is finished.
  When the episode is ongoing, the line is dropped as a half-written record and the records
  before it are returned.

Modules:

- `Wrappers` (`wrappers.dfy`): `Option` and `Result`. An `Err` is a raised exception and carries
  no partial records.
- `DebugLog` (`debug_log.dfy`): the file is the sequence of lines its iterator yields.
  `json.loads` is a decoder passed as a parameter (`Line -> Option<R>`), so every property holds
  for every decoder and records stay opaque. `ReadDebugLog` is the specification function.
  `ReadDebugJsonLog` is the imperative reader: the `for`/`break` loop with an output
  accumulator, a `failure` variable and a cursor into the lines, then the one extra `next`. It
  is proved equal to `ReadDebugLog`, and it also reports how many lines it took from the
  iterator.
- `EnvHelper` (`env_helper.dfy`): the environment state the decision needs. This is whether
  debug output was requested, the recorded episode seeds, and whether the process is closed.
  `SelectEpisode` is the seed defaulting and the ongoing flag. `GetDebugJsonLogs` composes it
  with the reader.

The code raises `ValueError` in two places, with different messages: an unparseable
interior line (line 255), and an unparseable final line of a finished episode (line 262).
The model keeps them apart as `UnparseableMidFile` and `UnparseableFinalLine`. Both carry
the zero-based line index and the raw line.

## Model

| member | source | states |
|---|---|---|
| `DebugLog.ParseAll` | avalon/datagen/env_helper.py:243-245 | lines that all decode give one record per line, in file order: the i-th record is the decoding of the i-th line |
| `DebugLog.FirstUnparseable` | avalon/datagen/env_helper.py:243-248 | gives no index exactly when every line decodes; otherwise gives an index inside the file whose line does not decode and before which every line decodes |
| `DebugLog.FirstUnparseableAt` | avalon/datagen/env_helper.py:246-248 | the first failure is unique: a bad line preceded only by good lines is the one the loop breaks on |
| `DebugLog.LinesRead` | avalon/datagen/env_helper.py:250-253 | the reader takes every line when all decode; otherwise it takes the lines up to the first bad line k, plus one more exactly when line k+1 exists, so never more than k+2 |
| `DebugLog.ReadDebugJsonLog` | avalon/datagen/env_helper.py:237-267 | the imperative loop with its accumulator, `failure` and the one extra `next` returns or raises exactly what `ReadDebugLog` specifies, and takes `LinesRead` lines from the iterator |
| `DebugLog.AllLinesParse` | avalon/datagen/env_helper.py:243-267 | when every line decodes, the result is `Ok` with one record per line in file order, whether or not the episode is ongoing |
| `DebugLog.OkIsParsedPrefix` | avalon/datagen/env_helper.py:238-267 | every successful result is the decodings of a prefix of the lines. It is the whole file, unless the episode is ongoing and only the last line, which does not decode, is left out |
| `DebugLog.SealedRoundTrip` | avalon/datagen/env_helper.py:243-267 | records written one per line by any encoder that the decoder inverts read back exactly, in order, from a finished episode's log |
| `DebugLog.MidFileFailure` | avalon/datagen/env_helper.py:250-260 | a first bad line k with another line after it raises the mid-file error naming k and that line's content, for both values of the ongoing flag |
| `DebugLog.SealedFinalLineFailure` | avalon/datagen/env_helper.py:250-265 | a first bad line that is the last line of a finished episode raises the final-line error naming its index and content |
| `DebugLog.OngoingFinalLineDropped` | avalon/datagen/env_helper.py:250-267 | a first bad line that is the last line of an ongoing episode is dropped silently: the result is `Ok` of exactly the records of the earlier lines |
| `DebugLog.ErrorIsFirstFailure` | avalon/datagen/env_helper.py:246-265 | every error names the first line that does not decode, with its raw content, and every earlier line decodes; it is mid-file exactly when a line follows, and final-line only when the episode is not ongoing |
| `DebugLog.FailsExactlyWhen` | avalon/datagen/env_helper.py:250-265 | the reader raises if and only if some line fails to decode and that line is interior or the episode is not ongoing |
| `DebugLog.UnreadLinesIgnored` | avalon/datagen/env_helper.py:246-253 | once line k fails, the content of every later line is irrelevant: two files that agree up to line k, and that both have or both lack a line after k, read the same |
| `DebugLog.SealedOkParsesEveryLine` | avalon/datagen/env_helper.py:261-267 | a finished episode's log that reads without error decodes line for line, and the result is all of its records |
| `DebugLog.OngoingOnlyForgivesFinalLine` | avalon/datagen/env_helper.py:261-267 | a read that succeeds for a finished episode gives the same records for an ongoing one. The two flags give different outcomes only when the last line alone fails: the finished episode then raises the final-line error, and the ongoing one returns all earlier records |
| `EnvHelper.SelectEpisode` | avalon/datagen/env_helper.py:225-232 | fails when debug output was not requested (the `assert`) or no episode was recorded (`episodes[-1]`). An omitted seed means the latest episode. The episode is ongoing exactly when the process is not closed and the seed is the latest one, so an older seed is never ongoing |
| `EnvHelper.GetDebugJsonLogs` | avalon/datagen/env_helper.py:225-234 | propagates the selection errors, else returns or raises what the reader specifies for the chosen episode's log. When the process is closed or an older seed is asked for, it succeeds only on a log whose every line decodes, and returns all of its records |

## Left out

- `wait_until_true(debug_json_path.exists, ...)` (line 241): a polling wait for a file written by another process. The model assumes the file exists when reading starts. A missing file of a finished episode, for which `open` raises, is not modelled.
- Opening the file and building its path (lines 233, 242): `logOf` maps each episode seed to the lines of that episode's `debug.json`.
- The body of `json.loads`: the decoder is a parameter. `None` stands for `JSONDecodeError`, and the decode error object chained with `from err` is not kept. Exceptions other than `JSONDecodeError` that `json.loads` could raise are not modelled.
- The content of the log records (`DebugItemLog`, `DebugAnimalLog`, `DebugLogLine`, lines 193-222): the reader never checks their shape, so records are an opaque type parameter.
- The Python `assert` in `get_debug_json_logs` is modelled as an error, as under a normal interpreter. Running with assertions disabled is not modelled.
- The config builders, null-action constructors, `create_env`, video-tensor helpers and `visualize_worlds_in_folder` (lines 43-190): glue over the configuration object model, a tensor library, a visualisation library and the simulator. None of it is part of this model.
- Concurrency with the writing process: each read is modelled on a snapshot of the file's lines. This hides one race in an ongoing episode: the loop can yield a half-written last line, and if the writer completes it before the `next` at line 252 runs, `next` returns the rest of that line instead of `None`, so the source raises the mid-file `ValueError` (line 255) on a healthy growing log. `OngoingFinalLineDropped` holds only for a file that does not grow during the read.
