/** The reader of the line-delimited JSON debug log that the simulator appends to while an
    episode runs (`_read_debug_json_log` in avalon/datagen/env_helper.py).

    The file is the sequence of lines its iterator yields, each with its newline if it has one.
    `json.loads` is kept uninterpreted: every operation takes the decoder as a parameter and
    every property below holds for every decoder. */
module DebugLog {
  import opened Wrappers

  type Line = string

  /** `json.loads` on one line: `None` stands for a `JSONDecodeError`. */
  type Decoder<R> = Line -> Option<R>

  /** The two `ValueError`s the reader raises, each with the zero-based line index and the raw line. */
  datatype LogError =
    | UnparseableMidFile(line: nat, content: Line)   // a bad line with another line after it
    | UnparseableFinalLine(line: nat, content: Line) // a bad last line while the episode is not ongoing

  type ReadResult<R> = Result<seq<R>, LogError>

  predicate AllParse<R>(decode: Decoder<R>, lines: seq<Line>) {
    forall i :: 0 <= i < |lines| ==> decode(lines[i]).Some?
  }

  /** The records of lines that all decode: one per line, in file order. */
  function ParseAll<R>(decode: Decoder<R>, lines: seq<Line>): (records: seq<R>)
    requires AllParse(decode, lines)
    ensures |records| == |lines|
    ensures forall i :: 0 <= i < |lines| ==> decode(lines[i]) == Some(records[i])
  {
    if lines == [] then []
    else ParseAll(decode, lines[..|lines| - 1]) + [decode(lines[|lines| - 1]).value]
  }

  /** The index of the first line that does not decode, if there is one. */
  function FirstUnparseable<R>(decode: Decoder<R>, lines: seq<Line>): (k: Option<nat>)
    ensures k.None? <==> AllParse(decode, lines)
    ensures k.Some? ==>
      k.value < |lines| && decode(lines[k.value]).None? && AllParse(decode, lines[..k.value])
  {
    if lines == [] then None
    else
      var init := lines[..|lines| - 1];
      match FirstUnparseable(decode, init)
      case Some(k) =>
        assert init[..k] == lines[..k];
        assert init[k] == lines[k];
        Some(k)
      case None =>
        if decode(lines[|lines| - 1]).None? then
          assert init == lines[..|lines| - 1];
          Some(|lines| - 1)
        else
          assert forall i :: 0 <= i < |lines| - 1 ==> init[i] == lines[i];
          None
  }

  /** The lines of a prefix that all decode are lines of the file that decode. */
  lemma PrefixParses<R>(decode: Decoder<R>, lines: seq<Line>, k: nat)
    requires k <= |lines| && AllParse(decode, lines[..k])
    ensures forall j :: 0 <= j < k ==> decode(lines[j]).Some?
  {
    forall j | 0 <= j < k ensures decode(lines[j]).Some? {
      assert lines[..k][j] == lines[j];
    }
  }

  /** A line that does not decode, after lines that all do, is the first unparseable line. */
  lemma FirstUnparseableAt<R>(decode: Decoder<R>, lines: seq<Line>, k: nat)
    requires k < |lines| && decode(lines[k]).None? && AllParse(decode, lines[..k])
    ensures FirstUnparseable(decode, lines) == Some(k)
  {
    PrefixParses(decode, lines, k);
    var f := FirstUnparseable(decode, lines);
    if f.Some? {
      PrefixParses(decode, lines, f.value);
    }
  }

  /** What the reader returns or raises for a file with these lines. */
  function ReadDebugLog<R>(decode: Decoder<R>, lines: seq<Line>, isEpisodeOngoing: bool): ReadResult<R>
  {
    match FirstUnparseable(decode, lines)
    case None => Ok(ParseAll(decode, lines))
    case Some(k) =>
      if k + 1 < |lines| then Err(UnparseableMidFile(k, lines[k]))
      else if !isEpisodeOngoing then Err(UnparseableFinalLine(k, lines[k]))
      else Ok(ParseAll(decode, lines[..k]))
  }

  /** How many lines the reader takes from the file iterator: all of them when every line decodes,
      otherwise the lines up to the first bad one and at most one more. */
  function LinesRead<R>(decode: Decoder<R>, lines: seq<Line>): (n: nat)
    ensures n <= |lines|
    ensures FirstUnparseable(decode, lines).None? ==> n == |lines|
    ensures FirstUnparseable(decode, lines).Some? ==>
      var k := FirstUnparseable(decode, lines).value;
      k < n <= k + 2 && (n == k + 2 <==> k + 1 < |lines|)
  {
    match FirstUnparseable(decode, lines)
    case None => |lines|
    case Some(k) => if k + 1 < |lines| then k + 2 else k + 1
  }

  /** The reader: decode lines in order until the first failure, then take one more line from the
      iterator to tell an interior bad line from a trailing one. */
  method ReadDebugJsonLog<R>(decode: Decoder<R>, lines: seq<Line>, isEpisodeOngoing: bool)
    returns (result: ReadResult<R>, linesRead: nat)
    ensures result == ReadDebugLog(decode, lines, isEpisodeOngoing)
    ensures linesRead == LinesRead(decode, lines)
  {
    var debugOutput: seq<R> := [];
    var failure: Option<(nat, Line)> := None;
    var cursor: nat := 0;  // lines taken from the iterator so far
    while cursor < |lines|
      invariant cursor <= |lines|
      invariant failure == None
      invariant AllParse(decode, lines[..cursor])
      invariant debugOutput == ParseAll(decode, lines[..cursor])
    {
      var frame := lines[cursor];
      match decode(frame)
      case Some(record) =>
        assert lines[..cursor + 1][..cursor] == lines[..cursor];
        debugOutput := debugOutput + [record];
        cursor := cursor + 1;
      case None =>
        FirstUnparseableAt(decode, lines, cursor);
        failure := Some((cursor, frame));
        cursor := cursor + 1;
        break;
    }
    assert failure.None? ==> lines[..cursor] == lines;

    if failure.Some? {
      var (line, frameDict) := failure.value;
      var nextLine: Option<Line> := None;
      if cursor < |lines| {
        nextLine := Some(lines[cursor]);
        cursor := cursor + 1;
      }
      if nextLine.Some? {
        return Err(UnparseableMidFile(line, frameDict)), cursor;
      } else if !isEpisodeOngoing {
        return Err(UnparseableFinalLine(line, frameDict)), cursor;
      }
    }
    return Ok(debugOutput), cursor;
  }

  /** A file whose every line decodes is read in full, in file order, one record per line,
      whether or not the episode is ongoing. */
  lemma AllLinesParse<R>(decode: Decoder<R>, lines: seq<Line>, isEpisodeOngoing: bool)
    requires forall i :: 0 <= i < |lines| ==> decode(lines[i]).Some?
    ensures ReadDebugLog(decode, lines, isEpisodeOngoing).Ok?
    ensures var records := ReadDebugLog(decode, lines, isEpisodeOngoing).value;
      |records| == |lines| && forall i :: 0 <= i < |lines| ==> decode(lines[i]) == Some(records[i])
  {
    assert AllParse(decode, lines);
  }

  /** The log a writer produces for these records: one line per record, in order. */
  function WriteLog<R>(encode: R -> Line, records: seq<R>): (lines: seq<Line>)
    ensures |lines| == |records|
    ensures forall i :: 0 <= i < |records| ==> lines[i] == encode(records[i])
  {
    seq(|records|, i requires 0 <= i < |records| => encode(records[i]))
  }

  /** Records written one per line by an encoder that the decoder inverts read back exactly,
      in order, from a finished episode's log. */
  lemma SealedRoundTrip<R>(decode: Decoder<R>, encode: R -> Line, records: seq<R>)
    requires forall r :: decode(encode(r)) == Some(r)
    ensures ReadDebugLog(decode, WriteLog(encode, records), false) == Ok(records)
  {
    var lines := WriteLog(encode, records);
    AllLinesParse(decode, lines, false);
    assert ReadDebugLog(decode, lines, false).value == records;
  }

  /** A successful read holds exactly the records of a prefix of the lines: the whole file,
      or, when the episode is ongoing, all but a last line that does not decode. */
  lemma OkIsParsedPrefix<R>(decode: Decoder<R>, lines: seq<Line>, isEpisodeOngoing: bool)
    requires ReadDebugLog(decode, lines, isEpisodeOngoing).Ok?
    ensures var records := ReadDebugLog(decode, lines, isEpisodeOngoing).value;
      |records| <= |lines| &&
      (forall i :: 0 <= i < |records| ==> decode(lines[i]) == Some(records[i])) &&
      (|records| < |lines| ==>
        isEpisodeOngoing && |records| == |lines| - 1 && decode(lines[|lines| - 1]).None?)
  {
    var records := ReadDebugLog(decode, lines, isEpisodeOngoing).value;
    match FirstUnparseable(decode, lines)
    case None =>
    case Some(k) =>
      forall i | 0 <= i < |records| ensures decode(lines[i]) == Some(records[i]) {
        assert lines[..k][i] == lines[i];
      }
  }

  /** A bad line with another line after it is an error naming that line, ongoing or not. */
  lemma MidFileFailure<R>(decode: Decoder<R>, lines: seq<Line>, k: nat, isEpisodeOngoing: bool)
    requires k + 1 < |lines|
    requires forall i :: 0 <= i < k ==> decode(lines[i]).Some?
    requires decode(lines[k]).None?
    ensures ReadDebugLog(decode, lines, isEpisodeOngoing) == Err(UnparseableMidFile(k, lines[k]))
  {
    assert AllParse(decode, lines[..k]);
    FirstUnparseableAt(decode, lines, k);
  }

  /** A bad last line of an episode that is not ongoing is an error naming that line. */
  lemma SealedFinalLineFailure<R>(decode: Decoder<R>, lines: seq<Line>)
    requires lines != []
    requires forall i :: 0 <= i < |lines| - 1 ==> decode(lines[i]).Some?
    requires decode(lines[|lines| - 1]).None?
    ensures ReadDebugLog(decode, lines, false) ==
      Err(UnparseableFinalLine(|lines| - 1, lines[|lines| - 1]))
  {
    assert AllParse(decode, lines[..|lines| - 1]);
    FirstUnparseableAt(decode, lines, |lines| - 1);
  }

  /** A bad last line of an ongoing episode is dropped: the records of all earlier lines are
      returned, in order, and nothing is raised. */
  lemma OngoingFinalLineDropped<R>(decode: Decoder<R>, lines: seq<Line>)
    requires lines != []
    requires forall i :: 0 <= i < |lines| - 1 ==> decode(lines[i]).Some?
    requires decode(lines[|lines| - 1]).None?
    ensures ReadDebugLog(decode, lines, true).Ok?
    ensures var records := ReadDebugLog(decode, lines, true).value;
      |records| == |lines| - 1 && forall i :: 0 <= i < |records| ==> decode(lines[i]) == Some(records[i])
  {
    var init := lines[..|lines| - 1];
    assert forall i :: 0 <= i < |init| ==> init[i] == lines[i];
    FirstUnparseableAt(decode, lines, |lines| - 1);
  }

  /** Every error names the first line that does not decode, with its raw content: every
      earlier line decodes, a mid-file error has a line after it, and a final-line error is
      raised only for the last line of an episode that is not ongoing. */
  lemma ErrorIsFirstFailure<R>(decode: Decoder<R>, lines: seq<Line>, isEpisodeOngoing: bool)
    requires ReadDebugLog(decode, lines, isEpisodeOngoing).Err?
    ensures var e := ReadDebugLog(decode, lines, isEpisodeOngoing).error;
      e.line < |lines| && e.content == lines[e.line] && decode(lines[e.line]).None? &&
      (forall i :: 0 <= i < e.line ==> decode(lines[i]).Some?) &&
      (e.UnparseableMidFile? <==> e.line + 1 < |lines|) &&
      (e.UnparseableFinalLine? ==> !isEpisodeOngoing)
  {
    var k := FirstUnparseable(decode, lines).value;
    forall i | 0 <= i < k ensures decode(lines[i]).Some? {
      assert lines[..k][i] == lines[i];
    }
  }

  /** The reader raises exactly when some line does not decode and that line is interior or
      the episode is not ongoing. */
  lemma FailsExactlyWhen<R>(decode: Decoder<R>, lines: seq<Line>, isEpisodeOngoing: bool)
    ensures ReadDebugLog(decode, lines, isEpisodeOngoing).Err? <==>
      exists k :: 0 <= k < |lines| && decode(lines[k]).None? && (k + 1 < |lines| || !isEpisodeOngoing)
  {
    match FirstUnparseable(decode, lines)
    case None =>
    case Some(k) =>
      if k + 1 < |lines| || !isEpisodeOngoing {
        assert decode(lines[k]).None?;
      } else {
        PrefixParses(decode, lines, k);
      }
  }

  /** Only the first failure matters: once line k fails, the content of every later line is
      never looked at; only whether one exists decides the outcome. */
  lemma UnreadLinesIgnored<R>(decode: Decoder<R>, lines: seq<Line>, other: seq<Line>, k: nat,
                              isEpisodeOngoing: bool)
    requires k < |lines| && decode(lines[k]).None?
    requires forall i :: 0 <= i < k ==> decode(lines[i]).Some?
    requires k < |other| && other[..k + 1] == lines[..k + 1]
    requires (k + 1 < |other|) == (k + 1 < |lines|)
    ensures ReadDebugLog(decode, other, isEpisodeOngoing) == ReadDebugLog(decode, lines, isEpisodeOngoing)
  {
    assert other[..k] == lines[..k] by {
      assert other[..k] == other[..k + 1][..k];
      assert lines[..k] == lines[..k + 1][..k];
    }
    assert other[k] == other[..k + 1][k] && lines[k] == lines[..k + 1][k];
    assert AllParse(decode, lines[..k]);
    FirstUnparseableAt(decode, lines, k);
    FirstUnparseableAt(decode, other, k);
  }

  /** A finished episode's log that reads without error decodes line for line. */
  lemma SealedOkParsesEveryLine<R>(decode: Decoder<R>, lines: seq<Line>)
    requires ReadDebugLog(decode, lines, false).Ok?
    ensures AllParse(decode, lines)
    ensures ReadDebugLog(decode, lines, false).value == ParseAll(decode, lines)
  {
  }

  /** Treating the episode as ongoing forgives only a bad last line: any read that succeeds for a
      finished episode gives the same records for an ongoing one, and the two differ only when
      the last line, and no other, does not decode. */
  lemma OngoingOnlyForgivesFinalLine<R>(decode: Decoder<R>, lines: seq<Line>)
    ensures ReadDebugLog(decode, lines, false).Ok? ==>
      ReadDebugLog(decode, lines, true) == ReadDebugLog(decode, lines, false)
    ensures ReadDebugLog(decode, lines, true) != ReadDebugLog(decode, lines, false) ==>
      lines != [] &&
      ReadDebugLog(decode, lines, false) == Err(UnparseableFinalLine(|lines| - 1, lines[|lines| - 1])) &&
      ReadDebugLog(decode, lines, true) == Ok(ParseAll(decode, lines[..|lines| - 1]))
  {
  }
}
