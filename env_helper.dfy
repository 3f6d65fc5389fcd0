/** `get_debug_json_logs` in avalon/datagen/env_helper.py: choose which episode's debug log to
    read and whether that episode may still be appending to it, then read it. */
module EnvHelper {
  import opened Wrappers
  import opened DebugLog

  /** What the reader needs to know of the environment: whether the config asked for debug
      output, the seeds of the episodes the tracker has recorded (oldest first), and whether the
      simulator process handle is closed. */
  datatype Env = Env(isDebuggingOutputRequested: bool, episodeSeeds: seq<int>, isProcessClosed: bool)

  datatype Selection = Selection(seed: int, isEpisodeOngoing: bool)

  datatype EnvError =
    | DebugOutputNotRequested   // the `assert` on the recording options fails
    | NoEpisodes                // `episodes[-1]` on an empty list raises `IndexError`
    | CorruptLog(error: LogError)

  /** The episode to read and whether it is ongoing. An omitted seed means the latest episode;
      an episode is ongoing exactly when the process is not closed and it is the latest one. */
  function SelectEpisode(env: Env, episodeSeed: Option<int>): (r: Result<Selection, EnvError>)
    ensures !env.isDebuggingOutputRequested ==> r == Err(DebugOutputNotRequested)
    ensures env.isDebuggingOutputRequested && env.episodeSeeds == [] ==> r == Err(NoEpisodes)
    ensures r.Ok? <==> env.isDebuggingOutputRequested && env.episodeSeeds != []
    ensures r.Ok? && episodeSeed.Some? ==> r.value.seed == episodeSeed.value
    ensures r.Ok? && episodeSeed.None? ==>
      r.value.seed == env.episodeSeeds[|env.episodeSeeds| - 1] &&
      r.value.isEpisodeOngoing == !env.isProcessClosed
    ensures r.Ok? && r.value.isEpisodeOngoing ==>
      !env.isProcessClosed && r.value.seed == env.episodeSeeds[|env.episodeSeeds| - 1]
    ensures r.Ok? && !env.isProcessClosed && r.value.seed == env.episodeSeeds[|env.episodeSeeds| - 1] ==>
      r.value.isEpisodeOngoing
  {
    if !env.isDebuggingOutputRequested then Err(DebugOutputNotRequested)
    else if env.episodeSeeds == [] then Err(NoEpisodes)
    else
      var latestEpisode := env.episodeSeeds[|env.episodeSeeds| - 1];
      var seed := match episodeSeed case Some(s) => s case None => latestEpisode;
      Ok(Selection(seed, !env.isProcessClosed && seed == latestEpisode))
  }

  /** Read the debug log of the chosen episode. `logOf` gives the lines of the file `debug.json` in
      each episode's folder. */
  method GetDebugJsonLogs<R>(decode: Decoder<R>, env: Env, logOf: int -> seq<Line>, episodeSeed: Option<int>)
    returns (r: Result<seq<R>, EnvError>)
    ensures SelectEpisode(env, episodeSeed).Err? ==> r == Err(SelectEpisode(env, episodeSeed).error)
    ensures SelectEpisode(env, episodeSeed).Ok? ==>
      var sel := SelectEpisode(env, episodeSeed).value;
      match ReadDebugLog(decode, logOf(sel.seed), sel.isEpisodeOngoing)
      case Ok(records) => r == Ok(records)
      case Err(e) => r == Err(CorruptLog(e))
    ensures r.Ok? && (env.isProcessClosed || (episodeSeed.Some? && episodeSeed.value != env.episodeSeeds[|env.episodeSeeds| - 1])) ==>
      var lines := logOf(SelectEpisode(env, episodeSeed).value.seed);
      AllParse(decode, lines) && r.value == ParseAll(decode, lines)
  {
    var selection := SelectEpisode(env, episodeSeed);
    if selection.Err? {
      return Err(selection.error);
    }
    var sel := selection.value;
    var lines := logOf(sel.seed);
    var result, _ := ReadDebugJsonLog(decode, lines, sel.isEpisodeOngoing);
    match result
    case Ok(records) =>
      if !sel.isEpisodeOngoing {
        SealedOkParsesEveryLine(decode, lines);
      }
      r := Ok(records);
    case Err(e) =>
      r := Err(CorruptLog(e));
  }
}
