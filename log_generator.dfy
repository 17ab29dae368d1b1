/**
 * generate_logs_df (app.py, lines 22-44) and the path from the input form to it
 * (app.py, lines 53-62). The random choices are supplied as oracle sequences, one
 * entry per row: the index random.choice takes from the usernames, the draw
 * random.random() returns for the timestamp, and the index random.choice takes
 * from ['Y', 'N'].
 */
module LogGenerator {
  import opened Errors
  import opened Calendar
  import opened Timestamps
  import opened Usernames

  /** One row of the generated table: the columns log_id, username, timestamp, successful. */
  datatype LogRecord = LogRecord(logId: int, username: string, timestamp: string, successful: string)

  /** The list the success flag is chosen from. */
  const SuccessChoices: seq<string> := ["Y", "N"]

  /** The oracle entries are values the random calls can return. */
  predicate PicksFit(usernames: seq<string>, userPicks: seq<nat>, draws: seq<nat>, flagPicks: seq<nat>) {
    && (forall i :: 0 <= i < |userPicks| ==> usernames == [] || userPicks[i] < |usernames|)
    && (forall i :: 0 <= i < |draws| ==> draws[i] < DrawScale)
    && (forall i :: 0 <= i < |flagPicks| ==> flagPicks[i] < |SuccessChoices|)
  }

  /**
   * The row that iteration i of the loop appends: log_id i + 1, the chosen username,
   * a timestamp between the two midnights, and the chosen flag.
   */
  function Row(i: nat, usernames: seq<string>, dateRange: seq<Date>,
               userPicks: seq<nat>, draws: seq<nat>, flagPicks: seq<nat>): (rec: LogRecord)
    requires forall k :: 0 <= k < |dateRange| ==> ValidDate(dateRange[k])
    requires i < |userPicks| && i < |draws| && i < |flagPicks|
    requires PicksFit(usernames, userPicks, draws, flagPicks)
    requires usernames != [] && |dateRange| == 2
    ensures rec.logId == i + 1
    ensures rec.username in usernames && rec.successful in {"Y", "N"}
    ensures IsTimestampText(rec.timestamp)
    ensures var t := ParseTimestamp(rec.timestamp).value;
      && ValidDateTime(t)
      && InstantOf(t) == InterpolatedInstant(dateRange[0], dateRange[1], draws[i])
      && Between(InstantOf(t), Midnight(dateRange[0]), Midnight(dateRange[1]))
  {
    var flag := SuccessChoices[flagPicks[i]];
    assert flag == if flagPicks[i] == 0 then "Y" else "N";
    LogRecord(i + 1, usernames[userPicks[i]], RandomTimestamp(dateRange, draws[i]).value, flag)
  }

  /**
   * generate_logs_df(usernames, date_range, quantity): one row per iteration of
   * range(quantity), appended in order. An empty username list or a date range
   * that is not a pair raises in the first iteration; a quantity of zero or less
   * runs no iteration and yields the empty table.
   */
  method GenerateLogs(usernames: seq<string>, dateRange: seq<Date>, quantity: int,
                      userPicks: seq<nat>, draws: seq<nat>, flagPicks: seq<nat>)
    returns (r: Result<seq<LogRecord>>)
    requires forall k :: 0 <= k < |dateRange| ==> ValidDate(dateRange[k])
    requires quantity <= |userPicks| && quantity <= |draws| && quantity <= |flagPicks|
    requires PicksFit(usernames, userPicks, draws, flagPicks)
    ensures r.Err? <==> quantity > 0 && (usernames == [] || |dateRange| != 2)
    ensures r.Err? ==> r.error == (if usernames == [] then EmptySequence else UnpackMismatch)
    ensures r.Ok? ==> |r.value| == (if quantity > 0 then quantity else 0)
    ensures r.Ok? && quantity > 0 ==> usernames != [] && |dateRange| == 2
    ensures r.Ok? ==> forall i :: 0 <= i < |r.value| ==>
      r.value[i] == Row(i, usernames, dateRange, userPicks, draws, flagPicks)
  {
    var df: seq<LogRecord> := [];
    var row := 0;
    while row < quantity
      invariant 0 <= row <= (if quantity > 0 then quantity else 0)
      invariant |df| == row
      invariant row > 0 ==> usernames != [] && |dateRange| == 2
      invariant forall i :: 0 <= i < row ==> df[i] == Row(i, usernames, dateRange, userPicks, draws, flagPicks)
    {
      var next := NextRow(row, usernames, dateRange, userPicks, draws, flagPicks);
      if next.Err? {
        return Err(next.error);
      }
      var record := next.value;
      RowsAppend(df, record, usernames, dateRange, userPicks, draws, flagPicks);
      df := df + [record];
      row := row + 1;
    }
    return Ok(df);
  }

  /**
   * One iteration of the loop (app.py, lines 33-42): pick the username, fetch the
   * timestamp, pick the flag, and build the record with log_id row + 1.
   */
  method NextRow(row: nat, usernames: seq<string>, dateRange: seq<Date>,
                 userPicks: seq<nat>, draws: seq<nat>, flagPicks: seq<nat>)
    returns (r: Result<LogRecord>)
    requires forall k :: 0 <= k < |dateRange| ==> ValidDate(dateRange[k])
    requires row < |userPicks| && row < |draws| && row < |flagPicks|
    requires PicksFit(usernames, userPicks, draws, flagPicks)
    ensures r.Err? <==> usernames == [] || |dateRange| != 2
    ensures r.Err? ==> r.error == (if usernames == [] then EmptySequence else UnpackMismatch)
    ensures r.Ok? ==> r.value == Row(row, usernames, dateRange, userPicks, draws, flagPicks)
  {
    if usernames == [] {
      return Err(EmptySequence);
    }
    var username := usernames[userPicks[row]];
    var timestamp := RandomTimestamp(dateRange, draws[row]);
    if timestamp.Err? {
      return Err(timestamp.error);
    }
    var successful := SuccessChoices[flagPicks[row]];
    return Ok(LogRecord(row + 1, username, timestamp.value, successful));
  }

  /** Appending the row for the next index keeps the table equal to its rows. */
  lemma RowsAppend(df: seq<LogRecord>, record: LogRecord, usernames: seq<string>, dateRange: seq<Date>,
                   userPicks: seq<nat>, draws: seq<nat>, flagPicks: seq<nat>)
    requires forall k :: 0 <= k < |dateRange| ==> ValidDate(dateRange[k])
    requires |df| < |userPicks| && |df| < |draws| && |df| < |flagPicks|
    requires PicksFit(usernames, userPicks, draws, flagPicks)
    requires usernames != [] && |dateRange| == 2
    requires forall i :: 0 <= i < |df| ==> df[i] == Row(i, usernames, dateRange, userPicks, draws, flagPicks)
    requires record == Row(|df|, usernames, dateRange, userPicks, draws, flagPicks)
    ensures forall i :: 0 <= i < |df| + 1 ==>
      (df + [record])[i] == Row(i, usernames, dateRange, userPicks, draws, flagPicks)
  {
    forall i | 0 <= i < |df| + 1
      ensures (df + [record])[i] == Row(i, usernames, dateRange, userPicks, draws, flagPicks)
    {
      if i < |df| {
        assert (df + [record])[i] == df[i];
      }
    }
  }

  /**
   * Submitting the form: the usernames field is normalised and handed to the
   * generator with the chosen date range and the slider's record count (1 to 500).
   * Normalisation never yields an empty list, so only a date range that is not a
   * pair can make generation fail.
   */
  method SubmitForm(rawUsernames: string, dateRange: seq<Date>, quantity: int,
                    userPicks: seq<nat>, draws: seq<nat>, flagPicks: seq<nat>)
    returns (r: Result<seq<LogRecord>>)
    requires forall k :: 0 <= k < |dateRange| ==> ValidDate(dateRange[k])
    requires 1 <= quantity <= 500
    requires quantity <= |userPicks| && quantity <= |draws| && quantity <= |flagPicks|
    requires PicksFit(NormalizeUsernames(rawUsernames), userPicks, draws, flagPicks)
    ensures r.Err? <==> |dateRange| != 2
    ensures r.Err? ==> r.error == UnpackMismatch
    ensures r.Ok? ==> |r.value| == quantity
    ensures r.Ok? ==> forall i :: 0 <= i < |r.value| ==>
      && r.value[i].username in NormalizeUsernames(rawUsernames)
      && Trimmed(r.value[i].username) && NoUpper(r.value[i].username)
      && r.value[i] == Row(i, NormalizeUsernames(rawUsernames), dateRange, userPicks, draws, flagPicks)
  {
    var usernames := NormalizeUsernames(rawUsernames);
    r := GenerateLogs(usernames, dateRange, quantity, userPicks, draws, flagPicks);
  }
}
