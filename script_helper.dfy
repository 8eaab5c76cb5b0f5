// ScriptHelper from py_utils/utils.py, with the database client it writes
// through reduced to the job_status table it appends to.

module ScriptHelpers {
  import opened Models

  const MicrosPerSecond: int := 1_000_000

  /**
    int(td.total_seconds()) for a timedelta of d microseconds: the number of
    whole seconds, truncated toward zero (so a clock that went back by less
    than a second still gives 0, not -1).
  */
  function ElapsedSeconds(d: int): (s: int)
    ensures d >= 0 ==> 0 <= s && s * MicrosPerSecond <= d < (s + 1) * MicrosPerSecond
    ensures d < 0 ==> s <= 0 && -s * MicrosPerSecond <= -d < (-s + 1) * MicrosPerSecond
  {
    if d >= 0 then d / MicrosPerSecond else -((-d) / MicrosPerSecond)
  }

  /** The outcome of DbClient.insert_data. */
  datatype InsertResult = Inserted(row: JobStatus) | Failed(error: string)

  /**
    The database client as ScriptHelper uses it: create_tables makes the
    job_status table exist, insert_data appends one row to it. The rows are
    the contents of the external database, hence ghost.
  */
  class DbClient {
    var tableCreated: bool
    ghost var rows: seq<JobStatus>

    /** A client connected to a database that holds the given rows. */
    constructor (ghost stored: seq<JobStatus>, tableExists: bool)
      ensures tableCreated == tableExists && rows == stored
    {
      tableCreated := tableExists;
      rows := stored;
    }

    /** create_tables: idempotent; afterwards the table exists and its rows are as before. */
    method CreateTables()
      modifies this
      ensures tableCreated && rows == old(rows)
    {
      tableCreated := true;
    }

    /**
      insert_data: commits the row and returns it; when the table is missing
      the session is rolled back and the rows are unchanged.
    */
    method InsertData(model: JobStatus) returns (result: InsertResult)
      modifies this
      ensures tableCreated == old(tableCreated)
      ensures old(tableCreated) ==> result == Inserted(model) && rows == old(rows) + [model]
      ensures !old(tableCreated) ==> result.Failed? && rows == old(rows)
    {
      if tableCreated {
        rows := rows + [model];
        result := Inserted(model);
      } else {
        result := Failed("no such table: job_status");
      }
    }
  }

  /**
    Created at the start of a script; captures the start time, the script name
    and the executing user, and writes one job_status row per log call.
    Clock readings, the host name and the script's absolute path are passed in.
  */
  class ScriptHelper {
    const startTime: int
    const parentScript: string
    const executedBy: string
    const dbClient: DbClient

    /** The job_status table exists, so every insert succeeds. */
    ghost predicate Valid()
      reads dbClient
    {
      dbClient.tableCreated
    }

    /** __init__: capture the start time and user, then create the tables. */
    constructor (scriptName: string, dbClient: DbClient, now: int, user: string)
      modifies dbClient
      ensures startTime == now && parentScript == scriptName && executedBy == user
      ensures this.dbClient == dbClient
      ensures Valid() && dbClient.rows == old(dbClient.rows)
    {
      startTime := now;
      parentScript := scriptName;
      executedBy := user;
      this.dbClient := dbClient;
      new;
      dbClient.CreateTables();
    }

    /**
      _get_job_status_of_type: the record for a run that ended at endTime.
      summaryData is the JSON text of the summary dictionary.
    */
    function JobStatusOfType(summaryData: string, error: string, succeeded: bool,
                             endTime: int, host: string, scriptPath: string): (jobStatus: JobStatus)
      ensures jobStatus.level == INFO <==> succeeded
      ensures jobStatus.level == ERROR <==> !succeeded
      ensures jobStatus.scriptName == parentScript && jobStatus.executedBy == executedBy
      ensures jobStatus.scriptStartTime == startTime && jobStatus.scriptEndTime == endTime
      ensures jobStatus.host == host && jobStatus.scriptPath == scriptPath
      ensures jobStatus.jobSummaryData == SummaryPayload(summaryData, error)
      ensures jobStatus.elapsedTime == ElapsedSeconds(endTime - startTime)
      ensures startTime <= endTime ==>
                && 0 <= jobStatus.elapsedTime
                && jobStatus.elapsedTime * MicrosPerSecond <= endTime - startTime
                && endTime - startTime < (jobStatus.elapsedTime + 1) * MicrosPerSecond
    {
      var level := if succeeded then INFO else ERROR;
      JobStatus(
        host := host,
        scriptPath := scriptPath,
        scriptName := parentScript,
        executedBy := executedBy,
        scriptStartTime := startTime,
        scriptEndTime := endTime,
        elapsedTime := ElapsedSeconds(endTime - startTime),
        jobSummaryData := SummaryPayload(summaryData, error),
        level := level)
    }

    /** log_failed_job: append one ERROR row carrying the error; nothing else changes. */
    method LogFailedJob(summaryData: string, error: string, endTime: int, host: string, scriptPath: string)
      requires Valid()
      modifies dbClient
      ensures Valid()
      ensures dbClient.rows == old(dbClient.rows) + [JobStatusOfType(summaryData, error, false, endTime, host, scriptPath)]
    {
      var jobStatus := JobStatusOfType(summaryData, error, false, endTime, host, scriptPath);
      var _ := dbClient.InsertData(jobStatus);
    }

    /** log_successful_job: append one INFO row with an empty error; nothing else changes. */
    method LogSuccessfulJob(summaryData: string, endTime: int, host: string, scriptPath: string)
      requires Valid()
      modifies dbClient
      ensures Valid()
      ensures dbClient.rows == old(dbClient.rows) + [JobStatusOfType(summaryData, "", true, endTime, host, scriptPath)]
    {
      var jobStatus := JobStatusOfType(summaryData, "", true, endTime, host, scriptPath);
      var _ := dbClient.InsertData(jobStatus);
    }
  }

  /**
    The unit test's run on a fresh database: a failed then a successful log
    leave exactly two rows, ERROR then INFO, both for the script's name, with
    non-negative elapsed times when the clock does not go back.
  */
  method FailedThenSuccessfulScenario(start: int, failedAt: int, succeededAt: int,
                                      user: string, host: string, scriptPath: string)
    returns (db: DbClient)
    requires start <= failedAt <= succeededAt
    ensures fresh(db) && |db.rows| == 2
    ensures db.rows[0].level == ERROR && db.rows[1].level == INFO
    ensures db.rows[0].level.Value() == "ERROR" && db.rows[1].level.Value() == "INFO"
    ensures forall row <- db.rows :: row.scriptName == "test_signature.py" && row.elapsedTime >= 0
    ensures db.rows[0].jobSummaryData.error == "File not found"
    ensures db.rows[1].jobSummaryData.error == ""
  {
    db := new DbClient([], false);
    var helper := new ScriptHelper("test_signature.py", db, start, user);
    helper.LogFailedJob("{\"info\": \"Could not write into sheet\"}", "File not found", failedAt, host, scriptPath);
    helper.LogSuccessfulJob("{\"info\": \"File written\"}", succeededAt, host, scriptPath);
  }
}
