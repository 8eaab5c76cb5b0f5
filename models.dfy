// py_utils/models.py: the job_status record and its severity levels.

module Models {

  /** JobStatusLevels: a string-valued enumeration. */
  datatype JobStatusLevel = INFO | DEBUG | ERROR {
    /** The string stored in the level column. */
    function Value(): string {
      match this
      case INFO => "INFO"
      case DEBUG => "DEBUG"
      case ERROR => "ERROR"
    }
  }

  /**
    The object that job_summary_data serialises as JSON: "data" holds the
    JSON text of the caller's summary dictionary, "error" the error message.
  */
  datatype SummaryPayload = SummaryPayload(data: string, error: string)

  /**
    One job_status row as the script helper builds it. Timestamps are instants
    in microseconds; elapsedTime is in whole seconds. The id, which the
    database assigns, and the created/modified dates, which come from the
    model's field defaults, are not part of this record.
  */
  datatype JobStatus = JobStatus(
    host: string,
    scriptPath: string,
    scriptName: string,
    executedBy: string,
    scriptStartTime: int,
    scriptEndTime: int,
    elapsedTime: int,
    jobSummaryData: SummaryPayload,
    level: JobStatusLevel
  )
}
