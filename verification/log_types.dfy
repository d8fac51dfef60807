/** The log record every part of the system consumes (`LogEntry` in
    src/types/index.ts). Timestamps stay strings; turning one into
    milliseconds (`new Date(ts).getTime()`) is a function the caller
    supplies, of type `TimeOf`. */
module LogTypes {

  datatype LogLevel = INFO | WARN | ERROR | DEBUG | TRACE

  datatype LogRecord = LogRecord(
    id: int,
    timeStamp: string,
    logLevel: LogLevel,
    message: string,
    logClass: string,
    testcaseId: string,
    jenkinsServer: string)

  /** Milliseconds since the epoch of an ISO-8601 timestamp. */
  type TimeOf = string -> int

  /** The sort key of a record: its timestamp in milliseconds. */
  function LogTime(timeOf: TimeOf): LogRecord -> int {
    (l: LogRecord) => timeOf(l.timeStamp)
  }
}
