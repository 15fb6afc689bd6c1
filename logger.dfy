/** The state of a `Logger` object (logger.py lines 34-50) and its two
    level-adjustment methods (lines 120-132). */
module DefangedLogger {
  import opened Levels

  /** The line format handed to `logging.basicConfig` (logger.py line 36);
      the library renders it. */
  const LogFormat: string := "%(asctime)s [%(levelname)s] - %(filename)s [Line: %(lineno)d]: %(message)s"

  class Logger {
    /** Where the log lines are written. */
    const logLocation: string
    const logFormat: string
    /** `self.levels`; the source never reassigns it. */
    const levels: seq<int>
    /** `self.log_level`: the minimum severity currently written. */
    var logLevel: int
    /** The threshold last handed to the logging library: `level=` of
        `basicConfig` at construction, the argument of `setLevel` after. */
    var sinkLevel: int

    /** The current level is an entry of the table (so `levels.index` finds
        it), and the library's threshold agrees with it. */
    ghost predicate Valid()
      reads this
    {
      levels == Table && logLevel in levels && sinkLevel == logLevel
    }

    constructor (logLocation: string)
      ensures Valid()
      ensures this.logLocation == logLocation && logFormat == LogFormat
      ensures logLevel == INFO && levels == Table
    {
      this.logLocation := logLocation;
      logFormat := LogFormat;
      logLevel := INFO;
      sinkLevel := INFO;
      levels := [DEBUG, INFO, WARNING, ERROR, CRITICAL];
    }

    /** One position down the table; nothing changes at DEBUG. */
    method LowerLogLevel()
      requires Valid()
      modifies this
      ensures Valid()
      ensures logLevel == Lowered(old(logLevel))
      ensures old(logLevel) == DEBUG ==> logLevel == old(logLevel)
      ensures old(logLevel) != DEBUG ==> IndexOf(levels, logLevel) == IndexOf(levels, old(logLevel)) - 1
    {
      var index := IndexOf(levels, logLevel);
      if index != 0 {
        logLevel := levels[index - 1];
        sinkLevel := logLevel;
      }
      LoweredIndex(old(logLevel));
    }

    /** One position up the table; nothing changes at CRITICAL. */
    method RaiseLogLevel()
      requires Valid()
      modifies this
      ensures Valid()
      ensures logLevel == Raised(old(logLevel))
      ensures old(logLevel) == CRITICAL ==> logLevel == old(logLevel)
      ensures old(logLevel) != CRITICAL ==> IndexOf(levels, logLevel) == IndexOf(levels, old(logLevel)) + 1
    {
      var index := IndexOf(levels, logLevel);
      if index != |levels| - 1 {
        logLevel := levels[index + 1];
        sinkLevel := logLevel;
      }
      RaisedIndex(old(logLevel));
    }
  }
}
