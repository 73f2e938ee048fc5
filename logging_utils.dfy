/**
 * The translation of a Python logging level into the command-line flag that
 * sets the verbosity of a Snakemake run.
 */
module LoggingUtils {
  // The standard logging levels the thresholds are taken from.
  const Debug: int := 10
  const Info: int := 20
  const Warning: int := 30

  const DebugFlag: string := "--debug"
  const VerboseFlag: string := "--verbose"
  const DefaultFlag: string := ""
  const QuietFlag: string := "--quiet"

  const Flags: set<string> := {DebugFlag, VerboseFlag, DefaultFlag, QuietFlag}

  /** `snakemake_log_level(level)`: the first threshold the level does not
      exceed picks the flag; anything above WARNING asks for quiet output. */
  function SnakemakeLogLevel(level: int): (flag: string)
    ensures flag in Flags
  {
    if level <= Debug then DebugFlag
    else if level <= Info then VerboseFlag
    else if level <= Warning then DefaultFlag
    else QuietFlag
  }

  /** How much output each flag asks for, from quiet (0) to debug (3). */
  function Verbosity(flag: string): nat {
    if flag == DebugFlag then 3
    else if flag == VerboseFlag then 2
    else if flag == DefaultFlag then 1
    else 0
  }

  /** Each flag is chosen for exactly one band of levels. */
  lemma FlagBands(level: int)
    ensures SnakemakeLogLevel(level) == DebugFlag <==> level <= Debug
    ensures SnakemakeLogLevel(level) == VerboseFlag <==> Debug < level <= Info
    ensures SnakemakeLogLevel(level) == DefaultFlag <==> Info < level <= Warning
    ensures SnakemakeLogLevel(level) == QuietFlag <==> Warning < level
  {
  }

  /** Raising the level never asks for more output. */
  lemma VerbosityNeverIncreases(lo: int, hi: int)
    requires lo <= hi
    ensures Verbosity(SnakemakeLogLevel(hi)) <= Verbosity(SnakemakeLogLevel(lo))
  {
  }

  /** The verbosity is the number of thresholds at or above the level. */
  lemma VerbosityCountsThresholds(level: int)
    ensures Verbosity(SnakemakeLogLevel(level)) ==
      (if level <= Debug then 1 else 0) + (if level <= Info then 1 else 0) + (if level <= Warning then 1 else 0)
  {
  }
}
