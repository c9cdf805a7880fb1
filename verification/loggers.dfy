/**
 * `smart_logger(tag)`: one logger per non-empty tag, created on first use
 * through `logging.getLogger(tag)`, given the INFO level and a rotating file
 * handler writing to `log/<tag>.log`, and remembered in the module-level
 * cache so that later calls with the same tag return the same object.
 */
module Loggers {
  import opened Wrappers
  import opened PyValues

  /** `logging.INFO`. */
  const Info: int := 20
  /** `logging.NOTSET`, the level of a logger `getLogger` has just made. */
  const NotSet: int := 0
  /** Rotation threshold of the log file: 32 MiB. */
  const MaxBytes: nat := 33554432
  /** Number of rotated files kept. */
  const BackupCount: nat := 16
  /** The tag `smart_logger` uses when called without one. */
  const DefaultTag: string := "default"

  /** A `logging.handlers.RotatingFileHandler`, as far as `smart_logger` configures it. */
  datatype Handler = RotatingFile(path: string, maxBytes: nat, backupCount: nat)

  /** The file a tag's records go to: `'log' + os.sep + tag + '.log'`. */
  function LogPath(sep: string, tag: string): (p: string)
    ensures |p| == |sep| + |tag| + 7
    ensures p[..3] == "log" && p[|p| - 4..] == ".log"
    ensures p[3..|p| - 4] == sep + tag
  {
    "log" + sep + tag + ".log"
  }

  /** A `logging.Logger`: a name, a level and the handlers attached to it. */
  class Logger {
    const name: string
    var level: int
    var handlers: seq<Handler>

    constructor (name: string)
      ensures this.name == name && level == NotSet && handlers == []
    {
      this.name := name;
      level := NotSet;
      handlers := [];
    }
  }

  /**
   * The state `smart_logger` works on: the `logging` module's own registry of
   * named loggers and the kickshaws cache `_instantiated_loggers`.
   */
  class LoggerCache {
    /** `os.sep` of the host. */
    const sep: string
    /** The loggers `logging.getLogger` has handed out, by name. */
    var registry: map<string, Logger>
    /** `_instantiated_loggers`: the loggers `smart_logger` has configured, by tag. */
    var loggers: map<string, Logger>

    /** Every cached logger is the one `logging` holds under that tag, and no tag is empty. */
    predicate Valid()
      reads this
    {
      (forall name :: name in registry ==> registry[name].name == name) &&
      (forall tag :: tag in loggers ==> tag != "" && tag in registry && registry[tag] == loggers[tag])
    }

    /** A fresh interpreter: nothing registered, nothing cached. */
    constructor (sep: string)
      ensures Valid()
      ensures this.sep == sep && registry == map[] && loggers == map[]
    {
      this.sep := sep;
      registry := map[];
      loggers := map[];
    }

    /** `logging.getLogger(name)`: the registered logger, or a new one, registered. */
    method GetLogger(name: string) returns (x: Logger)
      requires Valid()
      modifies this
      ensures name in old(registry) ==> x == old(registry)[name]
      ensures name !in old(registry) ==> fresh(x) && x.level == NotSet && x.handlers == []
      ensures x.name == name
      ensures registry == old(registry)[name := x] && loggers == old(loggers)
    {
      if name in registry {
        x := registry[name];
      } else {
        x := new Logger(name);
        registry := registry[name := x];
      }
    }

    /** `smart_logger(tag)`. */
    method SmartLogger(tag: string := DefaultTag) returns (r: Result<Logger, Error>)
      requires Valid()
      modifies this, registry.Values
      ensures Valid()
      ensures tag == "" ==> r == Failure(ValueError) && registry == old(registry) && loggers == old(loggers)
      ensures tag != "" && tag in old(loggers) ==>
        r == Success(old(loggers)[tag]) && registry == old(registry) && loggers == old(loggers)
      ensures tag != "" && tag !in old(loggers) ==>
        r.Success? && loggers == old(loggers)[tag := r.value] && registry == old(registry)[tag := r.value] &&
        r.value.level == Info &&
        r.value.handlers == old(if tag in registry then registry[tag].handlers else []) +
                            [RotatingFile(LogPath(sep, tag), MaxBytes, BackupCount)]
      ensures tag != "" && tag !in old(loggers) && tag in old(registry) ==> r == Success(old(registry)[tag])
      ensures r.Success? ==> r.value.name == tag
      ensures tag != "" && tag !in old(loggers) && tag !in old(registry) ==> fresh(r.value)
      ensures forall l :: l in old(registry.Values) && (r.Failure? || tag in old(loggers) || l != r.value) ==> unchanged(l)
    {
      if tag == "" {
        return Failure(ValueError);
      }
      if tag in loggers {
        return Success(loggers[tag]);
      }
      var x := GetLogger(tag);
      x.level := Info;
      x.handlers := x.handlers + [RotatingFile(LogPath(sep, tag), MaxBytes, BackupCount)];
      loggers := loggers[tag := x];
      r := Success(x);
    }
  }
}
