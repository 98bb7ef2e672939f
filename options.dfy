/**
 * The start-up checks on the command line: every required option must be given and non-empty,
 * the action must be `dump` or `load`, the backup directory must exist, and both `mysql` and
 * `mysqldump` must be found on the path. The first check that fails ends the run.
 */
module Options {
  import opened Wrappers

  /** The options that must be given, in the order they are checked. */
  const RequiredKeys: seq<string> := ["action", "username", "password", "host", "db", "dir"]

  datatype Action = Dump | Load

  /** Why the run stops before doing anything. */
  datatype OptionError =
    | Missing(key: string)   // "<key> need to be specified!"
    | BadAction              // "Bad action specified!"
    | NoDirectory            // "Specified directory doesn't exist"
    | NoMysql                // "mysql executable need to be installed"
    | NoMysqldump            // "mysqldump executable need to be installed"

  /** An option counts as not given when it is nil or empty. */
  predicate Absent(options: map<string, string>, key: string)
  {
    key !in options || options[key] == ""
  }

  /** Every required option is given. */
  predicate AllGiven(options: map<string, string>)
    ensures AllGiven(options) ==> "action" in options && "dir" in options
  {
    assert RequiredKeys[0] == "action" && RequiredKeys[5] == "dir";
    forall i :: 0 <= i < |RequiredKeys| ==> !Absent(options, RequiredKeys[i])
  }

  /**
   * The checks in the order the script makes them. `isDir` stands for `Dir.exist?`, and the
   * two paths are the stripped output of `which mysql` and `which mysqldump`.
   */
  method CheckOptions(options: map<string, string>, isDir: string -> bool, mysqlPath: string, mysqldumpPath: string)
    returns (r: Result<Action, OptionError>)
    ensures r.Err? && r.error.Missing? ==>
      exists i :: 0 <= i < |RequiredKeys| && RequiredKeys[i] == r.error.key
        && Absent(options, r.error.key)
        && forall j :: 0 <= j < i ==> !Absent(options, RequiredKeys[j])
    ensures (r.Err? && r.error.Missing?) <==> !AllGiven(options)
    ensures r == Err(BadAction) <==> AllGiven(options) && options["action"] !in {"dump", "load"}
    ensures r == Err(NoDirectory) <==>
      AllGiven(options) && options["action"] in {"dump", "load"} && !isDir(options["dir"])
    ensures r == Err(NoMysql) <==>
      AllGiven(options) && options["action"] in {"dump", "load"} && isDir(options["dir"])
      && mysqlPath == ""
    ensures r == Err(NoMysqldump) <==>
      AllGiven(options) && options["action"] in {"dump", "load"} && isDir(options["dir"])
      && mysqlPath != "" && mysqldumpPath == ""
    ensures r == Ok(Dump) <==>
      AllGiven(options) && options["action"] == "dump" && isDir(options["dir"])
      && mysqlPath != "" && mysqldumpPath != ""
    ensures r == Ok(Load) <==>
      AllGiven(options) && options["action"] == "load" && isDir(options["dir"])
      && mysqlPath != "" && mysqldumpPath != ""
  {
    var i := 0;
    while i < |RequiredKeys|
      invariant 0 <= i <= |RequiredKeys|
      invariant forall j :: 0 <= j < i ==> !Absent(options, RequiredKeys[j])
    {
      var key := RequiredKeys[i];
      if key !in options || options[key] == "" {
        return Err(Missing(key));
      }
      i := i + 1;
    }
    assert RequiredKeys[0] == "action" && RequiredKeys[5] == "dir";
    var action := options["action"];
    if action != "dump" && action != "load" {
      return Err(BadAction);
    }
    if !isDir(options["dir"]) {
      return Err(NoDirectory);
    }
    if mysqlPath == "" {
      return Err(NoMysql);
    }
    if mysqldumpPath == "" {
      return Err(NoMysqldump);
    }
    if action == "dump" {
      r := Ok(Dump);
    } else {
      r := Ok(Load);
    }
  }
}
