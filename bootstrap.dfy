/** The interpreter bootstrap in `start_python`: the module search path the
    bootstrap code installs, the choice of entry script, and the exit status
    that comes back from running it. */
module Bootstrap {
  import opened Options

  /** The directories and archive, below the private directory, that follow
      the application directory on the search path, in search order. */
  const LibrarySuffixes: seq<string> :=
    ["/lib/python27.zip", "/lib/python2.7/", "/lib/python2.7/lib-dynload/",
     "/lib/python2.7/site-packages/"]

  /** The list assigned to `sys.path[:]`: the application directory
      `argument`, then the standard library archive and directories under
      `private`. */
  function SearchPath(argument: string, private: string): (path: seq<string>)
    ensures |path| == 1 + |LibrarySuffixes| && path[0] == argument
    ensures forall i :: 0 <= i < |LibrarySuffixes| ==> path[i + 1] == private + LibrarySuffixes[i]
  {
    [argument,
     private + "/lib/python27.zip",
     private + "/lib/python2.7/",
     private + "/lib/python2.7/lib-dynload/",
     private + "/lib/python2.7/site-packages/"]
  }

  /** The search path after the bootstrap code has run in the environment
      `env`. Both variables are looked up before the assignment, so a
      missing one raises `KeyError`, the bootstrap stops, and the previous
      path stays. */
  function BootstrapPath(env: map<string, string>, previous: seq<string>): (path: seq<string>)
    ensures "ANDROID_PRIVATE" in env && "ANDROID_ARGUMENT" in env ==>
      path == SearchPath(env["ANDROID_ARGUMENT"], env["ANDROID_PRIVATE"])
    ensures "ANDROID_PRIVATE" !in env || "ANDROID_ARGUMENT" !in env ==> path == previous
  {
    if "ANDROID_PRIVATE" in env && "ANDROID_ARGUMENT" in env then
      SearchPath(env["ANDROID_ARGUMENT"], env["ANDROID_PRIVATE"])
    else previous
  }

  /** The four library entries all lie below `private + "/lib/"` and are
      four different entries, whatever `private` is; the archive is searched
      before the directories. */
  lemma {:induction false} LibraryEntries(argument: string, private: string)
    ensures var path := SearchPath(argument, private);
      && (forall i :: 1 <= i < |path| ==> path[i][..|private| + 5] == private + "/lib/")
      && (forall i, j :: 1 <= i < j < |path| ==> path[i] != path[j])
      && path[1][|path[1]| - 4..] == ".zip"
      && (forall i :: 2 <= i < |path| ==> path[i][|path[i]| - 1] == '/')
  {
  }

  /** The entry script `start_python` picks in a working directory whose
      readable files are `files`: `main.pyo` when present, else `main.py`
      when present, else none. */
  function Preferred(files: set<string>): (script: Option<string>)
    ensures script.Some? ==> script.value in files
    ensures script == Some("main.pyo") <==> "main.pyo" in files
    ensures script == Some("main.py") <==> "main.pyo" !in files && "main.py" in files
    ensures script == None <==> "main.pyo" !in files && "main.py" !in files
  {
    if "main.pyo" in files then Some("main.pyo")
    else if "main.py" in files then Some("main.py")
    else None
  }

  /** The selection as `start_python` writes it: start from `main.pyo` and
      fall back when it does not exist. */
  method SelectScript(files: set<string>) returns (mainPy: Option<string>)
    ensures mainPy == Preferred(files)
  {
    mainPy := Some("main.pyo");
    if "main.pyo" !in files {
      if "main.py" in files {
        mainPy := Some("main.py");
      } else {
        mainPy := None;
      }
    }
  }

  /** What the interpreter reports after running the script: the value
      `PyRun_SimpleFile` returned and whether an exception is still set.
      `PyRun_SimpleFile` only ever returns 0 or -1; any `int` is accepted
      here, which loses nothing, since `ExitStatus` holds for every value. */
  datatype RunReport = RunReport(returned: int, errorPending: bool)

  /** The script that is run: the preferred one, if it opens. */
  function ScriptRun(files: set<string>, opens: bool): (ran: Option<string>)
    ensures ran.Some? <==> Preferred(files).Some? && opens
    ensures ran.Some? ==> ran == Preferred(files)
  {
    if opens then Preferred(files) else None
  }

  /** The status `start_python` returns. */
  function ExitStatus(files: set<string>, opens: bool, report: RunReport): (status: int)
    ensures Preferred(files) == None ==> status == 1
    ensures !opens ==> status == 1
    ensures report.errorPending ==> status == 1
    ensures ScriptRun(files, opens).Some? && !report.errorPending ==> status == report.returned
    ensures status == 0 <==>
      ScriptRun(files, opens).Some? && !report.errorPending && report.returned == 0
  {
    if Preferred(files) == None || !opens then 1
    else if report.errorPending then 1
    else report.returned
  }

  /** The messages `start_python` itself writes to the platform log. */
  const InitMessage: string := "Initialize Python for Android"
  const RunMessage: string := "Run user program, change dir and execute main.py"
  const NotFoundMessage: string := "No main.pyo / main.py found."
  const OpenFailedMessage: string := "Open the main.py(o) failed"
  const EndedMessage: string := "Python for android ended."

  /** `start_python`, with the interpreter and the file system as inputs:
      `files` are the readable files of the application directory, `opens`
      whether opening the chosen script succeeds, and `report` what running
      it reports. It returns the exit status, the script it ran, and the
      lines it logged. */
  method StartPython(files: set<string>, opens: bool, report: RunReport)
    returns (status: int, ran: Option<string>, log: seq<string>)
    ensures status == ExitStatus(files, opens, report)
    ensures ran == ScriptRun(files, opens)
    ensures |log| == 3 && log[..2] == [InitMessage, RunMessage]
    ensures log[2] == (if Preferred(files) == None then NotFoundMessage
                       else if !opens then OpenFailedMessage
                       else EndedMessage)
  {
    log := [InitMessage, RunMessage];
    var mainPy := SelectScript(files);
    if mainPy == None {
      log := log + [NotFoundMessage];
      return 1, None, log;
    }
    if !opens {
      log := log + [OpenFailedMessage];
      return 1, None, log;
    }
    status := report.returned;
    if report.errorPending {
      status := 1;
    }
    ran := mainPy;
    log := log + [EndedMessage];
  }
}
