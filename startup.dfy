/** `SDL_main`: start the display library, show the splash screen, then
    hand over to the interpreter. */
module Startup {
  import opened Options
  import opened Pixels
  import opened Splash
  import opened Bootstrap

  /** Everything the display library and the interpreter decide lives in
      the parameters: whether `SDL_Init` succeeds, the display mode, the
      splash image, the platform byte order, the readable files of the
      application directory, whether the chosen script opens, and what
      running it reports. It returns the process's exit status, the first
      screen when one is shown, and the script that ran. */
  method SdlMain(initOk: bool, mode: Option<(int, int)>, load: SplashLoad, order: ByteOrder,
                 files: set<string>, opens: bool, report: RunReport)
    returns (status: int, screen: Option<Screen>, ran: Option<string>)
    requires load.Loaded? ==> CanRead(load.image, 0, 0)
    ensures !initOk ==> status == 1 && screen == None && ran == None
    ensures initOk ==> screen == Some(SplashScreen(mode, load, order))
    ensures initOk ==> status == ExitStatus(files, opens, report) && ran == ScriptRun(files, opens)
  {
    if !initOk {
      return 1, None, None;
    }
    screen := Some(SplashScreen(mode, load, order));
    var log;
    status, ran, log := StartPython(files, opens, report);
  }
}
