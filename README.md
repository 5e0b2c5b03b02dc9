# python-for-android bootstrap shim, modelled in Dafny

`src/jni/main/main.c` is the native entry point of an Android application
that embeds a Python 2.7 interpreter and the SDL display library. `SDL_main`
starts SDL, fills the window with a colour, draws a splash image centred on
it, and calls `start_python`. `start_python` starts the interpreter. It runs
a bootstrap string that replaces `sys.path` and redirects `sys.stdout` and
`sys.stderr` to a `LogFile` object, then looks for `main.pyo` or `main.py`
and runs it. The native calls are glue. This project models the
self-contained logic between them:

- `Lines` (lines.dfy): Python's `str.split("\n")` and `"\n".join`, with the
  lemmas that the two are inverse to each other.
- `Logging` (logfile.dfy): the `LogFile` class. It is a Dafny class with a
  `buffer` field and an `emitted` field. `emitted` holds the records sent to
  the platform log. A ghost field `written` holds all text written so far.
  `Valid()` states that the records and the buffer are newline-free, and
  that the emitted records, each followed by its newline, and then the
  buffer, make up exactly the text written. The second part holds until a
  write stops at a line that `androidembed.log` rejects. A ghost field
  `failed` records that this has happened. `flush()` does nothing, so the
  pending buffer is never sent to the log: output whose last line has no
  newline is never logged, even when the process ends.
- `Pixels` (pixels.dfy): `getpixel`. It works on a surface's byte buffer,
  pitch and bytes per pixel. The platform byte order is a parameter.
- `Bootstrap` (bootstrap.dfy): the `sys.path` list, the choice of entry
  script, and the exit status of `start_python`.
- `Splash` (splash.dfy): the window size, the fill colour, and the centring
  of the splash image, using C's truncating division.
- `Startup` (startup.dfy): `SDL_main` as a whole.
- `Options` (options.dfy): an `Option` type.

The outcomes of foreign calls are parameters:

- whether `SDL_Init` succeeds;
- the display mode;
- whether the splash image opens and decodes;
- the set of readable files in the application directory, in place of
  `file_exists`;
- whether `fopen` of the chosen script succeeds;
- what `PyRun_SimpleFile` and `PyErr_Occurred` report;
- the environment that the bootstrap code reads.

Lines 150-151 of `main.c` set the status to 1 when an exception is
pending, which suggests that an uncaught script error was meant to give 1.
But `PyRun_SimpleFile` prints and clears a script's exception itself and
returns -1, so `start_python` returns -1 when the script raises an exception
other than `SystemExit`. The status becomes 1 only when an exception is still
pending afterwards. A `SystemExit` ends the process inside the interpreter, so
`start_python` then never returns. `ExitStatus` takes both values
as inputs, so either case can be stated. The model proves that the status is
0 exactly when a script was found, it opened, no exception was pending, and
the interpreter returned 0.

## Model

| member | source | states |
|---|---|---|
| `Lines.Split` | src/jni/main/main.c:103 | `s.split("\n")` has exactly one more piece than `s` has newlines, and no piece contains a newline |
| `Lines.JoinSplit` | src/jni/main/main.c:103 | joining the pieces of `s.split("\n")` with newlines gives back `s` |
| `Lines.SplitJoin` | src/jni/main/main.c:103 | for any non-empty list of newline-free lines, splitting their newline-join gives back that list, so the split is the only such decomposition |
| `Lines.Complete` | src/jni/main/main.c:104 | `lines[:-1]` holds one line per newline of `s`, none contains a newline, and these lines, each followed by a newline, and then the tail make up `s` |
| `Lines.Pending` | src/jni/main/main.c:106 | `lines[-1]` is the suffix of `s` after its last newline: it is newline-free, it is preceded by a newline when shorter than `s`, and it is all of `s` when `s` has no newline |
| `Logging.LogFile.constructor` | src/jni/main/main.c:99-100 | a new `LogFile` has an empty buffer, has emitted nothing, has not failed, and satisfies the invariant |
| `Logging.LoggablePrefix` | src/jni/main/main.c:104-105 | the lines logged before the first one that `androidembed.log` rejects (`Loggable`: a line with a NUL fails the `"s"` argument format on lines 18-19): a prefix of the lines, all loggable, and followed by a rejected line when shorter than all of them |
| `Logging.LoggablePrefixIs` | src/jni/main/main.c:104-105 | any all-loggable prefix that ends at the end of the lines or at a rejected line is the one `LoggablePrefix` gives |
| `Logging.NoNulNeverRaises` | src/jni/main/main.c:101-106 | when the buffer and the new text hold no NUL, every complete line is loggable, so the write does not raise |
| `Logging.LogFile.Write` | src/jni/main/main.c:101-106 | `write(s)` logs the complete lines of `buffer + s` in order, up to the first line `androidembed.log` rejects (lines 18-19). It raises exactly when some complete line is rejected, and then the buffer keeps its old value. Otherwise the tail goes into `buffer`, the invariant is kept, exactly as many records as `s` has newlines are emitted, and a newline-free `s` only extends the buffer |
| `Logging.LogFile.Flush` | src/jni/main/main.c:107-108 | `flush()` changes nothing and keeps the invariant |
| `Logging.WriteKeepsInvariant` | src/jni/main/main.c:101-106 | a write that logs all its complete lines keeps the records newline-free, keeps the records (each followed by a newline) plus the buffer equal to all input written, and adds one record per newline of `s` |
| `Logging.Transcript` | src/jni/main/main.c:102-106 | under the invariant, the records joined with newlines, then a newline, then the buffer, equal all text written; while nothing is emitted, the buffer alone does |
| `Logging.WriteChunking` | src/jni/main/main.c:101-106 | writing `s1` then `s2` emits the same records and leaves the same buffer as writing `s1 + s2` at once |
| `Pixels.ValueBound` | src/jni/main/main.c:193-206 | the number that `n` bytes spell in either byte order is below 256^n |
| `Pixels.Encode` | src/jni/main/main.c:193-215 | storing a value below 256^n as `n` bytes in either byte order gives bytes that read back as that value |
| `Pixels.EncodeValue` | src/jni/main/main.c:193-215 | the bytes that spell a value are exactly the encoding of that value, so reading and encoding are inverse |
| `Pixels.ShiftOrIsSum` | src/jni/main/main.c:202-206 | on 32-bit words, the shift-and-or combination of three bytes on lines 204 and 206 equals the sum of the bytes scaled by their place value, and so does the combination of two or four bytes that a native load yields in either byte order |
| `Pixels.Read24BigIsShiftOr` | src/jni/main/main.c:203-204 | on a big-endian platform `Read24` equals `p[0] << 16 \| p[1] << 8 \| p[2]` computed on 32-bit words |
| `Pixels.Read24LittleIsShiftOr` | src/jni/main/main.c:205-206 | elsewhere `Read24` equals `p[0] \| p[1] << 8 \| p[2] << 16` computed on 32-bit words |
| `Pixels.Read16` | src/jni/main/main.c:198-199 | the native 16-bit read is the value of the two bytes in the platform byte order |
| `Pixels.Read24` | src/jni/main/main.c:202-206 | `p[0]<<16 \| p[1]<<8 \| p[2]` on big-endian and `p[0] \| p[1]<<8 \| p[2]<<16` on little-endian are the value of the three bytes in that byte order |
| `Pixels.Read32` | src/jni/main/main.c:209-210 | the native 32-bit read is the value of the four bytes in the platform byte order |
| `Pixels.GetPixel` | src/jni/main/main.c:188-216 | for 1 to 4 bytes per pixel, the pixel is the value in platform byte order of the bytes at `Offset(s, x, y)`, which is `y*pitch + x*bpp` as on line 191. For 1 to 3 bytes it is below 2^(8*bpp). For any other size it is 0 |
| `Bootstrap.SearchPath` | src/jni/main/main.c:90-96 | `sys.path` becomes exactly five entries: `argument`, then `private` followed by each of `/lib/python27.zip`, `/lib/python2.7/`, `/lib/python2.7/lib-dynload/` and `/lib/python2.7/site-packages/`, in that order |
| `Bootstrap.BootstrapPath` | src/jni/main/main.c:87-96 | when both `ANDROID_PRIVATE` and `ANDROID_ARGUMENT` are set, the old path is replaced by the five-entry list; when either is missing, the lookup raises and the old path stays |
| `Bootstrap.LibraryEntries` | src/jni/main/main.c:90-96 | the four library entries all lie below `private + "/lib/"` and are pairwise distinct. The zip archive comes before the three directories |
| `Bootstrap.Preferred` | src/jni/main/main.c:127-133 | the chosen script exists. It is `main.pyo` exactly when that file exists, `main.py` exactly when only that one exists, and none exactly when neither exists |
| `Bootstrap.SelectScript` | src/jni/main/main.c:127-133 | the imperative selection, which starts from `main.pyo` and then falls back, returns the preferred script |
| `Bootstrap.ScriptRun` | src/jni/main/main.c:135-148 | a script is run exactly when one was found and it opened, and then it is the preferred one |
| `Bootstrap.ExitStatus` | src/jni/main/main.c:135-163 | the status is 1 when no script exists, when the script does not open, or when an exception is pending. Otherwise it is what the interpreter returned. It is 0 exactly when a script ran cleanly and returned 0 |
| `Bootstrap.StartPython` | src/jni/main/main.c:59-164 | `start_python` returns `ExitStatus` and runs `ScriptRun`. It logs the two start messages, then the not-found message, the open-failure message or the end message |
| `Splash.CDiv` | src/jni/main/main.c:257-258 | C division truncates toward zero: the remainder is smaller than the divisor in magnitude and has the dividend's sign |
| `Splash.DisplaySize` | src/jni/main/main.c:225-238 | the window is the size of the current display mode when it can be read, and 1024 x 768 otherwise |
| `Splash.Centre` | src/jni/main/main.c:257-258 | each coordinate of the splash corner is half of the size difference truncated toward zero: twice it is the difference, or one less for a positive odd difference, or one more for a negative odd one |
| `Splash.Centred` | src/jni/main/main.c:257-258 | at the corner `Centre` gives, the margins before and after the splash are equal on each axis when the size difference is even. Otherwise they differ by one, with the extra unit after the image when it is smaller than the window and before it when it is larger |
| `Splash.SplashScreen` | src/jni/main/main.c:240-261 | the window is filled with grey unless the splash loads. Then it is filled with the splash's pixel at (0, 0), and the splash is drawn at `((width - w)/2, (height - h)/2)` with C division |
| `Startup.SdlMain` | src/jni/main/main.c:218-268 | if `SDL_Init` fails, the status is 1 and nothing is shown or run. Otherwise the splash screen is shown and the status and the script run are those of `start_python` |

## Left out

- The SDL and SDL_image calls that create the window, fill it, blit, update and free surfaces (`SDL_CreateWindow`, `SDL_FillRect`, `SDL_BlitSurface`, ...). They are foreign library calls, so their effect is described by `Splash.SplashScreen` instead. The window and surface pointers are never checked in the source, and that is not modelled.
- `SDL_MapRGB`: the window format's value for grey is the symbolic `Fill.Grey`, because pixel formats belong to SDL. The splash pixel is read in the splash image's format but passed to a fill of the window's surface. The model records that raw value and does not model a format conversion.
- `Splash.SplashScreen`: requires pixel (0, 0) of a loaded splash to be readable. The source dereferences it unguarded, so a zero-sized image is undefined behaviour there.
- The CPython C API (`Py_SetProgramName`, `Py_Initialize`, `PySys_SetArgvEx`, `PyRun_SimpleString`, `PyRun_SimpleFile`, `PyErr_*`, `Py_Finalize`). These are interpreter internals. Their results are the `RunReport` input. A script that raises `SystemExit` ends the process inside `PyErr_Print`: `start_python` then neither returns nor logs its end message. `Bootstrap.StartPython` and `Bootstrap.ExitStatus` describe only runs in which `PyRun_SimpleFile` returns.
- `PyEval_InitThreads`: threading is out of scope.
- The `androidembed` module (`log`, `close_window`). Each `androidembed.log(l)` is modelled as appending `l` to `LogFile.emitted`. `close_window` is a foreign SDL call.
- The banner `print` statements and the `pygame_sdl2` import in the bootstrap string. They are side effects with no logic.
- `nativeSetEnv`, `call_prepare_python` and the `getenv`, `setenv` and `chdir` calls. These are JNI and OS plumbing. The environment is a `map` parameter of `BootstrapPath`. The application directory's files are the `files` parameter. A missing `ANDROID_ARGUMENT` passed to `setenv` and `chdir` is not modelled.
- `file_exists`: its answer is membership in the `files` set.
- Machine integers: the offset `y*pitch + x*bpp` and the centring subtraction are unbounded here. C `int` overflow and `*(Uint16 *)p` / `*(Uint32 *)p` alignment are not modelled.
- Python 2 `str` versus `unicode`, and a `write` of a non-string, which raises in the source: strings are sequences of characters.
- `Logging.LogFile.Write`: the only rejected line modelled is one holding a NUL character. For a `unicode` line that the default ASCII codec cannot encode, `androidembed.log` raises `UnicodeEncodeError` as well. That case is not modelled, because strings here do not tell `str` from `unicode`.
- `Logging.WriteKeepsInvariant`, `Logging.Transcript` and `Logging.WriteChunking`: they describe writes that do not raise, which is the state `Valid()` accounts for while `failed` is false.
