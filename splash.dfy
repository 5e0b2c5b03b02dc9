/** The splash screen `SDL_main` shows while the interpreter starts: the
    window size, the colour the window is filled with, and where the splash
    image is drawn. */
module Splash {
  import opened Options
  import opened Pixels

  /** The window size used when the display mode cannot be read. */
  const DefaultWidth: int := 1024
  const DefaultHeight: int := 768

  function Abs(a: int): nat
  {
    if a < 0 then -a else a
  }

  /** C's `/` on `int`, which truncates toward zero: the remainder is
      smaller than the divisor in magnitude and has the sign of the
      dividend. Dafny's own `/` rounds down for a negative dividend
      and a positive divisor. */
  function CDiv(a: int, b: int): (q: int)
    requires b != 0
    ensures Abs(a - q * b) < Abs(b)
    ensures a - q * b == 0 || (a - q * b < 0 <==> a < 0)
  {
    if a >= 0 then a / b else -((-a) / b)
  }

  /** The window size: the current display mode when it can be read,
      1024 x 768 otherwise. */
  function DisplaySize(mode: Option<(int, int)>): (size: (int, int))
    ensures mode.Some? ==> size == mode.value
    ensures mode.None? ==> size == (DefaultWidth, DefaultHeight)
  {
    match mode
    case Some(m) => m
    case None => (DefaultWidth, DefaultHeight)
  }

  /** What became of `android-presplash.jpg`: the file could not be opened,
      it could not be decoded, or it decoded to an image. */
  datatype SplashLoad = NoFile | NotDecoded | Loaded(image: Surface)

  /** The colour the window is filled with: the window format's value for
      grey (128, 128, 128), or a pixel value taken from the splash image. */
  datatype Fill = Grey | SplashPixel(pixel: uint32)

  /** The first screen: window size, fill colour, and the top-left corner
      of the splash image when there is one to draw. */
  datatype Screen = Screen(width: int, height: int, fill: Fill, splashAt: Option<(int, int)>)

  /** The corner that centres a `w` x `h` image on a `width` x `height`
      window, computed with C's division: each coordinate is half the size
      difference, truncated toward zero. */
  function Centre(width: int, height: int, w: int, h: int): (corner: (int, int))
    ensures width - w >= 0 ==> 0 <= (width - w) - 2 * corner.0 <= 1
    ensures width - w < 0 ==> -1 <= (width - w) - 2 * corner.0 <= 0
    ensures height - h >= 0 ==> 0 <= (height - h) - 2 * corner.1 <= 1
    ensures height - h < 0 ==> -1 <= (height - h) - 2 * corner.1 <= 0
  {
    (CDiv(width - w, 2), CDiv(height - h, 2))
  }

  /** An image of length `size` starting at `start` in a span of length
      `total` sits in the middle: the space before it and the space after it
      (negative when the image overhangs) are equal when the difference is
      even, and otherwise differ by one, with the extra unit after the image
      when it is shorter than the span and before it when it is longer. */
  predicate Balanced(total: int, size: int, start: int)
  {
    var before := start;
    var after := total - (start + size);
    && ((total - size) % 2 == 0 ==> before == after)
    && ((total - size) % 2 != 0 && size <= total ==> after == before + 1)
    && ((total - size) % 2 != 0 && size > total ==> before == after + 1)
  }

  /** The corner `Centre` computes centres the image horizontally and
      vertically. */
  lemma Centred(width: int, height: int, w: int, h: int)
    ensures Balanced(width, w, Centre(width, height, w, h).0)
    ensures Balanced(height, h, Centre(width, height, w, h).1)
  {
  }

  /** `SDL_main` from the display mode to the first `SDL_UpdateWindowSurface`:
      the window is filled with grey unless the splash image loads, in which
      case it is filled with the splash image's pixel at (0, 0) and the
      image is drawn centred. */
  function SplashScreen(mode: Option<(int, int)>, load: SplashLoad, order: ByteOrder): (screen: Screen)
    requires load.Loaded? ==> CanRead(load.image, 0, 0)
    ensures (screen.width, screen.height) == DisplaySize(mode)
    ensures screen.fill == Grey <==> !load.Loaded?
    ensures screen.splashAt.Some? <==> load.Loaded?
    ensures load.Loaded? ==>
      && screen.fill == SplashPixel(GetPixel(load.image, 0, 0, order))
      && screen.splashAt == Some(Centre(screen.width, screen.height, load.image.w, load.image.h))
  {
    var (width, height) := DisplaySize(mode);
    match load
    case Loaded(image) =>
      Screen(width, height, SplashPixel(GetPixel(image, 0, 0, order)),
             Some(Centre(width, height, image.w, image.h)))
    case _ => Screen(width, height, Grey, None)
  }
}
