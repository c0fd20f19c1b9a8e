/** The rendering parameters and the sizes derived from them. Sizes follow
    the source's conventions: `size` is `(width, height)`, a shape is
    `(height, width)`, as numpy gives `img.shape[:2]`. */
module Config {

  datatype Config = Config(
    codec: string,
    format: string,
    fps: int,
    size: (int, int),
    fontName: string,
    fontSize: int,
    theme: string)

  /** The values a `Config` takes for every field the YAML file leaves out. */
  const Default: Config := Config("avc1", ".mp4", 60, (3840, 2160), "Menlo", 14, "github-dark")

  /** `shape`: the size in row-major order. */
  function Shape(c: Config): (r: (int, int))
  {
    (c.size.1, c.size.0)
  }

  /** The size belonging to a shape. */
  function SizeOf(shape: (int, int)): (int, int)
  {
    (shape.1, shape.0)
  }

  /** `shape` swaps the two components of `size`: swapping back restores it. */
  lemma ShapeSwapsSize(c: Config)
    ensures SizeOf(Shape(c)) == c.size
    ensures Shape(c).0 == c.size.1 && Shape(c).1 == c.size.0
  {
  }

  /** `half_size`: both components halved with Python's `//`, which rounds
      down (Dafny's `/` does the same for a positive divisor). */
  function HalfSize(c: Config): (r: (int, int))
    ensures 2 * r.0 <= c.size.0 < 2 * r.0 + 2
    ensures 2 * r.1 <= c.size.1 < 2 * r.1 + 2
  {
    (c.size.0 / 2, c.size.1 / 2)
  }

  /** The canvas shape `(eh, ew)` for an em grid of `ew` by `eh`. */
  function EmShape(ew: int, eh: int): (int, int)
  {
    (eh, ew)
  }

  /** The decimal digits of `n`, most significant first, without leading zeros. */
  function Digits(n: nat): (r: string)
    ensures |r| >= 1
    ensures forall k :: 0 <= k < |r| ==> '0' <= r[k] <= '9'
    ensures r[0] == '0' ==> n == 0 && r == "0"
    decreases n
  {
    if n < 10 then [DigitChar(n)] else Digits(n / 10) + [DigitChar(n % 10)]
  }

  function DigitChar(d: nat): (c: char)
    requires d < 10
    ensures '0' <= c <= '9'
  {
    ('0' as int + d) as char
  }

  /** The number a string of decimal digits stands for. */
  function DigitsValue(s: string): nat
  {
    if |s| == 0 then 0
    else
      var c := s[|s| - 1];
      var d: nat := if '0' <= c <= '9' then c as int - '0' as int else 0;
      DigitsValue(s[..|s| - 1]) * 10 + d
  }

  /** Reading the digits back gives the number. */
  lemma {:induction false} DigitsRoundTrip(n: nat)
    ensures DigitsValue(Digits(n)) == n
    decreases n
  {
    if n >= 10 {
      DigitsRoundTrip(n / 10);
      var r := Digits(n);
      assert r[..|r| - 1] == Digits(n / 10);
    }
  }

  /** `f"{n}"`: a minus sign for a negative number, then the digits. */
  function FormatInt(n: int): string
  {
    if n < 0 then "-" + Digits(-n) else Digits(n)
  }

  /** The number a string written by FormatInt stands for. */
  function ParseInt(s: string): int
  {
    if |s| > 0 && s[0] == '-' then -(DigitsValue(s[1..]) as int) else DigitsValue(s)
  }

  /** `fontpx`: the font size in decimal, followed by `px`. */
  function FontPx(c: Config): string
  {
    FormatInt(c.fontSize) + "px"
  }

  /** `fontpx` ends in `px`, and what comes before it is the decimal rendering
      of the font size: it reads back as that size. */
  lemma FontPxReadsBack(c: Config)
    ensures var s := FontPx(c);
      |s| >= 3 && s[|s| - 2..] == "px" && ParseInt(s[..|s| - 2]) == c.fontSize
  {
    var s := FontPx(c);
    assert s[..|s| - 2] == FormatInt(c.fontSize);
    FormatIntReadsBack(c.fontSize);
  }

  /** FormatInt and ParseInt are inverse: every integer reads back. */
  lemma FormatIntReadsBack(n: int)
    ensures ParseInt(FormatInt(n)) == n
  {
    if n < 0 {
      DigitsRoundTrip(-n);
      assert FormatInt(n)[1..] == Digits(-n);
    } else {
      DigitsRoundTrip(n);
      assert Digits(n)[0] != '-';
    }
  }

  /** The defaults, and the sizes derived from them. */
  lemma DefaultSizes()
    ensures Default.codec == "avc1" && Default.format == ".mp4" && Default.fps == 60
    ensures Default.size == (3840, 2160)
    ensures Shape(Default) == (2160, 3840)
    ensures HalfSize(Default) == (1920, 1080)
    ensures FontPx(Default) == "14px"
  {
    assert Digits(14) == "14";
  }
}
