/**
 * Command-line configuration of the native build (dev/native/src/lib.rs):
 * the "<width>,<height>" resolution format, its printer, the default
 * arguments, and which side of the screen the window starts on.
 */
module Native {
  import opened Wrappers
  import opened Decimal

  datatype Side = Left | Right

  /** A display resolution, two `u32`s. */
  datatype Resolution = Resolution(width: u32, height: u32)

  /** Why a resolution string was rejected: no comma, or a half that is not a `u32`. */
  datatype ResolutionError = NotWidthCommaHeight | BadWidth(kind: IntErrorKind) | BadHeight(kind: IntErrorKind)

  /** `str::find(',')`: the index of the first comma, if any. */
  function FindComma(s: string): (r: Option<nat>)
    ensures r.None? <==> ',' !in s
    ensures r.Some? ==> r.value < |s| && s[r.value] == ',' && ',' !in s[..r.value]
  {
    if |s| == 0 then
      None
    else if s[0] == ',' then
      Some(0)
    else
      match FindComma(s[1..])
      case None =>
        assert s == [s[0]] + s[1..];
        None
      case Some(i) =>
        assert s[..i + 1] == [s[0]] + s[1..][..i];
        Some(i + 1)
  }

  /** Only one index holds a comma with no comma before it. */
  lemma FirstCommaUnique(s: string, pos: nat)
    requires pos < |s| && s[pos] == ',' && ',' !in s[..pos]
    ensures forall i :: 0 <= i < |s| && s[i] == ',' && ',' !in s[..i] ==> i == pos
  {
  }

  /**
   * `parse_resolution`: split at the first comma, then parse the text before
   * it as the width and the text after it as the height; the width's error,
   * if any, is the one reported.
   */
  function ParseResolution(s: string): (r: Result<Resolution, ResolutionError>)
    ensures r == Failure(NotWidthCommaHeight) <==> ',' !in s
    ensures forall i :: 0 <= i < |s| && s[i] == ',' && ',' !in s[..i] ==>
      && (r.Success? <==> IsU32Text(s[..i]) && IsU32Text(s[i + 1..]))
      && (r.Success? ==> r.value == Resolution(Value(Unsigned(s[..i])), Value(Unsigned(s[i + 1..]))))
      && (!IsU32Text(s[..i]) ==> r == Failure(BadWidth(ParseU32(s[..i]).error)))
      && (IsU32Text(s[..i]) && !IsU32Text(s[i + 1..]) ==> r == Failure(BadHeight(ParseU32(s[i + 1..]).error)))
  {
    match FindComma(s)
    case None => Failure(NotWidthCommaHeight)
    case Some(pos) =>
      FirstCommaUnique(s, pos);
      ParseHalves(s[..pos], s[pos + 1..])
  }

  /** The two `parse()?` calls: the width first, so its error is the one reported. */
  function ParseHalves(width: string, height: string): (r: Result<Resolution, ResolutionError>)
    ensures r.Success? <==> IsU32Text(width) && IsU32Text(height)
    ensures r.Success? ==> r.value == Resolution(Value(Unsigned(width)), Value(Unsigned(height)))
    ensures !IsU32Text(width) ==> r == Failure(BadWidth(ParseU32(width).error))
    ensures IsU32Text(width) && !IsU32Text(height) ==> r == Failure(BadHeight(ParseU32(height).error))
  {
    match ParseU32(width)
    case Failure(e) => Failure(BadWidth(e))
    case Success(w) =>
      match ParseU32(height)
      case Failure(e) => Failure(BadHeight(e))
      case Success(h) => Success(Resolution(w, h))
  }

  /** `Display for Resolution`: "{w},{h}". */
  function Display(r: Resolution): (s: string)
    ensures |Show(r.width)| < |s| && s[|Show(r.width)|] == ','
    ensures forall i :: 0 <= i < |s| && i != |Show(r.width)| ==> IsDigit(s[i])
  {
    Show(r.width) + "," + Show(r.height)
  }

  /** A second comma always makes the parse fail. */
  lemma TwoCommasRejected(s: string, i: nat, j: nat)
    requires i < j < |s| && s[i] == ',' && s[j] == ','
    ensures ParseResolution(s).Failure?
  {
  }

  /** Printing a resolution and parsing the text gives back the resolution. */
  lemma ParseDisplay(r: Resolution)
    ensures ParseResolution(Display(r)) == Success(r)
  {
    var w := Show(r.width);
    var s := Display(r);
    var k := |w|;
    assert ',' !in s[..k] by {
      assert s[..k] == w;
    }
    assert s[..k] == w;
    assert s[k + 1..] == Show(r.height);
    ParseShow(r.width);
    ParseShow(r.height);
    assert Unsigned(w) == w;
    assert Unsigned(Show(r.height)) == Show(r.height);
  }

  /**
   * Parsing then printing gives back the text when both halves were written
   * canonically (no sign, no leading zeros).
   */
  lemma DisplayParse(s: string, i: nat)
    requires i < |s| && s[i] == ','
    requires Canonical(s[..i]) && Canonical(s[i + 1..])
    requires Value(s[..i]) <= U32_MAX && Value(s[i + 1..]) <= U32_MAX
    ensures ParseResolution(s).Success?
    ensures Display(ParseResolution(s).value) == s
  {
    ParseCanonicalHalves(s, i);
    DisplayCanonicalHalves(s, i);
  }

  lemma ParseCanonicalHalves(s: string, i: nat)
    requires i < |s| && s[i] == ','
    requires Canonical(s[..i]) && Canonical(s[i + 1..])
    requires Value(s[..i]) <= U32_MAX && Value(s[i + 1..]) <= U32_MAX
    ensures ParseResolution(s) == Success(Resolution(Value(s[..i]), Value(s[i + 1..])))
  {
  }

  lemma DisplayCanonicalHalves(s: string, i: nat)
    requires i < |s| && s[i] == ','
    requires Canonical(s[..i]) && Canonical(s[i + 1..])
    requires Value(s[..i]) <= U32_MAX && Value(s[i + 1..]) <= U32_MAX
    ensures Display(Resolution(Value(s[..i]), Value(s[i + 1..]))) == s
  {
    ShowValue(s[..i]);
    ShowValue(s[i + 1..]);
    assert s == s[..i] + "," + s[i + 1..];
  }

  /** The parsed command-line arguments. */
  datatype Args = Args(side: Side, resolution: Resolution)

  const DEFAULT_RESOLUTION: Resolution := Resolution(3456, 2234)

  /** `Args::default`. */
  function DefaultArgs(): (a: Args)
    ensures a.side == Left
    ensures a.resolution.width == 3456 && a.resolution.height == 2234
  {
    Args(Left, DEFAULT_RESOLUTION)
  }

  /**
   * The arguments the derived parser produces from the optional `--side` and
   * `--resolution` values. A missing resolution falls back to its
   * `default_value_t`, which the parser receives as printed text and parses
   * like a user-supplied value; a missing side falls back to `Left`.
   */
  function ArgsFromFlags(side: Option<Side>, resolution: Option<string>): (r: Result<Args, ResolutionError>)
    ensures resolution.Some? ==> (r.Success? <==> ParseResolution(resolution.value).Success?)
    ensures resolution.Some? && r.Success? ==> r.value.resolution == ParseResolution(resolution.value).value
    ensures resolution.Some? && r.Failure? ==> r.error == ParseResolution(resolution.value).error
    ensures r.Success? ==> r.value.side == (if side.Some? then side.value else Left)
    ensures resolution.None? ==> r == Success(Args(if side.Some? then side.value else Left, DEFAULT_RESOLUTION))
  {
    ParseDisplay(DEFAULT_RESOLUTION);
    var text := if resolution.Some? then resolution.value else Display(DEFAULT_RESOLUTION);
    var res :- ParseResolution(text);
    Success(Args(if side.Some? then side.value else Left, res))
  }

  /** With no flags given, the derived parser yields exactly `Args::default()`. */
  lemma ClapDefaultsMatchDefault()
    ensures ArgsFromFlags(None, None) == Success(DefaultArgs())
  {
  }

  /**
   * The window's horizontal position. On the left it is 0; on the right it
   * is the scaled width, computed in floating point and given here.
   */
  function WindowX(side: Side, scaledWidth: int): (x: int)
    ensures side == Left ==> x == 0
    ensures side == Right ==> x == scaledWidth
  {
    match side
    case Left => 0
    case Right => scaledWidth
  }
}
