/**
  The toolbar's zoom controls (src/components/cv/CVToolbar.tsx).

  The zoom factor is kept as a whole number of hundredths: the source's 0.85,
  0.1, 0.4 and 1.5 are 85, 10, 40 and 150 here.
 */
module Toolbar {

  const MinZoom: int := 40
  const MaxZoom: int := 150
  const ZoomStep: int := 10

  predicate InRange(zoom: int) {
    MinZoom <= zoom <= MaxZoom
  }

  /** The zoom-out button: `Math.max(0.4, zoom - 0.1)`. */
  function ZoomOut(zoom: int): (z: int)
    ensures z >= MinZoom
    ensures z >= zoom - ZoomStep
    ensures z == MinZoom || z == zoom - ZoomStep
  {
    if zoom - ZoomStep < MinZoom then MinZoom else zoom - ZoomStep
  }

  /** The zoom-in button: `Math.min(1.5, zoom + 0.1)`. */
  function ZoomIn(zoom: int): (z: int)
    ensures z <= MaxZoom
    ensures z <= zoom + ZoomStep
    ensures z == MaxZoom || z == zoom + ZoomStep
  {
    if zoom + ZoomStep > MaxZoom then MaxZoom else zoom + ZoomStep
  }

  /** The clamps are idempotent at the bounds. */
  lemma ZoomAtBounds()
    ensures ZoomOut(MinZoom) == MinZoom
    ensures ZoomIn(MaxZoom) == MaxZoom
  {
  }

  /** Away from the bounds a button moves the zoom by exactly one step. */
  lemma ZoomExactStep(zoom: int)
    ensures zoom >= MinZoom + ZoomStep ==> ZoomOut(zoom) == zoom - ZoomStep
    ensures zoom <= MaxZoom - ZoomStep ==> ZoomIn(zoom) == zoom + ZoomStep
  {
  }

  /** Both buttons keep a zoom inside the range inside it. */
  lemma ZoomStaysInRange(zoom: int)
    requires InRange(zoom)
    ensures InRange(ZoomOut(zoom)) && InRange(ZoomIn(zoom))
  {
  }

  /** Zoom-in undoes zoom-out wherever zoom-out took a full step, and the other way round. */
  lemma ZoomInverse(zoom: int)
    ensures MinZoom + ZoomStep <= zoom <= MaxZoom ==> ZoomIn(ZoomOut(zoom)) == zoom
    ensures MinZoom <= zoom <= MaxZoom - ZoomStep ==> ZoomOut(ZoomIn(zoom)) == zoom
  {
  }

  datatype Button = ZoomOutButton | ZoomInButton

  /** The zoom after the buttons are pressed in order. */
  function PressAll(zoom: int, presses: seq<Button>): int
    decreases |presses|
  {
    if presses == [] then zoom
    else
      var next := if presses[0] == ZoomOutButton then ZoomOut(zoom) else ZoomIn(zoom);
      PressAll(next, presses[1..])
  }

  /** Any sequence of button presses keeps a zoom inside the range inside it. */
  lemma {:induction false} PressAllStaysInRange(zoom: int, presses: seq<Button>)
    requires InRange(zoom)
    ensures InRange(PressAll(zoom, presses))
    decreases |presses|
  {
    if presses != [] {
      ZoomStaysInRange(zoom);
      var next := if presses[0] == ZoomOutButton then ZoomOut(zoom) else ZoomIn(zoom);
      PressAllStaysInRange(next, presses[1..]);
    }
  }

  // ---------------------------------------------------------------------------
  // The percentage label: `{Math.round(zoom * 100)}%`.

  function DigitChar(d: int): char
    requires 0 <= d < 10
  {
    "0123456789"[d]
  }

  predicate IsDigit(c: char) {
    '0' <= c <= '9'
  }

  /** The value of a string of decimal digits. */
  function DecimalValue(s: string): int
    requires forall k :: 0 <= k < |s| ==> IsDigit(s[k])
  {
    if s == [] then 0 else 10 * DecimalValue(s[..|s| - 1]) + (s[|s| - 1] as int - '0' as int)
  }

  /** How JavaScript prints a non-negative integer: its decimal digits, with no leading zero. */
  function NatToString(n: nat): (s: string)
    ensures 0 < |s|
    ensures forall k :: 0 <= k < |s| ==> IsDigit(s[k])
    ensures s[0] == '0' ==> s == "0"
  {
    if n < 10 then [DigitChar(n)] else NatToString(n / 10) + [DigitChar(n % 10)]
  }

  /** Reading the printed digits back gives the number. */
  lemma {:induction false} NatToStringValue(n: nat)
    ensures DecimalValue(NatToString(n)) == n
  {
    var s := NatToString(n);
    if n >= 10 {
      NatToStringValue(n / 10);
      assert s[..|s| - 1] == NatToString(n / 10);
    }
  }

  /** How JavaScript prints an integer. */
  function IntToString(n: int): string {
    if n < 0 then "-" + NatToString(-n) else NatToString(n)
  }

  /**
    The label beside the zoom buttons. The zoom is held in hundredths
    already, so `Math.round(zoom * 100)` is the held number itself.
   */
  function ZoomLabel(zoom: int): string {
    IntToString(zoom) + "%"
  }

  /** Inside the range the label is two or three of the zoom's digits followed by '%', and the digits read back as the zoom. */
  lemma ZoomLabelReadsBack(zoom: int)
    requires InRange(zoom)
    ensures var l := ZoomLabel(zoom);
      && 3 <= |l| <= 4
      && l[|l| - 1] == '%'
      && (forall k :: 0 <= k < |l| - 1 ==> IsDigit(l[k]))
      && DecimalValue(l[..|l| - 1]) == zoom
  {
    var l := ZoomLabel(zoom);
    assert l[..|l| - 1] == NatToString(zoom);
    NatToStringValue(zoom);
    NatToStringLength(zoom);
  }

  lemma {:induction false} NatToStringLength(n: nat)
    ensures n < 1000 ==> |NatToString(n)| <= 3
    ensures n >= 10 ==> |NatToString(n)| >= 2
  {
    if n >= 10 {
      NatToStringLength(n / 10);
    }
  }
}
