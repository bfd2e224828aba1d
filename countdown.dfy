/**
 * What the countdown shows on each update: the `m:ss` text and the colour band,
 * both pure functions of the remaining seconds.
 */
module Countdown {
  import opened Decimal

  /** The four urgency bands of the timer element. */
  datatype Band = Green | Yellow | Orange | Red

  /** The band chosen by the chain of strict `>` tests against 600, 300 and 120 seconds. */
  function BandOf(seconds: int): (b: Band)
    ensures b == Green <==> seconds > 600
    ensures b == Yellow <==> 300 < seconds <= 600
    ensures b == Orange <==> 120 < seconds <= 300
    ensures b == Red <==> seconds <= 120
  {
    if seconds > 600 then Green
    else if seconds > 300 then Yellow
    else if seconds > 120 then Orange
    else Red
  }

  /** The background colour the timer element gets in each band. */
  function Background(b: Band): string
  {
    match b
    case Green => "#2ecc71"
    case Yellow => "#f1c40f"
    case Orange => "#e67e22"
    case Red => "#e74c3c"
  }

  /** The animation the timer element gets in each band. */
  function Animation(b: Band): string
  {
    if b == Red then "flashRed 1s infinite" else "none"
  }

  /** How urgent a band is: 0 for green up to 3 for red. */
  function Urgency(b: Band): nat
  {
    match b
    case Green => 0
    case Yellow => 1
    case Orange => 2
    case Red => 3
  }

  /** The exact boundaries of the band table. */
  lemma BandEdges()
    ensures BandOf(601) == Green && BandOf(600) == Yellow
    ensures BandOf(301) == Yellow && BandOf(300) == Orange
    ensures BandOf(121) == Orange && BandOf(120) == Red
  {
  }

  /**
   * The style each update gives the timer element: green above ten minutes,
   * yellow above five, orange above two, and flashing red from two minutes
   * down; the four colours are all different.
   */
  lemma TimerStyle(t: int)
    ensures t > 600 ==> Background(BandOf(t)) == "#2ecc71" && Animation(BandOf(t)) == "none"
    ensures 300 < t <= 600 ==> Background(BandOf(t)) == "#f1c40f" && Animation(BandOf(t)) == "none"
    ensures 120 < t <= 300 ==> Background(BandOf(t)) == "#e67e22" && Animation(BandOf(t)) == "none"
    ensures t <= 120 ==> Background(BandOf(t)) == "#e74c3c" && Animation(BandOf(t)) == "flashRed 1s infinite"
    ensures forall b1: Band, b2: Band :: b1 != b2 ==> Background(b1) != Background(b2)
  {
  }

  /** The timer flashes exactly in the last two minutes (and below). */
  lemma FlashesIffCritical(seconds: int)
    ensures Animation(BandOf(seconds)) != "none" <==> seconds <= 120
  {
  }

  /** Less time left never means a calmer band. */
  lemma BandMonotone(s: int, t: int)
    requires s <= t
    ensures Urgency(BandOf(t)) <= Urgency(BandOf(s))
  {
  }

  /** `Math.floor(t / 60)`: Dafny's division by a positive divisor already rounds down. */
  function Minutes(t: int): (m: int)
    ensures m * 60 <= t < m * 60 + 60
  {
    t / 60
  }

  /** JavaScript's `t % 60`, whose remainder takes the sign of `t`. */
  function Seconds(t: int): (s: int)
    ensures t >= 0 ==> 0 <= s < 60 && Minutes(t) * 60 + s == t
    ensures t < 0 ==> -60 < s <= 0 && (t - s) % 60 == 0
  {
    if t >= 0 then t % 60 else -((-t) % 60)
  }

  /** `padStart(2, "0")`: left-pad with zeros up to two characters; longer text is unchanged. */
  function PadStart2(s: string): (r: string)
    ensures |r| == if |s| >= 2 then |s| else 2
    ensures r[|r| - |s|..] == s
    ensures forall i :: 0 <= i < |r| - |s| ==> r[i] == '0'
  {
    if |s| >= 2 then s else seq(2 - |s|, _ => '0') + s
  }

  /**
   * The text of the timer element for `t` seconds remaining: the fixed label,
   * then the minutes, a colon, and the seconds padded to two characters.
   */
  function TimerText(t: int): (r: string)
    ensures |r| >= 15 && r[..11] == "Time Left: "
    ensures r[|r| - |PadStart2(IntToString(Seconds(t)))| - 1] == ':'
  {
    "Time Left: " + IntToString(Minutes(t)) + ":" + PadStart2(IntToString(Seconds(t)))
  }

  /**
   * For a non-negative time the text is `Time Left: m:ss` with exactly two
   * seconds digits, and reading the digits back gives `m * 60 + ss == t`.
   */
  lemma TimerTextRoundTrip(t: int)
    requires t >= 0
    ensures var mm := NatToString(t / 60);
            var ss := PadStart2(NatToString(t % 60));
            TimerText(t) == "Time Left: " + mm + ":" + ss
            && |ss| == 2 && AllDigits(ss) && DigitsValue(ss) == t % 60
            && DigitsValue(mm) * 60 + DigitsValue(ss) == t
  {
    var s := t % 60;
    NatToStringRoundTrip(t / 60);
    TwoDigitsValue(s);
  }

  lemma TwoDigitsValue(s: nat)
    requires s < 60
    ensures var ss := PadStart2(NatToString(s));
            |ss| == 2 && AllDigits(ss) && DigitsValue(ss) == s
  {
    var ss := PadStart2(NatToString(s));
    NatToStringRoundTrip(s);
    if s < 10 {
      assert ss == ['0'] + NatToString(s);
      assert ss[..1] == ['0'];
    } else {
      assert ss == NatToString(s);
    }
  }

  /** Once the time is negative, both fields show a minus sign, e.g. one second past zero. */
  lemma NegativeTimerText()
    ensures TimerText(-1) == "Time Left: -1:-1"
  {
    assert Minutes(-1) == -1;
    assert Seconds(-1) == -1;
    assert NatToString(1) == "1";
  }
}
