/** The timer text of CourtManager.formatTime, with JavaScript's number-to-string,
    padStart and remainder written out. */
module TimerDisplay {
  import opened Wrappers

  predicate IsDigit(c: char)
  {
    '0' <= c <= '9'
  }

  predicate AllDigits(s: string)
  {
    forall i :: 0 <= i < |s| ==> IsDigit(s[i])
  }

  function Digit(d: nat): (c: char)
    requires d < 10
    ensures IsDigit(c) && c as int - '0' as int == d
  {
    "0123456789"[d]
  }

  /** Decimal notation of a non-negative integer, without leading zeros. */
  function NatToString(n: nat): (s: string)
    ensures AllDigits(s)
    ensures 1 <= |s|
    ensures n < 10 <==> |s| == 1
    ensures 10 <= n < 100 ==> |s| == 2
    decreases n
  {
    if n < 10 then [Digit(n)] else NatToString(n / 10) + [Digit(n % 10)]
  }

  /** The number a string of digits denotes; the inverse of NatToString. */
  function DecimalValue(s: string): nat
    requires AllDigits(s)
  {
    if s == [] then 0 else DecimalValue(s[..|s| - 1]) * 10 + (s[|s| - 1] as int - '0' as int)
  }

  lemma {:induction false} DecimalValueOfNatToString(n: nat)
    ensures DecimalValue(NatToString(n)) == n
    decreases n
  {
    if n >= 10 {
      var s := NatToString(n);
      assert s[..|s| - 1] == NatToString(n / 10);
      DecimalValueOfNatToString(n / 10);
    }
  }

  function Zeros(k: nat): (z: string)
    ensures |z| == k && AllDigits(z)
  {
    seq(k, _ => '0')
  }

  /** Leading zeros do not change the value. */
  lemma {:induction false} DecimalValueIgnoresZeros(k: nat, s: string)
    requires AllDigits(s)
    ensures DecimalValue(Zeros(k) + s) == DecimalValue(s)
    decreases |s|, k
  {
    if s == [] {
      assert Zeros(k) + s == Zeros(k);
      if k > 0 {
        assert Zeros(k)[..k - 1] == Zeros(k - 1);
        DecimalValueIgnoresZeros(k - 1, s);
        assert Zeros(k - 1) + s == Zeros(k - 1);
      }
    } else {
      var t := Zeros(k) + s;
      assert t[..|t| - 1] == Zeros(k) + s[..|s| - 1];
      DecimalValueIgnoresZeros(k, s[..|s| - 1]);
    }
  }

  /** Number.prototype.toString() of an integer. */
  function IntToString(n: int): string
  {
    if n < 0 then "-" + NatToString(-n) else NatToString(n)
  }

  /** String.prototype.padStart(width, fill). */
  function PadStart(s: string, width: nat, fill: char): (r: string)
    ensures |r| == Max(width, |s|)
    ensures r[|r| - |s|..] == s
    ensures forall i :: 0 <= i < |r| - |s| ==> r[i] == fill
  {
    if |s| >= width then s else seq(width - |s|, _ => fill) + s
  }

  /** JavaScript's `%`: the remainder takes the sign of the dividend. */
  function JsRemainder(a: int, b: int): (r: int)
    requires b > 0
    ensures -b < r < b && (r < 0 ==> a < 0) && (r > 0 ==> a > 0)
    ensures a == 0 ==> r == 0
    ensures a >= 0 ==> r == a % b
  {
    if a >= 0 then a % b
    else
      assert (-a) % b != 0 ==> a != 0;
      -((-a) % b)
  }

  /** formatTime: `Math.floor(seconds / 60)` and `Math.floor(seconds % 60)`, each padded
      to two characters with '0', joined by ':'. Dafny's `/` by a positive divisor rounds
      down, as Math.floor does. The text is never shorter than `00:00`, whatever the sign. */
  function FormatTime(seconds: int): (t: string)
    ensures |t| >= 5
  {
    var mins := seconds / 60;
    var secs := JsRemainder(seconds, 60);
    PadStart(IntToString(mins), 2, '0') + ":" + PadStart(IntToString(secs), 2, '0')
  }

  /** A padded number still denotes the same value. */
  lemma PaddedValue(n: nat)
    ensures AllDigits(PadStart(NatToString(n), 2, '0'))
    ensures DecimalValue(PadStart(NatToString(n), 2, '0')) == n
  {
    var s := NatToString(n);
    DecimalValueOfNatToString(n);
    if |s| < 2 {
      assert PadStart(s, 2, '0') == Zeros(2 - |s|) + s;
      DecimalValueIgnoresZeros(2 - |s|, s);
    }
  }

  /** A natural number padded to two digits, with the facts the timer text needs. */
  function Padded(n: nat): (p: string)
    ensures |p| >= 2 && AllDigits(p) && DecimalValue(p) == n
    ensures n < 100 ==> |p| == 2
  {
    PaddedValue(n);
    PadStart(NatToString(n), 2, '0')
  }

  /** For a non-negative number of seconds the text is the padded minutes and seconds. */
  lemma FormatTimeOfNat(seconds: nat)
    ensures FormatTime(seconds) == Padded(seconds / 60) + ":" + Padded(seconds % 60)
  {
    assert JsRemainder(seconds, 60) == seconds % 60;
  }

  /** The two sides of the colon of `r == a:b` when `b` has two characters. */
  lemma ColonSides(r: string, a: string, b: string)
    requires r == a + ":" + b && |b| == 2
    ensures |r| == |a| + 3 && r[|r| - 3] == ':' && r[..|r| - 3] == a && r[|r| - 2..] == b
  {
    assert r[..|r| - 3] == a;
    assert r[|r| - 2..] == b;
  }

  /** The timer text is the padded minutes, a colon, and the padded seconds. */
  lemma FormatTimeParts(seconds: nat)
    ensures var r := FormatTime(seconds);
      && |r| >= 5 && r[|r| - 3] == ':'
      && r[..|r| - 3] == Padded(seconds / 60) && r[|r| - 2..] == Padded(seconds % 60)
  {
    FormatTimeOfNat(seconds);
    ColonSides(FormatTime(seconds), Padded(seconds / 60), Padded(seconds % 60));
  }

  /** For a non-negative number of seconds the text is `mm:ss`: `ss` is two digits below
      60, `mm` at least two digits, and together they give back the seconds. */
  lemma FormatTimeIsMinutesAndSeconds(seconds: nat)
    ensures var r := FormatTime(seconds);
      && |r| >= 5 && r[|r| - 3] == ':'
      && AllDigits(r[..|r| - 3]) && AllDigits(r[|r| - 2..])
      && DecimalValue(r[|r| - 2..]) < 60
      && DecimalValue(r[..|r| - 3]) * 60 + DecimalValue(r[|r| - 2..]) == seconds
  {
    FormatTimeParts(seconds);
    var mm, ss := Padded(seconds / 60), Padded(seconds % 60);
    assert DecimalValue(mm) == seconds / 60 && DecimalValue(ss) == seconds % 60;
  }
}
