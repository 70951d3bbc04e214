/**
 * Wall-clock readings and the two strftime formats the recognition core
 * uses: '%Y%m%d_%H%M%S' in intruder snapshot names and '%Y-%m-%d %H:%M:%S'
 * in the stored record. The clock itself is an input.
 */
module Clock {

  datatype DateTime = DateTime(year: int, month: int, day: int, hour: int, minute: int, second: int)

  predicate ValidDateTime(t: DateTime) {
    1000 <= t.year <= 9999 && 1 <= t.month <= 12 && 1 <= t.day <= 31 &&
    0 <= t.hour < 24 && 0 <= t.minute < 60 && 0 <= t.second < 60
  }

  type Timestamp = t: DateTime | ValidDateTime(t) witness DateTime(2000, 1, 1, 0, 0, 0)

  function Pow10(n: nat): nat {
    if n == 0 then 1 else 10 * Pow10(n - 1)
  }

  function DigitChar(d: nat): char
    requires d < 10
  {
    "0123456789"[d]
  }

  /** The last `width` decimal digits of n, zero-padded, most significant first. */
  function Digits(n: nat, width: nat): (s: string)
    ensures |s| == width
  {
    if width == 0 then "" else Digits(n / 10, width - 1) + [DigitChar(n % 10)]
  }

  /** strftime('%Y%m%d_%H%M%S') */
  function CompactStamp(t: Timestamp): (s: string)
    ensures |s| == 15 && s[8] == '_'
  {
    Digits(t.year, 4) + Digits(t.month, 2) + Digits(t.day, 2) + "_" +
    Digits(t.hour, 2) + Digits(t.minute, 2) + Digits(t.second, 2)
  }

  /** strftime('%Y-%m-%d %H:%M:%S') */
  function ReadableStamp(t: Timestamp): (s: string)
    ensures |s| == 19 && s[4] == '-' && s[7] == '-' && s[10] == ' ' && s[13] == ':' && s[16] == ':'
  {
    Digits(t.year, 4) + "-" + Digits(t.month, 2) + "-" + Digits(t.day, 2) + " " +
    Digits(t.hour, 2) + ":" + Digits(t.minute, 2) + ":" + Digits(t.second, 2)
  }

  /** The snapshot name of an intruder recorded at t. */
  function IntrusoFilename(t: Timestamp): (f: string)
    ensures |f| == 27
  {
    "intruso_" + CompactStamp(t) + ".jpg"
  }

  // ---------------------------------------------------------------------------
  // Lemmas

  /** Zero-padded digits of a number that fits the width determine the number. */
  lemma {:induction false} DigitsInjective(a: nat, b: nat, width: nat)
    requires a < Pow10(width) && b < Pow10(width)
    requires Digits(a, width) == Digits(b, width)
    ensures a == b
  {
    if width > 0 {
      var da, db := Digits(a, width), Digits(b, width);
      assert da[width - 1] == DigitChar(a % 10);
      assert db[width - 1] == DigitChar(b % 10);
      assert a % 10 == b % 10;
      assert da[..width - 1] == Digits(a / 10, width - 1);
      assert db[..width - 1] == Digits(b / 10, width - 1);
      DigitsInjective(a / 10, b / 10, width - 1);
    }
  }

  lemma SplitEqual(x1: string, y1: string, x2: string, y2: string)
    requires x1 + y1 == x2 + y2 && |x1| == |x2|
    ensures x1 == x2 && y1 == y2
  {
    assert x1 == (x1 + y1)[..|x1|];
    assert x2 == (x2 + y2)[..|x2|];
    assert y1 == (x1 + y1)[|x1|..];
    assert y2 == (x2 + y2)[|x2|..];
  }

  /**
   * Two intruder snapshots get the same name exactly when they are recorded
   * in the same second: the name is collision-free across distinct seconds
   * and only across them.
   */
  lemma FilenameCollisionIff(t1: Timestamp, t2: Timestamp)
    ensures IntrusoFilename(t1) == IntrusoFilename(t2) <==> t1 == t2
  {
    if IntrusoFilename(t1) == IntrusoFilename(t2) {
      var c1, c2 := CompactStamp(t1), CompactStamp(t2);
      SplitEqual("intruso_" + c1, ".jpg", "intruso_" + c2, ".jpg");
      SplitEqual("intruso_", c1, "intruso_", c2);
      var p1 := Digits(t1.year, 4) + Digits(t1.month, 2) + Digits(t1.day, 2) + "_" + Digits(t1.hour, 2) + Digits(t1.minute, 2);
      var p2 := Digits(t2.year, 4) + Digits(t2.month, 2) + Digits(t2.day, 2) + "_" + Digits(t2.hour, 2) + Digits(t2.minute, 2);
      SplitEqual(p1, Digits(t1.second, 2), p2, Digits(t2.second, 2));
      var q1 := Digits(t1.year, 4) + Digits(t1.month, 2) + Digits(t1.day, 2) + "_" + Digits(t1.hour, 2);
      var q2 := Digits(t2.year, 4) + Digits(t2.month, 2) + Digits(t2.day, 2) + "_" + Digits(t2.hour, 2);
      SplitEqual(q1, Digits(t1.minute, 2), q2, Digits(t2.minute, 2));
      var r1 := Digits(t1.year, 4) + Digits(t1.month, 2) + Digits(t1.day, 2) + "_";
      var r2 := Digits(t2.year, 4) + Digits(t2.month, 2) + Digits(t2.day, 2) + "_";
      SplitEqual(r1, Digits(t1.hour, 2), r2, Digits(t2.hour, 2));
      SplitEqual(r1[..8], "_", r2[..8], "_");
      var s1 := Digits(t1.year, 4) + Digits(t1.month, 2);
      var s2 := Digits(t2.year, 4) + Digits(t2.month, 2);
      assert r1[..8] == s1 + Digits(t1.day, 2);
      assert r2[..8] == s2 + Digits(t2.day, 2);
      SplitEqual(s1, Digits(t1.day, 2), s2, Digits(t2.day, 2));
      SplitEqual(Digits(t1.year, 4), Digits(t1.month, 2), Digits(t2.year, 4), Digits(t2.month, 2));
      assert Pow10(2) == 100 && Pow10(4) == 10000;
      DigitsInjective(t1.year, t2.year, 4);
      DigitsInjective(t1.month, t2.month, 2);
      DigitsInjective(t1.day, t2.day, 2);
      DigitsInjective(t1.hour, t2.hour, 2);
      DigitsInjective(t1.minute, t2.minute, 2);
      DigitsInjective(t1.second, t2.second, 2);
    }
  }
}
