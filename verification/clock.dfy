/** `formatTime` of the transcript component: seconds to a colon-separated
    clock label (insights/src/components/Transcript.tsx, lines 63-72). */
module Clock {

  import opened Wrappers
  import opened Decimal
  import opened Strings

  /** A JavaScript number as `formatTime` can observe it. */
  datatype JsNumber = Finite(value: real) | NaN | PositiveInfinity | NegativeInfinity

  /** The label for a time that is not a non-negative number. */
  const Fallback: string := "00:00:00"

  predicate Invalid(t: JsNumber) {
    t.NaN? || t.NegativeInfinity? || (t.Finite? && t.value < 0.0)
  }

  /** Rounding toward zero: the integer next to `r` on the side of zero. */
  function Trunc(r: real): (t: int)
    ensures r >= 0.0 ==> 0 <= t && t as real <= r < t as real + 1.0
    ensures r < 0.0 ==> t <= 0 && t as real - 1.0 < r <= t as real
  {
    if r >= 0.0 then r.Floor else -((-r).Floor)
  }

  /** JavaScript's `%` on numbers: `a - b * trunc(a / b)`; the remainder
      carries the sign of the dividend. */
  function JsRem(a: real, b: real): real
    requires b != 0.0
  {
    a - b * (Trunc(a / b) as real)
  }

  /** For a positive divisor the remainder lies strictly between `-b` and
      `b`, and it is never of the opposite sign to the dividend. */
  lemma JsRemSign(a: real, b: real)
    requires b > 0.0
    ensures a >= 0.0 ==> 0.0 <= JsRem(a, b) < b
    ensures a < 0.0 ==> -b < JsRem(a, b) <= 0.0
  {
    if a >= 0.0 {
      JsRemBelow(a, b);
    } else {
      JsRemBelow(-a, b);
      JsRemOdd(a, b);
    }
  }

  lemma JsRemBelow(a: real, b: real)
    requires a >= 0.0 && b > 0.0
    ensures 0.0 <= JsRem(a, b) < b
  {
    var q := a / b;
    RealDivBounds(a, b, 0.0, q + 1.0);
    var f := q - Trunc(q) as real;
    assert JsRem(a, b) == f * b;
    assert 0.0 <= f < 1.0;
    assert f * b >= 0.0 && (1.0 - f) * b > 0.0;
  }

  /** `%` is odd in its dividend. */
  lemma JsRemOdd(a: real, b: real)
    requires b != 0.0
    ensures JsRem(-a, b) == -JsRem(a, b)
  {
    assert (-a) / b == -(a / b);
  }

  lemma RealDivBounds(x: real, d: real, lo: real, hi: real)
    requires d > 0.0 && lo * d <= x < hi * d
    ensures lo <= x / d < hi
  {
    var y := x / d;
    assert y * d == x;
    assert (y - lo) * d >= 0.0;
    assert (hi - y) * d > 0.0;
  }

  /** Dividing a non-negative real by a positive whole number and flooring
      is integer division of its floor. */
  lemma FloorOfQuotient(x: real, d: nat)
    requires x >= 0.0 && d > 0
    ensures (x / d as real).Floor == x.Floor / d
  {
    var n := x.Floor;
    var q := n / d;
    var dr := d as real;
    assert (q as real) * dr <= x by {
      assert q * d <= n;
      assert ((q * d) as real) == (q as real) * dr;
    }
    assert x < ((q + 1) as real) * dr by {
      assert n + 1 <= (q + 1) * d;
      assert (((q + 1) * d) as real) == ((q + 1) as real) * dr;
    }
    RealDivBounds(x, dr, q as real, (q + 1) as real);
  }

  /** For a non-negative dividend, JavaScript's `%` by a whole number is
      non-negative and commutes with the floor. */
  lemma FloorOfRem(x: real, d: nat)
    requires x >= 0.0 && d > 0
    ensures JsRem(x, d as real) >= 0.0
    ensures JsRem(x, d as real).Floor == x.Floor % d
  {
    FloorOfQuotient(x, d);
    var q := x.Floor / d;
    assert Trunc(x / d as real) == q;
    var y := x - (d as real) * (q as real);
    assert JsRem(x, d as real) == y;
    assert y.Floor == x.Floor - d * q by {
      assert x.Floor as real <= x < x.Floor as real + 1.0;
      assert ((x.Floor - d * q) as real) == (x.Floor as real) - (d as real) * (q as real);
    }
  }

  /** The whole seconds recombine from hours, minutes and seconds. */
  lemma MinutesAndSeconds(n: nat)
    ensures (n / 3600) * 3600 + ((n % 3600) / 60) * 60 + n % 60 == n
    ensures (n % 3600) / 60 < 60
  {
    var r := n % 3600;
    assert n == (n / 3600) * 3600 + r;
    assert r == (r / 60) * 60 + r % 60;
    assert r % 60 == n % 60 by {
      assert n == ((n / 3600) * 60 + r / 60) * 60 + r % 60;
    }
  }

  /** The fields `[hrs, mins, secs]` computed with real division, floor and
      JavaScript's `%` (lines 65-67) are the integer hours, minutes below 60
      and seconds below 60 of the whole seconds of `x`. */
  function Fields(x: real): (f: seq<nat>)
    requires x >= 0.0
    ensures f == [x.Floor / 3600, (x.Floor % 3600) / 60, x.Floor % 60]
    ensures f[0] * 3600 + f[1] * 60 + f[2] == x.Floor
    ensures f[1] < 60 && f[2] < 60
  {
    FloorOfQuotient(x, 3600);
    FloorOfRem(x, 3600);
    FloorOfQuotient(JsRem(x, 3600.0), 60);
    FloorOfRem(x, 60);
    MinutesAndSeconds(x.Floor);
    [(x / 3600.0).Floor, (JsRem(x, 3600.0) / 60.0).Floor, JsRem(x, 60.0).Floor]
  }

  /** Whole seconds have exactly one split into hours, minutes below 60
      and seconds below 60. */
  lemma DecompositionUnique(n: nat, h: nat, m: nat, s: nat)
    requires m < 60 && s < 60
    requires h * 3600 + m * 60 + s == n
    ensures h == n / 3600 && m == (n % 3600) / 60 && s == n % 60
  {
    var r := m * 60 + s;
    assert 0 <= r < 3600;
    assert n == h * 3600 + r;
    assert n / 3600 == h && n % 3600 == r;
    assert r / 60 == m && r % 60 == s;
    assert n == (h * 60 + m) * 60 + s;
    assert n % 60 == s;
  }

  /** So the fields of `formatTime` are the only such split of the whole
      seconds of `x`. */
  lemma FieldsUnique(x: real, h: nat, m: nat, s: nat)
    requires x >= 0.0
    requires m < 60 && s < 60
    requires h * 3600 + m * 60 + s == x.Floor
    ensures Fields(x) == [h, m, s]
  {
    DecompositionUnique(x.Floor, h, m, s);
  }

  /** One element of the mapped array of line 69: the string `"0" + v` for
      a field below 10, the number `v` itself otherwise. */
  datatype Cell = Padded(text: string) | Plain(count: nat)

  function ToCell(v: nat): (c: Cell)
    ensures c.Padded? <==> v < 10
    ensures c.Padded? ==> |c.text| == 2 && c.text[0] == '0'
    ensures c.Plain? ==> c.count == v
  {
    if v < 10 then Padded("0" + Show(v)) else Plain(v)
  }

  /** How `join` prints a cell. */
  function CellText(c: Cell): string {
    match c
    case Padded(t) => t
    case Plain(n) => Show(n)
  }

  function MapCells(vs: seq<nat>): (cs: seq<Cell>)
    ensures |cs| == |vs|
    ensures forall i :: 0 <= i < |vs| ==> cs[i] == ToCell(vs[i])
  {
    seq(|vs|, i requires 0 <= i < |vs| => ToCell(vs[i]))
  }

  /** The filter of line 70 on the cells from index `from` on: a cell is
      dropped exactly when it is the string "00" at index 0. A number cell
      is never strictly equal to a string. */
  function KeepCells(cs: seq<Cell>, from: nat): (r: seq<Cell>)
    ensures from > 0 ==> r == cs
    ensures from == 0 && |cs| > 0 ==> r == if cs[0] == Padded("00") then cs[1..] else cs
    decreases |cs|
  {
    if |cs| == 0 then []
    else (if cs[0] != Padded("00") || from > 0 then [cs[0]] else []) + KeepCells(cs[1..], from + 1)
  }

  function Texts(cs: seq<Cell>): (ts: seq<string>)
    ensures |ts| == |cs|
    ensures forall i :: 0 <= i < |cs| ==> ts[i] == CellText(cs[i])
  {
    seq(|cs|, i requires 0 <= i < |cs| => CellText(cs[i]))
  }

  /** The map/filter/join pipeline of lines 68-71 on `[hrs, mins, secs]`. */
  function Label(f: seq<nat>): string {
    Join(Texts(KeepCells(MapCells(f), 0)), ':')
  }

  /** `formatTime(seconds)`. */
  function FormatTime(t: JsNumber): string {
    match t
    case NaN => Fallback
    case NegativeInfinity => Fallback
    // hrs is Infinity, mins and secs are NaN; none is below 10 or "00"
    case PositiveInfinity => "Infinity:NaN:NaN"
    case Finite(x) => if x < 0.0 then Fallback else Label(Fields(x))
  }

  /** The printed form of one field: at least two digits, reading back as
      the field's value, with a leading zero exactly when the value is
      below 10, and then exactly two characters. */
  function Pad(v: nat): (p: string)
    ensures IsNumeral(p) && |p| >= 2
    ensures Value(p) == v
    ensures p[0] == '0' <==> v < 10
    ensures v < 10 <==> |p| == 2 && p[0] == '0'
  {
    ValueOfShow(v);
    ValueLeadingZero(Show(v));
    CellText(ToCell(v))
  }

  /** The fields of a label from hours, minutes and seconds: the hour field
      only when there are whole hours, minutes and seconds always. */
  function Parts(h: nat, m: nat, s: nat): (ps: seq<string>)
    ensures |ps| == (if h == 0 then 2 else 3)
    ensures forall i :: 0 <= i < |ps| ==> IsNumeral(ps[i])
  {
    if h == 0 then [Pad(m), Pad(s)] else [Pad(h), Pad(m), Pad(s)]
  }

  /** The cell of a field is the string "00" exactly when the field is zero. */
  lemma ZeroCell(v: nat)
    ensures ToCell(v) == Padded("00") <==> v == 0
  {
    if v != 0 && v < 10 {
      assert Show(v)[0] != '0';
      assert ("0" + Show(v))[1] == Show(v)[0];
    }
  }

  /** The pipeline of lines 68-71 joins exactly the fields `Parts` names. */
  lemma LabelIsParts(h: nat, m: nat, s: nat)
    ensures Label([h, m, s]) == Join(Parts(h, m, s), ':')
  {
    var cs := MapCells([h, m, s]);
    assert cs == [ToCell(h), ToCell(m), ToCell(s)];
    ZeroCell(h);
    if h == 0 {
      assert KeepCells(cs, 0) == [ToCell(m), ToCell(s)];
      assert Texts(KeepCells(cs, 0)) == [Pad(m), Pad(s)];
    } else {
      assert KeepCells(cs, 0) == cs;
      assert Texts(cs) == [Pad(h), Pad(m), Pad(s)];
    }
  }

  /** The label of a non-negative time, field by field. */
  lemma LabelFields(x: real)
    requires x >= 0.0
    ensures var f := Fields(x);
      && FormatTime(Finite(x)) == Join(Parts(f[0], f[1], f[2]), ':')
      && Split(FormatTime(Finite(x)), ':') == Parts(f[0], f[1], f[2])
  {
    var f := Fields(x);
    LabelIsParts(f[0], f[1], f[2]);
    SplitParts(f[0], f[1], f[2]);
  }

  /** The fields of a label are the parts it was joined from. */
  lemma SplitParts(h: nat, m: nat, s: nat)
    ensures Split(Join(Parts(h, m, s), ':'), ':') == Parts(h, m, s)
  {
    var ps := Parts(h, m, s);
    forall i | 0 <= i < |ps|
      ensures ':' !in ps[i]
    {
      assert IsNumeral(ps[i]);
    }
    SplitJoin(ps, ':');
  }

  /** A valid label has two fields below one hour and three from one hour
      on; the hour field is left out exactly when it would be zero. */
  lemma FieldCount(x: real)
    requires x >= 0.0
    ensures |Split(FormatTime(Finite(x)), ':')| == (if x.Floor < 3600 then 2 else 3)
  {
    LabelFields(x);
  }

  /** Reads a label back as whole seconds: two or three numerals separated
      by colons, as [hours,] minutes and seconds. */
  ghost function ParseLabel(shown: string): Option<int> {
    ParseFields(Split(shown, ':'))
  }

  ghost function ParseFields(fs: seq<string>): Option<int> {
    if |fs| == 2 && IsNumeral(fs[0]) && IsNumeral(fs[1]) then
      Some(Value(fs[0]) * 60 + Value(fs[1]))
    else if |fs| == 3 && IsNumeral(fs[0]) && IsNumeral(fs[1]) && IsNumeral(fs[2]) then
      Some(Value(fs[0]) * 3600 + Value(fs[1]) * 60 + Value(fs[2]))
    else None
  }

  lemma ParseTwo(a: string, b: string)
    requires IsNumeral(a) && IsNumeral(b)
    ensures ParseFields([a, b]) == Some(Value(a) * 60 + Value(b))
  {
  }

  lemma ParseThree(a: string, b: string, c: string)
    requires IsNumeral(a) && IsNumeral(b) && IsNumeral(c)
    ensures ParseFields([a, b, c]) == Some(Value(a) * 3600 + Value(b) * 60 + Value(c))
  {
  }

  lemma ParseParts(h: nat, m: nat, s: nat)
    ensures ParseFields(Parts(h, m, s)) == Some(h * 3600 + m * 60 + s)
  {
    if h == 0 {
      ParseTwo(Pad(m), Pad(s));
    } else {
      ParseThree(Pad(h), Pad(m), Pad(s));
    }
  }

  /** The label of a non-negative time reads back as its whole seconds. */
  lemma ParseFormatTime(x: real)
    requires x >= 0.0
    ensures ParseLabel(FormatTime(Finite(x))) == Some(x.Floor)
  {
    LabelFields(x);
    ParseShown(FormatTime(Finite(x)), x.Floor);
  }

  /** A label joined from the fields of `n` seconds reads back as `n`. */
  lemma ParseShown(shown: string, n: nat)
    requires shown == Join(Parts(n / 3600, (n % 3600) / 60, n % 60), ':')
    ensures ParseLabel(shown) == Some(n)
  {
    ParseJoinParts(n / 3600, (n % 3600) / 60, n % 60);
    MinutesAndSeconds(n);
  }

  lemma ParseJoinParts(h: nat, m: nat, s: nat)
    ensures ParseLabel(Join(Parts(h, m, s), ':')) == Some(h * 3600 + m * 60 + s)
  {
    SplitParts(h, m, s);
    ParseParts(h, m, s);
  }

  lemma SplitFallback()
    ensures Split(Fallback, ':') == ["00", "00", "00"]
  {
    SplitJoin(["00", "00", "00"], ':');
    assert Join(["00", "00", "00"], ':') == Fallback by {
      assert Join(["00", "00", "00"][1..], ':') == "00:00";
    }
  }

  lemma ValidNotFallback(x: real)
    requires x >= 0.0
    ensures FormatTime(Finite(x)) != Fallback
  {
    LabelFields(x);
    SplitFallback();
  }

  /** The fallback label is produced exactly for invalid times (and not for
      positive infinity), so no valid time is shown as "00:00:00". */
  lemma FallbackExactlyWhenInvalid(t: JsNumber)
    ensures FormatTime(t) == Fallback <==> Invalid(t)
  {
    if t.Finite? && t.value >= 0.0 {
      ValidNotFallback(t.value);
    } else if t.PositiveInfinity? {
      assert FormatTime(t)[0] == 'I';
    }
  }

  /** The label of a time whose whole seconds are `h` hours, `m` minutes
      and `s` seconds. */
  lemma LabelOf(x: real, h: nat, m: nat, s: nat)
    requires x >= 0.0
    requires m < 60 && s < 60
    requires h * 3600 + m * 60 + s == x.Floor
    ensures FormatTime(Finite(x)) == Join(Parts(h, m, s), ':')
  {
    FieldsUnique(x, h, m, s);
    LabelFields(x);
  }

  // Worked values: the hour field is padded too, and a fraction of a
  // second is dropped.

  lemma ExampleZero()
    ensures FormatTime(Finite(0.0)) == "00:00"
  {
    LabelOf(0.0, 0, 0, 0);
    assert Parts(0, 0, 0) == ["00", "00"];
    assert Join(["00", "00"], ':') == "00:00";
  }

  lemma ExampleMinutes()
    ensures FormatTime(Finite(75.0)) == "01:15"
  {
    LabelOf(75.0, 0, 1, 15);
    assert Pad(1) == "01" && Pad(15) == "15";
    assert Join(["01", "15"], ':') == "01:15";
  }

  lemma ExampleHours()
    ensures FormatTime(Finite(3665.0)) == "01:01:05"
  {
    LabelOf(3665.0, 1, 1, 5);
    assert Pad(1) == "01" && Pad(5) == "05";
    assert Join(["01", "01", "05"], ':') == "01:01:05" by {
      assert Join(["01", "05"], ':') == "01:05";
    }
  }

  lemma ExampleTenHours()
    ensures FormatTime(Finite(36000.5)) == "10:00:00"
  {
    LabelOf(36000.5, 10, 0, 0);
    assert Show(10) == "10";
    assert Pad(10) == "10" && Pad(0) == "00";
    assert Join(["10", "00", "00"], ':') == "10:00:00" by {
      assert Join(["00", "00"], ':') == "00:00";
    }
  }
}
