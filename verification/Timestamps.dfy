// Timestamp columns hold text in RFC 3339 form, and SQLite compares them byte by byte.
// For what `to_rfc3339` prints for a UTC instant of years 0000 to 9999 (0, 3, 6 or 9
// fraction digits, then "+00:00"), the order of the text is the order in time, so the
// protocol may compare instants.
module Timestamps {

  // ----- Instants -----

  datatype Civil = Civil(year: nat, month: nat, day: nat, hour: nat, minute: nat, second: nat, nanos: nat)

  predicate IsLeap(year: nat) {
    year % 4 == 0 && (year % 100 != 0 || year % 400 == 0)
  }

  function DaysInMonth(year: nat, month: nat): nat {
    if month == 2 then (if IsLeap(year) then 29 else 28)
    else if month in {4, 6, 9, 11} then 30 else 31
  }

  // Days of this year before a month, and days before a year.
  function DaysBeforeMonth(year: nat, month: nat): nat {
    if month <= 1 then 0 else DaysBeforeMonth(year, month - 1) + DaysInMonth(year, month - 1)
  }

  function DaysBeforeYear(year: nat): nat {
    if year == 0 then 0 else DaysBeforeYear(year - 1) + DaysBeforeMonth(year - 1, 13)
  }

  predicate ValidCivil(c: Civil) {
    && c.year <= 9999 && 1 <= c.month <= 12 && 1 <= c.day <= DaysInMonth(c.year, c.month)
    && c.hour < 24 && c.minute < 60 && c.second < 60 && c.nanos < 1_000_000_000
  }

  function DayNumber(c: Civil): int {
    DaysBeforeYear(c.year) + DaysBeforeMonth(c.year, c.month) + c.day
  }

  // Nanoseconds since a fixed origin.
  function Nanos(c: Civil): int {
    (((DayNumber(c) * 24 + c.hour) * 60 + c.minute) * 60 + c.second) * 1_000_000_000 + c.nanos
  }

  // ----- Text -----

  function Digit(d: nat): char
    requires d < 10
  {
    "0123456789"[d]
  }

  function Pow10(w: nat): nat {
    if w == 0 then 1 else 10 * Pow10(w - 1)
  }

  // The `w` last decimal digits of n.
  function Decimal(n: nat, w: nat): (s: string)
    ensures |s| == w
  {
    if w == 0 then "" else Decimal(n / 10, w - 1) + [Digit(n % 10)]
  }

  const ZONE := "+00:00"

  function Fraction(nanos: nat): string {
    if nanos == 0 then ""
    else if nanos % 1_000_000 == 0 then "." + Decimal(nanos / 1_000_000, 3)
    else if nanos % 1_000 == 0 then "." + Decimal(nanos / 1_000, 6)
    else "." + Decimal(nanos, 9)
  }

  function Field(n: nat, w: nat, separator: char, rest: string): string {
    Decimal(n, w) + ([separator] + rest)
  }

  function ToRfc3339(c: Civil): string {
    Field(c.year, 4, '-', Field(c.month, 2, '-', Field(c.day, 2, 'T',
      Field(c.hour, 2, ':', Field(c.minute, 2, ':', Decimal(c.second, 2) + (Fraction(c.nanos) + ZONE))))))
  }

  // Byte order.
  predicate Less(a: string, b: string) {
    b != [] && (a == [] || a[0] < b[0] || (a[0] == b[0] && Less(a[1..], b[1..])))
  }

  predicate AtMost(a: string, b: string) {
    a == b || Less(a, b)
  }

  lemma {:induction false} LessIsTotal(a: string, b: string)
    ensures Less(a, b) || Less(b, a) || a == b
    ensures !(Less(a, b) && Less(b, a)) && !Less(a, a)
    decreases |a|
  {
    if a != [] && b != [] {
      LessIsTotal(a[1..], b[1..]);
      LessIsTotal(a[1..], a[1..]);
      assert a == [a[0]] + a[1..] && b == [b[0]] + b[1..];
    } else if a != [] {
      LessIsTotal(a[1..], a[1..]);
    }
  }

  // Texts of equal length decide before what follows them.
  lemma {:induction false} SameWidth(x: string, y: string, s: string, t: string)
    requires |x| == |y|
    ensures Less(x + s, y + t) <==> Less(x, y) || (x == y && Less(s, t))
    decreases |x|
  {
    if x == [] {
      assert x + s == s && y + t == t;
    } else {
      assert (x + s)[1..] == x[1..] + s && (y + t)[1..] == y[1..] + t;
      SameWidth(x[1..], y[1..], s, t);
      assert x == [x[0]] + x[1..] && y == [y[0]] + y[1..];
    }
  }

  lemma {:induction false} DecimalOrder(a: nat, b: nat, w: nat)
    requires a < Pow10(w) && b < Pow10(w)
    ensures Less(Decimal(a, w), Decimal(b, w)) <==> a < b
    ensures Decimal(a, w) == Decimal(b, w) <==> a == b
  {
    if w > 0 {
      DecimalOrder(a / 10, b / 10, w - 1);
      var x, y, p, q := Decimal(a / 10, w - 1), Decimal(b / 10, w - 1), [Digit(a % 10)], [Digit(b % 10)];
      SameWidth(x, y, p, q);
      assert (x + p)[..w - 1] == x && (y + q)[..w - 1] == y && (x + p)[w - 1] == p[0] && (y + q)[w - 1] == q[0];
      assert Less(p, q) <==> a % 10 < b % 10;
    }
  }

  lemma FieldOrder(a: nat, b: nat, w: nat, separator: char, s: string, t: string)
    requires a < Pow10(w) && b < Pow10(w)
    ensures Less(Field(a, w, separator, s), Field(b, w, separator, t)) <==> a < b || (a == b && Less(s, t))
  {
    DecimalOrder(a, b, w);
    SameWidth(Decimal(a, w), Decimal(b, w), [separator] + s, [separator] + t);
    SameWidth([separator], [separator], s, t);
    LessIsTotal([separator], [separator]);
  }

  // ----- Fractions: groups of three digits, trailing zero groups dropped -----

  predicate AllZero(groups: seq<nat>) {
    groups == [] || (groups[0] == 0 && AllZero(groups[1..]))
  }

  function Groups(groups: seq<nat>): string {
    if AllZero(groups) then ZONE else Decimal(groups[0], 3) + Groups(groups[1..])
  }

  predicate LessGroups(a: seq<nat>, b: seq<nat>)
    requires |a| == |b|
  {
    a != [] && (a[0] < b[0] || (a[0] == b[0] && LessGroups(a[1..], b[1..])))
  }

  lemma DecimalStartsWithDigit(n: nat, w: nat)
    requires w > 0
    ensures Decimal(n, w)[0] >= '0'
  {
  }

  lemma {:induction false} AllZeroLess(a: seq<nat>, b: seq<nat>)
    requires |a| == |b| && AllZero(a)
    ensures LessGroups(a, b) <==> !AllZero(b)
    ensures !LessGroups(b, a)
  {
    if a != [] {
      AllZeroLess(a[1..], b[1..]);
    }
  }

  lemma {:induction false} GroupsOrder(a: seq<nat>, b: seq<nat>)
    requires |a| == |b| && forall i :: 0 <= i < |a| ==> a[i] < 1000 && b[i] < 1000
    ensures Less(Groups(a), Groups(b)) <==> LessGroups(a, b)
    decreases |a|
  {
    LessIsTotal(ZONE, ZONE);
    if AllZero(a) {
      AllZeroLess(a, b);
    } else if AllZero(b) {
      AllZeroLess(b, a);
    }
    if !AllZero(a) {
      DecimalStartsWithDigit(a[0], 3);
      assert Groups(a)[0] == Decimal(a[0], 3)[0];
    }
    if !AllZero(b) {
      DecimalStartsWithDigit(b[0], 3);
      assert Groups(b)[0] == Decimal(b[0], 3)[0];
    }
    if !AllZero(a) && !AllZero(b) {
      GroupsOrder(a[1..], b[1..]);
      assert Pow10(3) == 1000;
      DecimalOrder(a[0], b[0], 3);
      SameWidth(Decimal(a[0], 3), Decimal(b[0], 3), Groups(a[1..]), Groups(b[1..]));
    }
  }

  function Split(nanos: nat): seq<nat> {
    [nanos / 1_000_000, nanos / 1_000 % 1_000, nanos % 1_000]
  }

  lemma TenPlus(x: nat, r: nat)
    ensures (10 * x + r) / 10 == x + r / 10 && (10 * x + r) % 10 == r % 10
  {
  }

  lemma LastThreeDigits(n: nat, w: nat)
    ensures Decimal(n, w + 3)
         == Decimal(n / 10 / 10 / 10, w) + [Digit(n / 10 / 10 % 10), Digit(n / 10 % 10), Digit(n % 10)]
  {
    var x, y := n / 10, n / 10 / 10;
    assert Decimal(n, w + 3) == Decimal(x, w + 2) + [Digit(n % 10)];
    assert Decimal(x, w + 2) == Decimal(y, w + 1) + [Digit(x % 10)];
    assert Decimal(y, w + 1) == Decimal(y / 10, w) + [Digit(y % 10)];
  }

  lemma ThousandArithmetic(n: nat)
    ensures
      var q, r := n / 1_000, n % 1_000;
      && n / 10 / 10 / 10 == q && r / 10 / 10 / 10 == 0
      && n % 10 == r % 10 && n / 10 % 10 == r / 10 % 10 && n / 10 / 10 % 10 == r / 10 / 10 % 10
  {
    var q, r := n / 1_000, n % 1_000;
    TenPlus(100 * q, r);
    TenPlus(10 * q, r / 10);
    TenPlus(q, r / 10 / 10);
  }

  lemma DecimalSplit(n: nat, w: nat)
    ensures Decimal(n, w + 3) == Decimal(n / 1_000, w) + Decimal(n % 1_000, 3)
  {
    ThousandArithmetic(n);
    LastThreeDigits(n, w);
    LastThreeDigits(n % 1_000, 0);
    assert Decimal(n % 1_000 / 10 / 10 / 10, 0) == "";
  }

  lemma SplitArithmetic(nanos: nat)
    ensures
      var q, r := nanos / 1_000, nanos % 1_000;
      && nanos / 1_000_000 == q / 1_000
      && nanos == (q / 1_000) * 1_000_000 + (q % 1_000) * 1_000 + r
      && (nanos % 1_000_000 == 0 <==> q % 1_000 == 0 && r == 0)
  {
    var q, r := nanos / 1_000, nanos % 1_000;
    var x, y := q / 1_000, q % 1_000;
    assert nanos == x * 1_000_000 + (y * 1_000 + r) && 0 <= y * 1_000 + r < 1_000_000;
  }

  // The fraction is its groups after a point.
  lemma FractionIsGroups(nanos: nat)
    requires nanos < 1_000_000_000
    ensures AllZero(Split(nanos)) <==> nanos == 0
    ensures Fraction(nanos) + ZONE == if nanos == 0 then ZONE else "." + Groups(Split(nanos))
  {
    var x, y, z := nanos / 1_000_000, nanos / 1_000 % 1_000, nanos % 1_000;
    var g := Split(nanos);
    SplitArithmetic(nanos);
    assert g[1..] == [y, z] && [y, z][1..] == [z] && [z][1..] == [];
    assert AllZero([z]) <==> z == 0;
    assert AllZero([y, z]) <==> y == 0 && z == 0;
    DecimalSplit(nanos, 6);
    DecimalSplit(nanos / 1_000, 3);
    var dx, dy, dz := Decimal(x, 3), Decimal(y, 3), Decimal(z, 3);
    assert Groups([z]) == if z == 0 then ZONE else dz + Groups([]);
    assert Groups([y, z]) == if y == 0 && z == 0 then ZONE else dy + Groups([z]);
    assert nanos != 0 ==> Groups(g) == dx + Groups([y, z]);
    JoinText(dx, dy, dz, ZONE);
  }

  // The three groupings of the same text that the fraction and its groups produce.
  lemma JoinText(x: string, y: string, z: string, tail: string)
    ensures ("." + x) + tail == "." + (x + tail)
    ensures ("." + (x + y)) + tail == "." + (x + (y + tail))
    ensures ("." + ((x + y) + z)) + tail == "." + (x + (y + (z + tail)))
  {
  }

  // a * base + x orders like the pair (a, x).
  lemma Radix(a: int, b: int, x: int, y: int, base: int)
    requires 0 <= x < base && 0 <= y < base
    ensures a * base + x < b * base + y <==> a < b || (a == b && x < y)
  {
    if a < b {
      assert (a + 1) * base <= b * base;
    } else if b < a {
      assert (b + 1) * base <= a * base;
    }
  }

  lemma FractionOrder(a: nat, b: nat)
    requires a < 1_000_000_000 && b < 1_000_000_000
    ensures Less(Fraction(a) + ZONE, Fraction(b) + ZONE) <==> a < b
  {
    FractionIsGroups(a);
    FractionIsGroups(b);
    LessIsTotal(ZONE, ZONE);
    var g, h := Split(a), Split(b);
    if a != 0 && b != 0 {
      GroupsOrder(g, h);
      SameWidth(".", ".", Groups(g), Groups(h));
      LessIsTotal(".", ".");
      SplitOrder(a, b);
    } else if a != 0 {
      assert ("." + Groups(g))[0] == '.';
    } else if b != 0 {
      assert ("." + Groups(h))[0] == '.';
    }
  }

  lemma SplitOrder(a: nat, b: nat)
    ensures LessGroups(Split(a), Split(b)) <==> a < b
  {
    var g, h := Split(a), Split(b);
    SplitArithmetic(a);
    SplitArithmetic(b);
    assert g[1..] == [g[1], g[2]] && g[1..][1..] == [g[2]];
    assert h[1..] == [h[1], h[2]] && h[1..][1..] == [h[2]];
    assert LessGroups([g[2]], [h[2]]) <==> g[2] < h[2];
    Radix(a / 1_000, b / 1_000, g[2], h[2], 1_000);
    Radix(g[0], h[0], g[1], h[1], 1_000);
    Radix(h[0], g[0], h[1], g[1], 1_000);
  }

  // ----- The calendar -----

  lemma {:induction false} MonthsAccumulate(year: nat, m: nat, n: nat)
    requires 1 <= m < n
    ensures DaysBeforeMonth(year, m) + DaysInMonth(year, m) <= DaysBeforeMonth(year, n)
    decreases n
  {
    if m + 1 < n {
      MonthsAccumulate(year, m, n - 1);
    }
  }

  lemma {:induction false} YearsAccumulate(y: nat, z: nat)
    requires y < z
    ensures DaysBeforeYear(y) + DaysBeforeMonth(y, 13) <= DaysBeforeYear(z)
    decreases z
  {
    if y + 1 < z {
      YearsAccumulate(y, z - 1);
    }
  }

  predicate EarlierDate(c: Civil, d: Civil) {
    c.year < d.year || (c.year == d.year && (c.month < d.month || (c.month == d.month && c.day < d.day)))
  }

  lemma EarlierDateHasLowerNumber(c: Civil, d: Civil)
    requires ValidCivil(c) && ValidCivil(d) && EarlierDate(c, d)
    ensures DayNumber(c) < DayNumber(d)
  {
    if c.year < d.year {
      YearsAccumulate(c.year, d.year);
      MonthsAccumulate(c.year, c.month, 13);
    } else if c.month < d.month {
      MonthsAccumulate(c.year, c.month, d.month);
    }
  }

  lemma DateOrder(c: Civil, d: Civil)
    requires ValidCivil(c) && ValidCivil(d)
    ensures DayNumber(c) < DayNumber(d) <==> EarlierDate(c, d)
    ensures DayNumber(c) == DayNumber(d) <==> c.year == d.year && c.month == d.month && c.day == d.day
  {
    if EarlierDate(c, d) {
      EarlierDateHasLowerNumber(c, d);
    } else if EarlierDate(d, c) {
      EarlierDateHasLowerNumber(d, c);
    }
  }

  // ----- The order of the text -----

  predicate EarlierTime(c: Civil, d: Civil) {
    || c.hour < d.hour
    || (c.hour == d.hour
        && (c.minute < d.minute
            || (c.minute == d.minute
                && (c.second < d.second || (c.second == d.second && c.nanos < d.nanos)))))
  }

  lemma NanosOrder(c: Civil, d: Civil)
    requires ValidCivil(c) && ValidCivil(d)
    ensures Nanos(c) < Nanos(d) <==>
            EarlierDate(c, d) || (c.year == d.year && c.month == d.month && c.day == d.day && EarlierTime(c, d))
  {
    DateOrder(c, d);
    var h, k := DayNumber(c) * 24 + c.hour, DayNumber(d) * 24 + d.hour;
    Radix(DayNumber(c), DayNumber(d), c.hour, d.hour, 24);
    Radix(DayNumber(d), DayNumber(c), d.hour, c.hour, 24);
    var m, n := h * 60 + c.minute, k * 60 + d.minute;
    Radix(h, k, c.minute, d.minute, 60);
    Radix(k, h, d.minute, c.minute, 60);
    Radix(m, n, c.second, d.second, 60);
    Radix(n, m, d.second, c.second, 60);
    Radix(m * 60 + c.second, n * 60 + d.second, c.nanos, d.nanos, 1_000_000_000);
  }

  lemma TextOrder(c: Civil, d: Civil)
    requires ValidCivil(c) && ValidCivil(d)
    ensures Less(ToRfc3339(c), ToRfc3339(d)) <==>
            EarlierDate(c, d) || (c.year == d.year && c.month == d.month && c.day == d.day && EarlierTime(c, d))
  {
    assert Pow10(4) == 10_000 && Pow10(2) == 100;
    var c5, d5 := Decimal(c.second, 2) + (Fraction(c.nanos) + ZONE), Decimal(d.second, 2) + (Fraction(d.nanos) + ZONE);
    var c4, d4 := Field(c.minute, 2, ':', c5), Field(d.minute, 2, ':', d5);
    var c3, d3 := Field(c.hour, 2, ':', c4), Field(d.hour, 2, ':', d4);
    var c2, d2 := Field(c.day, 2, 'T', c3), Field(d.day, 2, 'T', d3);
    var c1, d1 := Field(c.month, 2, '-', c2), Field(d.month, 2, '-', d2);
    FieldOrder(c.year, d.year, 4, '-', c1, d1);
    FieldOrder(c.month, d.month, 2, '-', c2, d2);
    FieldOrder(c.day, d.day, 2, 'T', c3, d3);
    FieldOrder(c.hour, d.hour, 2, ':', c4, d4);
    FieldOrder(c.minute, d.minute, 2, ':', c5, d5);
    DecimalOrder(c.second, d.second, 2);
    SameWidth(Decimal(c.second, 2), Decimal(d.second, 2), Fraction(c.nanos) + ZONE, Fraction(d.nanos) + ZONE);
    FractionOrder(c.nanos, d.nanos);
  }

  // Byte order of the text is time order: `next_attempt_at <= ?` and ORDER BY on these
  // columns mean what they say, and equal text means equal instants.
  lemma TextOrderIsTimeOrder(c: Civil, d: Civil)
    requires ValidCivil(c) && ValidCivil(d)
    ensures Less(ToRfc3339(c), ToRfc3339(d)) <==> Nanos(c) < Nanos(d)
    ensures AtMost(ToRfc3339(c), ToRfc3339(d)) <==> Nanos(c) <= Nanos(d)
    ensures ToRfc3339(c) == ToRfc3339(d) <==> Nanos(c) == Nanos(d)
  {
    TextOrder(c, d);
    TextOrder(d, c);
    NanosOrder(c, d);
    NanosOrder(d, c);
    LessIsTotal(ToRfc3339(c), ToRfc3339(d));
  }

  // ----- The text is the instant, and the instants are those of the calendar -----

  predicate IsDigit(c: char) {
    '0' <= c <= '9'
  }

  // The number a text of decimal digits stands for.
  function NumberOf(s: string): int {
    if s == "" then 0 else 10 * NumberOf(s[..|s| - 1]) + (s[|s| - 1] as int - '0' as int)
  }

  lemma {:induction false} DecimalReadsBack(n: nat, w: nat)
    requires n < Pow10(w)
    ensures NumberOf(Decimal(n, w)) == n
    ensures forall i :: 0 <= i < w ==> IsDigit(Decimal(n, w)[i])
  {
    if w > 0 {
      DecimalReadsBack(n / 10, w - 1);
      assert Decimal(n, w)[..w - 1] == Decimal(n / 10, w - 1);
    }
  }

  // A fraction has as few groups of three digits as it takes, none for a whole second.
  lemma FractionReadsBack(nanos: nat)
    requires nanos < 1_000_000_000
    ensures
      var text := Fraction(nanos);
      && (nanos == 0 <==> text == "")
      && (nanos != 0 ==>
            && text[0] == '.' && (forall i :: 1 <= i < |text| ==> IsDigit(text[i]))
            && (|text| == 4 ==> NumberOf(text[1..]) * 1_000_000 == nanos)
            && (|text| == 7 ==> NumberOf(text[1..]) * 1_000 == nanos && nanos % 1_000_000 != 0)
            && (|text| == 10 ==> NumberOf(text[1..]) == nanos && nanos % 1_000 != 0)
            && |text| in {4, 7, 10})
  {
    assert Pow10(3) == 1_000;
    assert Pow10(6) == 1_000_000 by { assert Pow10(5) == 100_000; }
    assert Pow10(9) == 1_000_000_000 by { assert Pow10(8) == 100_000_000; assert Pow10(7) == 10_000_000; }
    DecimalReadsBack(nanos, 9);
    DecimalReadsBack(nanos / 1_000, 6);
    DecimalReadsBack(nanos / 1_000_000, 3);
    var digits := if nanos % 1_000_000 == 0 then Decimal(nanos / 1_000_000, 3)
                  else if nanos % 1_000 == 0 then Decimal(nanos / 1_000, 6) else Decimal(nanos, 9);
    assert nanos != 0 ==> Fraction(nanos) == "." + digits && Fraction(nanos)[1..] == digits;
  }

  lemma ClockLayout(hour: string, minute: string, second: string, end: string)
    requires |hour| == |minute| == |second| == 2
    ensures
      var text := hour + ([':'] + (minute + ([':'] + (second + end))));
      && |text| == 8 + |end|
      && text[..2] == hour && text[2] == ':' && text[3..5] == minute && text[5] == ':' && text[6..8] == second
      && text[8..] == end
  {
  }

  // Where the parts of a text laid out like this are.
  lemma Layout(year: string, month: string, day: string, hour: string, minute: string, second: string, end: string)
    requires |year| == 4 && |month| == |day| == |hour| == |minute| == |second| == 2
    ensures
      var text := year + (['-'] + (month + (['-'] + (day + (['T'] + (hour + ([':'] + (minute + ([':'] + (second + end))))))))));
      && |text| == 19 + |end|
      && text[..4] == year && text[4] == '-' && text[5..7] == month && text[7] == '-' && text[8..10] == day
      && text[10] == 'T' && text[11..13] == hour && text[13] == ':' && text[14..16] == minute
      && text[16] == ':' && text[17..19] == second && text[19..] == end
  {
    ClockLayout(hour, minute, second, end);
    var clock := hour + ([':'] + (minute + ([':'] + (second + end))));
    var text := year + (['-'] + (month + (['-'] + (day + (['T'] + clock)))));
    assert text[11..] == clock;
    assert text[11..13] == clock[..2] && text[14..16] == clock[3..5] && text[17..19] == clock[6..8] && text[19..] == clock[8..];
    assert text[13] == clock[2] && text[16] == clock[5];
  }

  // Each number of the instant stands at its place in the text.
  lemma TextReadsBack(c: Civil)
    requires ValidCivil(c)
    ensures
      var text := ToRfc3339(c);
      && |text| >= 25
      && NumberOf(text[..4]) == c.year && text[4] == '-'
      && NumberOf(text[5..7]) == c.month && text[7] == '-'
      && NumberOf(text[8..10]) == c.day && text[10] == 'T'
      && NumberOf(text[11..13]) == c.hour && text[13] == ':'
      && NumberOf(text[14..16]) == c.minute && text[16] == ':'
      && NumberOf(text[17..19]) == c.second
      && text[19..] == Fraction(c.nanos) + "+00:00"
  {
    assert Pow10(4) == 10_000 && Pow10(2) == 100;
    DecimalReadsBack(c.year, 4);
    DecimalReadsBack(c.month, 2);
    DecimalReadsBack(c.day, 2);
    DecimalReadsBack(c.hour, 2);
    DecimalReadsBack(c.minute, 2);
    DecimalReadsBack(c.second, 2);
    Layout(Decimal(c.year, 4), Decimal(c.month, 2), Decimal(c.day, 2), Decimal(c.hour, 2),
           Decimal(c.minute, 2), Decimal(c.second, 2), Fraction(c.nanos) + ZONE);
  }

  lemma YearLength(year: nat)
    ensures DaysBeforeMonth(year, 13) == if (year % 4 == 0 && year % 100 != 0) || year % 400 == 0 then 366 else 365
  {
    var february := if (year % 4 == 0 && year % 100 != 0) || year % 400 == 0 then 29 else 28;
    assert DaysBeforeMonth(year, 2) == 31;
    assert DaysBeforeMonth(year, 3) == 31 + february;
    assert DaysBeforeMonth(year, 4) == 62 + february;
    assert DaysBeforeMonth(year, 5) == 92 + february;
    assert DaysBeforeMonth(year, 6) == 123 + february;
    assert DaysBeforeMonth(year, 7) == 153 + february;
    assert DaysBeforeMonth(year, 8) == 184 + february;
    assert DaysBeforeMonth(year, 9) == 215 + february;
    assert DaysBeforeMonth(year, 10) == 245 + february;
    assert DaysBeforeMonth(year, 11) == 276 + february;
    assert DaysBeforeMonth(year, 12) == 306 + february;
  }

  lemma MonthLengths(year: nat, month: nat)
    ensures month in {1, 3, 5, 7, 8, 10, 12} ==> DaysInMonth(year, month) == 31
    ensures month in {4, 6, 9, 11} ==> DaysInMonth(year, month) == 30
    ensures month == 2 ==> DaysInMonth(year, month) == DaysBeforeMonth(year, 13) - 337
  {
    YearLength(year);
  }

  lemma Fourths(x: nat)
    ensures (x + 4) / 4 == (x + 3) / 4 + if x % 4 == 0 then 1 else 0
  {
  }

  lemma Hundredths(x: nat)
    ensures (x + 100) / 100 == (x + 99) / 100 + if x % 100 == 0 then 1 else 0
    ensures x % 100 == 0 ==> x % 4 == 0
  {
    assert x % 100 == 0 ==> x == 4 * (25 * (x / 100));
  }

  lemma FourHundredths(x: nat)
    ensures (x + 400) / 400 == (x + 399) / 400 + if x % 400 == 0 then 1 else 0
    ensures x % 400 == 0 ==> x % 100 == 0
  {
    assert x % 400 == 0 ==> x == 100 * (4 * (x / 400));
  }

  function GregorianDays(year: nat): int {
    365 * year + (year + 3) / 4 - (year + 99) / 100 + (year + 399) / 400
  }

  lemma GregorianYear(x: nat)
    ensures GregorianDays(x + 1) ==
            GregorianDays(x) + if (x % 4 == 0 && x % 100 != 0) || x % 400 == 0 then 366 else 365
  {
    Fourths(x);
    Hundredths(x);
    FourHundredths(x);
  }

  // The Gregorian calendar in closed form.
  lemma {:induction false} DaysBeforeYearExactly(year: nat)
    ensures DaysBeforeYear(year) == GregorianDays(year)
  {
    if year > 0 {
      var x := year - 1;
      DaysBeforeYearExactly(x);
      YearLength(x);
      GregorianYear(x);
      assert DaysBeforeYear(x + 1) == DaysBeforeYear(x) + DaysBeforeMonth(x, 13);
    }
  }

  // Nanos counts nanoseconds.
  lemma NanosCount(c: Civil)
    ensures Nanos(c) == DayNumber(c) * 86_400_000_000_000 + c.hour * 3_600_000_000_000
                        + c.minute * 60_000_000_000 + c.second * 1_000_000_000 + c.nanos
  {
  }
}
