/** The request record of the VirtualGuests package: a floor, the time the
    request was made and how many guests it concerns. Requests are compared
    by floor alone, which is what makes a floor-ordered set hold at most one
    request per floor. */
module Requests {
  import opened Common

  /** `new Request(floor, timestamp, numGuests)`: the three fields are stored
      as given and never change afterwards. */
  datatype Request = Request(floor: int, timestamp: int, numGuests: int)

  const INT_MIN: int := -0x8000_0000
  const INT_MAX: int := 0x7fff_ffff

  predicate IsInt32(x: int) {
    INT_MIN <= x <= INT_MAX
  }

  /** Java `int` arithmetic: the mathematical value reduced into 32 bits. */
  function Wrap32(x: int): (r: int)
    ensures IsInt32(r)
    ensures IsInt32(x) ==> r == x
  {
    (x - INT_MIN) % 0x1_0000_0000 + INT_MIN
  }

  /** `compareTo`: `floor - o.floor` in 32-bit arithmetic; timestamp and guest
      count play no part. */
  function CompareTo(a: Request, b: Request): (r: int)
    ensures IsInt32(r)
    ensures IsInt32(a.floor - b.floor) ==> r == a.floor - b.floor
  {
    Wrap32(a.floor - b.floor)
  }

  /** Where the difference of two 32-bit floors lands after wrap-around. */
  lemma WrapOfDifference(d: int)
    requires -0x1_0000_0000 < d < 0x1_0000_0000
    ensures d < INT_MIN ==> Wrap32(d) == d + 0x1_0000_0000
    ensures INT_MAX < d ==> Wrap32(d) == d - 0x1_0000_0000
    ensures IsInt32(d) ==> Wrap32(d) == d
  {
    var m := d - INT_MIN;
    if d < INT_MIN {
      assert 0 <= m + 0x1_0000_0000 < 0x1_0000_0000;
      assert m % 0x1_0000_0000 == m + 0x1_0000_0000;
    } else if INT_MAX < d {
      assert 0x1_0000_0000 <= m < 2 * 0x1_0000_0000;
      assert m % 0x1_0000_0000 == m - 0x1_0000_0000;
    }
  }

  /** Two requests with 32-bit floors compare equal exactly when they are for
      the same floor, whatever their timestamps and guest counts: the
      wrap-around never folds a nonzero difference onto 0. */
  lemma CompareZeroIffSameFloor(a: Request, b: Request)
    requires IsInt32(a.floor) && IsInt32(b.floor)
    ensures CompareTo(a, b) == 0 <==> a.floor == b.floor
  {
    WrapOfDifference(a.floor - b.floor);
  }

  /** When `floor - o.floor` does not overflow, the sign of compareTo is the
      order of the floors. */
  lemma CompareSignIsFloorOrder(a: Request, b: Request)
    requires IsInt32(a.floor - b.floor)
    ensures CompareTo(a, b) < 0 <==> a.floor < b.floor
    ensures CompareTo(a, b) > 0 <==> a.floor > b.floor
  {
  }

  /** Antisymmetry, when neither subtraction overflows. */
  lemma CompareAntisymmetric(a: Request, b: Request)
    requires IsInt32(a.floor - b.floor) && IsInt32(b.floor - a.floor)
    ensures CompareTo(a, b) == -CompareTo(b, a)
  {
  }

  /** Transitivity of the order compareTo induces, for floors whose pairwise
      differences fit in 32 bits (floors of a building always do). */
  lemma CompareTransitive(a: Request, b: Request, c: Request)
    requires IsInt32(a.floor - b.floor) && IsInt32(b.floor - c.floor) && IsInt32(a.floor - c.floor)
    ensures CompareTo(a, b) <= 0 && CompareTo(b, c) <= 0 ==> CompareTo(a, c) <= 0
    ensures CompareTo(a, b) < 0 && CompareTo(b, c) < 0 ==> CompareTo(a, c) < 0
  {
  }

  /** Outside the no-overflow premise antisymmetry fails: the floors
      Integer.MIN_VALUE and 0 both compare as "less than" each other. */
  lemma CompareOverflowExample()
    ensures CompareTo(Request(INT_MIN, 0, 0), Request(0, 0, 0)) < 0
    ensures CompareTo(Request(0, 0, 0), Request(INT_MIN, 0, 0)) < 0
  {
    WrapOfDifference(0 - INT_MIN);
  }

  // ---------------------------------------------------------------------
  // toString: "Floor: <floor> | Guests: <numGuests>"

  predicate IsDigit(c: char) {
    '0' <= c <= '9'
  }

  predicate AllDigits(s: string) {
    forall i :: 0 <= i < |s| ==> IsDigit(s[i])
  }

  /** Decimal digits of a natural number, most significant first. */
  function NatToString(n: nat): (s: string)
    ensures |s| > 0 && AllDigits(s)
  {
    if n < 10 then ["0123456789"[n]]
    else NatToString(n / 10) + ["0123456789"[n % 10]]
  }

  /** Integer.toString: an optional minus sign, then the digits. */
  function IntToString(x: int): (s: string)
    ensures |s| > 0
    ensures s[0] == '-' <==> x < 0
    ensures x >= 0 ==> AllDigits(s)
  {
    if x < 0 then "-" + NatToString(-x) else NatToString(x)
  }

  /** The Request's `toString`. */
  function ToString(r: Request): string {
    "Floor: " + IntToString(r.floor) + " | Guests: " + IntToString(r.numGuests)
  }

  // Reading the text back, to show that it loses no information.

  function DigitsValue(s: string): nat
    requires AllDigits(s)
  {
    if s == [] then 0
    else DigitsValue(s[..|s| - 1]) * 10 + ((s[|s| - 1] as int) - ('0' as int))
  }

  function ParseInt(s: string): Option<int> {
    if |s| > 1 && s[0] == '-' && AllDigits(s[1..]) then Some(0 - DigitsValue(s[1..]) as int)
    else if |s| > 0 && AllDigits(s) then Some(DigitsValue(s))
    else None
  }

  /** Index of the first blank in `s`, or |s| when there is none. */
  function FirstBlank(s: string): (k: nat)
    ensures k <= |s|
  {
    if s == [] || s[0] == ' ' then 0 else 1 + FirstBlank(s[1..])
  }

  function ParseRequestText(s: string): Option<(int, int)> {
    if |s| < 7 || s[..7] != "Floor: " then None
    else
      var t := s[7..];
      var k := FirstBlank(t);
      var u := t[k..];
      if |u| < 11 || u[..11] != " | Guests: " then None
      else
        match (ParseInt(t[..k]), ParseInt(u[11..]))
        case (Some(f), Some(g)) => Some((f, g))
        case _ => None
  }

  lemma {:induction false} NatToStringRoundTrip(n: nat)
    ensures DigitsValue(NatToString(n)) == n
  {
    var s := NatToString(n);
    if n >= 10 {
      NatToStringRoundTrip(n / 10);
      assert s[..|s| - 1] == NatToString(n / 10);
    }
  }

  lemma IntToStringRoundTrip(x: int)
    ensures ParseInt(IntToString(x)) == Some(x)
  {
    var s := IntToString(x);
    if x < 0 {
      NatToStringRoundTrip(-x);
      assert s[1..] == NatToString(-x);
    } else {
      NatToStringRoundTrip(x);
      assert s[0] != '-';
    }
  }

  lemma {:induction false} FirstBlankAfter(a: string, rest: string)
    requires forall i :: 0 <= i < |a| ==> a[i] != ' '
    requires |rest| > 0 && rest[0] == ' '
    ensures FirstBlank(a + rest) == |a|
  {
    if a != [] {
      assert (a + rest)[1..] == a[1..] + rest;
      FirstBlankAfter(a[1..], rest);
    }
  }

  /** The printed form of a request determines its floor and guest count. */
  lemma ToStringRoundTrip(r: Request)
    ensures ParseRequestText(ToString(r)) == Some((r.floor, r.numGuests))
  {
    var a, b := IntToString(r.floor), IntToString(r.numGuests);
    var s := ToString(r);
    assert s == "Floor: " + (a + (" | Guests: " + b));
    var t := s[7..];
    assert t == a + (" | Guests: " + b);
    assert forall i :: 0 <= i < |a| ==> a[i] != ' ';
    FirstBlankAfter(a, " | Guests: " + b);
    assert t[..|a|] == a;
    assert t[|a|..] == " | Guests: " + b;
    assert (" | Guests: " + b)[11..] == b;
    IntToStringRoundTrip(r.floor);
    IntToStringRoundTrip(r.numGuests);
  }

  /** Consequently two requests print the same only if floor and guest count agree. */
  lemma ToStringInjective(r: Request, q: Request)
    requires ToString(r) == ToString(q)
    ensures r.floor == q.floor && r.numGuests == q.numGuests
  {
    ToStringRoundTrip(r);
    ToStringRoundTrip(q);
  }
}
