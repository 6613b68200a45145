/**
 Decimal text as std::to_string prints it and as std::stoi and std::stoull read it.
 Reading skips white space, takes one optional sign and the longest run of digits, and ignores
 what follows.
 */
module Decimal {
  import opened Results

  const INT_MIN := -0x8000_0000
  const INT_MAX := 0x7fff_ffff
  const TWO_32 := 0x1_0000_0000
  const TWO_64 := 0x1_0000_0000_0000_0000

  type uint16 = n: int | 0 <= n < 0x1_0000
  type int32 = n: int | INT_MIN <= n <= INT_MAX
  type uint32 = n: int | 0 <= n < TWO_32
  type uint64 = n: int | 0 <= n < TWO_64

  predicate IsDigit(c: char) {
    '0' <= c <= '9'
  }

  predicate IsSpace(c: char): (space: bool)
    ensures space <==> c as int in {9, 10, 11, 12, 13, 32}
  {
    c == ' ' || '\t' <= c <= '\r'
  }

  function DigitChar(d: nat): (c: char)
    requires d < 10
    ensures IsDigit(c) && c as int == '0' as int + d
  {
    ('0' as int + d) as char
  }

  predicate AllDigits(s: string) {
    forall k | 0 <= k < |s| :: IsDigit(s[k])
  }

  /** std::to_string of a non-negative number. */
  function Digits(n: nat): (s: string)
    ensures s != [] && AllDigits(s)
    ensures |s| > 1 ==> s[0] != '0'
    ensures n > 0 ==> s[0] != '0'
  {
    if n < 10 then [DigitChar(n)] else Digits(n / 10) + [DigitChar(n % 10)]
  }

  /** std::to_string of a signed number. */
  function ToString(i: int): string {
    if i < 0 then "-" + Digits(-i) else Digits(i)
  }

  /** The number a run of digits denotes. */
  function Value(s: string): (n: nat)
    requires AllDigits(s)
  {
    if s == [] then 0
    else 10 * Value(s[..|s| - 1]) + (s[|s| - 1] as int - '0' as int)
  }

  function SkipSpace(s: string): string {
    if s != [] && IsSpace(s[0]) then SkipSpace(s[1..]) else s
  }

  function LeadingDigits(s: string): (d: string)
    ensures AllDigits(d) && d <= s
  {
    if s != [] && IsDigit(s[0]) then [s[0]] + LeadingDigits(s[1..]) else []
  }

  /** What strtol and strtoull share: the sign and the magnitude, before any range check. */
  function Scan(s: string): Result<(bool, nat)> {
    var t := SkipSpace(s);
    var negative := t != [] && t[0] == '-';
    var body := if t != [] && (t[0] == '-' || t[0] == '+') then t[1..] else t;
    var digits := LeadingDigits(body);
    if digits == [] then Err(InvalidArgument) else Ok((negative, Value(digits)))
  }

  function Signed(negative: bool, n: int): int {
    if negative then -n else n
  }

  function Stoi(s: string): Result<int32> {
    match Scan(s)
    case Err(e) => Err(e)
    case Ok((negative, n)) =>
      var v := Signed(negative, n);
      if INT_MIN <= v <= INT_MAX then Ok(v) else Err(OutOfRange)
  }

  /** strtoull negates modulo 2^64 after a minus sign. */
  function Stoull(s: string): Result<uint64> {
    match Scan(s)
    case Err(e) => Err(e)
    case Ok((negative, n)) =>
      if n >= TWO_64 then Err(OutOfRange)
      else if negative && n > 0 then Ok(TWO_64 - n)
      else Ok(n)
  }

  /**
   The grammar that Scan reads, said without Scan: white space, an optional sign, a digit or more,
   and a tail that does not go on with a digit.
   */
  ghost predicate Numeral(s: string, space: string, sign: string, digits: string, tail: string) {
    && s == space + sign + digits + tail
    && (forall c | c in space :: IsSpace(c))
    && (sign == "" || sign == "+" || sign == "-")
    && digits != [] && AllDigits(digits)
    && (tail == "" || !IsDigit(tail[0]))
  }

  lemma {:induction false} SkipsSpace(space: string, s: string)
    requires forall c | c in space :: IsSpace(c)
    requires s == "" || !IsSpace(s[0])
    ensures SkipSpace(space + s) == s
  {
    if space == "" {
      assert space + s == s;
    } else {
      assert (space + s)[1..] == space[1..] + s;
      SkipsSpace(space[1..], s);
    }
  }

  lemma {:induction false} TakesDigits(digits: string, tail: string)
    requires AllDigits(digits) && (tail == "" || !IsDigit(tail[0]))
    ensures LeadingDigits(digits + tail) == digits
  {
    if digits == "" {
      assert digits + tail == tail;
    } else {
      assert (digits + tail)[1..] == digits[1..] + tail;
      TakesDigits(digits[1..], tail);
    }
  }

  /** Whatever is a numeral is read as its value. */
  lemma NumeralIsScanned(s: string, space: string, sign: string, digits: string, tail: string)
    requires Numeral(s, space, sign, digits, tail)
    ensures Scan(s) == Ok((sign == "-", Value(digits)))
  {
    hide Value, SkipSpace, LeadingDigits;
    var body := digits + tail;
    assert body[0] == digits[0];
    assert space + sign + digits + tail == space + (sign + body);
    assert sign == "" ==> sign + body == body;
    SkipsSpace(space, sign + body);
    assert sign != "" ==> (sign + body)[1..] == body;
    TakesDigits(digits, tail);
  }

  lemma {:induction false} SpaceSkipped(s: string) returns (space: string)
    ensures s == space + SkipSpace(s)
    ensures forall c | c in space :: IsSpace(c)
  {
    if s != [] && IsSpace(s[0]) {
      var more := SpaceSkipped(s[1..]);
      space := [s[0]] + more;
    } else {
      space := "";
      assert space + s == s;
    }
  }

  lemma {:induction false} DigitsTaken(s: string)
    ensures var d := LeadingDigits(s);
      |d| <= |s| && s == d + s[|d|..] && (|d| == |s| || !IsDigit(s[|d|]))
  {
    if s != [] && IsDigit(s[0]) {
      DigitsTaken(s[1..]);
    }
  }

  /** And only numerals are read at all. */
  lemma ScannedIsNumeral(s: string)
    requires Scan(s).Ok?
    ensures exists space, sign, digits, tail :: Numeral(s, space, sign, digits, tail)
  {
    hide Value, SkipSpace, LeadingDigits, IsSpace, IsDigit;
    var space := SpaceSkipped(s);
    var sign, body := SignTaken(SkipSpace(s));
    DigitsTaken(body);
    var digits := LeadingDigits(body);
    var tail := body[|digits|..];
    FourParts(s, space, sign, digits, tail);
    assert Numeral(s, space, sign, digits, tail);
  }

  lemma SignTaken(t: string) returns (sign: string, body: string)
    ensures t == sign + body && (sign == "" || sign == "+" || sign == "-")
    ensures body == if t != [] && (t[0] == '-' || t[0] == '+') then t[1..] else t
  {
    if t != [] && (t[0] == '-' || t[0] == '+') {
      sign, body := [t[0]], t[1..];
    } else {
      sign, body := "", t;
    }
  }

  lemma FourParts(s: string, space: string, sign: string, digits: string, tail: string)
    requires s == space + (sign + (digits + tail))
    ensures s == space + sign + digits + tail
  {
  }

  /** s begins with a numeral whose value lies between low and high. */
  ghost predicate InRange(s: string, low: int, high: int) {
    exists space, sign, digits, tail :: Numeral(s, space, sign, digits, tail)
      && low <= Signed(sign == "-", Value(digits)) <= high
  }

  /** stoi accepts exactly the numerals of an int. */
  lemma StoiAcceptsIff(s: string)
    ensures Stoi(s).Ok? <==> InRange(s, INT_MIN, INT_MAX)
  {
    hide Scan, InRange;
    ReadsInRange(s, INT_MIN, INT_MAX);
  }

  /** stoull accepts exactly the numerals whose magnitude fits in 64 bits, a minus sign included. */
  lemma StoullAcceptsIff(s: string)
    ensures Stoull(s).Ok? <==> InRange(s, 1 - TWO_64, TWO_64 - 1)
  {
    hide Scan, InRange;
    ReadsInRange(s, 1 - TWO_64, TWO_64 - 1);
  }

  /** What each makes of a numeral: stoi its value, stoull its value modulo 2^64, or out of range. */
  lemma NumeralsAreRead(s: string, space: string, sign: string, digits: string, tail: string)
    requires Numeral(s, space, sign, digits, tail)
    ensures var v := Signed(sign == "-", Value(digits));
      && Stoi(s) == (if -0x8000_0000 <= v <= 0x7fff_ffff then Ok(v) else Err(OutOfRange))
      && (-TWO_64 < v < TWO_64 ==> Stoull(s).Ok? && (Stoull(s).value - v) % TWO_64 == 0)
      && (!(-TWO_64 < v < TWO_64) ==> Stoull(s) == Err(OutOfRange))
  {
    hide Scan, Value;
    NumeralIsScanned(s, space, sign, digits, tail);
  }

  /** And of anything else: no conversion. */
  lemma OthersAreNot(s: string)
    requires !exists space, sign, digits, tail :: Numeral(s, space, sign, digits, tail)
    ensures Stoi(s) == Err(InvalidArgument) && Stoull(s) == Err(InvalidArgument)
  {
    hide Scan, Value, Numeral;
    if Scan(s).Ok? {
      ScannedIsNumeral(s);
    }
    OneScanError(s);
  }

  lemma OneScanError(s: string)
    ensures Scan(s).Err? ==> Scan(s) == Err(InvalidArgument)
  {
    hide SkipSpace, LeadingDigits, Value;
  }

  lemma ReadsInRange(s: string, low: int, high: int)
    ensures InRange(s, low, high) <==>
      Scan(s).Ok? && low <= Signed(Scan(s).value.0, Scan(s).value.1) <= high
  {
    hide Scan, Value;
    if Scan(s).Ok? {
      ScannedIsNumeral(s);
      var space, sign, digits, tail :| Numeral(s, space, sign, digits, tail);
      NumeralIsScanned(s, space, sign, digits, tail);
    }
    if InRange(s, low, high) {
      var space, sign, digits, tail :| Numeral(s, space, sign, digits, tail)
        && low <= Signed(sign == "-", Value(digits)) <= high;
      NumeralIsScanned(s, space, sign, digits, tail);
    }
  }

  lemma {:induction false} ValueOfDigits(n: nat)
    ensures Value(Digits(n)) == n
  {
    if n >= 10 {
      ValueOfDigits(n / 10);
      var s := Digits(n);
      assert s[..|s| - 1] == Digits(n / 10);
    } else {
      assert Digits(n)[..0] == [];
    }
  }

  lemma {:induction false} LeadingDigitsWhole(s: string)
    requires AllDigits(s)
    ensures LeadingDigits(s) == s
  {
    if s != [] {
      LeadingDigitsWhole(s[1..]);
    }
  }

  lemma ScanToString(i: int)
    ensures Scan(ToString(i)) == Ok((i < 0, if i < 0 then -i else i))
  {
    hide Digits, Value, LeadingDigits;
    var m := if i < 0 then -i else i;
    var d := Digits(m);
    assert IsDigit(d[0]);
    LeadingDigitsWhole(d);
    ValueOfDigits(m);
    assert ToString(i) == if i < 0 then ['-'] + d else d;
    assert (['-'] + d)[1..] == d;
  }

  /** stoi reads back every int that to_string printed, whatever its sign. */
  lemma StoiToString(i: int32)
    ensures Stoi(ToString(i)) == Ok(i)
  {
    ScanToString(i);
  }

  /** stoull reads back every 64-bit count that to_string printed. */
  lemma StoullToString(n: uint64)
    ensures Stoull(ToString(n)) == Ok(n)
  {
    ScanToString(n);
  }

  /** A text splits at the last of its separators in one way only. */
  lemma SplitAtLast(a: string, s: string, b: string, t: string, c: char)
    requires a + [c] + s == b + [c] + t && c !in s && c !in t
    ensures a == b && s == t
  {
    NotAfter(a, s, b, t, c);
    NotAfter(b, t, a, s, c);
    var whole := a + [c] + s;
    assert whole[..|a|] == a && whole[..|b|] == b;
    assert whole[|a| + 1..] == s && whole[|b| + 1..] == t;
  }

  lemma NotAfter(a: string, s: string, b: string, t: string, c: char)
    requires a + [c] + s == b + [c] + t && c !in s
    ensures |b| <= |a|
  {
    var whole := a + [c] + s;
    assert whole[|b|] == (b + [c] + t)[|b|] == c;
    assert forall k | |a| < k < |whole| :: whole[k] == s[k - |a| - 1];
  }

  lemma NumberNotIn(i: int, c: char)
    requires c != '-' && !IsDigit(c)
    ensures c !in ToString(i)
  {
    ToStringAlphabet(i);
  }

  lemma ToStringInjective(i: int, j: int)
    requires ToString(i) == ToString(j)
    ensures i == j
  {
    hide ToString, Scan;
    ScanToString(i);
    ScanToString(j);
  }

  lemma ToStringAlphabet(i: int)
    ensures forall c | c in ToString(i) :: c == '-' || IsDigit(c)
  {
    var m := if i < 0 then -i else i;
    var d := Digits(m);
    assert AllDigits(d);
  }
}
