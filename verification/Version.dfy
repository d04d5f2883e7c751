/** Version comparison for self-updates. */
module Version {
  import opened Text

  const MAX_INT := 0x7FFF_FFFF_FFFF_FFFF

  predicate IsDigit(c: char) {
    '0' <= c <= '9'
  }

  predicate AllDigits(s: string) {
    forall i | 0 <= i < |s| :: IsDigit(s[i])
  }

  function DigitsValue(s: string): int
    requires AllDigits(s)
  {
    if s == "" then 0 else 10 * DigitsValue(s[..|s| - 1]) + (s[|s| - 1] as int - '0' as int)
  }

  predicate Signed(s: string) {
    s != "" && (s[0] == '+' || s[0] == '-')
  }

  /** strconv.Atoi with its error ignored: 0 for what is not a number, the nearest int for what is too
      large. */
  function Atoi(s: string): (n: int)
    ensures -MAX_INT - 1 <= n <= MAX_INT
  {
    var body := if Signed(s) then s[1..] else s;
    if body == "" || !AllDigits(body) then 0
    else
      var n := if s[0] == '-' then -DigitsValue(body) else DigitsValue(body);
      if n > MAX_INT then MAX_INT else if n < -MAX_INT - 1 then -MAX_INT - 1 else n
  }

  /** strings.SplitN(v, ".", 3). */
  function Segments(v: string): (parts: seq<string>)
    ensures 1 <= |parts| <= 3
  {
    var parts := Split(v, '.');
    if |parts| <= 3 then parts else [parts[0], parts[1], Join(parts[2..], '.')]
  }

  function Segment(v: string, i: nat): int {
    if i < |Segments(v)| then Atoi(Segments(v)[i]) else 0
  }

  /** parseVer. */
  method ParseVer(v: string) returns (result: array<int>)
    ensures fresh(result) && result.Length == 3
    ensures forall i: nat | i < 3 :: result[i] == Segment(v, i)
  {
    var parts := Segments(v);
    result := new int[3](i => 0);
    for i := 0 to |parts|
      invariant forall k: nat | k < 3 :: result[k] == if k < i then Segment(v, k) else 0
    {
      if i >= 3 {
        break;
      }
      result[i] := Atoi(parts[i]);
    }
  }

  datatype Triple = Triple(major: int, minor: int, patch: int)

  function VersionOf(v: string): Triple {
    Triple(Segment(v, 0), Segment(v, 1), Segment(v, 2))
  }

  /** Lexicographic order. */
  predicate Less(x: Triple, y: Triple) {
    || x.major < y.major
    || (x.major == y.major && x.minor < y.minor)
    || (x.major == y.major && x.minor == y.minor && x.patch < y.patch)
  }

  /** One number for a triple, in base b. */
  function Weight(t: Triple, b: int): int {
    (t.major * b + t.minor) * b + t.patch
  }

  lemma {:induction false} AtLeastOnce(d: int, b: int)
    requires d >= 1 && b >= 0
    ensures d * b >= b
    decreases d
  {
    if d > 1 {
      AtLeastOnce(d - 1, b);
      assert d * b == (d - 1) * b + b;
    }
  }

  lemma HigherWeighsMore(hi: int, hi': int, lo: int, lo': int, b: int)
    requires hi < hi' && 0 <= lo < b && 0 <= lo'
    ensures hi * b + lo < hi' * b + lo'
  {
    var d := hi' - hi;
    AtLeastOnce(d, b);
    assert hi' * b == (hi + d) * b == hi * b + d * b;
  }

  lemma WeighsMore(hi: int, hi': int, lo: int, lo': int, b: int)
    requires 0 <= lo < b && 0 <= lo' < b
    ensures hi * b + lo < hi' * b + lo' <==> hi < hi' || (hi == hi' && lo < lo')
  {
    if hi < hi' {
      HigherWeighsMore(hi, hi', lo, lo', b);
    } else if hi > hi' {
      HigherWeighsMore(hi', hi, lo', lo, b);
    }
  }

  /** A version is older than another exactly when, its three numbers read as the digits of one, that one is
      the smaller. */
  lemma OlderIsSmaller(x: Triple, y: Triple, b: int)
    requires 0 <= x.major < b && 0 <= x.minor < b && 0 <= x.patch < b
    requires 0 <= y.major < b && 0 <= y.minor < b && 0 <= y.patch < b
    ensures Less(x, y) <==> Weight(x, b) < Weight(y, b)
  {
    WeighsMore(x.major, y.major, x.minor, y.minor, b);
    WeighsMore(y.major, x.major, y.minor, x.minor, b);
    WeighsMore(x.major * b + x.minor, y.major * b + y.minor, x.patch, y.patch, b);
  }

  /** isNewer: the candidate's triple is the larger one. */
  method IsNewer(current: string, candidate: string) returns (newer: bool)
    ensures newer <==> Less(VersionOf(current), VersionOf(candidate))
  {
    var cv := ParseVer(current);
    var nv := ParseVer(candidate);
    assert cv[0] == Segment(current, 0) && cv[1] == Segment(current, 1) && cv[2] == Segment(current, 2);
    assert nv[0] == Segment(candidate, 0) && nv[1] == Segment(candidate, 1) && nv[2] == Segment(candidate, 2);
    for i := 0 to 3
      invariant forall k | 0 <= k < i :: nv[k] == cv[k]
    {
      if nv[i] > cv[i] {
        return true;
      }
      if nv[i] < cv[i] {
        return false;
      }
    }
    return false;
  }

  /** No chain of updates, each to a newer version, ever comes back to a version it left: such a chain is
      strictly increasing from end to end. */
  lemma {:induction false} UpdatesNeverReturn(chain: seq<string>)
    requires |chain| > 1
    requires forall i | 0 < i < |chain| :: Less(VersionOf(chain[i - 1]), VersionOf(chain[i]))
    ensures Less(VersionOf(chain[0]), VersionOf(chain[|chain| - 1]))
    ensures chain[0] != chain[|chain| - 1]
  {
    if |chain| > 2 {
      UpdatesNeverReturn(chain[..|chain| - 1]);
    }
  }

  // ------------------------------------------------------------------------------ printed versions

  lemma {:induction false} DecimalReadsBack(n: nat)
    ensures Decimal(n) != "" && AllDigits(Decimal(n)) && DigitsValue(Decimal(n)) == n
  {
    if n >= 10 {
      DecimalReadsBack(n / 10);
      var d := Decimal(n / 10);
      assert Decimal(n)[..|d|] == d;
    } else {
      assert Decimal(n)[..0] == "";
    }
  }

  lemma AtoiOfDecimal(n: nat)
    requires n <= MAX_INT
    ensures Atoi(Decimal(n)) == n && '.' !in Decimal(n)
  {
    DecimalReadsBack(n);
    assert IsDigit(Decimal(n)[0]);
  }

  function Printed(t: Triple): string
    requires t.major >= 0 && t.minor >= 0 && t.patch >= 0
  {
    Join([Decimal(t.major), Decimal(t.minor), Decimal(t.patch)], '.')
  }

  /** Three printed numbers are read back, so printed versions compare as their numbers do. */
  lemma PrintedReadsBack(t: Triple)
    requires 0 <= t.major <= MAX_INT && 0 <= t.minor <= MAX_INT && 0 <= t.patch <= MAX_INT
    ensures VersionOf(Printed(t)) == t
  {
    var parts := [Decimal(t.major), Decimal(t.minor), Decimal(t.patch)];
    AtoiOfDecimal(t.major);
    AtoiOfDecimal(t.minor);
    AtoiOfDecimal(t.patch);
    SplitOfJoin(parts, '.');
    assert Segments(Printed(t)) == parts;
  }

  // ------------------------------------------------------------------------------ other texts

  /** The digits a text starts with. */
  function LeadingDigits(s: string): (d: string)
    ensures AllDigits(d) && |d| <= |s| && d == s[..|d|]
    ensures d == s <==> AllDigits(s)
  {
    if s == "" || !IsDigit(s[0]) then ""
    else
      var rest := LeadingDigits(s[1..]);
      assert s == [s[0]] + s[1..];
      [s[0]] + rest
  }

  /** The number in a part of a version, as a reader takes it: that of its first digits, 0 if it has none. */
  function NumberIn(s: string): int {
    if s == "" then 0
    else if IsDigit(s[0]) then DigitsValue(LeadingDigits(s))
    else NumberIn(s[1..])
  }

  function PartAt(v: string, i: nat): string {
    if i < |Split(v, '.')| then Split(v, '.')[i] else ""
  }

  /** Digits only, but for a plus sign, and not too many of them. */
  predicate IsNumeral(s: string) {
    var body := if s != "" && s[0] == '+' then s[1..] else s;
    body != "" && AllDigits(body) && DigitsValue(body) <= MAX_INT
  }

  lemma DigitsAreNumber(s: string)
    requires AllDigits(s)
    ensures NumberIn(s) == DigitsValue(s) >= 0
  {
    DigitsNotNegative(s);
  }

  lemma {:induction false} DigitsNotNegative(s: string)
    requires AllDigits(s)
    ensures DigitsValue(s) >= 0
  {
    if s != "" {
      DigitsNotNegative(s[..|s| - 1]);
    }
  }

  lemma {:induction false} NumberNotNegative(s: string)
    ensures NumberIn(s) >= 0
  {
    if s != "" {
      if IsDigit(s[0]) {
        DigitsNotNegative(LeadingDigits(s));
      } else {
        NumberNotNegative(s[1..]);
      }
    }
  }

  /** A part is read as its number exactly when it is a numeral, or that number is 0. */
  lemma AtoiReadsExactly(s: string)
    ensures Atoi(s) == NumberIn(s) <==> IsNumeral(s) || NumberIn(s) == 0
  {
    NumberNotNegative(s);
    var body := if Signed(s) then s[1..] else s;
    if body != "" && AllDigits(body) {
      DigitsAreNumber(body);
      assert Signed(s) ==> NumberIn(s) == NumberIn(body);
    }
  }

  /** A fourth part makes the third unreadable: 1.2.3.4 counts as 1.2.0, older than 1.2.3. */
  lemma FourthPartDropsThird(v: string)
    requires |Split(v, '.')| > 3
    ensures VersionOf(v).patch == 0
  {
    var parts := Split(v, '.');
    var third := Segments(v)[2];
    JoinConcat([parts[2]], parts[3..], '.');
    assert parts[2..] == [parts[2]] + parts[3..];
    assert third[|parts[2]|] == '.';
    if Signed(third) {
      assert |parts[2]| > 0;
      assert third[1..][|parts[2]| - 1] == '.';
    }
  }

  /** The third part is read as its number exactly when it is a numeral and the last part, or that number
      is 0. */
  lemma ThirdPartReadExactly(v: string)
    requires |Split(v, '.')| >= 3
    ensures VersionOf(v).patch == NumberIn(PartAt(v, 2)) <==>
            NumberIn(PartAt(v, 2)) == 0 || (|Split(v, '.')| == 3 && IsNumeral(PartAt(v, 2)))
  {
    if |Split(v, '.')| > 3 {
      FourthPartDropsThird(v);
    } else {
      AtoiReadsExactly(PartAt(v, 2));
    }
  }

  predicate ReadsPart(v: string, i: nat) {
    NumberIn(PartAt(v, i)) == 0 || (IsNumeral(PartAt(v, i)) && (i < 2 || |Split(v, '.')| == 3))
  }

  /** A version is read as the numbers in its first three parts exactly when each of these is a numeral, the
      third one with nothing after it, or stands for 0. So 1.2.3-rc1 and v1.2.3 are not. */
  lemma ReadAsNumbersExactly(v: string)
    ensures VersionOf(v) == Triple(NumberIn(PartAt(v, 0)), NumberIn(PartAt(v, 1)), NumberIn(PartAt(v, 2)))
            <==> ReadsPart(v, 0) && ReadsPart(v, 1) && ReadsPart(v, 2)
  {
    AtoiReadsExactly(PartAt(v, 0));
    AtoiReadsExactly(PartAt(v, 1));
    if |Split(v, '.')| >= 3 {
      ThirdPartReadExactly(v);
    }
  }

  /** A part that is no numeral but for what follows or stands before its digits counts as 0. */
  lemma DecoratedPartIsDropped(before: string, digits: string, after: string)
    requires AllDigits(digits) && digits != "" && before + after != ""
    requires forall i | 0 <= i < |before| :: !IsDigit(before[i]) && before[i] != '+' && before[i] != '-'
    requires after != "" ==> !IsDigit(after[0])
    ensures Atoi(before + digits + after) == 0 && NumberIn(before + digits + after) == DigitsValue(digits)
  {
    var s := before + digits + after;
    NumberAfter(before, digits, after);
    if before != "" {
      assert s[0] == before[0];
    } else {
      assert s[|digits|] == after[0] && s[0] == digits[0];
    }
  }

  lemma {:induction false} DigitsUpTo(digits: string, after: string)
    requires AllDigits(digits) && (after != "" ==> !IsDigit(after[0]))
    ensures LeadingDigits(digits + after) == digits
  {
    if digits == "" {
      assert digits + after == after;
    } else {
      assert (digits + after)[1..] == digits[1..] + after;
      DigitsUpTo(digits[1..], after);
    }
  }

  lemma {:induction false} NumberAfter(before: string, digits: string, after: string)
    requires AllDigits(digits) && digits != "" && (after != "" ==> !IsDigit(after[0]))
    requires forall i | 0 <= i < |before| :: !IsDigit(before[i])
    ensures NumberIn(before + digits + after) == DigitsValue(digits)
    decreases |before|
  {
    if before == "" {
      assert before + digits + after == digits + after;
      DigitsUpTo(digits, after);
    } else {
      assert (before + digits + after)[1..] == before[1..] + digits + after;
      NumberAfter(before[1..], digits, after);
    }
  }
}
