/** What a hybrid clock reads after every event, to the last count, and what it makes of any stamp. */
module ClockReadings {
  import opened HybridLogicalClocks
  import opened Options

  /** A local event takes the clock to the least stamp above its own that is not behind the time. */
  lemma {:induction false} TickIsLeast(c: Stamp, now: nat, s: Stamp)
    ensures Less(c, Ticked(c, now)) && now <= Ticked(c, now).wall
    ensures Less(c, s) && now <= s.wall ==> s == Ticked(c, now) || Less(Ticked(c, now), s)
  {
  }

  /**
   * A reception takes the clock to the least wall time not behind its own, the remote one and the current
   * one. Its counter is then the least above both counters if the remote wall time is the one taken, the
   * next after its own if only the current time is, and 0 if neither is.
   */
  lemma {:induction false} UpdateIsLeast(c: Stamp, remote: Stamp, now: nat, wall: nat)
    ensures var u := Updated(c, remote, now);
            && (c.wall <= wall && remote.wall <= wall && now <= wall <==> u.wall <= wall)
            && (remote.wall == u.wall ==>
                  c.logical < u.logical && remote.logical < u.logical &&
                  (u.logical == c.logical + 1 || u.logical == remote.logical + 1))
            && (remote.wall < u.wall && now == u.wall ==> u.logical == c.logical + 1)
            && (remote.wall < u.wall && now < u.wall ==> u.logical == 0)
  {
  }

  // ---- Readings that are not numbers ----

  function OrZero(n: Number): nat { if n.Num? then n.value else 0 }

  /** What a tick and a reception make of a clock that has lost its wall time, or receives none. */
  lemma {:induction false} WithoutWall(c: Reading, remote: Reading, now: nat)
    ensures c.wall.NaN? ==> TickedReading(c, now) == Reading(NaN, Next(c.logical))
    ensures c.wall.NaN? || remote.wall.NaN? ==> UpdatedReading(c, remote, now) == Reading(NaN, Num(0))
  {
  }

  /** What they make of counters that are not numbers: such a counter is passed on only where it is used. */
  lemma {:induction false} WithoutCounter(c: Reading, remote: Reading, now: nat)
    requires c.wall.Num? && remote.wall.Num?
    ensures TickedReading(c, now)
         == if c.logical.NaN? && now <= c.wall.value then c
            else Of(Ticked(Stamp(c.wall.value, OrZero(c.logical)), now))
    ensures var u := Updated(Stamp(c.wall.value, OrZero(c.logical)), Stamp(remote.wall.value, OrZero(remote.logical)),
                             now);
            var lost := if remote.wall.value == u.wall then c.logical.NaN? || remote.logical.NaN?
                        else now == u.wall && c.logical.NaN?;
            UpdatedReading(c, remote, now) == Reading(Num(u.wall), if lost then NaN else Num(u.logical))
  {
  }

  // Both are there and the first is the smaller one.
  predicate Under(a: Number, b: Number) { a.Num? && b.Num? && a.value < b.value }

  /** Any two readings: the wall times decide if they can, then the counters if they can. */
  lemma {:induction false} ComparesInTurn(a: Reading, b: Reading)
    ensures var byWall := Under(a.wall, b.wall) || Under(b.wall, a.wall);
            && (ComparedReadings(a, b) == -1 <==> Under(a.wall, b.wall) || (!byWall && Under(a.logical, b.logical)))
            && (ComparedReadings(a, b) == 1 <==> Under(b.wall, a.wall) || (!byWall && Under(b.logical, a.logical)))
            && (ComparedReadings(a, b) == 0 <==>
                !byWall && !Under(a.logical, b.logical) && !Under(b.logical, a.logical))
  {
  }

  // ---- Stamps ----

  ghost predicate Blanks(s: string) { forall i :: 0 <= i < |s| ==> IsBlank(s[i]) }

  lemma {:induction false} BlanksSkipped(blanks: string, t: string)
    requires Blanks(blanks) && (t != "" ==> !IsBlank(t[0]))
    ensures SkipBlanks(blanks + t) == t
    decreases |blanks|
  {
    if blanks == "" {
      assert blanks + t == t;
    } else {
      assert (blanks + t)[1..] == blanks[1..] + t;
      BlanksSkipped(blanks[1..], t);
    }
  }

  lemma {:induction false} JunkIgnored(digits: string, junk: string, read: nat)
    requires forall i :: 0 <= i < |digits| ==> IsDigit(digits[i])
    requires junk != "" ==> !IsDigit(junk[0])
    ensures DigitsValue(digits + junk, read) == DigitsValue(digits, read)
    decreases |digits|
  {
    if digits == "" {
      assert digits + junk == junk;
    } else {
      assert (digits + junk)[1..] == digits[1..] + junk;
      JunkIgnored(digits[1..], junk, read * 10 + DigitValue(digits[0]));
    }
  }

  ghost predicate Digits(s: string) { s != "" && forall i :: 0 <= i < |s| ==> IsDigit(s[i]) }

  /** Digits are read behind blanks and a plus sign, and up to the first character that is none. */
  lemma {:induction false} NumberIsRead(blanks: string, plus: bool, digits: string, junk: string)
    requires Blanks(blanks) && Digits(digits) && (junk != "" ==> !IsDigit(junk[0]))
    ensures ParseInt(blanks + ((if plus then "+" else "") + (digits + junk))) == Num(DigitsValue(digits, 0))
  {
    var rest := digits + junk;
    var t := (if plus then "+" else "") + rest;
    assert rest[0] == digits[0];
    BlanksSkipped(blanks, t);
    assert plus ==> t[1..] == rest;
    assert !plus ==> t == rest;
    JunkIgnored(digits, junk, 0);
  }

  /** They are decimal: each further digit counts ten times the ones before it, and leading zeros nothing. */
  lemma {:induction false} DigitsCount(digits: string, c: char, n: nat)
    requires Digits(digits) && IsDigit(c)
    ensures DigitsValue(digits + [c], 0) == DigitsValue(digits, 0) * 10 + (c as int - '0' as int)
    ensures DigitsValue("0" + digits, 0) == DigitsValue(digits, 0)
    ensures DigitsValue([c], 0) == c as int - '0' as int && DigitsValue(Decimal(n), 0) == n
  {
    ValueSnoc(digits, c, 0);
    assert ("0" + digits)[1..] == digits && [c][1..] == "";
    DecimalValue(n);
  }

  /** Anything else is no number. */
  lemma {:induction false} NoNumberIsRead(blanks: string, junk: string)
    requires Blanks(blanks) && (junk != "" ==> !IsBlank(junk[0]) && !IsDigit(junk[0]))
    requires |junk| > 1 && junk[0] == '+' ==> !IsDigit(junk[1])
    ensures ParseInt(blanks + junk) == NaN
  {
    BlanksSkipped(blanks, junk);
  }

  /** The parts of a stamp are its wall time, its counter and its node; what is missing is no number or no name. */
  lemma {:induction false} StampParts(a: string, b: string, c: string, more: string)
    requires '-' !in a && '-' !in b && '-' !in c
    ensures ParseTimestamp(a) == Parsed(ParseInt(a), NaN, None)
    ensures ParseTimestamp(a + "-" + b) == Parsed(ParseInt(a), ParseInt(b), None)
    ensures ParseTimestamp(a + "-" + (b + "-" + c)) == Parsed(ParseInt(a), ParseInt(b), Some(c))
    ensures ParseTimestamp(a + "-" + (b + "-" + (c + "-" + more))) == Parsed(ParseInt(a), ParseInt(b), Some(c))
  {
    SplitAlone(a);
    SplitAlone(b);
    SplitAtDash(a, b);
    SplitAlone(c);
    ThreeParts(a, b, c, c);
    SplitAtDash(c, more);
    ThreeParts(a, b, c + "-" + more, c);
  }

  lemma {:induction false} ThreeParts(a: string, b: string, rest: string, c: string)
    requires '-' !in a && '-' !in b && Split(rest)[0] == c
    ensures ParseTimestamp(a + "-" + (b + "-" + rest)) == Parsed(ParseInt(a), ParseInt(b), Some(c))
  {
    var tail := b + "-" + rest;
    SplitAtDash(a, tail);
    SplitAtDash(b, rest);
    PartsOf(a + "-" + tail, a, b, Split(rest), c);
  }

  lemma {:induction false} PartsOf(s: string, a: string, b: string, parts: seq<string>, c: string)
    requires Split(s) == [a] + ([b] + parts) && parts != [] && parts[0] == c
    ensures ParseTimestamp(s) == Parsed(ParseInt(a), ParseInt(b), Some(c))
  {
  }

  lemma {:induction false} SplitAlone(a: string)
    requires '-' !in a
    ensures Split(a) == [a]
  {
    DashFree(a);
  }

  // The form itself, on an example.
  lemma {:induction false} StampLooks()
    ensures Format(Of(Stamp(1700, 25)), "n") == "1700-25-n"
    ensures Format(Reading(NaN, Num(0)), "n") == "NaN-0-n"
  {
    assert Decimal(17) == Decimal(1) + [Digit(7)] == "17";
    assert Decimal(170) == Decimal(17) + [Digit(0)] == "170";
    assert Decimal(1700) == Decimal(170) + [Digit(0)] == "1700";
    assert Decimal(25) == Decimal(2) + [Digit(5)] == "25";
  }

  /** Digits are the decimal ones, and only they. */
  lemma {:induction false} DigitsAreDecimal(d: nat, c: char)
    requires d < 10
    ensures Digit(d) as int == '0' as int + d && IsDigit(Digit(d)) && DigitValue(Digit(d)) == d
    ensures IsDigit(c) <==> exists k :: 0 <= k < 10 && c == Digit(k)
  {
    if IsDigit(c) {
      assert c == Digit(c as int - '0' as int);
    }
  }
}
