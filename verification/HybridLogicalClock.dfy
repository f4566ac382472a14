/**
 * Hybrid logical clocks: physical time where it advances, a counter where it does not. The current
 * time is a parameter of every operation.
 */
module HybridLogicalClocks {
  import opened Bounds
  import opened Options

  datatype Stamp = Stamp(wall: nat, logical: nat)

  predicate Less(a: Stamp, b: Stamp) { a.wall < b.wall || (a.wall == b.wall && a.logical < b.logical) }

  function Ticked(c: Stamp, now: nat): Stamp {
    if now > c.wall then Stamp(now, 0) else Stamp(c.wall, c.logical + 1)
  }

  function Updated(c: Stamp, remote: Stamp, now: nat): Stamp {
    var wall := Max(Max(c.wall, remote.wall), now);
    Stamp(wall,
          if remote.wall == wall then Max(c.logical + 1, remote.logical + 1)
          else if now == wall then Max(c.logical + 1, 0)
          else 0)
  }

  // ---- Readings that may not be numbers ----

  // A number, or what parsing something else gives: it compares as neither greater, smaller nor equal.
  datatype Number = NaN | Num(value: nat)

  datatype Reading = Reading(wall: Number, logical: Number)

  predicate Above(a: Number, b: Number) { a.Num? && b.Num? && a.value > b.value }

  predicate Same(a: Number, b: Number) { a.Num? && a == b }

  function Greatest(a: Number, b: Number): Number { if a.Num? && b.Num? then Num(Max(a.value, b.value)) else NaN }

  function Next(a: Number): Number { if a.Num? then Num(a.value + 1) else NaN }

  function Of(c: Stamp): Reading { Reading(Num(c.wall), Num(c.logical)) }

  function TickedReading(c: Reading, now: nat): Reading {
    if Above(Num(now), c.wall) then Reading(Num(now), Num(0)) else Reading(c.wall, Next(c.logical))
  }

  function UpdatedReading(c: Reading, remote: Reading, now: nat): Reading {
    var wall := Greatest(Greatest(c.wall, remote.wall), Num(now));
    Reading(wall,
            if Same(remote.wall, wall) then Greatest(Next(c.logical), Next(remote.logical))
            else if Same(Num(now), wall) then Greatest(Next(c.logical), Num(0))
            else Num(0))
  }

  function ComparedReadings(a: Reading, b: Reading): int {
    if Above(b.wall, a.wall) then -1
    else if Above(a.wall, b.wall) then 1
    else if Above(b.logical, a.logical) then -1
    else if Above(a.logical, b.logical) then 1
    else 0
  }

  class HybridLogicalClock {
    var wallTime: Number
    var logical: Number
    const nodeId: string

    function Value(): Reading
      reads this
    {
      Reading(wallTime, logical)
    }

    // An initial time of 0 is no initial time.
    constructor (nodeId: string, initialTime: Option<nat>, now: nat)
      ensures this.nodeId == nodeId
      ensures Value() == Of(Stamp(if initialTime.Some? && initialTime.value != 0 then initialTime.value else now, 0))
    {
      this.nodeId := nodeId;
      wallTime := Num(if initialTime.Some? && initialTime.value != 0 then initialTime.value else now);
      logical := Num(0);
    }

    method Tick(now: nat) returns (stamp: string)
      modifies this
      ensures Value() == TickedReading(old(Value()), now)
      ensures stamp == Format(Value(), nodeId)
    {
      if Above(Num(now), wallTime) {
        wallTime := Num(now);
        logical := Num(0);
      } else {
        logical := Next(logical);
      }
      stamp := Format(Reading(wallTime, logical), nodeId);
    }

    method Update(remoteTimestamp: string, now: nat) returns (stamp: string)
      modifies this
      ensures Value() == UpdatedReading(old(Value()), ReadingOf(remoteTimestamp), now)
      ensures stamp == Format(Value(), nodeId)
    {
      var remote := ReadingOf(remoteTimestamp);
      wallTime := Greatest(Greatest(wallTime, remote.wall), Num(now));
      if Same(remote.wall, wallTime) {
        logical := Greatest(Next(logical), Next(remote.logical));
      } else if Same(Num(now), wallTime) {
        logical := Greatest(Next(logical), Num(0));
      } else {
        logical := Num(0);
      }
      stamp := Format(Reading(wallTime, logical), nodeId);
    }

    method Compare(a: string, b: string) returns (r: int)
      ensures r == ComparedReadings(ReadingOf(a), ReadingOf(b))
    {
      var x, y := ReadingOf(a), ReadingOf(b);
      if Above(y.wall, x.wall) { return -1; }
      if Above(x.wall, y.wall) { return 1; }
      if Above(y.logical, x.logical) { return -1; }
      if Above(x.logical, y.logical) { return 1; }
      return 0;
    }
  }

  /** On readings that are numbers, the clock works on stamps, and the comparison is their order. */
  lemma {:induction false} NumbersAreStamps(c: Stamp, remote: Stamp, now: nat)
    ensures TickedReading(Of(c), now) == Of(Ticked(c, now))
    ensures UpdatedReading(Of(c), Of(remote), now) == Of(Updated(c, remote, now))
    ensures ComparedReadings(Of(c), Of(remote)) == -1 <==> Less(c, remote)
    ensures ComparedReadings(Of(c), Of(remote)) == 1 <==> Less(remote, c)
    ensures ComparedReadings(Of(c), Of(remote)) == 0 <==> c == remote
  {
  }

  /**
   * A wall time is lost exactly by receiving one that is not a number, and a clock that has lost it
   * never gets it back, whatever it does or receives.
   */
  lemma {:induction false} LostForGood(c: Reading, remote: Reading, now: nat)
    ensures UpdatedReading(c, remote, now).wall.NaN? <==> c.wall.NaN? || remote.wall.NaN?
    ensures TickedReading(c, now).wall.NaN? <==> c.wall.NaN?
    ensures c.wall.NaN? ==> UpdatedReading(c, remote, now) == Reading(NaN, Num(0))
  {
  }

  /** A local event always advances the clock. */
  lemma {:induction false} TickAdvances(c: Stamp, now: nat)
    ensures Less(c, Ticked(c, now))
  {
  }

  /** A reception always exceeds the remote stamp; it exceeds the local one unless local time is ahead of both. */
  lemma {:induction false} UpdateAdvances(c: Stamp, remote: Stamp, now: nat)
    ensures Less(remote, Updated(c, remote, now))
    ensures Less(c, Updated(c, remote, now)) <==> !(c.wall > remote.wall && c.wall > now)
  {
  }

  // ---- The written form ----

  function Digit(d: nat): char
    requires d < 10
  {
    "0123456789"[d]
  }

  predicate IsDigit(c: char) { '0' <= c <= '9' }

  function DigitValue(c: char): nat
    requires IsDigit(c)
  {
    c as int - '0' as int
  }

  function Decimal(n: nat): string {
    if n < 10 then [Digit(n)] else Decimal(n / 10) + [Digit(n % 10)]
  }

  // The number the leading digits of s spell, continuing from what was read before.
  function DigitsValue(s: string, read: nat): nat {
    if s == "" || !IsDigit(s[0]) then read else DigitsValue(s[1..], read * 10 + DigitValue(s[0]))
  }

  // White space and line terminators of ECMAScript (sections 12.2 and 12.3 of ECMA-262).
  predicate IsBlank(c: char) {
    var n := c as int;
    || 9 <= n <= 13 || n == 32 || n == 0xA0 || n == 0x1680 || 0x2000 <= n <= 0x200A
    || n == 0x2028 || n == 0x2029 || n == 0x202F || n == 0x205F || n == 0x3000 || n == 0xFEFF
  }

  function SkipBlanks(s: string): string {
    if s != "" && IsBlank(s[0]) then SkipBlanks(s[1..]) else s
  }

  // Blanks and a plus sign may come first; a minus sign cannot, since stamps are split at dashes.
  function ParseInt(s: string): Number {
    var t := SkipBlanks(s);
    var digits := if t != "" && t[0] == '+' then t[1..] else t;
    if digits == "" || !IsDigit(digits[0]) then NaN else Num(DigitsValue(digits, 0))
  }

  function UpToDash(s: string): string {
    if s == "" || s[0] == '-' then "" else [s[0]] + UpToDash(s[1..])
  }

  function Split(s: string): (parts: seq<string>)
    ensures |parts| > 0
    decreases |s|
  {
    var part := UpToDash(s);
    UpToDashIsPrefix(s);
    if |part| == |s| then [part] else [part] + Split(s[|part| + 1..])
  }

  lemma {:induction false} UpToDashIsPrefix(s: string)
    ensures |UpToDash(s)| <= |s| && UpToDash(s) == s[..|UpToDash(s)|]
    ensures |UpToDash(s)| < |s| ==> s[|UpToDash(s)|] == '-'
    ensures '-' !in UpToDash(s)
  {
    if s != "" && s[0] != '-' {
      UpToDashIsPrefix(s[1..]);
      assert s == [s[0]] + s[1..];
    }
  }

  function Written(n: Number): string { if n.Num? then Decimal(n.value) else "NaN" }

  function Format(c: Reading, nodeId: string): string {
    Written(c.wall) + "-" + Written(c.logical) + "-" + nodeId
  }

  datatype Parsed = Parsed(wall: Number, logical: Number, node: Option<string>)

  function ParseTimestamp(timestamp: string): Parsed {
    var parts := Split(timestamp);
    Parsed(ParseInt(parts[0]),
           if |parts| > 1 then ParseInt(parts[1]) else NaN,
           if |parts| > 2 then Some(parts[2]) else None)
  }

  function ReadingOf(timestamp: string): Reading {
    var p := ParseTimestamp(timestamp);
    Reading(p.wall, p.logical)
  }

  lemma {:induction false} DecimalDigits(n: nat)
    ensures Decimal(n) != "" && forall i :: 0 <= i < |Decimal(n)| ==> IsDigit(Decimal(n)[i])
  {
    if n >= 10 { DecimalDigits(n / 10); }
  }

  lemma {:induction false} ValueSnoc(s: string, c: char, read: nat)
    requires IsDigit(c) && forall i :: 0 <= i < |s| ==> IsDigit(s[i])
    ensures DigitsValue(s + [c], read) == DigitsValue(s, read) * 10 + DigitValue(c)
    decreases |s|
  {
    if s == "" {
      assert s + [c] == [c] && DigitsValue([c][1..], read * 10 + DigitValue(c)) == read * 10 + DigitValue(c);
    } else {
      assert (s + [c])[1..] == s[1..] + [c];
      ValueSnoc(s[1..], c, read * 10 + DigitValue(s[0]));
    }
  }

  lemma {:induction false} DecimalValue(n: nat)
    ensures DigitsValue(Decimal(n), 0) == n
  {
    if n < 10 {
      assert DigitsValue(Decimal(n)[1..], DigitValue(Digit(n))) == n;
    } else {
      DecimalDigits(n / 10);
      DecimalValue(n / 10);
      ValueSnoc(Decimal(n / 10), Digit(n % 10), 0);
    }
  }

  lemma {:induction false} WrittenReads(n: Number)
    ensures ParseInt(Written(n)) == n && '-' !in Written(n)
  {
    if n.Num? {
      DecimalDigits(n.value);
      DecimalValue(n.value);
      assert IsDigit(Written(n)[0]);
    }
  }

  lemma {:induction false} SplitAtDash(a: string, rest: string)
    requires '-' !in a
    ensures Split(a + "-" + rest) == [a] + Split(rest)
  {
    UpToDashOf(a, rest);
    assert (a + "-" + rest)[|a| + 1..] == rest;
  }

  lemma {:induction false} UpToDashOf(a: string, rest: string)
    requires '-' !in a
    ensures UpToDash(a + "-" + rest) == a
    decreases |a|
  {
    if a != "" {
      assert (a + "-" + rest)[1..] == a[1..] + "-" + rest;
      UpToDashOf(a[1..], rest);
    }
  }

  lemma {:induction false} SplitFormat(c: Reading, nodeId: string)
    ensures Split(Format(c, nodeId)) == [Written(c.wall), Written(c.logical)] + Split(nodeId)
    ensures Split(nodeId)[0] == UpToDash(nodeId)
  {
    var rest := Written(c.logical) + "-" + nodeId;
    WrittenReads(c.wall);
    WrittenReads(c.logical);
    assert Format(c, nodeId) == Written(c.wall) + "-" + rest;
    SplitAtDash(Written(c.wall), rest);
    SplitAtDash(Written(c.logical), nodeId);
  }

  /** What a clock writes reads back as its reading; the node's name only up to its first dash. */
  lemma {:induction false} FormatReadsBack(c: Reading, nodeId: string, s: string)
    requires s == Format(c, nodeId)
    ensures ParseTimestamp(s) == Parsed(c.wall, c.logical, Some(UpToDash(nodeId)))
    ensures ReadingOf(s) == c
    ensures UpToDash(nodeId) == nodeId <==> '-' !in nodeId
  {
    SplitFormat(c, nodeId);
    var parts := Split(s);
    assert parts[0] == Written(c.wall) && parts[1] == Written(c.logical) && parts[2] == Split(nodeId)[0];
    WrittenReads(c.wall);
    WrittenReads(c.logical);
    DashFree(nodeId);
  }

  lemma {:induction false} DashFree(s: string)
    ensures UpToDash(s) == s <==> '-' !in s
  {
    UpToDashIsPrefix(s);
  }
}
