/**
 Timestamp normalisation (backend/audit/chain/hasher.py:70-113).  A timestamp reaches the
 hasher as a `datetime` (aware when it is fresh, naive and cut to milliseconds when it
 comes back from the database) or as an ISO string (in an export file).  The hash must not
 depend on which of these it is.
 */
module Timestamps {
  import opened Wrappers
  import opened CanonicalJson

  /** A wall-clock reading; `offset` is the distance from UTC in minutes, absent if naive. */
  datatype DateTime = DateTime(year: int, month: int, day: int, hour: int, minute: int, second: int,
                               micro: int, offset: Option<int>)
  {
    predicate Valid() {
      && 1 <= year <= 9999 && 1 <= month <= 12 && 1 <= day <= DaysInMonth(year, month)
      && 0 <= hour < 24 && 0 <= minute < 60 && 0 <= second < 60 && 0 <= micro < 1_000_000
      && (offset.Some? ==> -1440 < offset.value < 1440)
    }

    /** Either naive (read as UTC) or aware with offset zero. */
    predicate Utc() { offset == None || offset == Some(0) }

    /** What the database keeps: milliseconds, and no time zone. */
    function Stored(): DateTime { Cut().(offset := None) }

    /** `replace(microsecond=(microsecond // 1000) * 1000)` */
    function Cut(): DateTime { this.(micro := micro / 1000 * 1000) }
  }

  lemma CutIsValid(d: DateTime)
    requires d.Valid()
    ensures d.Cut().Valid() && d.Cut().micro / 1000 == d.micro / 1000
  {
    var k := d.micro / 1000;
    assert k * 1000 / 1000 == k;
  }

  /** A `datetime` object always names a real date. */
  type RealTime = d: DateTime | d.Valid() witness DateTime(1970, 1, 1, 0, 0, 0, 0, None)

  datatype Timestamp = Moment(moment: RealTime) | Text(text: string)

  function DaysInMonth(year: int, month: int): int {
    if month == 2 then (if year % 4 == 0 && (year % 100 != 0 || year % 400 == 0) then 29 else 28)
    else if month in {4, 6, 9, 11} then 30 else 31
  }

  // ---------------------------------------------------------------- printing

  function Pad2(n: int): (s: string)
    requires 0 <= n < 100
    ensures |s| == 2 && IsDigit(s[0]) && IsDigit(s[1])
  {
    [DigitChar(n / 10), DigitChar(n % 10)]
  }

  function Pad3(n: int): (s: string)
    requires 0 <= n < 1000
    ensures |s| == 3
  {
    [DigitChar(n / 100)] + Pad2(n % 100)
  }

  function Pad4(n: int): (s: string)
    requires 0 <= n < 10000
    ensures |s| == 4
  {
    Pad2(n / 100) + Pad2(n % 100)
  }

  function Pad6(n: int): (s: string)
    requires 0 <= n < 1_000_000
    ensures |s| == 6
  {
    Pad3(n / 1000) + Pad3(n % 1000)
  }

  /** Month to second, followed by `rest`. */
  function ClockText(d: DateTime, rest: string): string
    requires d.Valid()
  {
    ['-'] + (Pad2(d.month) + (['-'] + (Pad2(d.day) + (['T'] + (Pad2(d.hour) + ([':'] + (Pad2(d.minute)
    + ([':'] + (Pad2(d.second) + rest)))))))))
  }

  /** `strftime` does not pad the year to four digits. */
  function Format(d: DateTime): string
    requires d.Valid()
  {
    Digits(d.year) + ClockText(d, ['.'] + (Pad3(d.micro / 1000) + ['Z']))
  }

  /** `datetime.isoformat()` */
  function IsoFormat(d: DateTime): string
    requires d.Valid()
  {
    Pad4(d.year) + ClockText(d, IsoFraction(d) + OffsetText(d))
  }

  /** `str(datetime)` differs from the ISO form in one character: the separator. */
  function StrFormat(d: DateTime): string
    requires d.Valid()
  {
    IsoFormat(d)[10 := ' ']
  }

  function OffsetText(d: DateTime): string
    requires d.Valid()
  {
    if d.offset.None? then ""
    else
      var minutes := if d.offset.value < 0 then -d.offset.value else d.offset.value;
      [if d.offset.value < 0 then '-' else '+'] + (Pad2(minutes / 60) + ([':'] + Pad2(minutes % 60)))
  }

  function IsoFraction(d: DateTime): string
    requires d.Valid()
  {
    if d.micro == 0 then "" else ['.'] + Pad6(d.micro)
  }

  // ---------------------------------------------------------------- parsing

  /** The parts of a `strptime` format.  A part is matched leftmost-longest with
      backtracking, as a regular expression would be. */
  datatype Part = Lit(c: char) | Year | Month | Day | Hour | Minute | Second | Fraction | Zone
  datatype Pattern = End | Then(part: Part, next: Pattern)

  datatype Match = Match(fields: DateTime, rest: string)

  function Lower(c: char): char {
    if 'A' <= c <= 'Z' then (c as int + 32) as char else c
  }

  function Pow10(k: nat): nat { if k == 0 then 1 else 10 * Pow10(k - 1) }

  predicate InRange(part: Part, v: int) {
    match part
    case Month => 1 <= v <= 12
    case Day => 1 <= v <= 31
    case Hour => 0 <= v <= 23
    case Minute => 0 <= v <= 59
    case Second => 0 <= v <= 61
    case _ => false
  }

  predicate TwoDigitPart(part: Part) {
    part.Month? || part.Day? || part.Hour? || part.Minute? || part.Second?
  }

  function Set(part: Part, v: int, d: DateTime): DateTime {
    match part
    case Year => d.(year := v)
    case Month => d.(month := v)
    case Day => d.(day := v)
    case Hour => d.(hour := v)
    case Minute => d.(minute := v)
    case Second => d.(second := v)
    case Fraction => d.(micro := v)
    case Zone => d.(offset := Some(v))
    case Lit(_) => d
  }

  function MatchPattern(p: Pattern, s: string, d: DateTime): Option<Match>
    decreases p, 0
  {
    match p
    case End => Some(Match(d, s))
    case Then(Lit(c), next) =>
      if s != "" && Lower(s[0]) == Lower(c) then MatchPattern(next, s[1..], d) else None
    case Then(Year, next) =>
      if DigitRun(s) >= 4
      then DigitRunPrefix(s, 4); MatchPattern(next, s[4..], d.(year := NumberValue(s[..4])))
      else None
    case Then(Fraction, next) =>
      MatchFraction(next, s, d, if DigitRun(s) < 6 then DigitRun(s) else 6)
    case Then(Zone, next) =>
      var zone := ParseZone(s);
      if zone.Some? then MatchPattern(next, zone.value.rest, d.(offset := Some(zone.value.minutes))) else None
    case Then(part, next) =>
      var two := if TwoDigits(s) && InRange(part, TwoDigitValue(s))
                 then MatchPattern(next, s[2..], Set(part, TwoDigitValue(s), d)) else None;
      if two.Some? then two
      else if s != "" && IsDigit(s[0]) && InRange(part, DigitValue(s[0]))
      then MatchPattern(next, s[1..], Set(part, DigitValue(s[0]), d))
      else None
  }

  predicate TwoDigits(s: string) { |s| >= 2 && IsDigit(s[0]) && IsDigit(s[1]) }

  function TwoDigitValue(s: string): int
    requires TwoDigits(s)
  {
    DigitValue(s[0]) * 10 + DigitValue(s[1])
  }

  /** One to six digits, longest first; shorter fractions are padded with zeros on the right. */
  function MatchFraction(next: Pattern, s: string, d: DateTime, k: nat): Option<Match>
    requires k <= 6 && k <= DigitRun(s)
    decreases next, k + 1
  {
    if k == 0 then None
    else
      DigitRunPrefix(s, k);
      var m := MatchPattern(next, s[k..], d.(micro := NumberValue(s[..k]) * Pow10(6 - k)));
      if m.Some? then m else MatchFraction(next, s, d, k - 1)
  }

  lemma {:induction false} DigitRunPrefix(s: string, k: nat)
    requires k <= DigitRun(s)
    ensures k <= |s| && forall i :: 0 <= i < k ==> IsDigit(s[i])
  {
    if k > 0 {
      DigitRunPrefix(s[1..], k - 1);
    }
  }

  datatype ZoneMatch = ZoneMatch(minutes: int, rest: string)

  /** `Z`, or a sign, two digits of hours, an optional colon and two digits of minutes. */
  function ParseZone(s: string): Option<ZoneMatch> {
    if s != "" && s[0] == 'Z' then Some(ZoneMatch(0, s[1..]))
    else if s != "" && (s[0] == '+' || s[0] == '-') && TwoDigits(s[1..]) then
      var t := if |s| > 3 && s[3] == ':' then s[4..] else s[3..];
      if TwoDigits(t) && TwoDigitValue(t) < 60 then
        var minutes := TwoDigitValue(s[1..]) * 60 + TwoDigitValue(t);
        Some(ZoneMatch(if s[0] == '-' then -minutes else minutes, t[2..]))
      else None
    else None
  }

  /** `strptime`: the whole text must match, and the fields must form a real date. */
  function Parse(p: Pattern, s: string): (r: Option<DateTime>)
    ensures r.Some? ==> r.value.Valid()
  {
    Finish(MatchPattern(p, s, DateTime(1900, 1, 1, 0, 0, 0, 0, None)))
  }

  function Finish(m: Option<Match>): Option<DateTime> {
    if m.Some? && m.value.rest == "" && m.value.fields.Valid() then Some(m.value.fields) else None
  }

  /** A pattern that begins with the date and the clock. */
  function DatePattern(tail: Pattern): Pattern {
    Then(Year, ClockPattern(tail))
  }

  function ClockPattern(tail: Pattern): Pattern {
    Then(Lit('-'), Then(Month, Then(Lit('-'), Then(Day, Then(Lit('T'), Then(Hour,
    Then(Lit(':'), Then(Minute, Then(Lit(':'), Then(Second, tail))))))))))
  }

  /** The six formats, in the order in which they are tried. */
  function Patterns(): (ps: seq<Pattern>)
    ensures |ps| == 6
  {
    [ DatePattern(Then(Lit('.'), Then(Fraction, Then(Zone, End)))),
      DatePattern(Then(Zone, End)),
      DatePattern(Then(Lit('.'), Then(Fraction, Then(Lit('Z'), End)))),
      DatePattern(Then(Lit('.'), Then(Fraction, End))),
      DatePattern(Then(Lit('Z'), End)),
      DatePattern(End) ]
  }

  function NormalizeText(s: string, k: nat): string
    requires k <= 6
    decreases 6 - k
  {
    if k == 6 then s
    else
      var parsed := Parse(Patterns()[k], s);
      if parsed.Some? then Format(parsed.value) else NormalizeText(s, k + 1)
  }

  function Normalize(ts: Timestamp): string {
    match ts
    case Moment(d) => CutIsValid(d); Format(d.Cut())
    case Text(s) => NormalizeText(s, 0)
  }

  // ---------------------------------------------------------------- what is printed is read back

  lemma PadReads(n: int, t: string)
    requires 0 <= n < 100
    ensures TwoDigits(Pad2(n) + t) && TwoDigitValue(Pad2(n) + t) == n && (Pad2(n) + t)[2..] == t
    ensures IsDigit((Pad2(n) + t)[1]) && (Pad2(n) + t)[1..][0] == (Pad2(n) + t)[1]
  {
    var s := Pad2(n) + t;
    assert s[0] as int == 48 + n / 10 && s[1] as int == 48 + n % 10;
  }

  /** A two-digit part followed by a literal consumes exactly its two digits: the
      one-digit reading would leave a digit where the literal must be. */
  lemma PartThenLiteral(part: Part, n: int, c: char, next: Pattern, t: string, d: DateTime)
    requires TwoDigitPart(part) && 0 <= n < 100 && InRange(part, n)
    requires c in {'-', 'T', ':', '.', 'Z'}
    ensures MatchPattern(Then(part, Then(Lit(c), next)), Pad2(n) + t, d)
         == MatchPattern(Then(Lit(c), next), t, Set(part, n, d))
  {
    PadReads(n, t);
    var s := Pad2(n) + t;
    assert Lower(s[1..][0]) != Lower(c);
    assert MatchPattern(Then(Lit(c), next), s[1..], Set(part, DigitValue(s[0]), d)) == None;
  }

  lemma LiteralStep(c: char, next: Pattern, t: string, d: DateTime)
    ensures MatchPattern(Then(Lit(c), next), [c] + t, d) == MatchPattern(next, t, d)
  {
    assert ([c] + t)[1..] == t;
  }

  function ClockFields(d: DateTime, e: DateTime): DateTime {
    e.(month := d.month, day := d.day, hour := d.hour, minute := d.minute)
  }

  /** The fields from month to minute are read back; only the seconds still depend on
      what follows. */
  lemma ClockReads(d: DateTime, tail: Pattern, rest: string, e: DateTime)
    requires d.Valid()
    ensures MatchPattern(ClockPattern(tail), ClockText(d, rest), e)
         == MatchPattern(Then(Second, tail), Pad2(d.second) + rest, ClockFields(d, e))
  {
    var p5 := Then(Second, tail);
    var t5 := Pad2(d.second) + rest;
    var p4, t4 := Then(Lit(':'), p5), [':'] + t5;
    var p3, t3 := Then(Lit(':'), Then(Minute, p4)), [':'] + (Pad2(d.minute) + t4);
    var p2, t2 := Then(Lit('T'), Then(Hour, p3)), ['T'] + (Pad2(d.hour) + t3);
    var p1, t1 := Then(Lit('-'), Then(Day, p2)), ['-'] + (Pad2(d.day) + t2);
    var e1 := e.(month := d.month);
    var e2 := e1.(day := d.day);
    var e3 := e2.(hour := d.hour);
    var e4 := e3.(minute := d.minute);
    LiteralStep('-', Then(Month, p1), Pad2(d.month) + t1, e);
    PartThenLiteral(Month, d.month, '-', Then(Day, p2), t1, e);
    LiteralStep('-', Then(Day, p2), Pad2(d.day) + t2, e1);
    PartThenLiteral(Day, d.day, 'T', Then(Hour, p3), t2, e1);
    LiteralStep('T', Then(Hour, p3), Pad2(d.hour) + t3, e2);
    PartThenLiteral(Hour, d.hour, ':', Then(Minute, p4), t3, e2);
    LiteralStep(':', Then(Minute, p4), Pad2(d.minute) + t4, e3);
    PartThenLiteral(Minute, d.minute, ':', p5, t4, e3);
    LiteralStep(':', p5, t5, e4);
  }

  lemma {:induction false} DigitRunConcat(digits: string, t: string)
    requires forall i :: 0 <= i < |digits| ==> IsDigit(digits[i])
    ensures DigitRun(digits + t) == |digits| + DigitRun(t)
  {
    if digits == "" {
      assert digits + t == t;
    } else {
      assert (digits + t)[1..] == digits[1..] + t;
      DigitRunConcat(digits[1..], t);
    }
  }

  lemma NumberOfDigit(t: string, v: int)
    requires forall i :: 0 <= i < |t| ==> IsDigit(t[i])
    requires 0 <= v < 10
    ensures NumberValue(t + [DigitChar(v)]) == NumberValue(t) * 10 + v
  {
    assert (t + [DigitChar(v)])[..|t|] == t;
  }

  lemma NumberOfPad2(t: string, n: int)
    requires forall i :: 0 <= i < |t| ==> IsDigit(t[i])
    requires 0 <= n < 100
    ensures NumberValue(t + Pad2(n)) == NumberValue(t) * 100 + n
  {
    NumberOfDigit(t, n / 10);
    NumberOfDigit(t + [DigitChar(n / 10)], n % 10);
    assert t + Pad2(n) == t + [DigitChar(n / 10)] + [DigitChar(n % 10)];
  }

  lemma NumberOfPad3(t: string, n: int)
    requires forall i :: 0 <= i < |t| ==> IsDigit(t[i])
    requires 0 <= n < 1000
    ensures NumberValue(t + Pad3(n)) == NumberValue(t) * 1000 + n
    ensures forall i :: 0 <= i < 3 ==> IsDigit(Pad3(n)[i])
  {
    NumberOfDigit(t, n / 100);
    NumberOfPad2(t + [DigitChar(n / 100)], n % 100);
    assert t + Pad3(n) == t + [DigitChar(n / 100)] + Pad2(n % 100);
  }

  lemma NumberOfPad4(n: int)
    requires 0 <= n < 10000
    ensures forall i :: 0 <= i < 4 ==> IsDigit(Pad4(n)[i])
    ensures NumberValue(Pad4(n)) == n
  {
    NumberOfPad2("", n / 100);
    NumberOfPad2(Pad2(n / 100), n % 100);
    assert "" + Pad2(n / 100) == Pad2(n / 100);
  }

  lemma NumberOfPad6(n: int)
    requires 0 <= n < 1_000_000
    ensures forall i :: 0 <= i < 6 ==> IsDigit(Pad6(n)[i])
    ensures NumberValue(Pad6(n)) == n
  {
    NumberOfPad3("", n / 1000);
    NumberOfPad3(Pad3(n / 1000), n % 1000);
    assert "" + Pad3(n / 1000) == Pad3(n / 1000);
  }

  lemma YearReads(year: int, next: Pattern, t: string, d: DateTime)
    requires 1000 <= year <= 9999
    ensures MatchPattern(Then(Year, next), Pad4(year) + t, d) == MatchPattern(next, t, d.(year := year))
  {
    var s := Pad4(year) + t;
    NumberOfPad4(year);
    DigitRunConcat(Pad4(year), t);
    assert s[..4] == Pad4(year) && s[4..] == t;
  }

  /** The whole date and clock are read back, whatever pattern and text follow the seconds. */
  lemma DateReads(d: DateTime, tail: Pattern, rest: string, e: DateTime)
    requires d.Valid() && 1000 <= d.year
    ensures MatchPattern(DatePattern(tail), Pad4(d.year) + ClockText(d, rest), e)
         == MatchPattern(Then(Second, tail), Pad2(d.second) + rest, ClockFields(d, e.(year := d.year)))
  {
    YearReads(d.year, ClockPattern(tail), ClockText(d, rest), e);
    ClockReads(d, tail, rest, e.(year := d.year));
  }

  /** What can follow the seconds in one of the formats. */
  predicate FormatTail(tail: Pattern) {
    tail.End? || tail.part == Zone || tail.part == Lit('.') || tail.part == Lit('Z')
  }

  lemma SecondReads(n: int, tail: Pattern, rest: string, e: DateTime)
    requires 0 <= n < 60 && FormatTail(tail)
    ensures MatchPattern(Then(Second, tail), Pad2(n) + rest, e) == MatchPattern(tail, rest, e.(second := n))
  {
    PadReads(n, rest);
    if tail.Then? && tail.part.Lit? {
      PartThenLiteral(Second, n, tail.part.c, tail.next, rest, e);
    } else if tail.Then? {
      var s := Pad2(n) + rest;
      assert ParseZone(s[1..]) == None;
    }
  }

  /** Parsing a text that begins with a date and a clock comes down to matching the end
      of the pattern against the end of the text. */
  lemma ParseReads(d: DateTime, tail: Pattern, rest: string)
    requires d.Valid() && 1000 <= d.year && FormatTail(tail)
    ensures Parse(DatePattern(tail), Pad4(d.year) + ClockText(d, rest))
         == Finish(MatchPattern(tail, rest, d.(micro := 0, offset := None)))
  {
    var start := DateTime(1900, 1, 1, 0, 0, 0, 0, None);
    DateReads(d, tail, rest, start);
    SecondReads(d.second, tail, rest, ClockFields(d, start.(year := d.year)));
  }

  lemma NoZoneAtDigit(next: Pattern, t: string, d: DateTime)
    requires next == Then(Zone, End) || next == Then(Lit('Z'), End)
    requires t == "" || IsDigit(t[0])
    ensures MatchPattern(next, t, d) == None
  {
  }

  /** A fraction that is not followed by a zone matches neither format that wants one. */
  lemma {:induction false} FractionNeedsZone(next: Pattern, s: string, d: DateTime, k: nat)
    requires next == Then(Zone, End) || next == Then(Lit('Z'), End)
    requires k <= 6 && k <= DigitRun(s) == |s|
    ensures MatchFraction(next, s, d, k) == None
  {
    if k > 0 {
      DigitRunPrefix(s, |s|);
      DigitRunPrefix(s, k);
      NoZoneAtDigit(next, s[k..], d.(micro := NumberValue(s[..k]) * Pow10(6 - k)));
      FractionNeedsZone(next, s, d, k - 1);
    }
  }

  lemma PowersOfTen()
    ensures Pow10(0) == 1 && Pow10(3) == 1000
  {
    assert Pow10(1) == 10 && Pow10(2) == 100;
  }

  lemma Fraction6Reads(micro: int, next: Pattern, rest: string, d: DateTime)
    requires 0 <= micro < 1_000_000 && NoDigitFirst(rest)
    requires MatchPattern(next, rest, d.(micro := micro)).Some?
    ensures MatchPattern(Then(Fraction, next), Pad6(micro) + rest, d) == MatchPattern(next, rest, d.(micro := micro))
  {
    NumberOfPad6(micro);
    DigitRunConcat(Pad6(micro), rest);
    PowersOfTen();
    var s := Pad6(micro) + rest;
    assert s[..6] == Pad6(micro) && s[6..] == rest;
  }

  lemma Fraction3Reads(milli: int, next: Pattern, rest: string, d: DateTime)
    requires 0 <= milli < 1000 && NoDigitFirst(rest)
    requires MatchPattern(next, rest, d.(micro := milli * 1000)).Some?
    ensures MatchPattern(Then(Fraction, next), Pad3(milli) + rest, d)
         == MatchPattern(next, rest, d.(micro := milli * 1000))
  {
    NumberOfPad3("", milli);
    assert "" + Pad3(milli) == Pad3(milli);
    DigitRunConcat(Pad3(milli), rest);
    PowersOfTen();
    var s := Pad3(milli) + rest;
    assert s[..3] == Pad3(milli) && s[3..] == rest;
  }

  lemma YearDigits(year: int)
    requires 1000 <= year <= 9999
    ensures Digits(year) == Pad4(year)
  {
    assert Digits(year / 10 / 10 / 10) == [DigitChar(year / 10 / 10 / 10)];
    assert Digits(year / 10 / 10) == [DigitChar(year / 10 / 10 / 10), DigitChar(year / 10 / 10 % 10)];
    assert Digits(year / 10) == Digits(year / 10 / 10) + [DigitChar(year / 10 % 10)];
    assert year / 100 / 10 == year / 10 / 10 / 10 && year / 100 % 10 == year / 10 / 10 % 10;
    assert year % 100 / 10 == year / 10 % 10 && year % 100 % 10 == year % 10;
  }

  /** Reading a text back: the first of the six formats that matches gives the fields. */
  predicate ReadsAs(text: string, fields: DateTime) {
    fields.Valid() && NormalizeText(text, 0) == Format(fields)
  }

  lemma SkipFormats(text: string, k: nat)
    requires k < 6
    requires forall j :: 0 <= j < k ==> Parse(Patterns()[j], text).None?
    requires Parse(Patterns()[k], text).Some?
    ensures NormalizeText(text, 0) == Format(Parse(Patterns()[k], text).value)
  {
    SkipFormatsFrom(text, 0, k);
  }

  lemma {:induction false} SkipFormatsFrom(text: string, i: nat, k: nat)
    requires i <= k < 6
    requires forall j :: i <= j < k ==> Parse(Patterns()[j], text).None?
    requires Parse(Patterns()[k], text).Some?
    ensures NormalizeText(text, i) == Format(Parse(Patterns()[k], text).value)
    decreases k - i
  {
    if i < k {
      SkipFormatsFrom(text, i + 1, k);
    }
  }

  lemma PointMissing(d: DateTime, next: Pattern, rest: string)
    requires d.Valid() && 1000 <= d.year
    requires rest == "" || rest[0] in {'+', '-'}
    ensures Parse(DatePattern(Then(Lit('.'), next)), Pad4(d.year) + ClockText(d, rest)).None?
  {
    ParseReads(d, Then(Lit('.'), next), rest);
  }

  lemma ZoneMissing(d: DateTime, rest: string)
    requires d.Valid() && 1000 <= d.year
    requires rest == "" || rest[0] == '.'
    ensures Parse(DatePattern(Then(Zone, End)), Pad4(d.year) + ClockText(d, rest)).None?
  {
    ParseReads(d, Then(Zone, End), rest);
  }

  lemma ReadPlain(d: DateTime)
    requires d.Valid() && 1000 <= d.year
    ensures ReadsAs(Pad4(d.year) + ClockText(d, ""), d.(micro := 0, offset := None))
  {
    PointMissing(d, Then(Fraction, Then(Zone, End)), "");
    ZoneMissing(d, "");
    PointMissing(d, Then(Fraction, Then(Lit('Z'), End)), "");
    PointMissing(d, Then(Fraction, End), "");
    ParseReads(d, Then(Lit('Z'), End), "");
    ParseReads(d, End, "");
    SkipFormats(Pad4(d.year) + ClockText(d, ""), 5);
  }

  /** The same when the seconds are followed by a point, in the pattern and in the text. */
  lemma ParsePoint(d: DateTime, next: Pattern, rest: string)
    requires d.Valid() && 1000 <= d.year
    ensures Parse(DatePattern(Then(Lit('.'), next)), Pad4(d.year) + ClockText(d, ['.'] + rest))
         == Finish(MatchPattern(next, rest, d.(micro := 0, offset := None)))
  {
    ParseReads(d, Then(Lit('.'), next), ['.'] + rest);
    LiteralStep('.', next, rest, d.(micro := 0, offset := None));
  }

  lemma NoZoneAfterFraction(d: DateTime, next: Pattern)
    requires d.Valid() && 1000 <= d.year
    requires next == Then(Zone, End) || next == Then(Lit('Z'), End)
    ensures Parse(DatePattern(Then(Lit('.'), Then(Fraction, next))),
                  Pad4(d.year) + ClockText(d, ['.'] + Pad6(d.micro))).None?
  {
    ParsePoint(d, Then(Fraction, next), Pad6(d.micro));
    NumberOfPad6(d.micro);
    DigitRunConcat(Pad6(d.micro), "");
    assert Pad6(d.micro) + "" == Pad6(d.micro);
    FractionNeedsZone(next, Pad6(d.micro), d.(micro := 0, offset := None), 6);
  }

  lemma FractionParses(d: DateTime)
    requires d.Valid() && 1000 <= d.year
    ensures Parse(DatePattern(Then(Lit('.'), Then(Fraction, End))), Pad4(d.year) + ClockText(d, ['.'] + Pad6(d.micro)))
         == Some(d.(offset := None))
  {
    var e := d.(micro := 0, offset := None);
    ParsePoint(d, Then(Fraction, End), Pad6(d.micro));
    assert Pad6(d.micro) + "" == Pad6(d.micro);
    Fraction6Reads(d.micro, End, "", e);
    assert e.(micro := d.micro) == d.(offset := None);
  }

  lemma ReadFraction(d: DateTime)
    requires d.Valid() && 1000 <= d.year
    ensures ReadsAs(Pad4(d.year) + ClockText(d, ['.'] + Pad6(d.micro)), d.(offset := None))
  {
    NoZoneAfterFraction(d, Then(Zone, End));
    ZoneMissing(d, ['.'] + Pad6(d.micro));
    NoZoneAfterFraction(d, Then(Lit('Z'), End));
    FractionParses(d);
    SkipFormats(Pad4(d.year) + ClockText(d, ['.'] + Pad6(d.micro)), 3);
  }

  /** A printed offset is read back as that offset. */
  lemma ZoneReads(d: DateTime)
    requires d.Valid() && d.offset.Some?
    ensures OffsetText(d) != "" && OffsetText(d)[0] in {'+', '-'}
    ensures ParseZone(OffsetText(d)) == Some(ZoneMatch(d.offset.value, ""))
  {
    var z := OffsetText(d);
    var minutes := if d.offset.value < 0 then -d.offset.value else d.offset.value;
    var tail := [':'] + Pad2(minutes % 60);
    assert z[1..] == Pad2(minutes / 60) + tail && z[3] == ':' && z[4..] == Pad2(minutes % 60) + "";
    PadReads(minutes / 60, tail);
    PadReads(minutes % 60, "");
    assert minutes / 60 * 60 + minutes % 60 == minutes;
  }

  lemma ReadZoned(d: DateTime)
    requires d.Valid() && 1000 <= d.year && d.offset.Some?
    ensures ReadsAs(Pad4(d.year) + ClockText(d, OffsetText(d)), d.(micro := 0))
  {
    ZoneReads(d);
    PointMissing(d, Then(Fraction, Then(Zone, End)), OffsetText(d));
    ParseReads(d, Then(Zone, End), OffsetText(d));
    SkipFormats(Pad4(d.year) + ClockText(d, OffsetText(d)), 1);
  }

  lemma ReadZonedFraction(d: DateTime)
    requires d.Valid() && 1000 <= d.year && d.offset.Some?
    ensures ReadsAs(Pad4(d.year) + ClockText(d, ['.'] + (Pad6(d.micro) + OffsetText(d))), d)
  {
    ZoneReads(d);
    var e := d.(micro := 0, offset := None);
    ParsePoint(d, Then(Fraction, Then(Zone, End)), Pad6(d.micro) + OffsetText(d));
    Fraction6Reads(d.micro, Then(Zone, End), OffsetText(d), e);
    assert e.(micro := d.micro, offset := d.offset) == d;
    SkipFormats(Pad4(d.year) + ClockText(d, ['.'] + (Pad6(d.micro) + OffsetText(d))), 0);
  }

  lemma FormatText(d: DateTime)
    requires d.Valid() && 1000 <= d.year
    ensures Format(d) == Pad4(d.year) + ClockText(d, ['.'] + (Pad3(d.micro / 1000) + ['Z']))
  {
    YearDigits(d.year);
  }

  lemma MillisecondsParse(d: DateTime)
    requires d.Valid() && 1000 <= d.year
    ensures MatchPattern(Then(Fraction, Then(Zone, End)), Pad3(d.micro / 1000) + ['Z'], d.(micro := 0, offset := None))
         == Some(Match(d.Cut().(offset := Some(0)), ""))
  {
    assert ['Z'][1..] == "";
    CutIsValid(d);
    Fraction3Reads(d.micro / 1000, Then(Zone, End), ['Z'], d.(micro := 0, offset := None));
  }

  lemma CanonicalParses(d: DateTime)
    requires d.Valid() && 1000 <= d.year
    ensures Parse(Patterns()[0], Format(d)) == Some(d.Cut().(offset := Some(0)))
  {
    FormatText(d);
    CutIsValid(d);
    ParsePoint(d, Then(Fraction, Then(Zone, End)), Pad3(d.micro / 1000) + ['Z']);
    MillisecondsParse(d);
  }

  lemma ReadNormal(d: DateTime)
    requires d.Valid() && 1000 <= d.year
    ensures ReadsAs(Format(d), d.Cut().(offset := Some(0)))
  {
    CutIsValid(d);
    CanonicalParses(d);
    SkipFormats(Format(d), 0);
  }

  // ---------------------------------------------------------------- main results

  /** Only the wall clock to the millisecond is printed. */
  lemma FormatDependsOn(d: DateTime, e: DateTime)
    requires d.Valid() && e.Valid()
    requires e == d.(micro := e.micro, offset := e.offset) && d.micro / 1000 == e.micro / 1000
    ensures Format(d) == Format(e)
  {
  }

  lemma ReadsSame(text: string, read: DateTime, d: DateTime)
    requires ReadsAs(text, read) && d.Valid()
    requires read == d.(micro := read.micro, offset := read.offset) && read.micro / 1000 == d.micro / 1000
    ensures Normalize(Text(text)) == Normalize(Moment(d))
  {
    CutIsValid(d);
    FormatDependsOn(read, d.Cut());
  }

  /** The canonical string does not depend on how the instant is represented: fresh and
      aware, stored, exported as text with or without a fraction or zone, or already
      canonical. */
  lemma NormalizeIsInvariant(d: DateTime)
    requires d.Valid() && d.Utc() && 1000 <= d.year
    ensures d.Stored().Valid() && d.Stored().Utc()
    ensures Normalize(Moment(d.Stored())) == Normalize(Moment(d))
    ensures Normalize(Text(IsoFormat(d))) == Normalize(Moment(d))
    ensures Normalize(Text(IsoFormat(d.Stored()))) == Normalize(Moment(d))
    ensures Normalize(Text(Normalize(Moment(d)))) == Normalize(Moment(d))
  {
    CutIsValid(d);
    StoredNormalizes(d);
    IsoReadsBack(d);
    IsoReadsBack(d.Stored());
    CanonicalReadsBack(d);
  }

  lemma StoredNormalizes(d: DateTime)
    requires d.Valid()
    ensures Normalize(Moment(d.Stored())) == Normalize(Moment(d))
  {
    CutIsValid(d);
    CutIsValid(d.Stored());
    FormatDependsOn(d.Stored().Cut(), d.Cut());
  }

  lemma CanonicalReadsBack(d: DateTime)
    requires d.Valid() && 1000 <= d.year
    ensures Normalize(Text(Normalize(Moment(d)))) == Normalize(Moment(d))
  {
    CutIsValid(d);
    ReadNormal(d);
    FormatDependsOn(d, d.Cut());
    ReadsSame(Format(d), d.Cut().(offset := Some(0)), d);
  }

  lemma IsoTail(d: DateTime)
    requires d.Valid()
    ensures d.micro == 0 ==> IsoFormat(d) == Pad4(d.year) + ClockText(d, OffsetText(d))
    ensures d.micro != 0 ==> IsoFormat(d) == Pad4(d.year) + ClockText(d, ['.'] + (Pad6(d.micro) + OffsetText(d)))
  {
    assert "" + OffsetText(d) == OffsetText(d);
    assert ['.'] + Pad6(d.micro) + OffsetText(d) == ['.'] + (Pad6(d.micro) + OffsetText(d));
  }

  /** ISO text, naive or with any offset, with a fraction or without, normalises like the
      time it was printed from. */
  lemma IsoReadsBack(d: DateTime)
    requires d.Valid() && 1000 <= d.year
    ensures Normalize(Text(IsoFormat(d))) == Normalize(Moment(d))
  {
    IsoTail(d);
    if d.offset.None? {
      assert ['.'] + (Pad6(d.micro) + "") == ['.'] + Pad6(d.micro);
      if d.micro == 0 { ReadPlain(d); } else { ReadFraction(d); }
      ReadsSame(IsoFormat(d), d, d);
    } else {
      if d.micro == 0 { ReadZoned(d); } else { ReadZonedFraction(d); }
      ReadsSame(IsoFormat(d), d, d);
    }
  }

  lemma FormatInjective(d: DateTime, e: DateTime)
    requires d.Valid() && e.Valid() && 1000 <= d.year && 1000 <= e.year
    requires Format(d) == Format(e)
    ensures e == d.(micro := e.micro, offset := e.offset) && d.micro / 1000 == e.micro / 1000
  {
    CutIsValid(d);
    CutIsValid(e);
    CanonicalParses(d);
    CanonicalParses(e);
  }

  // ---------------------------------------------------------------- where the fields stand

  /** Two digits at a place of a text, and their value. */
  predicate Shows2(text: string, at: nat, n: int) {
    |text| >= at + 2 && IsDigit(text[at]) && IsDigit(text[at + 1]) && NumberValue(text[at..at + 2]) == n
  }

  /** The date and the clock as `%Y-%m-%dT%H:%M:%S` has them. */
  predicate ShowsClock(text: string, d: DateTime) {
    && |text| >= 19 && (forall i :: 0 <= i < 4 ==> IsDigit(text[i])) && NumberValue(text[..4]) == d.year
    && text[4] == '-' && Shows2(text, 5, d.month) && text[7] == '-' && Shows2(text, 8, d.day)
    && text[10] == 'T' && Shows2(text, 11, d.hour) && text[13] == ':' && Shows2(text, 14, d.minute)
    && text[16] == ':' && Shows2(text, 17, d.second)
  }

  lemma OneAt(text: string, at: nat, c: char, rest: string)
    requires at <= |text| && text[at..] == [c] + rest
    ensures at < |text| && text[at] == c && text[at + 1..] == rest
  {
    assert text[at] == text[at..][0] && text[at + 1..] == text[at..][1..];
  }

  lemma SomeAt(text: string, at: nat, part: string, rest: string)
    requires at <= |text| && text[at..] == part + rest
    ensures at + |part| <= |text| && text[at..at + |part|] == part && text[at + |part|..] == rest
  {
    assert |text[at..]| == |text| - at;
    assert text[at..at + |part|] == text[at..][..|part|] && text[at + |part|..] == text[at..][|part|..];
  }

  lemma TwoAt(text: string, at: nat, n: int, rest: string)
    requires 0 <= n < 100 && at <= |text| && text[at..] == Pad2(n) + rest
    ensures Shows2(text, at, n) && text[at + 2..] == rest
  {
    SomeAt(text, at, Pad2(n), rest);
    NumberOfPad2("", n);
    assert "" + Pad2(n) == Pad2(n);
    assert text[at] == Pad2(n)[0] && text[at + 1] == Pad2(n)[1];
  }

  lemma ClockShows(d: DateTime, rest: string)
    requires d.Valid()
    ensures var text := Pad4(d.year) + ClockText(d, rest); ShowsClock(text, d) && text[19..] == rest
  {
    hide Pad2, Pad4, NumberValue, Shows2;
    var t9 := Pad2(d.second) + rest;
    var t8 := Pad2(d.minute) + ([':'] + t9);
    var t7 := Pad2(d.hour) + ([':'] + t8);
    var t6 := Pad2(d.day) + (['T'] + t7);
    var t5 := Pad2(d.month) + (['-'] + t6);
    var text := Pad4(d.year) + (['-'] + t5);
    assert ClockText(d, rest) == ['-'] + t5;
    NumberOfPad4(d.year);
    assert text[0..] == text;
    SomeAt(text, 0, Pad4(d.year), ['-'] + t5);
    assert forall i :: 0 <= i < 4 ==> text[i] == Pad4(d.year)[i];
    OneAt(text, 4, '-', t5);
    TwoAt(text, 5, d.month, ['-'] + t6);
    OneAt(text, 7, '-', t6);
    TwoAt(text, 8, d.day, ['T'] + t7);
    OneAt(text, 10, 'T', t7);
    TwoAt(text, 11, d.hour, [':'] + t8);
    OneAt(text, 13, ':', t8);
    TwoAt(text, 14, d.minute, [':'] + t9);
    OneAt(text, 16, ':', t9);
    TwoAt(text, 17, d.second, rest);
  }

  predicate AllDigits(s: string) { forall i :: 0 <= i < |s| ==> IsDigit(s[i]) }

  /** A point and the digits of a fraction. */
  predicate ShowsFraction(text: string, at: nat, digits: nat, n: int) {
    && |text| >= at + 1 + digits && text[at] == '.'
    && AllDigits(text[at + 1..at + 1 + digits]) && NumberValue(text[at + 1..at + 1 + digits]) == n
  }

  lemma FractionShows(text: string, at: nat, digits: string, n: int)
    requires |text| >= at + 1 + |digits| && text[at] == '.' && text[at + 1..at + 1 + |digits|] == digits
    requires AllDigits(digits) && NumberValue(digits) == n
    ensures ShowsFraction(text, at, |digits|, n)
  {
  }

  /** The canonical string, field by field: `YYYY-MM-DDTHH:MM:SS.fffZ`, cut to milliseconds. */
  lemma NormalShows(d: DateTime)
    requires d.Valid() && 1000 <= d.year
    ensures var text := Normalize(Moment(d));
            |text| == 24 && ShowsClock(text, d) && ShowsFraction(text, 19, 3, d.micro / 1000) && text[23] == 'Z'
  {
    CutIsValid(d);
    var c := d.Cut();
    var rest := ['.'] + (Pad3(c.micro / 1000) + ['Z']);
    FormatText(c);
    ClockShows(c, rest);
    NumberOfPad3("", c.micro / 1000);
    assert "" + Pad3(c.micro / 1000) == Pad3(c.micro / 1000);
    var text := Normalize(Moment(d));
    hide Format, ShowsClock, ShowsFraction, Pad3, NumberValue;
    OneAt(text, 19, '.', Pad3(c.micro / 1000) + ['Z']);
    SomeAt(text, 20, Pad3(c.micro / 1000), ['Z']);
    FractionShows(text, 19, Pad3(c.micro / 1000), c.micro / 1000);
    OneAt(text, 23, 'Z', "");
  }

  /** A sign, hours and minutes of an offset. */
  predicate ShowsOffset(text: string, at: nat, offset: int) {
    && |text| == at + 6 && text[at] == (if offset < 0 then '-' else '+') && text[at + 3] == ':'
    && Shows2(text, at + 1, (if offset < 0 then -offset else offset) / 60)
    && Shows2(text, at + 4, (if offset < 0 then -offset else offset) % 60)
  }

  /** ISO text, field by field: a fraction only if there is one, then the offset, if any. */
  lemma IsoShows(d: DateTime)
    requires d.Valid()
    ensures var text, zone := IsoFormat(d), if d.micro == 0 then 19 else 26;
            && ShowsClock(text, d) && (d.micro != 0 ==> ShowsFraction(text, 19, 6, d.micro))
            && (if d.offset.None? then |text| == zone else ShowsOffset(text, zone, d.offset.value))
  {
    hide ClockText, ShowsClock, Pad6, NumberValue, OffsetText, ShowsOffset, ShowsFraction;
    ClockShows(d, IsoFraction(d) + OffsetText(d));
    assert |IsoFormat(d)| >= 19 by { IsoEnds(d); }
    var text, zone := IsoFormat(d), 19 + |IsoFraction(d)|;
    SomeAt(text, 19, IsoFraction(d), OffsetText(d));
    if d.micro != 0 {
      assert text[19..] == ['.'] + (Pad6(d.micro) + OffsetText(d));
      NumberOfPad6(d.micro);
      OneAt(text, 19, '.', Pad6(d.micro) + OffsetText(d));
      SomeAt(text, 20, Pad6(d.micro), OffsetText(d));
      FractionShows(text, 19, Pad6(d.micro), d.micro);
    }
    if d.offset.Some? { OffsetShows(d, text, zone); }
    IsoEnds(d);
  }

  /** The other form has a space where this one has a `T`. */
  lemma StrShows(d: DateTime)
    requires d.Valid()
    ensures var iso, text := IsoFormat(d), StrFormat(d);
            && |text| == |iso| > 10 && text[10] == ' '
            && forall i :: 0 <= i < |iso| && i != 10 ==> text[i] == iso[i]
  {
    IsoEnds(d);
    hide IsoFormat;
  }

  lemma OffsetShows(d: DateTime, text: string, at: nat)
    requires d.Valid() && d.offset.Some? && at <= |text| && text[at..] == OffsetText(d)
    ensures ShowsOffset(text, at, d.offset.value)
  {
    hide Pad2, Shows2;
    var minutes := if d.offset.value < 0 then -d.offset.value else d.offset.value;
    var tail := [':'] + Pad2(minutes % 60);
    OneAt(text, at, if d.offset.value < 0 then '-' else '+', Pad2(minutes / 60) + tail);
    TwoAt(text, at + 1, minutes / 60, tail);
    OneAt(text, at + 3, ':', Pad2(minutes % 60));
    assert Pad2(minutes % 60) + "" == Pad2(minutes % 60);
    TwoAt(text, at + 4, minutes % 60, "");
  }

  /** Storage cuts to whole milliseconds and drops the zone, and nothing else. */
  lemma StoredMeans(d: DateTime)
    requires d.Valid()
    ensures var s := d.Stored();
            && s.offset == None && s == d.(micro := s.micro, offset := None)
            && s.micro % 1000 == 0 && s.micro <= d.micro < s.micro + 1000
  {
  }

  /** A text that none of the six formats matches is left as it is; for example the empty one. */
  lemma UnreadableStays(text: string)
    ensures (forall k :: 0 <= k < 6 ==> Parse(Patterns()[k], text).None?) ==> Normalize(Text(text)) == text
    ensures Normalize(Text("")) == ""
  {
    if forall k :: 0 <= k < 6 ==> Parse(Patterns()[k], text).None? {
      UnreadableFrom(text, 0);
    }
    forall k | 0 <= k < 6 ensures Parse(Patterns()[k], "").None? {}
    UnreadableFrom("", 0);
  }

  lemma {:induction false} UnreadableFrom(text: string, i: nat)
    requires i <= 6 && forall k :: i <= k < 6 ==> Parse(Patterns()[k], text).None?
    ensures NormalizeText(text, i) == text
    decreases 6 - i
  {
    if i < 6 { UnreadableFrom(text, i + 1); }
  }

  /** A zone may be written without the colon, or as `Z`; and letters are read in either case. */
  lemma OtherSpellings(hours: int, minutes: int, rest: string, c: char, next: Pattern, d: DateTime)
    requires 0 <= hours < 100 && 0 <= minutes < 60
    ensures ParseZone(['+'] + (Pad2(hours) + (Pad2(minutes) + rest))) == Some(ZoneMatch(hours * 60 + minutes, rest))
    ensures ParseZone(['-'] + (Pad2(hours) + (Pad2(minutes) + rest))) == Some(ZoneMatch(-(hours * 60 + minutes), rest))
    ensures ParseZone(['Z'] + rest) == Some(ZoneMatch(0, rest))
    ensures forall m :: 60 <= m < 100 ==> ParseZone(['+'] + (Pad2(hours) + (Pad2(m) + rest))) == None
    ensures MatchPattern(Then(Lit('T'), next), ['t'] + rest, d) == MatchPattern(next, rest, d)
  {
    PadReads(hours, Pad2(minutes) + rest);
    PadReads(minutes, rest);
    var body := Pad2(hours) + (Pad2(minutes) + rest);
    assert (['+'] + body)[1..] == body && (['-'] + body)[1..] == body;
    assert (['+'] + body)[3..] == body[2..] == Pad2(minutes) + rest && (['-'] + body)[3..] == body[2..];
    assert (['Z'] + rest)[1..] == rest && (['t'] + rest)[1..] == rest;
    forall m | 60 <= m < 100 ensures ParseZone(['+'] + (Pad2(hours) + (Pad2(m) + rest))) == None {
      PadReads(hours, Pad2(m) + rest);
      PadReads(m, rest);
      var odd := Pad2(hours) + (Pad2(m) + rest);
      assert (['+'] + odd)[1..] == odd && (['+'] + odd)[3..] == odd[2..] == Pad2(m) + rest;
    }
  }

  /** The calendar: a leap day every fourth year, but not in three of four full centuries. */
  lemma CalendarIsGregorian(year: int)
    ensures DaysInMonth(year, 2) == 29 <==> year % 400 == 0 || (year % 4 == 0 && year % 100 != 0)
    ensures DaysInMonth(year, 2) in {28, 29}
    ensures forall m :: m in {1, 3, 5, 7, 8, 10, 12} ==> DaysInMonth(year, m) == 31
    ensures forall m :: m in {4, 6, 9, 11} ==> DaysInMonth(year, m) == 30
  {
  }

  // ---------------------------------------------------------------- offsets other than zero

  /** Minutes from the start of the calendar, for a numbering of the days. */
  function UtcMinutes(day: (int, int, int) -> int, d: DateTime): int {
    day(d.year, d.month, d.day) * 1440 + d.hour * 60 + d.minute - d.offset.GetOr(0)
  }

  /** A numbering that tells real days apart. */
  ghost predicate NumbersDays(day: (int, int, int) -> int) {
    forall d: RealTime, e: RealTime ::
      day(d.year, d.month, d.day) == day(e.year, e.month, e.day) ==>
        d.year == e.year && d.month == e.month && d.day == e.day
  }

  /** The offset is ignored: two texts with one canonical string name one instant if and
      only if they have the same offset. */
  lemma OffsetsAreNotApplied(day: (int, int, int) -> int, d: DateTime, e: DateTime)
    requires d.Valid() && e.Valid() && 1000 <= d.year && 1000 <= e.year
    requires Normalize(Text(IsoFormat(d))) == Normalize(Text(IsoFormat(e)))
    ensures UtcMinutes(day, d) == UtcMinutes(day, e) <==> d.offset.GetOr(0) == e.offset.GetOr(0)
  {
    hide Format, IsoFormat, NormalizeText;
    IsoReadsBack(d);
    IsoReadsBack(e);
    CutIsValid(d);
    CutIsValid(e);
    FormatInjective(d.Cut(), e.Cut());
  }

  /** And two texts that name one instant, to the millisecond, get one canonical string if
      and only if they have the same offset. */
  lemma OneInstantOneStringIff(day: (int, int, int) -> int, d: DateTime, e: DateTime)
    requires NumbersDays(day) && d.Valid() && e.Valid() && 1000 <= d.year && 1000 <= e.year
    requires UtcMinutes(day, d) == UtcMinutes(day, e) && d.second == e.second && d.micro / 1000 == e.micro / 1000
    ensures Normalize(Text(IsoFormat(d))) == Normalize(Text(IsoFormat(e)))
       <==> d.offset.GetOr(0) == e.offset.GetOr(0)
  {
    hide Format, IsoFormat, NormalizeText;
    IsoReadsBack(d);
    IsoReadsBack(e);
    CutIsValid(d);
    CutIsValid(e);
    if Normalize(Text(IsoFormat(d))) == Normalize(Text(IsoFormat(e))) {
      OffsetsAreNotApplied(day, d, e);
    } else if d.offset.GetOr(0) == e.offset.GetOr(0) {
      SameMinuteSameClock(day, d, e);
      FormatDependsOn(d.Cut(), e.Cut());
    }
  }

  lemma SameMinuteSameClock(day: (int, int, int) -> int, d: DateTime, e: DateTime)
    requires NumbersDays(day) && d.Valid() && e.Valid()
    requires UtcMinutes(day, d) == UtcMinutes(day, e) && d.offset.GetOr(0) == e.offset.GetOr(0)
    ensures d.year == e.year && d.month == e.month && d.day == e.day && d.hour == e.hour && d.minute == e.minute
  {
    var m, n := d.hour * 60 + d.minute, e.hour * 60 + e.minute;
    assert 0 <= m < 1440 && 0 <= n < 1440;
    assert day(d.year, d.month, d.day) == day(e.year, e.month, e.day);
  }

  /** Texts that differ in the offset only. */
  lemma OtherOffsetOtherText(d: DateTime, o: Option<int>)
    requires d.Valid() && d.(offset := o).Valid() && o != d.offset
    ensures IsoFormat(d.(offset := o)) != IsoFormat(d)
  {
    hide OffsetText, IsoFormat;
    var e := d.(offset := o);
    IsoEnds(d);
    IsoEnds(e);
    if d.offset.Some? { ZoneReads(d); }
    if o.Some? { ZoneReads(e); }
    assert d.offset.None? || o.None? || OffsetText(d) != OffsetText(e);
  }

  /** The offset stands last, after a part that does not depend on it. */
  lemma IsoEnds(d: DateTime)
    requires d.Valid()
    ensures var n := 19 + |IsoFraction(d)|;
            |IsoFormat(d)| == n + |OffsetText(d)| && IsoFormat(d)[n..] == OffsetText(d)
    ensures d.offset.None? <==> OffsetText(d) == ""
  {
  }

  /** So the offset of a timestamp text can be changed without changing what is hashed. */
  lemma OffsetDoesNotMatter(d: DateTime, o: Option<int>)
    requires d.Valid() && d.(offset := o).Valid() && 1000 <= d.year
    ensures Normalize(Text(IsoFormat(d.(offset := o)))) == Normalize(Text(IsoFormat(d)))
  {
    hide Format, IsoFormat, NormalizeText;
    var e := d.(offset := o);
    IsoReadsBack(d);
    IsoReadsBack(e);
    CutIsValid(d);
    CutIsValid(e);
    FormatDependsOn(d.Cut(), e.Cut());
  }

  /** Noon in Cairo and ten o'clock in Greenwich: one instant, two canonical strings. */
  lemma OneInstantTwoStrings(day: (int, int, int) -> int)
    ensures var d, e := DateTime(2026, 1, 1, 12, 0, 0, 0, Some(120)), DateTime(2026, 1, 1, 10, 0, 0, 0, Some(0));
            && IsoFormat(d) == "2026-01-01T12:00:00+02:00" && IsoFormat(e) == "2026-01-01T10:00:00+00:00"
            && UtcMinutes(day, d) == UtcMinutes(day, e)
            && Normalize(Text(IsoFormat(d))) != Normalize(Text(IsoFormat(e)))
  {
    var d, e := DateTime(2026, 1, 1, 12, 0, 0, 0, Some(120)), DateTime(2026, 1, 1, 10, 0, 0, 0, Some(0));
    NoonInCairo();
    TenInGreenwich();
    if Normalize(Text(IsoFormat(d))) == Normalize(Text(IsoFormat(e))) {
      OffsetsAreNotApplied(day, d, e);
    }
  }

  /** What follows the date on the hour. */
  lemma OnTheHour(d: DateTime, hour: string, zone: string)
    requires d.Valid() && d.minute == 0 && d.second == 0 && d.micro == 0
    requires hour == Pad2(d.hour) && zone == OffsetText(d)
    ensures ClockText(d, IsoFraction(d) + OffsetText(d))
         == ['-'] + (Pad2(d.month) + (['-'] + (Pad2(d.day) + (['T'] + (hour + ":00:00" + zone)))))
  {
    assert Pad2(0) == "00" && "" + zone == zone;
    assert hour + ([':'] + ("00" + ([':'] + ("00" + zone)))) == hour + ":00:00" + zone;
  }

  lemma OnNewYear(d: DateTime, tail: string)
    requires d.Valid() && d.year == 2026 && d.month == 1 && d.day == 1
    requires ClockText(d, IsoFraction(d) + OffsetText(d))
          == ['-'] + (Pad2(d.month) + (['-'] + (Pad2(d.day) + (['T'] + tail))))
    ensures IsoFormat(d) == "2026-01-01T" + tail
  {
    hide ClockText;
    assert Pad2(1) == "01" && Pad2(20) == "20" && Pad2(26) == "26";
    assert Pad4(2026) == "2026";
    assert "2026" + (['-'] + ("01" + (['-'] + ("01" + (['T'] + tail))))) == "2026-01-01T" + tail;
  }

  lemma NoonInCairo()
    ensures IsoFormat(DateTime(2026, 1, 1, 12, 0, 0, 0, Some(120))) == "2026-01-01T12:00:00+02:00"
  {
    hide ClockText, IsoFormat;
    var d := DateTime(2026, 1, 1, 12, 0, 0, 0, Some(120));
    assert Pad2(12) == "12" && OffsetText(d) == "+02:00";
    OnTheHour(d, "12", "+02:00");
    assert "12" + ":00:00" + "+02:00" == "12:00:00+02:00";
    OnNewYear(d, "12:00:00+02:00");
    assert "2026-01-01T" + "12:00:00+02:00" == "2026-01-01T12:00:00+02:00";
  }

  lemma TenInGreenwich()
    ensures IsoFormat(DateTime(2026, 1, 1, 10, 0, 0, 0, Some(0))) == "2026-01-01T10:00:00+00:00"
  {
    hide ClockText, IsoFormat;
    var d := DateTime(2026, 1, 1, 10, 0, 0, 0, Some(0));
    assert Pad2(10) == "10" && OffsetText(d) == "+00:00";
    OnTheHour(d, "10", "+00:00");
    assert "10" + ":00:00" + "+00:00" == "10:00:00+00:00";
    OnNewYear(d, "10:00:00+00:00");
    assert "2026-01-01T" + "10:00:00+00:00" == "2026-01-01T10:00:00+00:00";
  }
}
