/**
 The canonical text that is fed to SHA-256: JSON with sorted keys, ASCII only, and the
 separators `", "` and `": "`.  The point of the module is that the text is uniquely
 readable: two different values never have the same text, not even as prefixes of longer
 texts.  A hash collision between two entries is therefore a collision of SHA-256 itself.
 */
module CanonicalJson {

  datatype Json =
    | Null
    | Bool(b: bool)
    | Number(n: int)
    | Str(s: string)
    | Array(items: Items)
    | Object(members: Members)

  datatype Items = NoItems | Item(head: Json, tail: Items)

  /** Members are listed in the order in which they are printed, that is, by sorted key. */
  datatype Members = NoMembers | Member(key: string, value: Json, rest: Members)

  // ---------------------------------------------------------------- printing

  function Dumps(j: Json): string {
    match j
    case Null => "null"
    case Bool(b) => if b then "true" else "false"
    case Number(n) => Decimal(n)
    case Str(s) => Quote(s)
    case Array(items) => "[" + DumpItems(items)
    case Object(members) => "{" + DumpMembers(members)
  }

  function DumpItems(items: Items): string {
    match items
    case NoItems => "]"
    case Item(head, NoItems) => Dumps(head) + "]"
    case Item(head, tail) => Dumps(head) + (", " + DumpItems(tail))
  }

  function DumpMembers(members: Members): string {
    match members
    case NoMembers => "}"
    case Member(key, value, NoMembers) => Quote(key) + (": " + (Dumps(value) + "}"))
    case Member(key, value, rest) => Quote(key) + (": " + (Dumps(value) + (", " + DumpMembers(rest))))
  }

  function DigitChar(d: nat): (c: char)
    requires d < 16
  {
    if d < 10 then ('0' as int + d) as char else ('a' as int + d - 10) as char
  }

  predicate IsDigit(c: char) { '0' <= c <= '9' }

  function Digits(n: nat): string {
    if n < 10 then [DigitChar(n)] else Digits(n / 10) + [DigitChar(n % 10)]
  }

  function Decimal(n: int): string {
    if n < 0 then "-" + Digits(-n) else Digits(n)
  }

  function Hex4(n: nat): (s: string)
    requires n < 0x10000
    ensures |s| == 4
  {
    [DigitChar(n / 16 / 16 / 16), DigitChar(n / 16 / 16 % 16), DigitChar(n / 16 % 16), DigitChar(n % 16)]
  }

  /** A character outside printable ASCII becomes one `\u` escape, or two when it lies
      outside the basic plane (a surrogate pair). */
  function Escape(c: char): string {
    var n := c as int;
    if c == '\\' then "\\\\"
    else if c == '"' then "\\\""
    else if c == '\n' then "\\n"
    else if c == '\r' then "\\r"
    else if c == '\t' then "\\t"
    else if n == 12 then "\\f"
    else if n == 8 then "\\b"
    else if 32 <= n <= 126 then [c]
    else if n < 0x10000 then "\\u" + Hex4(n)
    else "\\u" + (Hex4(HighSurrogate(n)) + ("\\u" + Hex4(LowSurrogate(n))))
  }

  function HighSurrogate(n: nat): (u: nat)
    requires 0x10000 <= n < 0x110000
    ensures 0xD800 <= u < 0xDC00
  {
    0xD800 + (n - 0x10000) / 0x400
  }

  function LowSurrogate(n: nat): (u: nat)
    requires 0x10000 <= n < 0x110000
    ensures 0xDC00 <= u < 0xE000
  {
    0xDC00 + (n - 0x10000) % 0x400
  }

  /** The body of a string literal up to and including the closing quote. */
  function QuoteTail(s: string): string {
    if s == "" then "\"" else Escape(s[0]) + QuoteTail(s[1..])
  }

  function Quote(s: string): string { "\"" + QuoteTail(s) }

  // ---------------------------------------------------------------- what the text looks like

  function DigitValue(c: char): (v: int)
    requires IsDigit(c)
    ensures 0 <= v < 10
  {
    c as int - '0' as int
  }

  function NumberValue(s: string): (v: nat)
    requires forall i :: 0 <= i < |s| ==> IsDigit(s[i])
  {
    if s == "" then 0 else NumberValue(s[..|s| - 1]) * 10 + DigitValue(s[|s| - 1])
  }

  /** Numbers are written in base ten, without leading zeros. */
  lemma {:induction false} DigitsReadBack(n: nat)
    ensures forall i :: 0 <= i < |Digits(n)| ==> IsDigit(Digits(n)[i])
    ensures NumberValue(Digits(n)) == n && (n > 0 ==> Digits(n)[0] != '0') && (n == 0 ==> Digits(n) == "0")
  {
    if n < 10 {
      assert Digits(n)[..0] == "";
    } else {
      DigitsReadBack(n / 10);
      assert Digits(n)[..|Digits(n)| - 1] == Digits(n / 10);
    }
  }

  lemma DecimalMeans(n: int)
    ensures Decimal(n) == if n >= 0 then Digits(n) else "-" + Digits(-n)
  {
  }

  /** The value of a lower-case hexadecimal digit. */
  function HexDigitValue(c: char): int {
    if IsDigit(c) then c as int - '0' as int else if 'a' <= c <= 'f' then c as int - 'a' as int + 10 else -1
  }

  function HexValue(s: string): int
    requires |s| == 4
  {
    HexDigitValue(s[0]) * 4096 + HexDigitValue(s[1]) * 256 + HexDigitValue(s[2]) * 16 + HexDigitValue(s[3])
  }

  lemma DigitCharMeans(d: nat)
    requires d < 16
    ensures HexDigitValue(DigitChar(d)) == d
  {
    assert DigitChar(d) as int == if d < 10 then 48 + d else 87 + d;
  }

  lemma Hex4ReadsBack(n: nat)
    requires n < 0x10000
    ensures HexValue(Hex4(n)) == n && forall i :: 0 <= i < 4 ==> HexDigitValue(Hex4(n)[i]) >= 0
  {
    DigitCharMeans(n / 16 / 16 / 16);
    DigitCharMeans(n / 16 / 16 % 16);
    DigitCharMeans(n / 16 % 16);
    DigitCharMeans(n % 16);
  }

  /** The escapes, as section 7 of RFC 8259 gives them: printable ASCII stands for itself but
      for the quote and the backslash; five control characters have short forms; any other
      character is the hexadecimal number of its UTF-16 code unit, or of its surrogate pair. */
  lemma EscapeMeans(c: char)
    ensures ' ' <= c <= '~' && c != '"' && c != '\\' ==> Escape(c) == [c]
    ensures Escape('"') == ['\\', '"'] && Escape('\\') == ['\\', '\\']
    ensures Escape('\n') == "\\n" && Escape('\r') == "\\r" && Escape('\t') == "\\t"
    ensures Escape(8 as char) == "\\b" && Escape(12 as char) == "\\f"
    ensures UnicodeEscaped(c) && c as int < 0x10000 ==>
              |Escape(c)| == 6 && Escape(c)[..2] == "\\u" && HexValue(Escape(c)[2..]) == c as int
    ensures UnicodeEscaped(c) && c as int >= 0x10000 ==> IsPairFor(Escape(c), c as int)
  {
    if UnicodeEscaped(c) {
      if c as int < 0x10000 { OneUnit(c); } else { TwoUnits(c); }
    }
  }

  predicate IsPairFor(text: string, n: int) {
    && |text| == 12 && text[..2] == "\\u" && text[6..8] == "\\u"
    && var high, low := HexValue(text[2..6]), HexValue(text[8..]);
       && 0xD800 <= high < 0xDC00 <= low < 0xE000
       && n == 0x10000 + (high - 0xD800) * 0x400 + (low - 0xDC00)
  }

  lemma OneUnit(c: char)
    requires UnicodeEscaped(c) && c as int < 0x10000
    ensures |Escape(c)| == 6 && Escape(c)[..2] == "\\u" && HexValue(Escape(c)[2..]) == c as int
  {
    hide HexValue, Hex4;
    Hex4ReadsBack(c as int);
    assert Escape(c) == "\\u" + Hex4(c as int);
    assert Escape(c)[2..] == Hex4(c as int);
  }

  lemma TwoUnits(c: char)
    requires UnicodeEscaped(c) && c as int >= 0x10000
    ensures IsPairFor(Escape(c), c as int)
  {
    hide HexValue, Hex4;
    var n := c as int;
    var high, low := Hex4(HighSurrogate(n)), Hex4(LowSurrogate(n));
    Hex4ReadsBack(HighSurrogate(n));
    Hex4ReadsBack(LowSurrogate(n));
    var text := Escape(c);
    assert text == "\\u" + (high + ("\\u" + low));
    assert text[2..6] == high && text[8..] == low && text[6..8] == "\\u" && text[..2] == "\\u";
    assert (n - 0x10000) / 0x400 * 0x400 + (n - 0x10000) % 0x400 == n - 0x10000;
  }

  /** The text of a string is its escaped characters between quotes. */
  lemma {:induction false} QuoteMeans(s: string, t: string)
    ensures Quote("") == ['"', '"']
    ensures |s| == 1 ==> Quote(s) == ['"'] + Escape(s[0]) + ['"']
    ensures Quote(s + t) == Quote(s)[..|Quote(s)| - 1] + Quote(t)[1..]
  {
    hide Escape;
    assert QuoteTail("") == "\"";
    if |s| == 1 { assert s[1..] == ""; }
    QuoteTailConcat(s, t);
    hide QuoteTail;
    assert Quote(t)[1..] == QuoteTail(t);
    assert Quote(s)[..|Quote(s)| - 1] == "\"" + QuoteTail(s)[..|QuoteTail(s)| - 1];
  }

  lemma {:induction false} QuoteTailConcat(s: string, t: string)
    ensures |QuoteTail(s)| > 0
    ensures QuoteTail(s + t) == QuoteTail(s)[..|QuoteTail(s)| - 1] + QuoteTail(t)
  {
    hide Escape;
    if s == "" {
      assert s + t == t;
    } else {
      QuoteTailConcat(s[1..], t);
      assert (s + t)[1..] == s[1..] + t;
      DropLast(Escape(s[0]), QuoteTail(s[1..]), QuoteTail(t));
    }
  }

  lemma DropLast(a: string, b: string, c: string)
    requires |b| > 0
    ensures a + (b[..|b| - 1] + c) == (a + b)[..|a + b| - 1] + c
  {
  }

  /** Separators, brackets and literals: `{"a": 7, "b": null}` and `[true, false]`. */
  lemma DumpsExample()
    ensures Dumps(Object(Member("a", Number(7), Member("b", Null, NoMembers)))) == "{\"a\": 7, \"b\": null}"
    ensures Dumps(Array(Item(Bool(true), Item(Bool(false), NoItems)))) == "[true, false]"
    ensures Dumps(Array(NoItems)) == "[]" && Dumps(Object(NoMembers)) == "{}"
  {
    hide Quote;
    LetterQuoted('a');
    LetterQuoted('b');
    var rest := Member("b", Null, NoMembers);
    assert DumpMembers(rest) == "\"b\": null}";
    assert Dumps(Number(7)) == "7";
    assert DumpMembers(Member("a", Number(7), rest)) == "\"a\"" + (": " + ("7" + (", " + DumpMembers(rest))));
    assert "{" + ("\"a\"" + (": " + ("7" + (", " + "\"b\": null}")))) == "{\"a\": 7, \"b\": null}";
    var tail := Item(Bool(false), NoItems);
    assert DumpItems(tail) == "false]";
    assert DumpItems(Item(Bool(true), tail)) == "true" + (", " + "false]");
    assert "[" + ("true" + (", " + "false]")) == "[true, false]";
  }

  lemma LetterQuoted(c: char)
    requires 'a' <= c <= 'z'
    ensures Quote([c]) == ['"', c, '"']
  {
    hide Escape;
    QuoteMeans([c], "");
    EscapeMeans(c);
  }

  // ---------------------------------------------------------------- members by key

  /** The members as a dictionary. */
  function AsMap(ms: Members): map<string, Json> {
    if ms.NoMembers? then map[] else AsMap(ms.rest)[ms.key := ms.value]
  }

  /** The order of `sort_keys`: by the first character that differs. */
  ghost predicate Precedes(a: string, b: string) {
    exists k :: 0 <= k < |b| && k <= |a| && a[..k] == b[..k] && (k == |a| || a[k] < b[k])
  }

  ghost predicate Ascending(ms: Members) {
    ms.Member? && ms.rest.Member? ==> Precedes(ms.key, ms.rest.key) && Ascending(ms.rest)
  }

  lemma PrecedesAt(a: string, b: string, k: nat)
    requires k < |b| && k <= |a| && a[..k] == b[..k] && (k == |a| || a[k] < b[k])
    ensures Precedes(a, b)
  {
  }

  lemma PrecedesStrictly(a: string, b: string, c: string)
    requires Precedes(a, b)
    ensures a != b
    ensures Precedes(b, c) ==> Precedes(a, c)
  {
    var k :| 0 <= k < |b| && k <= |a| && a[..k] == b[..k] && (k == |a| || a[k] < b[k]);
    if l :| 0 <= l < |c| && l <= |b| && b[..l] == c[..l] && (l == |b| || b[l] < c[l]) {
      var m := if k < l then k else l;
      assert a[..m] == a[..k][..m] && b[..m] == b[..k][..m] && b[..m] == b[..l][..m] && c[..m] == c[..l][..m];
      assert k < l ==> b[k] == b[..l][k] == c[..l][k] == c[k];
      assert l < k ==> a[l] == a[..k][l] == b[..k][l] == b[l];
      PrecedesAt(a, c, m);
    }
  }

  /** A record has this member. */
  ghost predicate Has(ms: Members, key: string, value: Json) { key in AsMap(ms) && AsMap(ms)[key] == value }

  lemma {:induction false} FirstIsLeast(ms: Members)
    requires ms.Member? && Ascending(ms)
    ensures forall k :: k in AsMap(ms.rest) ==> Precedes(ms.key, k)
  {
    hide Precedes;
    if ms.rest.Member? {
      FirstIsLeast(ms.rest);
      forall k | k in AsMap(ms.rest) ensures Precedes(ms.key, k) {
        PrecedesStrictly(ms.key, ms.rest.key, k);
      }
    }
  }

  /** A record with ascending keys has its first member besides all those of the rest. */
  lemma OneMoreMember(ms: Members)
    requires ms.Member? && Ascending(ms)
    ensures Has(ms, ms.key, ms.value) && forall k, v :: Has(ms.rest, k, v) ==> Has(ms, k, v)
    ensures |AsMap(ms)| == |AsMap(ms.rest)| + 1
  {
    hide Precedes;
    FirstIsLeast(ms);
    if ms.key in AsMap(ms.rest) { PrecedesStrictly(ms.key, ms.key, ms.key); }
    assert AsMap(ms).Keys == AsMap(ms.rest).Keys + {ms.key};
  }

  lemma NoMoreMembers()
    ensures |AsMap(NoMembers)| == 0 && Ascending(NoMembers)
  {
  }

  /** Adds a member with a smaller key in front. */
  lemma PushMember(ms: Members)
    requires ms.Member? && Ascending(ms.rest) && (ms.rest.Member? ==> Precedes(ms.key, ms.rest.key))
    ensures Ascending(ms) && Has(ms, ms.key, ms.value) && forall k, v :: Has(ms.rest, k, v) ==> Has(ms, k, v)
    ensures |AsMap(ms)| == |AsMap(ms.rest)| + 1
  {
    OneMoreMember(ms);
  }

  // ---------------------------------------------------------------- unique readability

  /** Splitting an equation between concatenations whose left parts are equally long. */
  lemma SplitAt(a: string, x: string, b: string, y: string)
    requires a + x == b + y
    requires |a| == |b|
    ensures a == b && x == y
  {
    assert a == (a + x)[..|a|] && b == (b + y)[..|b|];
    assert x == (a + x)[|a|..] && y == (b + y)[|b|..];
  }

  lemma Assoc(a: string, b: string, c: string)
    ensures (a + b) + c == a + (b + c)
  {
  }

  /** A common left part can be removed from such an equation. */
  lemma Cancel(p: string, u: string, x: string, v: string, y: string)
    requires (p + u) + x == (p + v) + y
    ensures u + x == v + y
  {
    Assoc(p, u, x);
    Assoc(p, v, y);
    SplitAt(p, u + x, p, v + y);
  }

  lemma DigitCharInjective(d: nat, e: nat)
    requires d < 16 && e < 16 && DigitChar(d) == DigitChar(e)
    ensures d == e
  {
    assert DigitChar(d) as int == if d < 10 then 48 + d else 87 + d;
    assert DigitChar(e) as int == if e < 10 then 48 + e else 87 + e;
  }

  lemma DigitsAreDigits(n: nat)
    ensures |Digits(n)| > 0
    ensures forall i :: 0 <= i < |Digits(n)| ==> IsDigit(Digits(n)[i])
  {
  }

  lemma {:induction false} DigitsInjective(m: nat, n: nat)
    requires Digits(m) == Digits(n)
    ensures m == n
  {
    DigitsAreDigits(m / 10);
    DigitsAreDigits(n / 10);
    var s := Digits(m);
    if m < 10 || n < 10 {
      assert |s| == 1;
    } else {
      assert s[..|s| - 1] == Digits(m / 10) == Digits(n / 10);
      DigitsInjective(m / 10, n / 10);
    }
    assert s[|s| - 1] == DigitChar(m % 10) == DigitChar(n % 10);
    DigitCharInjective(m % 10, n % 10);
  }

  predicate NoDigitFirst(s: string) { s == "" || !IsDigit(s[0]) }

  /** The length of the longest prefix of digits. */
  function DigitRun(s: string): nat {
    if NoDigitFirst(s) then 0 else 1 + DigitRun(s[1..])
  }

  lemma {:induction false} DigitRunOf(d: string, x: string)
    requires forall i :: 0 <= i < |d| ==> IsDigit(d[i])
    requires NoDigitFirst(x)
    ensures DigitRun(d + x) == |d|
  {
    if d == "" {
      assert d + x == x;
    } else {
      assert (d + x)[1..] == d[1..] + x;
      DigitRunOf(d[1..], x);
    }
  }

  lemma DigitsReadable(m: nat, x: string, n: nat, y: string)
    requires Digits(m) + x == Digits(n) + y
    requires NoDigitFirst(x) && NoDigitFirst(y)
    ensures m == n && x == y
  {
    DigitsAreDigits(m);
    DigitsAreDigits(n);
    DigitRunOf(Digits(m), x);
    DigitRunOf(Digits(n), y);
    SplitAt(Digits(m), x, Digits(n), y);
    DigitsInjective(m, n);
  }

  lemma NegativeReadable(m: nat, x: string, n: nat, y: string)
    requires ("-" + Digits(m)) + x == ("-" + Digits(n)) + y
    requires NoDigitFirst(x) && NoDigitFirst(y)
    ensures m == n && x == y
  {
    Cancel("-", Digits(m), x, Digits(n), y);
    DigitsReadable(m, x, n, y);
  }

  lemma DecimalStarts(n: int)
    ensures |Decimal(n)| > 0 && (Decimal(n)[0] == '-' || IsDigit(Decimal(n)[0]))
    ensures n < 0 <==> Decimal(n)[0] == '-'
  {
    DigitsAreDigits(if n < 0 then -n else n);
  }

  lemma DecimalReadable(m: int, x: string, n: int, y: string)
    requires Decimal(m) + x == Decimal(n) + y
    requires NoDigitFirst(x) && NoDigitFirst(y)
    ensures m == n && x == y
  {
    DecimalStarts(m);
    DecimalStarts(n);
    assert Decimal(m)[0] == (Decimal(m) + x)[0] == Decimal(n)[0];
    if m < 0 {
      NegativeReadable(-m, x, -n, y);
    } else {
      DigitsReadable(m, x, n, y);
    }
  }

  lemma Hex4Injective(m: nat, n: nat)
    requires m < 0x10000 && n < 0x10000 && Hex4(m) == Hex4(n)
    ensures m == n
  {
    DigitCharInjective(m / 16 / 16 / 16, n / 16 / 16 / 16);
    DigitCharInjective(m / 16 / 16 % 16, n / 16 / 16 % 16);
    DigitCharInjective(m / 16 % 16, n / 16 % 16);
    DigitCharInjective(m % 16, n % 16);
  }

  /** True of the characters that are written as one or two `\u` escapes. */
  predicate UnicodeEscaped(c: char) {
    !(32 <= c as int <= 126) && c != '\n' && c != '\r' && c != '\t' && c as int != 12 && c as int != 8
  }

  function FirstUnit(c: char): (u: nat)
    ensures u < 0x10000
    ensures 0xD800 <= u < 0xE000 <==> c as int >= 0x10000
  {
    if c as int < 0x10000 then c as int else HighSurrogate(c as int)
  }

  lemma UnicodeEscapeShape(c: char)
    requires UnicodeEscaped(c)
    ensures Escape(c) == "\\u" + (Hex4(FirstUnit(c))
                               + if c as int < 0x10000 then "" else "\\u" + Hex4(LowSurrogate(c as int)))
  {
    assert Hex4(FirstUnit(c)) + "" == Hex4(FirstUnit(c));
  }

  lemma UnicodeEscapeReadable(c: char, x: string, d: char, y: string)
    requires UnicodeEscaped(c) && UnicodeEscaped(d)
    requires Escape(c) + x == Escape(d) + y
    ensures c == d && x == y
  {
    UnicodeEscapeShape(c);
    UnicodeEscapeShape(d);
    var cRest := if c as int < 0x10000 then "" else "\\u" + Hex4(LowSurrogate(c as int));
    var dRest := if d as int < 0x10000 then "" else "\\u" + Hex4(LowSurrogate(d as int));
    assert Escape(c) + x == ("\\u" + Hex4(FirstUnit(c))) + (cRest + x);
    assert Escape(d) + y == ("\\u" + Hex4(FirstUnit(d))) + (dRest + y);
    SplitAt("\\u" + Hex4(FirstUnit(c)), cRest + x, "\\u" + Hex4(FirstUnit(d)), dRest + y);
    SplitAt("\\u", Hex4(FirstUnit(c)), "\\u", Hex4(FirstUnit(d)));
    Hex4Injective(FirstUnit(c), FirstUnit(d));
    SplitAt(cRest, x, dRest, y);
    if c as int >= 0x10000 {
      SplitAt("\\u", Hex4(LowSurrogate(c as int)), "\\u", Hex4(LowSurrogate(d as int)));
      Hex4Injective(LowSurrogate(c as int), LowSurrogate(d as int));
      SurrogatesInjective(c as int, d as int);
    }
  }

  lemma SurrogatesInjective(m: nat, n: nat)
    requires 0x10000 <= m < 0x110000 && 0x10000 <= n < 0x110000
    requires HighSurrogate(m) == HighSurrogate(n) && LowSurrogate(m) == LowSurrogate(n)
    ensures m == n
  {
    assert m - 0x10000 == (m - 0x10000) / 0x400 * 0x400 + (m - 0x10000) % 0x400;
    assert n - 0x10000 == (n - 0x10000) / 0x400 * 0x400 + (n - 0x10000) % 0x400;
  }

  lemma EscapeReadable(c: char, x: string, d: char, y: string)
    requires Escape(c) + x == Escape(d) + y
    ensures c == d && x == y
  {
    var whole := Escape(c) + x;
    assert whole[0] == Escape(c)[0] == Escape(d)[0];
    if |Escape(c)| > 1 {
      assert whole[1] == Escape(c)[1] == Escape(d)[1];
    }
    if UnicodeEscaped(c) {
      UnicodeEscapeReadable(c, x, d, y);
    } else {
      SplitAt(Escape(c), x, Escape(d), y);
    }
  }

  lemma EscapeStarts(c: char)
    ensures |Escape(c)| > 0 && Escape(c)[0] != '"'
  {
  }

  lemma QuoteTailStarts(s: string)
    ensures |QuoteTail(s)| > 0
    ensures s == "" <==> QuoteTail(s)[0] == '"'
  {
    if s != "" {
      EscapeStarts(s[0]);
      assert QuoteTail(s)[0] == Escape(s[0])[0];
    }
  }

  lemma {:induction false} QuoteTailReadable(s: string, x: string, t: string, y: string)
    requires QuoteTail(s) + x == QuoteTail(t) + y
    ensures s == t && x == y
  {
    QuoteTailStarts(s);
    QuoteTailStarts(t);
    assert QuoteTail(s)[0] == (QuoteTail(s) + x)[0] == QuoteTail(t)[0];
    if s == "" {
      SplitAt("\"", x, "\"", y);
    } else {
      Assoc(Escape(s[0]), QuoteTail(s[1..]), x);
      Assoc(Escape(t[0]), QuoteTail(t[1..]), y);
      EscapeReadable(s[0], QuoteTail(s[1..]) + x, t[0], QuoteTail(t[1..]) + y);
      QuoteTailReadable(s[1..], x, t[1..], y);
      assert s == [s[0]] + s[1..] && t == [t[0]] + t[1..];
    }
  }

  lemma QuoteReadable(s: string, x: string, t: string, y: string)
    requires Quote(s) + x == Quote(t) + y
    ensures s == t && x == y
  {
    Cancel("\"", QuoteTail(s), x, QuoteTail(t), y);
    QuoteTailReadable(s, x, t, y);
  }

  /** The kind of a value shows in the first character of its text. */
  predicate Starts(j: Json, c: char) {
    match j
    case Null => c == 'n'
    case Bool(b) => c == if b then 't' else 'f'
    case Number(_) => c == '-' || IsDigit(c)
    case Str(_) => c == '"'
    case Array(_) => c == '['
    case Object(_) => c == '{'
  }

  lemma DumpsStarts(j: Json)
    ensures |Dumps(j)| > 0 && Starts(j, Dumps(j)[0])
  {
    if j.Number? {
      DecimalStarts(j.n);
    }
  }

  /** The first character of a text is the first character of whatever starts with it. */
  lemma FirstChar(a: string, x: string, b: string, y: string)
    requires a + x == b + y && |a| > 0 && |b| > 0
    ensures a[0] == b[0]
  {
    assert a[0] == (a + x)[0] && b[0] == (b + y)[0];
  }

  lemma SameKind(a: Json, x: string, b: Json, y: string)
    requires Dumps(a) + x == Dumps(b) + y
    ensures exists c :: Starts(a, c) && Starts(b, c)
  {
    DumpsStarts(a);
    DumpsStarts(b);
    FirstChar(Dumps(a), x, Dumps(b), y);
    assert Starts(a, Dumps(a)[0]) && Starts(b, Dumps(a)[0]);
  }

  /** Unique readability: the text of a value determines the value, and where it ends. */
  lemma {:induction false} DumpsReadable(a: Json, x: string, b: Json, y: string)
    requires Dumps(a) + x == Dumps(b) + y
    requires NoDigitFirst(x) && NoDigitFirst(y)
    ensures a == b && x == y
    decreases a
  {
    SameKind(a, x, b, y);
    match (a, b) {
      case (Null, Null) => SplitAt("null", x, "null", y);
      case (Bool(_), Bool(_)) => SplitAt(Dumps(a), x, Dumps(b), y);
      case (Number(m), Number(n)) => DecimalReadable(m, x, n, y);
      case (Str(s), Str(t)) => QuoteReadable(s, x, t, y);
      case (Array(k), Array(l)) =>
        Cancel("[", DumpItems(k), x, DumpItems(l), y);
        DumpItemsReadable(k, x, l, y);
      case (Object(k), Object(l)) =>
        Cancel("{", DumpMembers(k), x, DumpMembers(l), y);
        DumpMembersReadable(k, x, l, y);
      case _ =>
    }
  }

  /** What follows an item: the closing bracket, or a comma and the rest. */
  function AfterItem(tail: Items): (s: string)
    ensures |s| > 0 && s[0] == if tail.NoItems? then ']' else ','
  {
    if tail.NoItems? then "]" else ", " + DumpItems(tail)
  }

  lemma DumpItemsStep(a: Items, x: string)
    requires a.Item?
    ensures DumpItems(a) + x == Dumps(a.head) + (AfterItem(a.tail) + x)
    ensures !IsDigit((AfterItem(a.tail) + x)[0])
  {
    Assoc(Dumps(a.head), AfterItem(a.tail), x);
  }

  lemma ItemsStart(a: Items)
    ensures |DumpItems(a)| > 0
    ensures a.NoItems? <==> DumpItems(a)[0] == ']'
  {
    if a.Item? { DumpsStarts(a.head); }
  }

  lemma {:induction false} DumpItemsReadable(a: Items, x: string, b: Items, y: string)
    requires DumpItems(a) + x == DumpItems(b) + y
    ensures a == b && x == y
    decreases a
  {
    ItemsStart(a);
    ItemsStart(b);
    FirstChar(DumpItems(a), x, DumpItems(b), y);
    if a.NoItems? {
      SplitAt("]", x, "]", y);
    } else {
      DumpItemsStep(a, x);
      DumpItemsStep(b, y);
      DumpsReadable(a.head, AfterItem(a.tail) + x, b.head, AfterItem(b.tail) + y);
      FirstChar(AfterItem(a.tail), x, AfterItem(b.tail), y);
      if a.tail.NoItems? {
        SplitAt("]", x, "]", y);
      } else {
        Cancel(", ", DumpItems(a.tail), x, DumpItems(b.tail), y);
        DumpItemsReadable(a.tail, x, b.tail, y);
      }
    }
  }

  function AfterMember(rest: Members): (s: string)
    ensures |s| > 0 && s[0] == if rest.NoMembers? then '}' else ','
  {
    if rest.NoMembers? then "}" else ", " + DumpMembers(rest)
  }

  lemma DumpMembersStep(a: Members, x: string)
    requires a.Member?
    ensures DumpMembers(a) + x == Quote(a.key) + (": " + (Dumps(a.value) + (AfterMember(a.rest) + x)))
    ensures !IsDigit((AfterMember(a.rest) + x)[0])
  {
    Assoc(Quote(a.key), ": " + (Dumps(a.value) + AfterMember(a.rest)), x);
    Assoc(": ", Dumps(a.value) + AfterMember(a.rest), x);
    Assoc(Dumps(a.value), AfterMember(a.rest), x);
  }

  lemma MembersStart(a: Members)
    ensures |DumpMembers(a)| > 0
    ensures a.NoMembers? <==> DumpMembers(a)[0] == '}'
  {
    if a.Member? { DumpMembersStep(a, ""); }
  }

  lemma {:induction false} DumpMembersReadable(a: Members, x: string, b: Members, y: string)
    requires DumpMembers(a) + x == DumpMembers(b) + y
    ensures a == b && x == y
    decreases a, 0
  {
    MembersStart(a);
    MembersStart(b);
    FirstChar(DumpMembers(a), x, DumpMembers(b), y);
    if a.NoMembers? {
      SplitAt("}", x, "}", y);
    } else {
      DumpMembersStep(a, x);
      DumpMembersStep(b, y);
      var u, v := Dumps(a.value) + (AfterMember(a.rest) + x), Dumps(b.value) + (AfterMember(b.rest) + y);
      QuoteReadable(a.key, ": " + u, b.key, ": " + v);
      SplitAt(": ", u, ": ", v);
      DumpsReadable(a.value, AfterMember(a.rest) + x, b.value, AfterMember(b.rest) + y);
      FirstChar(AfterMember(a.rest), x, AfterMember(b.rest), y);
      DumpRestReadable(a.rest, x, b.rest, y);
    }
  }

  lemma {:induction false} DumpRestReadable(a: Members, x: string, b: Members, y: string)
    requires AfterMember(a) + x == AfterMember(b) + y
    requires a.NoMembers? <==> b.NoMembers?
    ensures a == b && x == y
    decreases a, 1
  {
    if a.NoMembers? {
      SplitAt("}", x, "}", y);
    } else {
      Cancel(", ", DumpMembers(a), x, DumpMembers(b), y);
      DumpMembersReadable(a, x, b, y);
    }
  }

  /** Different values have different canonical texts. */
  lemma DumpsInjective(a: Json, b: Json)
    requires Dumps(a) == Dumps(b)
    ensures a == b
  {
    assert Dumps(a) + "" == Dumps(b) + "";
    DumpsReadable(a, "", b, "");
  }
}
