/** The two pieces of standard-library text handling the loader relies on:
    reading comma-separated fields with `std::getline(stream, field, ',')`,
    and converting a field with base-10 `std::stoul`. */
module Text {
  import opened Base

  // ----- Comma-separated fields -----

  /** `s` cut at every comma: `k` commas give `k + 1` parts, empty ones
      included. */
  function Split(s: string): (parts: seq<string>)
    ensures |parts| >= 1
    ensures forall k :: 0 <= k < |parts| ==> ',' !in parts[k]
  {
    if s == [] then [[]]
    else
      var rest := Split(s[1..]);
      if s[0] == ',' then [[]] + rest
      else [[s[0]] + rest[0]] + rest[1..]
  }

  /** The parts put back together with a comma between neighbours. */
  function Join(parts: seq<string>): string
    requires |parts| >= 1
  {
    if |parts| == 1 then parts[0] else parts[0] + [','] + Join(parts[1..])
  }

  /** The fields that successive `std::getline(stream, field, ',')` calls on
      a string stream over `s` deliver: every part, except that an empty last
      part (an empty `s`, or one ending in a comma) is not delivered. */
  function Fields(s: string): (fields: seq<string>)
    ensures forall k :: 0 <= k < |fields| ==> ',' !in fields[k]
  {
    var parts := Split(s);
    if parts[|parts| - 1] == [] then parts[..|parts| - 1] else parts
  }

  /** Number of commas in `s`. */
  function CommaCount(s: string): nat
  {
    if s == [] then 0 else (if s[0] == ',' then 1 else 0) + CommaCount(s[1..])
  }

  /** `k` commas cut the text into `k + 1` parts. */
  lemma {:induction false} SplitCount(s: string)
    ensures |Split(s)| == CommaCount(s) + 1
  {
    if s != [] {
      SplitCount(s[1..]);
    }
  }

  lemma {:induction false} JoinSplit(s: string)
    ensures Join(Split(s)) == s
  {
    if s != [] {
      var rest := Split(s[1..]);
      JoinSplit(s[1..]);
      if s[0] == ',' {
        assert ([[]] + rest)[1..] == rest;
      } else if |rest| == 1 {
        assert Split(s) == [[s[0]] + rest[0]];
      } else {
        var parts := [[s[0]] + rest[0]] + rest[1..];
        assert parts[1..] == rest[1..];
        assert Join(rest) == rest[0] + [','] + Join(rest[1..]);
        assert s == [s[0]] + s[1..];
      }
    }
  }

  /** Splitting a comma-free prefix `p` in front of `r` extends the first
      part of `r`. */
  lemma {:induction false} SplitPrefix(p: string, r: string)
    requires ',' !in p
    ensures Split(p + r) == [p + Split(r)[0]] + Split(r)[1..]
  {
    if p != [] {
      SplitPrefix(p[1..], r);
      assert (p + r)[1..] == p[1..] + r;
      assert (p + r)[0] == p[0];
      assert [p[0]] + (p[1..] + Split(r)[0]) == p + Split(r)[0];
    } else {
      assert p + r == r;
      assert Split(r) == [Split(r)[0]] + Split(r)[1..];
      assert p + Split(r)[0] == Split(r)[0];
    }
  }

  /** Splitting undoes joining comma-free parts. */
  lemma {:induction false} SplitJoin(parts: seq<string>)
    requires |parts| >= 1
    requires forall k :: 0 <= k < |parts| ==> ',' !in parts[k]
    ensures Split(Join(parts)) == parts
  {
    if |parts| == 1 {
      SplitPrefix(parts[0], []);
      assert parts[0] + [] == parts[0];
    } else {
      var tail := parts[1..];
      SplitJoin(tail);
      var r := [','] + Join(tail);
      assert Split(r) == [[]] + Split(Join(tail)) by {
        assert r[1..] == Join(tail);
      }
      SplitPrefix(parts[0], r);
      assert parts[0] + [','] + Join(tail) == parts[0] + r;
      assert parts[0] + [] == parts[0];
      assert ([[]] + tail)[1..] == tail;
      assert [parts[0]] + tail == parts;
    }
  }

  lemma {:induction false} JoinAppendEmpty(parts: seq<string>)
    requires |parts| >= 1
    ensures Join(parts + [[]]) == Join(parts) + [',']
  {
    if |parts| > 1 {
      JoinAppendEmpty(parts[1..]);
      assert (parts + [[]])[1..] == parts[1..] + [[]];
    }
  }

  /** A line written as comma-separated cells, the last one non-empty, reads
      back as exactly those cells. */
  lemma FieldsOfJoin(cells: seq<string>)
    requires |cells| >= 1 && cells[|cells| - 1] != []
    requires forall k :: 0 <= k < |cells| ==> ',' !in cells[k]
    ensures Fields(Join(cells)) == cells
  {
    SplitJoin(cells);
    FieldsOfSplit(Join(cells), cells);
  }

  /** Comma-free cells written out read back as all the cells, except an
      empty last one, which is not delivered. */
  lemma FieldsOfCells(cells: seq<string>)
    requires |cells| >= 1
    requires forall k :: 0 <= k < |cells| ==> ',' !in cells[k]
    ensures Fields(Join(cells)) == if cells[|cells| - 1] == [] then cells[..|cells| - 1] else cells
  {
    SplitJoin(cells);
    FieldsOfSplit(Join(cells), cells);
  }

  /** The fields are all the parts, except an empty last one. */
  lemma FieldsOfSplit(s: string, parts: seq<string>)
    requires Split(s) == parts && |parts| >= 1
    ensures Fields(s) == if parts[|parts| - 1] == [] then parts[..|parts| - 1] else parts
  {
  }

  /** With a trailing comma the same cells are read back: the empty field
      after the last comma is not delivered. */
  lemma FieldsOfJoinTrailingComma(cells: seq<string>)
    requires |cells| >= 1
    requires forall k :: 0 <= k < |cells| ==> ',' !in cells[k]
    ensures Fields(Join(cells) + [',']) == cells
  {
    JoinAppendEmpty(cells);
    SplitJoin(cells + [[]]);
    assert (cells + [[]])[..|cells|] == cells;
  }

  /** The delivered fields, joined, give back the line up to an optional
      trailing comma; an empty line delivers no field at all. */
  lemma FieldsJoin(s: string)
    ensures s == [] <==> Fields(s) == []
    ensures s != [] && s[|s| - 1] == ',' ==> s == Join(Fields(s)) + [',']
    ensures s != [] && s[|s| - 1] != ',' ==> s == Join(Fields(s))
  {
    var parts := Split(s);
    JoinSplit(s);
    if s == [] {
    } else if parts[|parts| - 1] == [] {
      if |parts| == 1 {
        assert false;
      }
      var init := parts[..|parts| - 1];
      assert init + [[]] == parts;
      JoinAppendEmpty(init);
    } else {
      if s[|s| - 1] == ',' {
        JoinLastPart(parts);
        assert false;
      }
    }
  }

  /** A join whose last part is non-empty ends with that part's last
      character. */
  lemma {:induction false} JoinLastPart(parts: seq<string>)
    requires |parts| >= 1 && parts[|parts| - 1] != []
    ensures Join(parts) != [] && Join(parts)[|Join(parts)| - 1] == parts[|parts| - 1][|parts[|parts| - 1]| - 1]
  {
    if |parts| > 1 {
      JoinLastPart(parts[1..]);
    }
  }

  // ----- std::stoul, base 10 -----

  /** Characters `isspace` accepts in the C locale. */
  predicate IsSpace(c: char)
  {
    c == ' ' || c == '\t' || c == '\n' || c == '\U{000B}' || c == '\U{000C}' || c == '\r'
  }

  predicate IsDigit(c: char)
  {
    '0' <= c <= '9'
  }

  predicate AllDigits(d: string)
  {
    forall k :: 0 <= k < |d| ==> IsDigit(d[k])
  }

  /** `s` without its leading white space. */
  function SkipSpaces(s: string): string
  {
    if s != [] && IsSpace(s[0]) then SkipSpaces(s[1..]) else s
  }

  /** `SkipSpaces` removes exactly the leading run of white space. */
  lemma {:induction false} SkipSpacesShape(s: string)
    ensures var t := SkipSpaces(s);
            |t| <= |s| && t == s[|s| - |t|..] &&
            (t != [] ==> !IsSpace(t[0])) &&
            forall k :: 0 <= k < |s| - |t| ==> IsSpace(s[k])
  {
    if s != [] && IsSpace(s[0]) {
      SkipSpacesShape(s[1..]);
      var t := SkipSpaces(s);
      assert s[1..][|s| - 1 - |t|..] == s[|s| - |t|..];
      forall k | 0 <= k < |s| - |t|
        ensures IsSpace(s[k])
      {
        if k > 0 {
          assert s[1..][k - 1] == s[k];
        }
      }
    }
  }

  /** The longest run of decimal digits at the start of `s`. */
  function DigitPrefix(s: string): (d: string)
    ensures AllDigits(d)
  {
    if s != [] && IsDigit(s[0]) then [s[0]] + DigitPrefix(s[1..]) else []
  }

  /** `DigitPrefix` is a prefix of its argument, followed by the end of
      the text or by a character that is not a digit. */
  lemma {:induction false} DigitPrefixShape(s: string)
    ensures var d := DigitPrefix(s);
            d <= s && (|d| < |s| ==> !IsDigit(s[|d|]))
  {
    if s != [] && IsDigit(s[0]) {
      DigitPrefixShape(s[1..]);
    }
  }

  /** The number a run of decimal digits denotes. */
  function DigitsValue(d: string): nat
    requires AllDigits(d)
  {
    if d == [] then 0 else DigitsValue(d[..|d| - 1]) * 10 + (d[|d| - 1] as int - '0' as int)
  }

  /** Digit character for `n < 10`. */
  function DigitChar(n: nat): (c: char)
    requires n < 10
    ensures IsDigit(c) && c as int - '0' as int == n
  {
    ('0' as int + n) as char
  }

  /** The shortest decimal text of `n`. */
  function Decimal(n: nat): (d: string)
    ensures d != [] && AllDigits(d)
  {
    if n < 10 then [DigitChar(n)] else Decimal(n / 10) + [DigitChar(n % 10)]
  }

  /** Digits are never a comma, so a number's text is one field. */
  lemma DigitsHaveNoComma(d: string)
    requires AllDigits(d)
    ensures ',' !in d
  {
    forall k | 0 <= k < |d|
      ensures d[k] != ','
    {
      assert IsDigit(d[k]);
    }
  }

  /** The two exceptions `std::stoul` throws. */
  datatype StoulError = InvalidArgument | OutOfRange

  /** `std::stoul(s)` in base 10, as it behaves on top of C's `strtoul`:
      leading white space is skipped, one optional sign is accepted, then
      the longest digit run is converted and anything after it is ignored.
      No digit at all throws `invalid_argument`; a magnitude above
      `ULONG_MAX` throws `out_of_range`; a minus sign negates the value
      modulo 2^64. */
  function Stoul(s: string): (r: Result<nat, StoulError>)
    ensures r.Success? ==> r.value <= UlongMax
  {
    var t := SkipSpaces(s);
    var negative := t != [] && t[0] == '-';
    var u := if t != [] && (t[0] == '+' || t[0] == '-') then t[1..] else t;
    Convert(negative, DigitPrefix(u))
  }

  /** What the conversion makes of the digit run `d` after the optional
      sign. */
  function Convert(negative: bool, d: string): (r: Result<nat, StoulError>)
    requires AllDigits(d)
    ensures r.Success? ==> r.value <= UlongMax
  {
    if d == [] then Failure(InvalidArgument)
    else if DigitsValue(d) > UlongMax then Failure(OutOfRange)
    else if negative then Success(Negate(DigitsValue(d)))
    else Success(DigitsValue(d))
  }

  /** `-v` in `unsigned long` arithmetic, that is modulo 2^64. */
  function Negate(v: nat): (r: nat)
    requires v <= UlongMax
    ensures r <= UlongMax && (r + v) % (UlongMax + 1) == 0
  {
    if v == 0 then 0 else UlongMax + 1 - v
  }

  /** A field that starts with a digit converts its leading digit run, as
      an unsigned value. */
  lemma StoulDigitLed(s: string)
    requires s != [] && IsDigit(s[0])
    ensures Stoul(s) == Convert(false, DigitPrefix(s))
  {
    assert SkipSpaces(s) == s;
  }

  lemma {:induction false} DigitsValueDecimal(n: nat)
    ensures DigitsValue(Decimal(n)) == n
  {
    if n >= 10 {
      DigitsValueDecimal(n / 10);
      var d := Decimal(n);
      assert d[..|d| - 1] == Decimal(n / 10);
    }
  }

  lemma {:induction false} DigitPrefixOf(d: string, rest: string)
    requires AllDigits(d)
    requires rest == [] || !IsDigit(rest[0])
    ensures DigitPrefix(d + rest) == d
  {
    if d != [] {
      assert (d + rest)[1..] == d[1..] + rest;
      DigitPrefixOf(d[1..], rest);
      assert [d[0]] + d[1..] == d;
    } else {
      assert d + rest == rest;
    }
  }

  /** Round trip: the decimal text of `n`, followed by anything that does not
      start with a digit, converts back to `n`, or throws `out_of_range` when
      `n` does not fit an `unsigned long`. */
  lemma StoulDecimal(n: nat, rest: string)
    requires rest == [] || !IsDigit(rest[0])
    ensures Stoul(Decimal(n) + rest) == if n <= UlongMax then Success(n) else Failure(OutOfRange)
  {
    var s := Decimal(n) + rest;
    assert !IsSpace(s[0]) && s[0] != '+' && s[0] != '-';
    assert SkipSpaces(s) == s;
    DigitPrefixOf(Decimal(n), rest);
    DigitsValueDecimal(n);
  }

  /** A field whose first character other than white space and one sign is
      not a digit throws `invalid_argument`. */
  lemma StoulNoDigit(s: string)
    requires var t := SkipSpaces(s);
             var u := if t != [] && (t[0] == '+' || t[0] == '-') then t[1..] else t;
             u == [] || !IsDigit(u[0])
    ensures Stoul(s) == Failure(InvalidArgument)
  {
  }

  /** `d` denotes at least its leading digit times 10^(|d| - 1). */
  lemma {:induction false} DigitsValueLeading(d: string)
    requires AllDigits(d) && d != []
    ensures DigitsValue(d) >= (d[0] as int - '0' as int) * Pow10(|d| - 1)
  {
    if |d| > 1 {
      var init := d[..|d| - 1];
      DigitsValueLeading(init);
      assert init[0] == d[0];
      var lead := d[0] as int - '0' as int;
      assert lead * Pow10(|d| - 1) == (lead * Pow10(|d| - 2)) * 10;
    }
  }

  function Pow10(k: nat): (p: nat)
    ensures p >= 1
  {
    if k == 0 then 1 else 10 * Pow10(k - 1)
  }

  lemma {:induction false} Pow10Add(a: nat, b: nat)
    ensures Pow10(a + b) == Pow10(a) * Pow10(b)
  {
    if a > 0 {
      Pow10Add(a - 1, b);
      assert Pow10(a) * Pow10(b) == 10 * (Pow10(a - 1) * Pow10(b));
    }
  }

  /** Text after the digits is ignored: "12abc" converts as "12" does. */
  lemma StoulTrailingText(d: string, rest: string)
    requires d != [] && AllDigits(d)
    requires rest == [] || !IsDigit(rest[0])
    ensures Stoul(d + rest) == Stoul(d)
  {
    assert (d + rest)[0] == d[0];
    StoulDigitLed(d + rest);
    StoulDigitLed(d);
    DigitPrefixOf(d, rest);
    DigitPrefixOf(d, []);
    assert d + [] == d;
  }

  /** Leading white space is skipped. */
  lemma StoulSpace(c: char, s: string)
    requires IsSpace(c)
    ensures Stoul([c] + s) == Stoul(s)
  {
    assert ([c] + s)[1..] == s;
  }

  /** A plus sign before the digits changes nothing. */
  lemma StoulPlus(s: string)
    requires s != [] && IsDigit(s[0])
    ensures Stoul(['+'] + s) == Stoul(s)
  {
    assert (['+'] + s)[1..] == s;
    StoulDigitLed(s);
  }

  /** A minus sign before the digits negates the value modulo 2^64, so
      "-1" converts to `ULONG_MAX`; a value too large for an `unsigned
      long` still throws `out_of_range`. */
  lemma StoulMinus(s: string)
    requires s != [] && IsDigit(s[0])
    ensures Stoul(s).Success? ==> Stoul(['-'] + s) == Success(Negate(Stoul(s).value))
    ensures Stoul(s).Failure? ==> Stoul(['-'] + s) == Stoul(s)
    ensures Stoul(s) == Success(1) ==> Stoul(['-'] + s) == Success(UlongMax)
  {
    var t := ['-'] + s;
    assert t[1..] == s;
    assert SkipSpaces(t) == t;
    StoulDigitLed(s);
    var d := DigitPrefix(s);
    assert Stoul(t) == Convert(true, d);
  }

  /** Letters alone are not a number. */
  lemma StoulLetters()
    ensures Stoul("abc") == Failure(InvalidArgument)
  {
    StoulNoDigit("abc");
  }

  lemma Pow10Nineteen()
    ensures Pow10(19) == 10_000_000_000_000_000_000
  {
    assert Pow10(4) == 10_000;
    assert Pow10(8) == 10_000 * Pow10(4) by { Pow10Add(4, 4); }
    assert Pow10(16) == Pow10(8) * Pow10(8) by { Pow10Add(8, 8); }
    assert Pow10(19) == Pow10(3) * Pow10(16) by { Pow10Add(3, 16); }
  }

  /** A field made of digits only converts to the number they denote, or
      throws `out_of_range` when that number does not fit. */
  lemma StoulDigits(d: string)
    requires d != [] && AllDigits(d)
    ensures Stoul(d) == if DigitsValue(d) <= UlongMax then Success(DigitsValue(d)) else Failure(OutOfRange)
  {
    assert SkipSpaces(d) == d;
    DigitPrefixOf(d, []);
    assert d + [] == d;
  }

  /** Twenty or more digits led by a digit of at least 2 denote at least
      2 * 10^19, which does not fit an `unsigned long` ("99999999999999999999"
      is one such field). */
  lemma StoulTooManyDigits(d: string)
    requires AllDigits(d) && |d| >= 20 && '2' <= d[0]
    ensures Stoul(d) == Failure(OutOfRange)
  {
    StoulDigits(d);
    DigitsValueAtLeast(d, 19);
    Pow10Nineteen();
  }

  /** A field of more than `k` digits led by a digit of at least 2 denotes
      at least 2 * 10^k. */
  lemma DigitsValueAtLeast(d: string, k: nat)
    requires AllDigits(d) && |d| > k && '2' <= d[0]
    ensures DigitsValue(d) >= 2 * Pow10(k)
  {
    var lead := d[0] as int - '0' as int;
    var p := Pow10(|d| - 1);
    assert p >= Pow10(k) by {
      Pow10Add(k, |d| - 1 - k);
      MulAtLeast(Pow10(k), Pow10(|d| - 1 - k));
    }
    DigitsValueLeading(d);
    MulMonotone(2, lead, p);
  }

  lemma MulAtLeast(a: nat, b: nat)
    requires b >= 1
    ensures a * b >= a
  {
  }

  lemma MulMonotone(a: nat, b: nat, c: nat)
    requires a <= b
    ensures a * c <= b * c
  {
  }
}
