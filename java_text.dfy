/** The java.lang.String operations the compatibility tests rely on, on `seq<char>`:
    prefix and suffix tests, `indexOf`, `compareTo`, `split` on a quoted
    single-character delimiter, the delimiter join the CSV writers perform,
    `Boolean.parseBoolean` and `Integer.parseInt` / `Long.parseLong`. */
module JavaText {
  import opened Wrappers

  /** `s.startsWith(p)` */
  predicate StartsWith(s: string, p: string) {
    |p| <= |s| && s[..|p|] == p
  }

  /** `s.endsWith(p)` */
  predicate EndsWith(s: string, p: string) {
    |p| <= |s| && s[|s| - |p|..] == p
  }

  /** `s.indexOf(c)`: the first position of `c` in `s`, or -1 when there is none. */
  function IndexOf(s: string, c: char): (r: int)
    ensures -1 <= r < |s|
    ensures r == -1 <==> c !in s
    ensures 0 <= r ==> s[r] == c && c !in s[..r]
  {
    if |s| == 0 then -1
    else if s[0] == c then 0
    else
      var k := IndexOf(s[1..], c);
      if k == -1 then -1
      else
        assert s[..k + 1] == [s[0]] + s[1..][..k];
        k + 1
  }

  /** Any position at which `c` stands and before which it does not is what `IndexOf` finds. */
  lemma IndexOfAt(s: string, c: char, k: nat)
    requires k < |s| && s[k] == c && c !in s[..k]
    ensures IndexOf(s, c) == k
  {
    assert s[..k + 1][k] == c;
  }

  // ----- String.compareTo -----

  /** `a.compareTo(b)`: the difference of the first pair of differing characters or, when
      one string is a prefix of the other, the difference of the lengths. Characters and
      lengths are counted in code points where Java counts UTF-16 code units. */
  function CompareTo(a: string, b: string): int
  {
    if |a| == 0 || |b| == 0 then |a| - |b|
    else if a[0] != b[0] then a[0] as int - b[0] as int
    else CompareTo(a[1..], b[1..])
  }

  /** `a.compareTo(b) <= 0`, the order `Collections.sort` and the sorting comparators use. */
  predicate AtMost(a: string, b: string) {
    CompareTo(a, b) <= 0
  }

  /** compareTo is zero exactly on equal strings. */
  lemma {:induction false} CompareToZero(a: string, b: string)
    ensures CompareTo(a, b) == 0 <==> a == b
  {
    if |a| == 0 || |b| == 0 {
    } else if a[0] != b[0] {
    } else {
      CompareToZero(a[1..], b[1..]);
      if a[1..] == b[1..] {
        assert a == [a[0]] + a[1..] && b == [b[0]] + b[1..];
      }
    }
  }

  /** Swapping the arguments negates compareTo. */
  lemma {:induction false} CompareToFlip(a: string, b: string)
    ensures CompareTo(b, a) == -CompareTo(a, b)
  {
    if |a| == 0 || |b| == 0 {
    } else if a[0] != b[0] {
    } else {
      CompareToFlip(a[1..], b[1..]);
    }
  }

  /** `AtMost` is transitive. */
  lemma {:induction false} AtMostTransitive(a: string, b: string, c: string)
    requires AtMost(a, b) && AtMost(b, c)
    ensures AtMost(a, c)
  {
    if |a| == 0 || |b| == 0 || |c| == 0 {
    } else if a[0] == b[0] && b[0] == c[0] {
      AtMostTransitive(a[1..], b[1..], c[1..]);
    }
  }

  /** `AtMost` is total and antisymmetric: any two strings are ordered, and two strings
      ordered both ways are equal. */
  lemma AtMostTotal(a: string, b: string)
    ensures AtMost(a, b) || AtMost(b, a)
    ensures AtMost(a, b) && AtMost(b, a) ==> a == b
  {
    CompareToFlip(a, b);
    CompareToZero(a, b);
  }

  // ----- split and join on one delimiter character -----

  /** The fields joined with `d` between neighbours and at neither end, as the CSV writers'
      `if (j > 0) w.write(DELIMITER)` loop produces them. */
  function Join(fields: seq<string>, d: char): string
  {
    if |fields| == 0 then ""
    else if |fields| == 1 then fields[0]
    else fields[0] + [d] + Join(fields[1..], d)
  }

  /** Joining one more field appends the delimiter and that field. */
  lemma {:induction false} JoinSnoc(fields: seq<string>, x: string, d: char)
    requires |fields| >= 1
    ensures Join(fields + [x], d) == Join(fields, d) + [d] + x
  {
    if |fields| > 1 {
      assert (fields + [x])[1..] == fields[1..] + [x];
      JoinSnoc(fields[1..], x, d);
    }
  }

  /** Regrouping a concatenation of three strings. */
  lemma AppendAssoc(a: string, b: string, c: string)
    ensures a + b + c == a + (b + c)
  {
  }

  /** Joining the first `j + 1` fields: the first field alone, or the first `j` joined,
      the delimiter, and field `j`. */
  lemma JoinStep(fields: seq<string>, j: nat, d: char)
    requires j < |fields|
    ensures Join(fields[..j + 1], d) == if j == 0 then fields[0] else Join(fields[..j], d) + [d] + fields[j]
  {
    assert fields[..j + 1] == fields[..j] + [fields[j]];
    if j > 0 {
      JoinSnoc(fields[..j], fields[j], d);
    }
  }

  /** Every piece of `s` between occurrences of `d`, empty pieces and trailing ones included. */
  function Pieces(s: string, d: char): (r: seq<string>)
    ensures |r| >= 1
    ensures forall i :: 0 <= i < |r| ==> d !in r[i]
    decreases |s|
  {
    var k := IndexOf(s, d);
    if k < 0 then [s] else [s[..k]] + Pieces(s[k + 1..], d)
  }

  /** Java's limit-0 rule: trailing empty strings are removed from the result. */
  function DropTrailingEmpty(fields: seq<string>): (r: seq<string>)
    ensures r <= fields
    ensures r == [] || r[|r| - 1] != ""
    ensures forall i :: |r| <= i < |fields| ==> fields[i] == ""
  {
    if |fields| == 0 then []
    else if fields[|fields| - 1] == "" then DropTrailingEmpty(fields[..|fields| - 1])
    else fields
  }

  /** A list ending in an empty string loses at least that one. */
  lemma DropTrailingEmptyShortens(fields: seq<string>)
    requires |fields| >= 1 && fields[|fields| - 1] == ""
    ensures |DropTrailingEmpty(fields)| < |fields|
  {
  }

  /** `s.split(Pattern.quote(d))`: a quoted pattern matches `d` literally; when it does
      not occur the result is `s` alone (so an empty line gives one empty field),
      otherwise the pieces with trailing empty ones dropped (so "|" gives none). */
  function Split(s: string, d: char): (r: seq<string>)
    ensures forall i :: 0 <= i < |r| ==> d !in r[i]
  {
    if d !in s then [s] else DropTrailingEmpty(Pieces(s, d))
  }

  /** Joining the pieces of a string gives the string back. */
  lemma {:induction false} JoinPieces(s: string, d: char)
    ensures Join(Pieces(s, d), d) == s
    decreases |s|
  {
    var k := IndexOf(s, d);
    if k >= 0 {
      var tail := s[k + 1..];
      JoinPieces(tail, d);
      JoinCons(s[..k], Pieces(tail, d), d);
      SplitAround(s, k);
    }
  }

  /** A string is what stands before position `k`, the character at `k`, and the rest. */
  lemma SplitAround(s: string, k: nat)
    requires k < |s|
    ensures s == s[..k] + [s[k]] + s[k + 1..]
  {
    assert s[k..] == [s[k]] + s[k + 1..];
    assert s == s[..k] + s[k..];
  }

  /** Joining a first field before at least one more puts one delimiter between them. */
  lemma JoinCons(head: string, rest: seq<string>, d: char)
    requires |rest| >= 1
    ensures Join([head] + rest, d) == head + [d] + Join(rest, d)
  {
    assert ([head] + rest)[1..] == rest;
  }

  /** The first delimiter in a join of delimiter-free fields ends the first field. */
  lemma FirstDelimiterOfJoin(fields: seq<string>, d: char)
    requires |fields| >= 2
    requires forall i :: 0 <= i < |fields| ==> d !in fields[i]
    ensures IndexOf(Join(fields, d), d) == |fields[0]|
  {
    var s := Join(fields, d);
    assert s[..|fields[0]|] == fields[0];
    IndexOfAt(s, d, |fields[0]|);
  }

  /** Splitting a join of delimiter-free fields into all its pieces gives the fields back. */
  lemma {:induction false} PiecesOfJoin(fields: seq<string>, d: char)
    requires |fields| >= 1
    requires forall i :: 0 <= i < |fields| ==> d !in fields[i]
    ensures Pieces(Join(fields, d), d) == fields
  {
    if |fields| >= 2 {
      var s, rest := Join(fields, d), fields[1..];
      FirstDelimiterOfJoin(fields, d);
      JoinParts(fields, d);
      PiecesAt(s, d, |fields[0]|);
      assert forall i :: 0 <= i < |rest| ==> d !in rest[i] by {
        forall i | 0 <= i < |rest| ensures d !in rest[i] {
          assert rest[i] == fields[i + 1];
        }
      }
      PiecesOfJoin(rest, d);
      assert fields == [fields[0]] + rest;
    }
  }

  /** The pieces of a string whose first delimiter is at `k`. */
  lemma PiecesAt(s: string, d: char, k: nat)
    requires IndexOf(s, d) == k
    ensures Pieces(s, d) == [s[..k]] + Pieces(s[k + 1..], d)
  {
  }

  /** A join of two or more fields is the first field, the delimiter, and the join of the rest. */
  lemma JoinParts(fields: seq<string>, d: char)
    requires |fields| >= 2
    ensures var s, k := Join(fields, d), |fields[0]|;
      k < |s| && s[..k] == fields[0] && s[k + 1..] == Join(fields[1..], d)
  {
    var s, k := Join(fields, d), |fields[0]|;
    assert s == fields[0] + [d] + Join(fields[1..], d);
  }

  /** The split/join round trip: a line built from delimiter-free fields splits back into
      those fields without their trailing empty ones, unless the line is a single empty
      field (which splits into one empty field). */
  lemma SplitOfJoin(fields: seq<string>, d: char)
    requires forall i :: 0 <= i < |fields| ==> d !in fields[i]
    requires |fields| >= 2 || (|fields| == 1 && fields[0] != "")
    ensures Split(Join(fields, d), d) == DropTrailingEmpty(fields)
  {
    if |fields| >= 2 {
      FirstDelimiterOfJoin(fields, d);
      PiecesOfJoin(fields, d);
    }
  }

  /** Consequence of the limit-0 rule: a line whose last field is empty splits into fewer
      fields than it was joined from. */
  lemma SplitLosesTrailingEmptyField(fields: seq<string>, d: char)
    requires forall i :: 0 <= i < |fields| ==> d !in fields[i]
    requires |fields| >= 2 && fields[|fields| - 1] == ""
    ensures |Split(Join(fields, d), d)| < |fields|
  {
    SplitOfJoin(fields, d);
  }

  // ----- Boolean.parseBoolean, Integer.parseInt, Long.parseLong -----

  /** Lower-casing of the ASCII letters. */
  function AsciiLower(c: char): char {
    if 'A' <= c <= 'Z' then (c as int + 32) as char else c
  }

  /** `a.equalsIgnoreCase(b)` for a `b` made of ASCII letters: no other character
      folds to an ASCII letter of "true". */
  predicate EqualsIgnoreCase(a: string, b: string) {
    |a| == |b| && forall i :: 0 <= i < |a| ==> AsciiLower(a[i]) == AsciiLower(b[i])
  }

  /** `Boolean.parseBoolean(s)`: true exactly for "true" in any letter case; never fails. */
  function ParseBoolean(s: string): bool {
    EqualsIgnoreCase(s, "true")
  }

  /** `Boolean.parseBoolean` accepts the sixteen spellings of "true" and nothing else. */
  lemma ParseBooleanSpellings(s: string)
    ensures ParseBoolean(s) <==>
      |s| == 4 && s[0] in "tT" && s[1] in "rR" && s[2] in "uU" && s[3] in "eE"
  {
    if |s| == 4 {
      assert ParseBoolean(s) <==> forall i :: 0 <= i < 4 ==> AsciiLower(s[i]) == AsciiLower("true"[i]);
    }
  }

  const IntMin: int := -0x8000_0000
  const IntMax: int := 0x7FFF_FFFF
  const LongMin: int := -0x8000_0000_0000_0000
  const LongMax: int := 0x7FFF_FFFF_FFFF_FFFF

  predicate IsDigit(c: char) {
    '0' <= c <= '9'
  }

  predicate AllDigits(s: string) {
    forall i :: 0 <= i < |s| ==> IsDigit(s[i])
  }

  /** The value of a string of decimal digits, most significant first. */
  function DigitsValue(s: string): nat
    requires AllDigits(s)
  {
    if |s| == 0 then 0
    else DigitsValue(s[..|s| - 1]) * 10 + (s[|s| - 1] as int - '0' as int)
  }

  /** A string of `n` digits denotes a number below 10^n. */
  lemma {:induction false} DigitsValueBound(s: string)
    requires AllDigits(s)
    ensures DigitsValue(s) < Pow10(|s|)
  {
    if |s| > 0 {
      DigitsValueBound(s[..|s| - 1]);
    }
  }

  function Pow10(n: nat): (r: nat)
    ensures r >= 1
  {
    if n == 0 then 1 else 10 * Pow10(n - 1)
  }

  /** `Integer.parseInt(s)` (with the int range) or `Long.parseLong(s)` (with the long
      range): an optional '+' or '-' followed by at least one digit, denoting a value in
      range; anything else is a NumberFormatException, here None. */
  function ParseInteger(s: string, lo: int, hi: int): (r: Option<int>)
    ensures r.Some? ==> lo <= r.value <= hi
    ensures r.Some? ==> |s| > 0 && IsDigit(s[|s| - 1])
    ensures r.Some? && s[0] == '-' ==> r.value <= 0
    ensures r.Some? && s[0] != '-' ==> r.value >= 0
  {
    var signed := |s| > 0 && (s[0] == '-' || s[0] == '+');
    var digits := if signed then s[1..] else s;
    if |digits| == 0 || !AllDigits(digits) then None
    else
      var v: int := if s[0] == '-' then -(DigitsValue(digits) as int) else DigitsValue(digits) as int;
      if lo <= v <= hi then Some(v) else None
  }

  /** A sign ("", "+" or "-") followed by digits parses to the digits' value, negated
      after '-', when that value is in range, and fails otherwise. */
  lemma ParseIntegerSignedDigits(p: string, d: string, lo: int, hi: int)
    requires p == "" || p == "+" || p == "-"
    requires |d| > 0 && AllDigits(d)
    ensures var v := if p == "-" then -(DigitsValue(d) as int) else DigitsValue(d) as int;
      ParseInteger(p + d, lo, hi) == if lo <= v <= hi then Some(v) else None
  {
    if p == "" {
      assert p + d == d;
      ParseUnsigned(d, lo, hi);
    } else {
      ParseSigned(p[0], d, lo, hi);
      assert p + d == [p[0]] + d;
    }
  }

  /** Digits without a sign. */
  lemma ParseUnsigned(d: string, lo: int, hi: int)
    requires |d| > 0 && AllDigits(d)
    ensures var v := DigitsValue(d) as int;
      ParseInteger(d, lo, hi) == if lo <= v <= hi then Some(v) else None
  {
    assert IsDigit(d[0]);
  }

  /** A sign character followed by digits. */
  lemma ParseSigned(c: char, d: string, lo: int, hi: int)
    requires c == '+' || c == '-'
    requires |d| > 0 && AllDigits(d)
    ensures var v := if c == '-' then -(DigitsValue(d) as int) else DigitsValue(d) as int;
      ParseInteger([c] + d, lo, hi) == if lo <= v <= hi then Some(v) else None
  {
    ConsParts(c, d);
    ParseSignText([c] + d, c, d, lo, hi);
  }

  /** The first character and the rest of `[c] + d`. */
  lemma ConsParts(c: char, d: string)
    ensures |[c] + d| == |d| + 1 && ([c] + d)[0] == c && ([c] + d)[1..] == d
  {
  }

  /** A text whose first character is the sign `c` and whose rest is the digits `d`. */
  lemma ParseSignText(s: string, c: char, d: string, lo: int, hi: int)
    requires c == '+' || c == '-'
    requires |d| > 0 && AllDigits(d)
    requires |s| == |d| + 1 && s[0] == c && s[1..] == d
    ensures var v := if c == '-' then -(DigitsValue(d) as int) else DigitsValue(d) as int;
      ParseInteger(s, lo, hi) == if lo <= v <= hi then Some(v) else None
  {
  }

  /** Only a sign followed by at least one digit parses: any text of another shape is a
      NumberFormatException. */
  lemma ParseIntegerShape(s: string, lo: int, hi: int)
    ensures ParseInteger(s, lo, hi).Some? ==>
      exists p: string, d: string :: (p == "" || p == "+" || p == "-") && |d| > 0 && AllDigits(d) && s == p + d
  {
    if ParseInteger(s, lo, hi).Some? {
      if s[0] == '-' || s[0] == '+' {
        assert s == s[..1] + s[1..];
      } else {
        assert s == "" + s;
      }
    }
  }

  /** The values of the digits of 2^31 - 1 and 2^31, one digit at a time. */
  lemma DigitsOfIntEdges()
    ensures DigitsValue("2147483647") == IntMax && DigitsValue("2147483648") == -IntMin
  {
    var s := "2147483648";
    var t := "2147483647";
    assert DigitsValue(s[..0]) == 0;
    assert s[..1][..0] == s[..0];
    assert DigitsValue(s[..1]) == 2;
    assert s[..2][..1] == s[..1];
    assert DigitsValue(s[..2]) == 21;
    assert s[..3][..2] == s[..2];
    assert DigitsValue(s[..3]) == 214;
    assert s[..4][..3] == s[..3];
    assert DigitsValue(s[..4]) == 2147;
    assert s[..5][..4] == s[..4];
    assert DigitsValue(s[..5]) == 21474;
    assert s[..6][..5] == s[..5];
    assert DigitsValue(s[..6]) == 214748;
    assert s[..7][..6] == s[..6];
    assert DigitsValue(s[..7]) == 2147483;
    assert s[..8][..7] == s[..7];
    assert DigitsValue(s[..8]) == 21474836;
    assert s[..9][..8] == s[..8];
    assert DigitsValue(s[..9]) == 214748364;
    assert s[..9] == t[..9] && t[..9] == t[..10][..9];
    assert s == s[..10] && t == t[..10];
  }

  /** The edges of the `int` range: -2^31 and 2^31 - 1 parse, 2^31 does not. */
  lemma IntRangeEdges()
    ensures ParseInteger("-2147483648", IntMin, IntMax) == Some(IntMin)
    ensures ParseInteger("2147483647", IntMin, IntMax) == Some(IntMax)
    ensures ParseInteger("2147483648", IntMin, IntMax).None?
  {
    DigitsOfIntEdges();
    IntMinParses();
    assert "" + "2147483647" == "2147483647";
    ParseIntegerSignedDigits("", "2147483647", IntMin, IntMax);
    assert "" + "2147483648" == "2147483648";
    ParseIntegerSignedDigits("", "2147483648", IntMin, IntMax);
  }

  /** The least `int` parses, although its digits alone exceed the range. */
  lemma IntMinParses()
    ensures ParseInteger("-2147483648", IntMin, IntMax) == Some(IntMin)
  {
    DigitsOfIntEdges();
    assert "-2147483648" == "-" + "2147483648";
    ParseIntegerSignedDigits("-", "2147483648", IntMin, IntMax);
  }

  /** "-0" is zero; a sign alone and a text with a non-digit are rejected. */
  lemma SmallIntegerTexts()
    ensures ParseInteger("-0", IntMin, IntMax) == Some(0)
    ensures ParseInteger("+", IntMin, IntMax).None? && ParseInteger("1a2", IntMin, IntMax).None?
  {
    ParseIntegerSignedDigits("-", "0", IntMin, IntMax);
    assert !IsDigit("1a2"[1]);
  }

  /** Every string of one to nine ASCII digits is a decimal `int` that `Integer.parseInt`
      accepts, with the value its digits denote. */
  lemma ShortDigitsParseAsInt(s: string)
    requires 1 <= |s| <= 9 && AllDigits(s)
    ensures ParseInteger(s, IntMin, IntMax) == Some(DigitsValue(s))
  {
    DigitsValueBound(s);
    Pow10AtMost(|s|);
    assert IsDigit(s[0]);
  }

  /** Nine digits at most denote less than 10^9. */
  lemma Pow10AtMost(n: nat)
    requires n <= 9
    ensures Pow10(n) <= 1_000_000_000
    decreases 9 - n
  {
    if n < 9 {
      Pow10AtMost(n + 1);
    }
  }
}
