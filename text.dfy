/**
 * The pieces of .NET string handling that the compiler front end relies on, stated
 * over `string == seq<char>`: formatting and parsing of decimal integers
 * (`Int32.ToString`, `Int32.Parse` with `NumberStyles.Integer`), `String.Split`,
 * `String.Join`, `String.Replace(pattern, "")` and ASCII lower-casing.
 */
module Text {
  import opened Wrappers

  const Int32Max: int := 0x7fff_ffff
  const Int32Min: int := -0x8000_0000

  predicate IsDigit(c: char) { '0' <= c <= '9' }

  predicate AllDigits(s: string) { forall i :: 0 <= i < |s| ==> IsDigit(s[i]) }

  function DigitChar(d: nat): (c: char)
    requires d < 10
    ensures IsDigit(c) && c as int - '0' as int == d
  {
    (d + '0' as int) as char
  }

  function DigitValue(c: char): nat
    requires IsDigit(c)
  {
    c as int - '0' as int
  }

  // ---------------------------------------------------------------------------
  // Decimal numbers
  // ---------------------------------------------------------------------------

  /** The decimal digits of `n` with no leading zero: what `Int32.ToString()` and string
      interpolation print for a non-negative value. */
  function Decimal(n: nat): (s: string)
    ensures |s| >= 1 && AllDigits(s)
    decreases n
  {
    if n < 10 then [DigitChar(n)] else Decimal(n / 10) + [DigitChar(n % 10)]
  }

  /** The value of a string of decimal digits (most significant first). */
  function DigitsValue(s: string): nat
    requires AllDigits(s)
    decreases |s|
  {
    if s == [] then 0 else 10 * DigitsValue(s[..|s| - 1]) + DigitValue(s[|s| - 1])
  }

  /** Reading back what `Decimal` prints gives the number that was printed. */
  lemma {:induction false} DecimalRoundTrip(n: nat)
    ensures DigitsValue(Decimal(n)) == n
  {
    if n >= 10 {
      DecimalRoundTrip(n / 10);
      var s := Decimal(n);
      assert s[..|s| - 1] == Decimal(n / 10);
    }
  }

  /** The longest prefix of `s` made of decimal digits. */
  function LeadingDigits(s: string): (d: string)
    ensures d <= s && AllDigits(d)
  {
    if s != [] && IsDigit(s[0]) then [s[0]] + LeadingDigits(s[1..]) else []
  }

  lemma {:induction false} LeadingDigitsOf(d: string, rest: string)
    requires AllDigits(d)
    requires rest == [] || !IsDigit(rest[0])
    ensures LeadingDigits(d + rest) == d
    decreases |d|
  {
    if d != [] {
      assert (d + rest)[1..] == d[1..] + rest;
      LeadingDigitsOf(d[1..], rest);
    } else {
      assert d + rest == rest;
    }
  }

  /** The white space that `NumberStyles.AllowLeadingWhite` / `AllowTrailingWhite` skip:
      U+0009 to U+000D and the space. */
  predicate IsWhite(c: char) { c == ' ' || '\t' <= c <= '\r' }

  function TrimWhite(s: string): (t: string)
    ensures |t| <= |s|
    ensures t == [] || (!IsWhite(t[0]) && !IsWhite(t[|t| - 1]))
    decreases |s|
  {
    if s == [] then s
    else if IsWhite(s[0]) then TrimWhite(s[1..])
    else if IsWhite(s[|s| - 1]) then TrimWhite(s[..|s| - 1])
    else s
  }

  /** `Int32.Parse(s, NumberStyles.Integer, …)`: optional surrounding white space, an
      optional `+` or `-` sign and at least one decimal digit, within the 32-bit range.
      `None` stands for the `FormatException` / `OverflowException` the parser throws. */
  /** `t` is an integer literal whose sign, if any, takes the first `k` characters: a
      sign-free digit string (`k == 0`) or a `+` or `-` followed by digits (`k == 1`). */
  predicate IsIntegerLiteral(t: string, k: nat)
  {
    k <= 1 && k < |t| && (k == 1 ==> t[0] == '+' || t[0] == '-') && AllDigits(t[k..])
  }

  /** The value of an integer literal: its digits, negated after a `-`. */
  function LiteralValue(t: string, k: nat): int
    requires IsIntegerLiteral(t, k)
  {
    var magnitude: int := DigitsValue(t[k..]);
    if k == 1 && t[0] == '-' then -magnitude else magnitude
  }

  function ParseInt32(s: string): (r: Option<int>)
    ensures r.Some? ==> Int32Min <= r.value <= Int32Max
  {
    var t := TrimWhite(s);
    if t == [] then None
    else
      var negative := t[0] == '-';
      var digits := if t[0] == '-' || t[0] == '+' then t[1..] else t;
      if digits == [] || !AllDigits(digits) then None
      else
        var magnitude: int := DigitsValue(digits);
        var v := if negative then -magnitude else magnitude;
        if Int32Min <= v <= Int32Max then Some(v) else None
  }

  /** A value comes only from an integer literal (up to surrounding white space) and is
      its value; a literal is accepted exactly when its value is a 32-bit one. */
  lemma ParseInt32Meaning(s: string)
    ensures ParseInt32(s).Some? ==>
      exists k :: IsIntegerLiteral(TrimWhite(s), k) && ParseInt32(s).value == LiteralValue(TrimWhite(s), k)
    ensures forall k :: IsIntegerLiteral(TrimWhite(s), k) ==>
      ParseInt32(s) == (if Int32Min <= LiteralValue(TrimWhite(s), k) <= Int32Max then Some(LiteralValue(TrimWhite(s), k)) else None)
  {
    var t := TrimWhite(s);
    if t != [] {
      var k := if t[0] == '-' || t[0] == '+' then 1 else 0;
      if ParseInt32(s).Some? {
        assert IsIntegerLiteral(t, k);
      }
    }
  }

  /** Parsing what `Decimal` prints recovers every non-negative 32-bit value. */
  lemma ParseDecimal(n: nat)
    requires n <= Int32Max
    ensures ParseInt32(Decimal(n)) == Some(n)
  {
    var s := Decimal(n);
    assert !IsWhite(s[0]) && !IsWhite(s[|s| - 1]);
    assert TrimWhite(s) == s;
    DecimalRoundTrip(n);
  }

  // ---------------------------------------------------------------------------
  // Splitting and joining
  // ---------------------------------------------------------------------------

  /** `s.Split(separators)` with no options: every separator character ends a part, so
      empty parts are kept and an input with k separators has k + 1 parts. */
  function Split(s: string, seps: set<char>): (parts: seq<string>)
    ensures |parts| >= 1
    decreases |s|
  {
    if s == [] then [""]
    else
      var rest := Split(s[1..], seps);
      if s[0] in seps then [""] + rest else [[s[0]] + rest[0]] + rest[1..]
  }

  /** The number of characters of `s` that are in `cs`. */
  function CountIn(s: string, cs: set<char>): nat
  {
    if s == [] then 0 else (if s[0] in cs then 1 else 0) + CountIn(s[1..], cs)
  }

  predicate FreeOf(s: string, cs: set<char>) { forall i :: 0 <= i < |s| ==> s[i] !in cs }

  /** `String.Join(sep, parts)`: the parts in order with `sep` between neighbours and
      nowhere else. */
  function Join(parts: seq<string>, sep: string): (r: string)
    ensures parts != [] ==> parts[0] <= r
    ensures parts == [] ==> r == ""
    decreases |parts|
  {
    if parts == [] then ""
    else if |parts| == 1 then parts[0]
    else parts[0] + sep + Join(parts[1..], sep)
  }

  /** No part contains a separator, and there is exactly one part more than there are
      separators in the input. */
  lemma {:induction false} SplitParts(s: string, seps: set<char>)
    ensures |Split(s, seps)| == CountIn(s, seps) + 1
    ensures forall i :: 0 <= i < |Split(s, seps)| ==> FreeOf(Split(s, seps)[i], seps)
    decreases |s|
  {
    if s != [] {
      SplitParts(s[1..], seps);
      var rest := Split(s[1..], seps);
      if s[0] !in seps {
        var head := [s[0]] + rest[0];
        assert FreeOf(head, seps) by {
          forall i | 0 <= i < |head| ensures head[i] !in seps {
            if i > 0 { assert head[i] == rest[0][i - 1]; }
          }
        }
      }
    }
  }

  /** A join of parts and a separator that avoid `c` avoids `c`. */
  lemma {:induction false} JoinFreeOf(parts: seq<string>, sep: string, c: char)
    requires FreeOf(sep, {c})
    requires forall i :: 0 <= i < |parts| ==> FreeOf(parts[i], {c})
    ensures FreeOf(Join(parts, sep), {c})
    decreases |parts|
  {
    if |parts| > 1 {
      JoinFreeOf(parts[1..], sep, c);
      var j := Join(parts[1..], sep);
      var s := parts[0] + sep + j;
      forall i | 0 <= i < |s| ensures s[i] != c {
        if i < |parts[0]| {
          assert s[i] == parts[0][i];
        } else if i < |parts[0]| + |sep| {
          assert s[i] == sep[i - |parts[0]|];
        } else {
          assert s[i] == j[i - |parts[0]| - |sep|];
        }
      }
    }
  }

  lemma JoinFirst(x: string, parts: seq<string>, sep: string)
    requires parts != []
    ensures Join([x + parts[0]] + parts[1..], sep) == x + Join(parts, sep)
  {
    var ps := [x + parts[0]] + parts[1..];
    assert ps[1..] == parts[1..];
    if |parts| > 1 {
      assert x + parts[0] + sep + Join(parts[1..], sep) == x + (parts[0] + sep + Join(parts[1..], sep));
    }
  }

  /** Joining the parts of a split with the separator gives back the input. */
  lemma {:induction false} JoinSplit(s: string, c: char)
    ensures Join(Split(s, {c}), [c]) == s
    decreases |s|
  {
    if s != [] {
      JoinSplit(s[1..], c);
      var rest := Split(s[1..], {c});
      if s[0] == c {
        assert ([""] + rest)[1..] == rest;
        assert s == [c] + s[1..];
      } else {
        JoinFirst([s[0]], rest, [c]);
        assert s == [s[0]] + s[1..];
      }
    }
  }

  /** A string without separators is a single part. */
  lemma {:induction false} SplitFree(p: string, seps: set<char>)
    requires FreeOf(p, seps)
    ensures Split(p, seps) == [p]
    decreases |p|
  {
    if p != [] {
      SplitFree(p[1..], seps);
      assert [p[0]] + p[1..] == p;
    }
  }

  lemma {:induction false} SplitAfterPart(p: string, c: char, t: string)
    requires FreeOf(p, {c})
    ensures Split(p + [c] + t, {c}) == [p] + Split(t, {c})
    decreases |p|
  {
    var s := p + [c] + t;
    if p == [] {
      assert s[0] == c && s[1..] == t;
    } else {
      assert s[0] == p[0] && s[1..] == p[1..] + [c] + t;
      SplitAfterPart(p[1..], c, t);
      assert [p[0]] + p[1..] == p;
    }
  }

  /** Splitting a join recovers the parts, provided none of them contains the separator:
      the converse of `JoinSplit`. */
  lemma {:induction false} SplitJoin(parts: seq<string>, c: char)
    requires parts != []
    requires forall i :: 0 <= i < |parts| ==> FreeOf(parts[i], {c})
    ensures Split(Join(parts, [c]), {c}) == parts
    decreases |parts|
  {
    if |parts| == 1 {
      SplitFree(parts[0], {c});
    } else {
      SplitJoin(parts[1..], c);
      SplitAfterPart(parts[0], c, Join(parts[1..], [c]));
      assert [parts[0]] + parts[1..] == parts;
    }
  }

  /** A separator splits the input in two: the parts before it, then the parts after it. */
  lemma {:induction false} SplitAtSeparator(a: string, c: char, b: string, seps: set<char>)
    requires c in seps
    ensures Split(a + [c] + b, seps) == Split(a, seps) + Split(b, seps)
    decreases |a|
  {
    var s := a + [c] + b;
    if a == [] {
      assert s[0] == c && s[1..] == b;
    } else {
      assert s[0] == a[0] && s[1..] == a[1..] + [c] + b;
      SplitAtSeparator(a[1..], c, b, seps);
      var front := Split(a[1..], seps);
      if a[0] !in seps {
        assert (front + Split(b, seps))[0] == front[0];
        assert (front + Split(b, seps))[1..] == front[1..] + Split(b, seps);
      }
    }
  }

  /** The characters that end a line in `String.Split(new[] { '\r', '\n' }, …)`. */
  const LineBreaks: set<char> := {'\r', '\n'}

  /** `StringSplitOptions.RemoveEmptyEntries`: the non-empty parts, in order. */
  function NonEmpty(parts: seq<string>): (r: seq<string>)
    ensures |r| <= |parts|
    ensures forall i :: 0 <= i < |r| ==> r[i] != "" && r[i] in parts
  {
    if parts == [] then []
    else (if parts[0] == "" then [] else [parts[0]]) + NonEmpty(parts[1..])
  }

  /** `s.Split(new[] { '\r', '\n' }, StringSplitOptions.RemoveEmptyEntries)`. */
  function SplitLines(s: string): seq<string>
  {
    NonEmpty(Split(s, LineBreaks))
  }

  /** The parts written one after another. */
  function Concat(parts: seq<string>): string
  {
    if parts == [] then "" else parts[0] + Concat(parts[1..])
  }

  /** `s` with every character of `cs` deleted. */
  function Without(s: string, cs: set<char>): string
  {
    if s == [] then "" else (if s[0] in cs then "" else [s[0]]) + Without(s[1..], cs)
  }

  lemma {:induction false} ConcatSplit(s: string, seps: set<char>)
    ensures Concat(Split(s, seps)) == Without(s, seps)
    decreases |s|
  {
    if s != [] {
      ConcatSplit(s[1..], seps);
      var rest := Split(s[1..], seps);
      if s[0] in seps {
        assert ([""] + rest)[1..] == rest;
      } else {
        var ps := [[s[0]] + rest[0]] + rest[1..];
        assert ps[1..] == rest[1..];
        assert Concat(rest) == rest[0] + Concat(rest[1..]);
      }
    }
  }

  lemma {:induction false} ConcatNonEmpty(parts: seq<string>)
    ensures Concat(NonEmpty(parts)) == Concat(parts)
    decreases |parts|
  {
    if parts != [] {
      ConcatNonEmpty(parts[1..]);
      if parts[0] != "" {
        assert ([parts[0]] + NonEmpty(parts[1..]))[1..] == NonEmpty(parts[1..]);
      } else {
        assert NonEmpty(parts) == NonEmpty(parts[1..]);
      }
    }
  }

  lemma {:induction false} NonEmptyAppend(x: seq<string>, y: seq<string>)
    ensures NonEmpty(x + y) == NonEmpty(x) + NonEmpty(y)
    decreases |x|
  {
    if x == [] {
      assert x + y == y;
    } else {
      assert (x + y)[0] == x[0] && (x + y)[1..] == x[1..] + y;
      NonEmptyAppend(x[1..], y);
    }
  }

  /** A line break ends a line: the lines of `a + [c] + b` are those of `a`, then those of `b`. */
  lemma SplitLinesAtBreak(a: string, c: char, b: string)
    requires c in LineBreaks
    ensures SplitLines(a + [c] + b) == SplitLines(a) + SplitLines(b)
  {
    SplitAtSeparator(a, c, b, LineBreaks);
    NonEmptyAppend(Split(a, LineBreaks), Split(b, LineBreaks));
  }

  /** A non-empty text without line breaks is one line. */
  lemma SplitLinesOfLine(p: string)
    requires p != "" && FreeOf(p, LineBreaks)
    ensures SplitLines(p) == [p]
  {
    SplitFree(p, LineBreaks);
    assert NonEmpty([p]) == [p] + NonEmpty([]);
  }

  /** The lines are non-empty, contain no line break, and written one after another they
      are exactly the input with its line breaks deleted. */
  lemma SplitLinesSpec(s: string)
    ensures forall i :: 0 <= i < |SplitLines(s)| ==> SplitLines(s)[i] != "" && FreeOf(SplitLines(s)[i], LineBreaks)
    ensures Concat(SplitLines(s)) == Without(s, LineBreaks)
  {
    SplitParts(s, LineBreaks);
    ConcatSplit(s, LineBreaks);
    ConcatNonEmpty(Split(s, LineBreaks));
  }

  // ---------------------------------------------------------------------------
  // Replace and case
  // ---------------------------------------------------------------------------

  /** `s.Replace(pattern, "")`: ordinal, left to right, non-overlapping occurrences. */
  function RemoveAll(s: string, pattern: string): (r: string)
    requires pattern != []
    ensures |r| <= |s|
    decreases |s|
  {
    if |s| < |pattern| then s
    else if s[..|pattern|] == pattern then RemoveAll(s[|pattern|..], pattern)
    else [s[0]] + RemoveAll(s[1..], pattern)
  }

  /** `pattern` occurs in `s` starting at index `i`. */
  predicate OccursAt(s: string, pattern: string, i: nat)
  {
    i + |pattern| <= |s| && s[i..i + |pattern|] == pattern
  }

  /** `pattern` occurs nowhere in `s`. */
  predicate Lacks(s: string, pattern: string)
  {
    forall i: nat :: i <= |s| ==> !OccursAt(s, pattern, i)
  }

  /** A string in which the pattern does not occur is left as it is. */
  lemma {:induction false} RemoveAllAbsent(s: string, pattern: string)
    requires pattern != [] && Lacks(s, pattern)
    ensures RemoveAll(s, pattern) == s
    decreases |s|
  {
    if |s| >= |pattern| {
      assert !OccursAt(s, pattern, 0);
      forall i: nat | i <= |s[1..]| ensures !OccursAt(s[1..], pattern, i) {
        assert !OccursAt(s, pattern, i + 1);
        if i + |pattern| <= |s[1..]| {
          assert s[1..][i..i + |pattern|] == s[i + 1..i + 1 + |pattern|];
        }
      }
      RemoveAllAbsent(s[1..], pattern);
      assert [s[0]] + s[1..] == s;
    }
  }

  /** ASCII part of `Char.ToLowerInvariant`. */
  function LowerChar(c: char): char
  {
    if 'A' <= c <= 'Z' then (c as int + 32) as char else c
  }

  /** `s.ToLowerInvariant()` on ASCII letters. */
  function ToLower(s: string): (r: string)
    ensures |r| == |s|
    ensures forall i :: 0 <= i < |s| ==> r[i] == LowerChar(s[i])
  {
    if s == [] then [] else [LowerChar(s[0])] + ToLower(s[1..])
  }
}
