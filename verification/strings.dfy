/** Character classes and string primitives with the meaning the JavaScript
    built-ins used by the digest editor give them: `split` on one character,
    `join`, `trim`, ASCII case mapping, `String(n)` for integers and `parseInt`
    with no radix: decimal, or hexadecimal after "0x". Strings are sequences of Unicode scalar values. */
module Strings {
  import opened Base

  /** JavaScript's `\s` class, which is also the set `trim` strips: the
      WhiteSpace and LineTerminator code points of ECMA-262. */
  predicate IsSpace(c: char) {
    || c == ' ' || c == '\t' || c == '\n' || c == '\r' || c == '\U{000B}' || c == '\U{000C}'
    || c == '\U{00A0}' || c == '\U{1680}' || ('\U{2000}' <= c <= '\U{200A}')
    || c == '\U{2028}' || c == '\U{2029}' || c == '\U{202F}' || c == '\U{205F}'
    || c == '\U{3000}' || c == '\U{FEFF}'
  }

  /** The characters before which `$` matches in a multiline regular expression. */
  predicate IsLineTerminator(c: char) {
    c == '\n' || c == '\r' || c == '\U{2028}' || c == '\U{2029}'
  }

  predicate IsDigit(c: char) { '0' <= c <= '9' }
  predicate IsAsciiLower(c: char) { 'a' <= c <= 'z' }
  predicate IsAsciiUpper(c: char) { 'A' <= c <= 'Z' }
  predicate IsAsciiAlnum(c: char) { IsDigit(c) || IsAsciiLower(c) || IsAsciiUpper(c) }

  predicate AllDigits(s: string) { forall i :: 0 <= i < |s| ==> IsDigit(s[i]) }

  function LowerChar(c: char): char {
    if IsAsciiUpper(c) then (c as int + 32) as char else c
  }

  function UpperChar(c: char): char {
    if IsAsciiLower(c) then (c as int - 32) as char else c
  }

  /** `toLowerCase`, restricted to the ASCII letters. */
  function Lower(s: string): (r: string)
    ensures |r| == |s|
    ensures forall i :: 0 <= i < |s| ==> r[i] == LowerChar(s[i])
  {
    seq(|s|, i requires 0 <= i < |s| => LowerChar(s[i]))
  }

  lemma LowerAppend(a: string, b: string)
    ensures Lower(a + b) == Lower(a) + Lower(b)
  {
  }

  lemma LowerIdempotent(s: string)
    ensures Lower(Lower(s)) == Lower(s)
  {
  }

  // ---------------------------------------------------------------------------
  // Trimming

  function TrimStart(s: string): (r: string)
    ensures |r| <= |s|
    ensures r == [] || !IsSpace(r[0])
  {
    if |s| > 0 && IsSpace(s[0]) then TrimStart(s[1..]) else s
  }

  function TrimEnd(s: string): (r: string)
    ensures |r| <= |s|
    ensures r == [] || (r[0] == s[0] && !IsSpace(r[|r| - 1]))
  {
    if |s| > 0 && IsSpace(s[|s| - 1]) then TrimEnd(s[..|s| - 1]) else s
  }

  /** A trailing space is dropped and the rest is trimmed on. */
  lemma TrimEndSnoc(s: string, c: char)
    ensures IsSpace(c) ==> TrimEnd(s + [c]) == TrimEnd(s)
    ensures !IsSpace(c) ==> TrimEnd(s + [c]) == s + [c]
  {
    assert (s + [c])[..|s|] == s;
  }

  /** `trim`: the longest infix with no whitespace at either end. */
  function Trim(s: string): (r: string)
    ensures r == [] || (!IsSpace(r[0]) && !IsSpace(r[|r| - 1]))
  {
    TrimEnd(TrimStart(s))
  }

  lemma TrimUnchanged(s: string)
    requires s == [] || (!IsSpace(s[0]) && !IsSpace(s[|s| - 1]))
    ensures Trim(s) == s
  {
  }

  // ---------------------------------------------------------------------------
  // Searching

  predicate StartsWith(s: string, prefix: string) {
    |prefix| <= |s| && s[..|prefix|] == prefix
  }

  predicate EndsWith(s: string, suffix: string) {
    |suffix| <= |s| && s[|s| - |suffix|..] == suffix
  }

  /** `s.includes(sub)`. */
  predicate Contains(s: string, sub: string)
    decreases |s|
  {
    StartsWith(s, sub) || (|s| > 0 && Contains(s[1..], sub))
  }

  function IndexOf(s: string, c: char): (i: nat)
    requires c in s
    ensures i < |s| && s[i] == c && c !in s[..i]
  {
    if s[0] == c then 0
    else
      var j := IndexOf(s[1..], c);
      assert s[..j + 1] == [s[0]] + s[1..][..j];
      j + 1
  }

  lemma {:induction false} IndexOfAfter(a: string, c: char, b: string)
    requires c !in a
    ensures c in a + [c] + b && IndexOf(a + [c] + b, c) == |a|
  {
    var s := a + [c] + b;
    assert s[|a|] == c;
    if |a| > 0 {
      assert s[1..] == a[1..] + [c] + b;
      IndexOfAfter(a[1..], c, b);
    }
  }

  // ---------------------------------------------------------------------------
  // split and join

  /** `s.split(c)` for a one-character separator: always at least one part,
      and no part contains the separator. */
  function Split(s: string, c: char): (parts: seq<string>)
    ensures |parts| > 0
    ensures forall i :: 0 <= i < |parts| ==> c !in parts[i]
    decreases |s|
  {
    if c in s then
      var i := IndexOf(s, c);
      [s[..i]] + Split(s[i + 1..], c)
    else
      [s]
  }

  /** `parts.join(sep)`. */
  function Join(parts: seq<string>, sep: string): string {
    if |parts| == 0 then ""
    else if |parts| == 1 then parts[0]
    else parts[0] + sep + Join(parts[1..], sep)
  }

  /** The concatenation of all parts (`join("")`). */
  function Concat(parts: seq<string>): string {
    if |parts| == 0 then "" else parts[0] + Concat(parts[1..])
  }

  /** Each line followed by a newline, as repeated `md += line + "\n"` builds it. */
  function Unlines(lines: seq<string>): string {
    if |lines| == 0 then "" else lines[0] + "\n" + Unlines(lines[1..])
  }

  /** The first separator at `i` cuts off the first part. */
  lemma SplitAt(s: string, c: char, i: nat)
    requires i < |s| && s[i] == c && c !in s[..i]
    ensures Split(s, c) == [s[..i]] + Split(s[i + 1..], c)
  {
    IndexOfUnique(s, c, i);
  }

  lemma IndexOfUnique(s: string, c: char, k: nat)
    requires k < |s| && s[k] == c && c !in s[..k]
    ensures IndexOf(s, c) == k
  {
  }

  /** Joining a part in front of a nonempty list. */
  lemma JoinCons(p: string, rest: seq<string>, sep: string)
    requires |rest| > 0
    ensures Join([p] + rest, sep) == p + sep + Join(rest, sep)
  {
    assert ([p] + rest)[1..] == rest;
  }

  lemma {:induction false} JoinSplit(s: string, c: char)
    ensures Join(Split(s, c), [c]) == s
    decreases |s|
  {
    if c in s {
      var i := IndexOf(s, c);
      var rest := Split(s[i + 1..], c);
      SplitAt(s, c, i);
      JoinSplit(s[i + 1..], c);
      JoinCons(s[..i], rest, [c]);
      assert s == s[..i] + [c] + s[i + 1..];
    }
  }

  lemma {:induction false} SplitJoin(parts: seq<string>, c: char)
    requires |parts| > 0
    requires forall i :: 0 <= i < |parts| ==> c !in parts[i]
    ensures Split(Join(parts, [c]), c) == parts
  {
    if |parts| > 1 {
      var rest := Join(parts[1..], [c]);
      var s := parts[0] + [c] + rest;
      assert Join(parts, [c]) == s;
      IndexOfAfter(parts[0], c, rest);
      assert s[..|parts[0]|] == parts[0];
      assert s[|parts[0]| + 1..] == rest;
      SplitJoin(parts[1..], c);
    }
  }

  lemma {:induction false} UnlinesAsJoin(lines: seq<string>)
    ensures Unlines(lines) == Join(lines + [""], "\n")
  {
    if |lines| > 0 {
      UnlinesAsJoin(lines[1..]);
      assert (lines + [""])[1..] == lines[1..] + [""];
    }
  }

  /** Reading back lines written with `Unlines` gives the lines and one empty
      remainder after the final newline. */
  lemma SplitUnlines(lines: seq<string>)
    requires forall i :: 0 <= i < |lines| ==> '\n' !in lines[i]
    ensures Split(Unlines(lines), '\n') == lines + [""]
  {
    UnlinesAsJoin(lines);
    SplitJoin(lines + [""], '\n');
  }

  lemma {:induction false} UnlinesAppend(a: seq<string>, b: seq<string>)
    ensures Unlines(a + b) == Unlines(a) + Unlines(b)
  {
    if |a| > 0 {
      UnlinesAppend(a[1..], b);
      assert (a + b)[1..] == a[1..] + b;
    } else {
      assert a + b == b;
    }
  }

  /** Every occurrence of `c` replaced by `rep` (`s.replace(/c/g, rep)`). */
  function ReplaceChar(s: string, c: char, rep: string): string {
    if |s| == 0 then ""
    else (if s[0] == c then rep else [s[0]]) + ReplaceChar(s[1..], c, rep)
  }

  lemma {:induction false} ReplaceCharAppend(a: string, b: string, c: char, rep: string)
    ensures ReplaceChar(a + b, c, rep) == ReplaceChar(a, c, rep) + ReplaceChar(b, c, rep)
  {
    if |a| > 0 {
      assert (a + b)[1..] == a[1..] + b;
      ReplaceCharAppend(a[1..], b, c, rep);
    } else {
      assert a + b == b;
    }
  }

  lemma {:induction false} ReplaceCharAbsent(s: string, c: char, rep: string)
    requires c !in s
    ensures ReplaceChar(s, c, rep) == s
  {
    if |s| > 0 {
      ReplaceCharAbsent(s[1..], c, rep);
    }
  }

  /** `charAt(0).toUpperCase() + slice(1)`, with ASCII case mapping. */
  function Capitalize(w: string): (r: string)
    ensures |r| == |w|
  {
    if |w| == 0 then w else [UpperChar(w[0])] + w[1..]
  }

  // ---------------------------------------------------------------------------
  // Lexicographic order

  /** Code-point lexicographic order, standing in for `<` on date strings and
      for `localeCompare` on titles. */
  predicate LexLess(a: string, b: string) {
    if |a| == 0 then |b| > 0
    else if |b| == 0 then false
    else if a[0] != b[0] then a[0] < b[0]
    else LexLess(a[1..], b[1..])
  }

  lemma {:induction false} LexLessIrreflexive(a: string)
    ensures !LexLess(a, a)
  {
    if |a| > 0 {
      LexLessIrreflexive(a[1..]);
    }
  }

  lemma {:induction false} LexLessAsymmetric(a: string, b: string)
    ensures !(LexLess(a, b) && LexLess(b, a))
  {
    if |a| > 0 && |b| > 0 && a[0] == b[0] {
      LexLessAsymmetric(a[1..], b[1..]);
    }
  }

  lemma {:induction false} LexLessTransitive(a: string, b: string, c: string)
    requires LexLess(a, b) && LexLess(b, c)
    ensures LexLess(a, c)
  {
    if |a| > 0 && a[0] == b[0] && b[0] == c[0] {
      LexLessTransitive(a[1..], b[1..], c[1..]);
    }
  }

  lemma {:induction false} LexLessTotal(a: string, b: string)
    requires a != b
    ensures LexLess(a, b) || LexLess(b, a)
  {
    if |a| > 0 && |b| > 0 && a[0] == b[0] {
      assert a == [a[0]] + a[1..] && b == [b[0]] + b[1..];
      LexLessTotal(a[1..], b[1..]);
    }
  }

  /** The sign `localeCompare` returns, under the code-point order. */
  function LexCompare(a: string, b: string): int {
    if a == b then 0 else if LexLess(a, b) then -1 else 1
  }

  // ---------------------------------------------------------------------------
  // Integers as text

  function DigitChar(d: nat): char
    requires d < 10
  {
    ('0' as int + d) as char
  }

  /** `String(n)` for a non-negative integer: decimal, no leading zero. */
  function NatToString(n: nat): (r: string)
    ensures |r| > 0 && AllDigits(r)
    ensures n >= 10 ==> r[0] != '0'
  {
    if n < 10 then [DigitChar(n)] else NatToString(n / 10) + [DigitChar(n % 10)]
  }

  /** `String(n)` for an integer. */
  function IntToString(n: int): string {
    if n < 0 then "-" + NatToString(-n) else NatToString(n)
  }

  function DigitsValue(ds: string): nat
    requires AllDigits(ds)
  {
    if |ds| == 0 then 0
    else DigitsValue(ds[..|ds| - 1]) * 10 + (ds[|ds| - 1] as int - '0' as int)
  }

  lemma {:induction false} DigitsValueOfNat(n: nat)
    ensures DigitsValue(NatToString(n)) == n
  {
    if n >= 10 {
      var r := NatToString(n);
      assert r[..|r| - 1] == NatToString(n / 10);
      DigitsValueOfNat(n / 10);
    }
  }

  /** The number of leading decimal digits of `s`. */
  function LeadingDigits(s: string): (n: nat)
    ensures n <= |s| && AllDigits(s[..n])
    ensures n < |s| ==> !IsDigit(s[n])
  {
    if |s| > 0 && IsDigit(s[0]) then
      var k := LeadingDigits(s[1..]);
      assert s[..k + 1] == [s[0]] + s[1..][..k];
      k + 1
    else 0
  }

  lemma {:induction false} LeadingDigitsAll(s: string)
    requires AllDigits(s)
    ensures LeadingDigits(s) == |s|
  {
    if |s| > 0 {
      LeadingDigitsAll(s[1..]);
    }
  }

  predicate IsHexDigit(c: char) { IsDigit(c) || 'a' <= c <= 'f' || 'A' <= c <= 'F' }

  predicate AllHexDigits(s: string) { forall i :: 0 <= i < |s| ==> IsHexDigit(s[i]) }

  function HexDigitValue(c: char): (v: nat)
    requires IsHexDigit(c)
    ensures v < 16
  {
    if IsDigit(c) then c as int - '0' as int
    else if 'a' <= c <= 'f' then c as int - 'a' as int + 10
    else c as int - 'A' as int + 10
  }

  /** The value of a string of hexadecimal digits, most significant first. */
  function HexValue(ds: string): nat
    requires AllHexDigits(ds)
  {
    if |ds| == 0 then 0
    else HexValue(ds[..|ds| - 1]) * 16 + HexDigitValue(ds[|ds| - 1])
  }

  /** The number of leading hexadecimal digits of `s`. */
  function LeadingHexDigits(s: string): (n: nat)
    ensures n <= |s| && AllHexDigits(s[..n])
    ensures n < |s| ==> !IsHexDigit(s[n])
  {
    if |s| > 0 && IsHexDigit(s[0]) then
      var k := LeadingHexDigits(s[1..]);
      assert s[..k + 1] == [s[0]] + s[1..][..k];
      k + 1
    else 0
  }

  lemma {:induction false} LeadingHexDigitsAll(s: string)
    requires AllHexDigits(s)
    ensures LeadingHexDigits(s) == |s|
  {
    if |s| > 0 {
      LeadingHexDigitsAll(s[1..]);
    }
  }

  /** The "0x" or "0X" prefix that makes `parseInt` without a radix read
      base 16. */
  predicate HexPrefixed(u: string) { |u| >= 2 && u[0] == '0' && (u[1] == 'x' || u[1] == 'X') }

  /** `parseInt(s)` with no radix argument: leading whitespace, an optional
      sign, then either "0x"/"0X" and the longest run of hexadecimal digits,
      or the longest run of decimal digits; `None` stands for `NaN`. */
  function ParseInt(s: string): Option<int> {
    ParseSigned(TrimStart(s))
  }

  /** The sign and digits `parseInt` reads once leading whitespace is gone. */
  function ParseSigned(t: string): Option<int> {
    var negative := |t| > 0 && t[0] == '-';
    var u := if |t| > 0 && (t[0] == '-' || t[0] == '+') then t[1..] else t;
    if HexPrefixed(u) then
      var h := u[2..];
      var n := LeadingHexDigits(h);
      if n == 0 then None
      else
        var v: int := HexValue(h[..n]);
        Some(if negative then -v else v)
    else
      var n := LeadingDigits(u);
      if n == 0 then None
      else
        var v: int := DigitsValue(u[..n]);
        Some(if negative then -v else v)
  }

  /** "0x" or "0X" followed by hexadecimal digits reads in base 16. */
  lemma ParseIntHex(x: char, ds: string)
    requires x == 'x' || x == 'X'
    requires |ds| > 0 && AllHexDigits(ds)
    ensures ParseInt(['0', x] + ds) == Some(HexValue(ds))
  {
    var t := ['0', x] + ds;
    assert TrimStart(t) == t;
    assert t[2..] == ds;
    LeadingHexDigitsAll(ds);
    assert ds[..|ds|] == ds;
  }

  /** A hexadecimal prefix with no hexadecimal digit after it is `NaN`, even
      though the "0" in front of it is a decimal digit. */
  lemma ParseIntHexPrefixAlone(x: char, rest: string)
    requires x == 'x' || x == 'X'
    requires rest == [] || !IsHexDigit(rest[0])
    ensures ParseInt(['0', x] + rest) == None
  {
    var t := ['0', x] + rest;
    assert TrimStart(t) == t;
    assert t[2..] == rest;
  }

  lemma ParseSignedDigits(ds: string)
    requires |ds| > 0 && AllDigits(ds)
    ensures ParseSigned(ds) == Some(DigitsValue(ds))
  {
    assert IsDigit(ds[0]);
    LeadingDigitsAll(ds);
    assert ds[..|ds|] == ds;
  }

  lemma ParseIntDigits(ds: string)
    requires |ds| > 0 && AllDigits(ds)
    ensures ParseInt(ds) == Some(DigitsValue(ds))
  {
    assert IsDigit(ds[0]);
    assert TrimStart(ds) == ds;
    ParseSignedDigits(ds);
  }

  /** `parseInt(String(n)) == n`. */
  lemma ParseIntOfNat(n: nat)
    ensures ParseInt(NatToString(n)) == Some(n)
  {
    ParseIntDigits(NatToString(n));
    DigitsValueOfNat(n);
  }

  // ---------------------------------------------------------------------------
  // Facts used by the writers of line-oriented text

  /** A character absent from every part and from the separator is absent
      from the joined text. */
  lemma {:induction false} JoinExcludes(parts: seq<string>, sep: string, c: char)
    requires c !in sep
    requires forall i :: 0 <= i < |parts| ==> c !in parts[i]
    ensures c !in Join(parts, sep)
  {
    if |parts| > 1 {
      JoinExcludes(parts[1..], sep, c);
    }
  }

  /** `trim` keeps a slice of its input, so it adds no character. */
  lemma TrimExcludes(s: string, c: char)
    requires c !in s
    ensures c !in Trim(s)
  {
    TrimStartExcludes(s, c);
    TrimEndExcludes(TrimStart(s), c);
  }

  lemma {:induction false} TrimStartExcludes(s: string, c: char)
    requires c !in s
    ensures c !in TrimStart(s)
  {
    if |s| > 0 && IsSpace(s[0]) {
      assert s == [s[0]] + s[1..];
      TrimStartExcludes(s[1..], c);
    }
  }

  lemma {:induction false} TrimEndExcludes(s: string, c: char)
    requires c !in s
    ensures c !in TrimEnd(s)
  {
    if |s| > 0 && IsSpace(s[|s| - 1]) {
      assert s == s[..|s| - 1] + [s[|s| - 1]];
      TrimEndExcludes(s[..|s| - 1], c);
    }
  }

  /** A trimmed word preceded by one space trims back to itself. */
  lemma TrimSpaced(w: string)
    requires w == [] || (!IsSpace(w[0]) && !IsSpace(w[|w| - 1]))
    ensures Trim(" " + w) == w
  {
    assert (" " + w)[1..] == w;
    assert TrimStart(" " + w) == TrimStart(w) == w;
  }

  /** `LeadingDigits` is the length of the digit run that the first
      non-digit ends. */
  lemma {:induction false} LeadingDigitsExact(s: string, k: nat)
    requires k <= |s| && AllDigits(s[..k])
    requires k < |s| ==> !IsDigit(s[k])
    ensures LeadingDigits(s) == k
  {
    if k > 0 {
      assert IsDigit(s[..k][0]);
      assert s[1..][..k - 1] == s[..k][1..];
      LeadingDigitsExact(s[1..], k - 1);
    }
  }

  /** The blocks of lines written one after another. */
  function Flatten<T>(blocks: seq<seq<T>>): seq<T> {
    if |blocks| == 0 then [] else blocks[0] + Flatten(blocks[1..])
  }

  lemma {:induction false} FlattenLength<T>(blocks: seq<seq<T>>, w: nat)
    requires forall k :: 0 <= k < |blocks| ==> |blocks[k]| == w
    ensures |Flatten(blocks)| == w * |blocks|
  {
    if |blocks| > 0 {
      FlattenLength(blocks[1..], w);
    }
  }

  /** With blocks of `w` lines each, line `j` of block `i` is line
      `w * i + j` of the whole. */
  lemma {:induction false} FlattenAt<T>(blocks: seq<seq<T>>, w: nat, i: nat, j: nat)
    requires forall k :: 0 <= k < |blocks| ==> |blocks[k]| == w
    requires i < |blocks| && j < w
    ensures w * i + j < |Flatten(blocks)|
    ensures Flatten(blocks)[w * i + j] == blocks[i][j]
  {
    FlattenLength(blocks, w);
    assert Flatten(blocks) == blocks[0] + Flatten(blocks[1..]);
    if i > 0 {
      FlattenAt(blocks[1..], w, i - 1, j);
      MulStep(w, i);
    }
  }

  lemma MulStep(w: nat, i: nat)
    requires i > 0
    ensures w * i == w + w * (i - 1)
  {
  }

  lemma MulBound(w: nat, i: nat, j: nat, n: nat)
    requires i < n && j < w
    ensures w * i + j < w * n
  {
    assert w * i + j < w * i + w == w * (i + 1) <= w * n;
  }

  /** A property of every line of every block holds of every line of the
      whole. */
  lemma {:induction false} FlattenAll<T>(blocks: seq<seq<T>>, p: T -> bool)
    requires forall k, j :: 0 <= k < |blocks| && 0 <= j < |blocks[k]| ==> p(blocks[k][j])
    ensures forall i :: 0 <= i < |Flatten(blocks)| ==> p(Flatten(blocks)[i])
  {
    if |blocks| > 0 {
      FlattenAll(blocks[1..], p);
      assert Flatten(blocks) == blocks[0] + Flatten(blocks[1..]);
    }
  }

  /** None of the lines contains a line break. */
  predicate NoNewline(lines: seq<string>) {
    forall k :: 0 <= k < |lines| ==> '\n' !in lines[k]
  }

  lemma NoNewlineConcat(a: seq<string>, b: seq<string>)
    requires NoNewline(a) && NoNewline(b)
    ensures NoNewline(a + b)
  {
    forall k | 0 <= k < |a + b| ensures '\n' !in (a + b)[k] {
      if k >= |a| {
        assert (a + b)[k] == b[k - |a|];
      }
    }
  }

  lemma NoNewlineTwo(a: string, b: string)
    requires '\n' !in a && '\n' !in b
    ensures NoNewline([a, b])
  {
  }

  lemma NoNewlineSix(a: string, b: string, c: string, d: string, e: string, f: string)
    requires '\n' !in a && '\n' !in b && '\n' !in c && '\n' !in d && '\n' !in e && '\n' !in f
    ensures NoNewline([a, b, c, d, e, f])
  {
  }

  /** Where each of three concatenated groups sits in the whole. */
  lemma ThreeParts<T>(h: seq<T>, b: seq<T>, t: seq<T>)
    ensures |h + b + t| == |h| + |b| + |t|
    ensures forall k :: 0 <= k < |h| ==> (h + b + t)[k] == h[k]
    ensures forall k :: 0 <= k < |b| ==> (h + b + t)[|h| + k] == b[k]
    ensures forall k :: 0 <= k < |t| ==> (h + b + t)[|h| + |b| + k] == t[k]
  {
  }
}
