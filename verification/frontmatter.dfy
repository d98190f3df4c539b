/** The YAML frontmatter block that opens the generated Jekyll post, and the
    map locations it lists, derived from the event entries of the document
    and from the user's overrides. */
module FrontmatterYaml {
  import opened Base
  import opened Strings
  import opened Model

  // ---------------------------------------------------------------------------
  // yamlEscape

  /** The escape of one character inside a YAML double-quoted scalar. */
  function EscapeChar(c: char): string {
    if c == '\\' then "\\\\" else if c == '"' then "\\\"" else [c]
  }

  /** Every character escaped on its own. */
  function EscapeChars(s: string): string {
    if |s| == 0 then "" else EscapeChar(s[0]) + EscapeChars(s[1..])
  }

  /** The longest suffix of `s` that does not start with a newline. */
  function DropNewlines(s: string): (r: string)
    ensures |r| <= |s| && forall i :: 0 <= i < |r| ==> r[i] == s[|s| - |r| + i]
    ensures r == [] || r[0] != '\n'
  {
    if |s| > 0 && s[0] == '\n' then DropNewlines(s[1..]) else s
  }

  /** `s.replace(/\n+/g, " ")`: each run of newlines becomes one space. */
  function CollapseNewlines(s: string): (r: string)
    ensures '\n' !in r
    decreases |s|
  {
    if |s| == 0 then ""
    else if s[0] == '\n' then " " + CollapseNewlines(DropNewlines(s[1..]))
    else [s[0]] + CollapseNewlines(s[1..])
  }

  /** `yamlEscape`: backslashes doubled, then quotes escaped, then newline
      runs collapsed to a space, then the result trimmed. The result fits on
      one line and has no whitespace at either end. */
  function YamlEscape(v: string): (r: string)
    ensures '\n' !in r
    ensures r == [] || (!IsSpace(r[0]) && !IsSpace(r[|r| - 1]))
  {
    var collapsed := CollapseNewlines(ReplaceChar(ReplaceChar(v, '\\', "\\\\"), '"', "\\\""));
    TrimExcludes(collapsed, '\n');
    Trim(collapsed)
  }

  /** What a YAML reader makes of the body of a double-quoted scalar that
      uses only the `\\` and `\"` escapes. */
  function Unescape(s: string): string
    decreases |s|
  {
    if |s| == 0 then ""
    else if s[0] == '\\' && |s| >= 2 then [s[1]] + Unescape(s[2..])
    else [s[0]] + Unescape(s[1..])
  }

  /** A well-formed body of a one-line double-quoted scalar: no bare quote
      that would end it early, no newline, and every backslash starts one of
      the two escapes. */
  predicate QuotedBody(s: string)
    decreases |s|
  {
    if |s| == 0 then true
    else if s[0] == '\\' then |s| >= 2 && (s[1] == '\\' || s[1] == '"') && QuotedBody(s[2..])
    else s[0] != '"' && s[0] != '\n' && QuotedBody(s[1..])
  }

  lemma {:induction false} EscapeCharsAppend(a: string, b: string)
    ensures EscapeChars(a + b) == EscapeChars(a) + EscapeChars(b)
  {
    if |a| > 0 {
      assert (a + b)[1..] == a[1..] + b;
      EscapeCharsAppend(a[1..], b);
    } else {
      assert a + b == b;
    }
  }

  /** The two global replacements, applied backslash first, escape each
      character on its own. */
  lemma {:induction false} TwoPassEscape(v: string)
    ensures ReplaceChar(ReplaceChar(v, '\\', "\\\\"), '"', "\\\"") == EscapeChars(v)
  {
    if |v| > 0 {
      var head := if v[0] == '\\' then "\\\\" else [v[0]];
      var rest := ReplaceChar(v[1..], '\\', "\\\\");
      assert ReplaceChar(v, '\\', "\\\\") == head + rest;
      ReplaceCharAppend(head, rest, '"', "\\\"");
      if v[0] == '\\' {
        assert head == ['\\'] + ['\\'];
        ReplaceCharAppend(['\\'], ['\\'], '"', "\\\"");
      }
      assert ReplaceChar(head, '"', "\\\"") == EscapeChar(v[0]);
      TwoPassEscape(v[1..]);
    }
  }

  lemma {:induction false} CollapseAfterLine(x: string, y: string)
    requires '\n' !in x
    ensures CollapseNewlines(x + y) == x + CollapseNewlines(y)
  {
    if |x| > 0 {
      assert (x + y)[0] == x[0];
      assert (x + y)[1..] == x[1..] + y;
      CollapseAfterLine(x[1..], y);
    } else {
      assert x + y == y;
    }
  }

  lemma {:induction false} DropNewlinesEscape(w: string)
    ensures DropNewlines(EscapeChars(w)) == EscapeChars(DropNewlines(w))
  {
    if |w| > 0 && w[0] == '\n' {
      assert EscapeChars(w) == "\n" + EscapeChars(w[1..]);
      assert EscapeChars(w)[1..] == EscapeChars(w[1..]);
      DropNewlinesEscape(w[1..]);
    } else if |w| > 0 {
      assert EscapeChars(w)[0] == EscapeChar(w[0])[0];
    }
  }

  /** Escaping and newline collapsing touch disjoint characters, so they
      commute. */
  lemma {:induction false} CollapseEscape(v: string)
    ensures CollapseNewlines(EscapeChars(v)) == EscapeChars(CollapseNewlines(v))
    decreases |v|
  {
    if |v| > 0 {
      var e := EscapeChars(v);
      if v[0] == '\n' {
        var d := DropNewlines(v[1..]);
        assert e == "\n" + EscapeChars(v[1..]);
        assert e[1..] == EscapeChars(v[1..]);
        DropNewlinesEscape(v[1..]);
        CollapseEscape(d);
        assert EscapeChars(" " + CollapseNewlines(d)) == " " + EscapeChars(CollapseNewlines(d));
      } else {
        CollapseAfterLine(EscapeChar(v[0]), EscapeChars(v[1..]));
        CollapseEscape(v[1..]);
        assert CollapseNewlines(v) == [v[0]] + CollapseNewlines(v[1..]);
        EscapeCharsAppend([v[0]], CollapseNewlines(v[1..]));
        assert [v[0]][1..] == [];
      }
    }
  }

  lemma {:induction false} TrimStartEscape(w: string)
    ensures TrimStart(EscapeChars(w)) == EscapeChars(TrimStart(w))
  {
    if |w| > 0 {
      var e := EscapeChars(w);
      assert e == EscapeChar(w[0]) + EscapeChars(w[1..]);
      if IsSpace(w[0]) {
        assert e[1..] == EscapeChars(w[1..]);
        TrimStartEscape(w[1..]);
      } else {
        assert !IsSpace(e[0]);
      }
    }
  }

  lemma {:induction false} TrimEndEscape(w: string)
    ensures TrimEnd(EscapeChars(w)) == EscapeChars(TrimEnd(w))
    decreases |w|
  {
    if |w| > 0 {
      var init, last := w[..|w| - 1], w[|w| - 1];
      assert w == init + [last];
      EscapeSnoc(init, last);
      TrimEndSnoc(init, last);
      if IsSpace(last) {
        TrimEndSnoc(EscapeChars(init), last);
        TrimEndEscape(init);
      } else {
        EscapeEndsPlain(EscapeChars(init), last);
      }
    }
  }

  /** Escaping a string extended by one character. */
  lemma EscapeSnoc(init: string, last: char)
    ensures EscapeChars(init + [last]) == EscapeChars(init) + EscapeChar(last)
  {
    EscapeCharsAppend(init, [last]);
    assert EscapeChars([last]) == EscapeChar(last) + EscapeChars([]);
  }

  /** The escape of a non-space character does not end in a space. */
  lemma EscapeEndsPlain(prefix: string, last: char)
    requires !IsSpace(last)
    ensures TrimEnd(prefix + EscapeChar(last)) == prefix + EscapeChar(last)
  {
    var e := EscapeChar(last);
    assert e[|e| - 1] == last;
    assert prefix + e == (prefix + e[..|e| - 1]) + [last];
    TrimEndSnoc(prefix + e[..|e| - 1], last);
  }

  /** The escaped text is the escape of the collapsed, trimmed input. */
  lemma YamlEscapeIsEscapeOfTrimmed(v: string)
    ensures YamlEscape(v) == EscapeChars(Trim(CollapseNewlines(v)))
  {
    var c := CollapseNewlines(v);
    TwoPassEscape(v);
    CollapseEscape(v);
    TrimStartEscape(c);
    TrimEndEscape(TrimStart(c));
  }

  lemma {:induction false} UnescapeEscape(w: string)
    ensures Unescape(EscapeChars(w)) == w
  {
    if |w| > 0 {
      var e := EscapeChars(w);
      assert e == EscapeChar(w[0]) + EscapeChars(w[1..]);
      if w[0] == '\\' || w[0] == '"' {
        assert e[2..] == EscapeChars(w[1..]);
      } else {
        assert e[1..] == EscapeChars(w[1..]);
      }
      UnescapeEscape(w[1..]);
    }
  }

  lemma {:induction false} EscapeQuotedBody(w: string)
    requires '\n' !in w
    ensures QuotedBody(EscapeChars(w))
  {
    if |w| > 0 {
      var e := EscapeChars(w);
      assert e == EscapeChar(w[0]) + EscapeChars(w[1..]);
      if w[0] == '\\' || w[0] == '"' {
        assert e[2..] == EscapeChars(w[1..]);
      } else {
        assert e[1..] == EscapeChars(w[1..]);
      }
      EscapeQuotedBody(w[1..]);
    }
  }

  /** Reading the quoted scalar back gives the value with its newline runs
      collapsed to spaces and its ends trimmed: `yamlEscape` loses nothing
      else. */
  lemma YamlEscapeRoundTrip(v: string)
    ensures QuotedBody(YamlEscape(v))
    ensures Unescape(YamlEscape(v)) == Trim(CollapseNewlines(v))
  {
    YamlEscapeIsEscapeOfTrimmed(v);
    TrimExcludes(CollapseNewlines(v), '\n');
    EscapeQuotedBody(Trim(CollapseNewlines(v)));
    UnescapeEscape(Trim(CollapseNewlines(v)));
  }

  lemma {:induction false} CollapseWithoutNewlines(v: string)
    requires '\n' !in v
    ensures CollapseNewlines(v) == v
  {
    if |v| > 0 {
      CollapseWithoutNewlines(v[1..]);
    }
  }

  /** A one-line value without surrounding whitespace reads back exactly. */
  lemma YamlEscapeInvertible(v: string)
    requires '\n' !in v
    requires v == [] || (!IsSpace(v[0]) && !IsSpace(v[|v| - 1]))
    ensures Unescape(YamlEscape(v)) == v
  {
    YamlEscapeRoundTrip(v);
    CollapseWithoutNewlines(v);
    TrimUnchanged(v);
  }

  lemma {:induction false} EscapeCharsPlain(w: string)
    requires '\\' !in w && '"' !in w
    ensures EscapeChars(w) == w
  {
    if |w| > 0 {
      EscapeCharsPlain(w[1..]);
    }
  }

  /** A one-line, trimmed value with no backslash or quote is written as is. */
  lemma YamlEscapeIdentity(v: string)
    requires '\n' !in v && '\\' !in v && '"' !in v
    requires v == [] || (!IsSpace(v[0]) && !IsSpace(v[|v| - 1]))
    ensures YamlEscape(v) == v
  {
    YamlEscapeIsEscapeOfTrimmed(v);
    CollapseWithoutNewlines(v);
    TrimUnchanged(v);
    EscapeCharsPlain(v);
  }

  /** Quotes around a plain word are escaped and nothing else changes. */
  lemma YamlEscapeQuotes(x: string)
    requires '\n' !in x && '\\' !in x && '"' !in x
    ensures YamlEscape("\"" + x + "\"") == "\\\"" + x + "\\\""
  {
    var w := "\"" + x + "\"";
    CollapseWithoutNewlines(w);
    TrimUnchanged(w);
    var e := "\\\"" + x + "\\\"";
    EscapeCharsAppend("\"" + x, "\"");
    EscapeCharsAppend("\"", x);
    EscapeCharsPlain(x);
    assert EscapeChars(w) == e;
    EscapedForm(w, w);
  }

  /** The escaped text of a value whose newline collapsing and trimming are
      known. */
  lemma EscapedForm(w: string, c: string)
    requires CollapseNewlines(w) == c && Trim(c) == c
    ensures YamlEscape(w) == EscapeChars(c)
  {
    YamlEscapeIsEscapeOfTrimmed(w);
  }

  /** A line break between two trimmed one-line values becomes one space. */
  lemma YamlEscapeJoinsLines(x: string, y: string, breaks: nat)
    requires '\n' !in x && '\\' !in x && '"' !in x && |x| > 0 && !IsSpace(x[0])
    requires '\n' !in y && '\\' !in y && '"' !in y && |y| > 0 && !IsSpace(y[|y| - 1])
    ensures YamlEscape(x + seq(breaks + 1, _ => '\n') + y) == x + " " + y
  {
    CollapseNewlineRun(x, y, breaks);
    PlainJoin(x, y);
    EscapedForm(x + seq(breaks + 1, _ => '\n') + y, x + " " + y);
  }

  /** Two plain words joined by a space are their own trimmed escape. */
  lemma PlainJoin(x: string, y: string)
    requires '\\' !in x && '"' !in x && |x| > 0 && !IsSpace(x[0])
    requires '\\' !in y && '"' !in y && |y| > 0 && !IsSpace(y[|y| - 1])
    ensures Trim(x + " " + y) == x + " " + y
    ensures EscapeChars(x + " " + y) == x + " " + y
  {
    TrimmedJoin(x, y);
    PlainChars(x, y);
  }

  lemma TrimmedJoin(x: string, y: string)
    requires |x| > 0 && !IsSpace(x[0]) && |y| > 0 && !IsSpace(y[|y| - 1])
    ensures Trim(x + " " + y) == x + " " + y
  {
    var c := x + " " + y;
    assert c[0] == x[0] && c[|c| - 1] == y[|y| - 1];
    TrimUnchanged(c);
  }

  lemma PlainChars(x: string, y: string)
    requires '\\' !in x && '"' !in x && '\\' !in y && '"' !in y
    ensures EscapeChars(x + " " + y) == x + " " + y
  {
    var c := x + " " + y;
    assert forall i :: 0 <= i < |c| ==> c[i] != '\\' && c[i] != '"' by {
      forall i | 0 <= i < |c| ensures c[i] != '\\' && c[i] != '"' {
        if i < |x| { assert c[i] == x[i]; }
        else if i > |x| { assert c[i] == y[i - |x| - 1]; }
      }
    }
    EscapeCharsPlain(c);
  }

  lemma CollapseNewlineRun(x: string, y: string, breaks: nat)
    requires '\n' !in x && '\n' !in y && (y == [] || y[0] != '\n')
    ensures CollapseNewlines(x + seq(breaks + 1, _ => '\n') + y) == x + " " + y
  {
    var nl := seq(breaks + 1, _ => '\n');
    assert x + nl + y == x + (nl + y);
    CollapseAfterLine(x, nl + y);
    CollapseRun(nl, y);
    CollapseWithoutNewlines(y);
  }

  /** A nonempty run of newlines in front of `y` becomes one space. */
  lemma CollapseRun(nl: string, y: string)
    requires |nl| > 0 && forall i :: 0 <= i < |nl| ==> nl[i] == '\n'
    requires y == [] || y[0] != '\n'
    ensures CollapseNewlines(nl + y) == " " + CollapseNewlines(y)
  {
    assert (nl + y)[0] == '\n';
    assert (nl + y)[1..] == nl[1..] + y;
    DropAllNewlines(nl[1..], y);
  }

  lemma {:induction false} DropAllNewlines(nl: string, y: string)
    requires forall i :: 0 <= i < |nl| ==> nl[i] == '\n'
    requires y == [] || y[0] != '\n'
    ensures DropNewlines(nl + y) == y
  {
    if |nl| > 0 {
      assert (nl + y)[1..] == nl[1..] + y;
      DropAllNewlines(nl[1..], y);
    } else {
      assert nl + y == y;
    }
  }

  // ---------------------------------------------------------------------------
  // Fields of a location

  /** The length of an optional leading `+` or `-`. */
  function SignLength(t: string): (k: nat)
    ensures k <= |t|
  {
    if |t| > 0 && (t[0] == '+' || t[0] == '-') then 1 else 0
  }

  /** The length of the unsigned literal `\d+(\.\d*)?|\.\d+` that `u` starts
      with, zero when there is none. */
  function UnsignedPrefix(u: string): (n: nat)
    ensures n <= |u|
  {
    var whole := LeadingDigits(u);
    if whole < |u| && u[whole] == '.' then
      var frac := LeadingDigits(u[whole + 1..]);
      if whole + frac == 0 then 0 else whole + 1 + frac
    else whole
  }

  /** `parseFloat` of a trimmed token, as the length of the finite decimal
      literal it reads: an optional sign, then an unsigned literal. Zero when
      it reads `NaN`. */
  function DecimalPrefix(t: string): (n: nat)
    ensures n <= |t|
  {
    var sign := SignLength(t);
    var m := UnsignedPrefix(t[sign..]);
    if m == 0 then 0 else sign + m
  }

  /** The unsigned literal `\d+(\.\d*)?|\.\d+` recognised from left to right:
      digits and at most one point, with at least one digit in all.
      `pointSeen` and `digitSeen` say what the part already read held. */
  predicate UnsignedDecimal(u: string, pointSeen: bool, digitSeen: bool)
    decreases |u|
  {
    if |u| == 0 then digitSeen
    else if IsDigit(u[0]) then UnsignedDecimal(u[1..], pointSeen, true)
    else u[0] == '.' && !pointSeen && UnsignedDecimal(u[1..], true, digitSeen)
  }

  /** A complete decimal literal: `[+-]?(\d+(\.\d*)?|\.\d+)`. */
  predicate IsDecimal(t: string) {
    UnsignedDecimal(t[SignLength(t)..], false, false)
  }

  /** Reading a run of digits only records that a digit was seen. */
  lemma {:induction false} SkipDigits(u: string, k: nat, pointSeen: bool, digitSeen: bool)
    requires k <= |u| && AllDigits(u[..k])
    ensures UnsignedDecimal(u, pointSeen, digitSeen) == UnsignedDecimal(u[k..], pointSeen, digitSeen || k > 0)
    decreases k
  {
    if k > 0 {
      assert IsDigit(u[..k][0]);
      assert u[1..][..k - 1] == u[..k][1..];
      SkipDigits(u[1..], k - 1, pointSeen, true);
      assert u[1..][k - 1..] == u[k..];
    }
  }

  /** After the point only digits may follow. */
  lemma {:induction false} AfterPoint(s: string, digitSeen: bool)
    ensures UnsignedDecimal(s, true, digitSeen) <==> AllDigits(s) && (digitSeen || |s| > 0)
    decreases |s|
  {
    if |s| > 0 {
      AfterPoint(s[1..], true);
      if IsDigit(s[0]) {
        assert AllDigits(s) <==> AllDigits(s[1..]) by {
          if AllDigits(s[1..]) {
            forall i | 0 <= i < |s| ensures IsDigit(s[i]) {
              if i > 0 { assert s[i] == s[1..][i - 1]; }
            }
          }
        }
      }
    }
  }

  lemma UnsignedPrefixOfDecimal(u: string)
    requires UnsignedDecimal(u, false, false)
    ensures UnsignedPrefix(u) == |u| > 0
  {
    var whole := LeadingDigits(u);
    SkipDigits(u, whole, false, false);
    if whole < |u| {
      assert u[whole..][0] == u[whole];
      assert u[whole..][1..] == u[whole + 1..];
      AfterPoint(u[whole + 1..], whole > 0);
      FractionDigits(u, whole);
    }
  }

  lemma FractionDigits(u: string, d: nat)
    requires d < |u| && AllDigits(u[d + 1..])
    ensures LeadingDigits(u[d + 1..]) == |u| - d - 1
  {
    var f := u[d + 1..];
    assert f[..|f|] == f;
    LeadingDigitsExact(f, |f|);
  }

  lemma DecimalPrefixOfDecimal(t: string)
    requires IsDecimal(t)
    ensures DecimalPrefix(t) == |t| > 0
  {
    UnsignedPrefixOfDecimal(t[SignLength(t)..]);
  }

  lemma UnsignedPrefixIsDecimal(u: string)
    requires UnsignedPrefix(u) > 0
    ensures UnsignedDecimal(u[..UnsignedPrefix(u)], false, false)
  {
    var whole := LeadingDigits(u);
    var p := u[..UnsignedPrefix(u)];
    assert p[..whole] == u[..whole];
    SkipDigits(p, whole, false, false);
    if whole < |u| && u[whole] == '.' {
      var frac := LeadingDigits(u[whole + 1..]);
      assert p[whole..][0] == '.';
      assert p[whole..][1..] == u[whole + 1..][..frac];
      AfterPoint(u[whole + 1..][..frac], whole > 0);
    } else {
      assert p[whole..] == [];
    }
  }

  lemma DecimalPrefixIsDecimal(t: string)
    requires DecimalPrefix(t) > 0
    ensures IsDecimal(t[..DecimalPrefix(t)])
  {
    var sign := SignLength(t);
    var u := t[sign..];
    var p := t[..DecimalPrefix(t)];
    UnsignedPrefixIsDecimal(u);
    assert SignLength(p) == sign;
    assert p[sign..] == u[..UnsignedPrefix(u)];
  }

  /** `parseCoordinates`: the comma-separated parts, trimmed, keeping the
      decimal literal each one starts with and dropping those that read as
      `NaN`. */
  function ParseCoordinates(coords: string): (r: seq<string>)
    ensures forall i :: 0 <= i < |r| ==> IsDecimal(r[i])
  {
    if coords == "" then [] else CoordinateTokens(Split(coords, ','))
  }

  /** The decimal literal a trimmed part starts with, if any. */
  function Coordinate(t: string): (r: Option<string>)
    ensures r.Some? ==> IsDecimal(r.value)
  {
    var n := DecimalPrefix(t);
    if n == 0 then None
    else
      DecimalPrefixIsDecimal(t);
      Some(t[..n])
  }

  function CoordinateTokens(parts: seq<string>): (r: seq<string>)
    ensures |r| <= |parts|
    ensures forall i :: 0 <= i < |r| ==> IsDecimal(r[i])
  {
    if |parts| == 0 then []
    else
      match Coordinate(Trim(parts[0]))
      case Some(d) => [d] + CoordinateTokens(parts[1..])
      case None => CoordinateTokens(parts[1..])
  }

  /** Every part after the first preceded by a space: what `join(", ")`
      leaves between two commas. */
  function CommaSpaced(ps: seq<string>): (r: seq<string>)
    ensures |r| == |ps|
    ensures forall i :: 0 <= i < |ps| ==> r[i] == (if i == 0 then ps[0] else " " + ps[i])
  {
    seq(|ps|, i requires 0 <= i < |ps| => if i == 0 then ps[0] else " " + ps[i])
  }

  lemma {:induction false} JoinCommaSpace(ps: seq<string>)
    requires |ps| > 0
    ensures Join(ps, ", ") == Join(CommaSpaced(ps), ",")
    ensures " " + Join(ps, ", ") == Join(seq(|ps|, i requires 0 <= i < |ps| => " " + ps[i]), ",")
  {
    var spaced := seq(|ps|, i requires 0 <= i < |ps| => " " + ps[i]);
    if |ps| > 1 {
      JoinCommaSpace(ps[1..]);
      var rest := seq(|ps| - 1, i requires 0 <= i < |ps| - 1 => " " + ps[1..][i]);
      assert spaced[1..] == rest;
      assert CommaSpaced(ps)[1..] == rest;
      assert Join(ps, ", ") == ps[0] + "," + (" " + Join(ps[1..], ", "));
    }
  }

  /** Splitting a `join(", ")` of comma-free words on "," and trimming each
      part gives the words back. */
  lemma SplitCommaSpaced(ps: seq<string>)
    requires |ps| > 0
    requires forall i :: 0 <= i < |ps| ==> ',' !in ps[i]
    requires forall i :: 0 <= i < |ps| ==> ps[i] == [] || (!IsSpace(ps[i][0]) && !IsSpace(ps[i][|ps[i]| - 1]))
    ensures Split(Join(ps, ", "), ',') == CommaSpaced(ps)
    ensures forall i :: 0 <= i < |ps| ==> Trim(CommaSpaced(ps)[i]) == ps[i]
  {
    SplitCommaSpacedParts(ps);
    TrimCommaSpaced(ps);
  }

  lemma SplitCommaSpacedParts(ps: seq<string>)
    requires |ps| > 0
    requires forall i :: 0 <= i < |ps| ==> ',' !in ps[i]
    ensures Split(Join(ps, ", "), ',') == CommaSpaced(ps)
  {
    JoinCommaSpace(ps);
    assert "," == [','];
    SplitJoin(CommaSpaced(ps), ',');
  }

  lemma TrimCommaSpaced(ps: seq<string>)
    requires forall i :: 0 <= i < |ps| ==> ps[i] == [] || (!IsSpace(ps[i][0]) && !IsSpace(ps[i][|ps[i]| - 1]))
    ensures forall i :: 0 <= i < |ps| ==> Trim(CommaSpaced(ps)[i]) == ps[i]
  {
    forall i | 0 <= i < |ps| ensures Trim(CommaSpaced(ps)[i]) == ps[i] {
      if i == 0 {
        TrimUnchanged(ps[0]);
      } else {
        TrimSpaced(ps[i]);
      }
    }
  }

  lemma {:induction false} CoordinateTokensOfDecimals(parts: seq<string>, ns: seq<string>)
    requires |parts| == |ns|
    requires forall i :: 0 <= i < |ns| ==> IsDecimal(ns[i]) && Trim(parts[i]) == ns[i]
    ensures CoordinateTokens(parts) == ns
  {
    if |parts| > 0 {
      CoordinateOfDecimal(ns[0]);
      CoordinateTokensOfDecimals(parts[1..], ns[1..]);
      assert ns == [ns[0]] + ns[1..];
    }
  }

  lemma CoordinateOfDecimal(t: string)
    requires IsDecimal(t)
    ensures Coordinate(t) == Some(t)
  {
    DecimalPrefixOfDecimal(t);
    assert t[..|t|] == t;
  }

  /** Coordinates written as decimal literals joined by ", " parse back to
      the same literals, in order. */
  lemma ParseCoordinatesRoundTrip(ns: seq<string>)
    requires forall i :: 0 <= i < |ns| ==> IsDecimal(ns[i])
    ensures ParseCoordinates(Join(ns, ", ")) == ns
  {
    if |ns| > 0 {
      forall i | 0 <= i < |ns|
        ensures ',' !in ns[i] && (ns[i] == [] || (!IsSpace(ns[i][0]) && !IsSpace(ns[i][|ns[i]| - 1])))
      {
        DecimalPrefixOfDecimal(ns[i]);
        DecimalHasNoCommaOrSpace(ns[i]);
      }
      SplitCommaSpaced(ns);
      assert |ns[0]| > 0;
      assert Join(ns, ", ") != "";
      CoordinateTokensOfDecimals(CommaSpaced(ns), ns);
    }
  }

  lemma DecimalHasNoCommaOrSpace(t: string)
    requires IsDecimal(t)
    ensures |t| > 0 && ',' !in t
    ensures forall i :: 0 <= i < |t| ==> !IsSpace(t[i])
  {
    var sign := SignLength(t);
    var u := t[sign..];
    DecimalPrefixOfDecimal(t);
    UnsignedChars(u, false, false);
    forall i | 0 <= i < |t| ensures IsDigit(t[i]) || t[i] in "+-." {
      if i >= sign {
        assert t[i] == u[i - sign];
      }
    }
  }

  /** An unsigned literal holds only digits and points. */
  lemma {:induction false} UnsignedChars(u: string, pointSeen: bool, digitSeen: bool)
    requires UnsignedDecimal(u, pointSeen, digitSeen)
    ensures forall i :: 0 <= i < |u| ==> IsDigit(u[i]) || u[i] == '.'
    decreases |u|
  {
    if |u| > 0 {
      UnsignedChars(u[1..], pointSeen || !IsDigit(u[0]), digitSeen || IsDigit(u[0]));
      forall i | 0 < i < |u| ensures IsDigit(u[i]) || u[i] == '.' {
        assert u[i] == u[1..][i - 1];
      }
    }
  }

  /** The city and country that `parsePlaceField` reads from a place. */
  datatype Place = Place(city: string, country: string)

  /** `parsePlaceField`: the first comma-separated part is the city, the last
      (when there are two or more) the country; both trimmed. */
  function ParsePlace(place: string): (r: Place)
    ensures r.city == "" || place != ""
  {
    if place == "" then Place("", "")
    else
      var parts := Split(place, ',');
      if |parts| >= 2 then Place(Trim(parts[0]), Trim(parts[|parts| - 1]))
      else Place(Trim(parts[0]), "")
  }

  /** A place written as "city, region, ..., country" reads back its first
      and last parts; middle parts are ignored. */
  lemma ParsePlaceRoundTrip(ps: seq<string>)
    requires |ps| > 0
    requires forall i :: 0 <= i < |ps| ==> ',' !in ps[i]
    requires forall i :: 0 <= i < |ps| ==> ps[i] == [] || (!IsSpace(ps[i][0]) && !IsSpace(ps[i][|ps[i]| - 1]))
    ensures ParsePlace(Join(ps, ", ")) == Place(ps[0], if |ps| >= 2 then ps[|ps| - 1] else "")
  {
    SplitCommaSpaced(ps);
    if Join(ps, ", ") == "" {
      assert |ps| == 1;
    }
  }

  lemma ParsePlaceExample()
    ensures ParsePlace("Paris, France") == Place("Paris", "France")
  {
    assert "Paris, France" == Join(["Paris", "France"], ", ");
    ParsePlaceRoundTrip(["Paris", "France"]);
  }

  /** `formatEventDate`: the start date alone, or "start to end" when an end
      date differs from it. */
  function FormatEventDate(start: string, end: string): string {
    if start == "" then ""
    else if end == "" || start == end then start
    else start + " to " + end
  }

  /** The range is written only when both dates are present and differ; the
      start date always leads. */
  lemma FormatEventDateCases(start: string, end: string)
    ensures FormatEventDate(start, end) == "" <==> start == ""
    ensures StartsWith(FormatEventDate(start, end), start)
    ensures FormatEventDate(start, end) != start <==> (start != "" && end != "" && start != end)
  {
    var r := FormatEventDate(start, end);
    if start != "" && end != "" && start != end {
      assert |r| > |start|;
    }
  }

  // ---------------------------------------------------------------------------
  // collectLocations

  /** The event type shown in a location title: the custom type when one is
      set, else the type tag with its first letter upper-cased. */
  function TypeLabel(e: Entry): string {
    if e.customEventType != "" then e.customEventType else Capitalize(KindName(e.kind))
  }

  /** The title a location gets without an override. */
  function DefaultLocationTitle(e: Entry): string {
    TypeLabel(e) + ": " + (if e.title != "" then e.title else "Untitled")
  }

  /** The location derived for one event entry, with the first override for
      its id (if any) replacing a title or description it sets. */
  function DeriveLocation(e: Entry, overrides: seq<LocationOverride>): (r: Location)
    ensures r.entryId == e.id
  {
    var place := ParsePlace(e.place);
    var (title, description) :=
      match FindOverride(overrides, e.id)
      case Some(k) =>
        (if overrides[k].title != "" then overrides[k].title else DefaultLocationTitle(e),
         if overrides[k].description != "" then overrides[k].description else e.description)
      case None => (DefaultLocationTitle(e), e.description);
    Location(title, place.city, e.venue, place.country, ParseCoordinates(e.coords),
             FormatEventDate(e.dateStart, e.dateEnd), description, e.id)
  }

  /** The event entries among `entries`, in order. */
  function Events(entries: seq<Entry>): (r: seq<Entry>)
    ensures |r| <= |entries|
    ensures forall i :: 0 <= i < |r| ==> IsEvent(r[i].kind) && r[i] in entries
    ensures forall i :: 0 <= i < |entries| && IsEvent(entries[i].kind) ==> entries[i] in r
  {
    if |entries| == 0 then []
    else
      var rest := Events(entries[1..]);
      assert forall i :: 1 <= i < |entries| ==> entries[i] == entries[1..][i - 1];
      if IsEvent(entries[0].kind) then [entries[0]] + rest
      else rest
  }

  /** The filter distributes over concatenation, so the event entries keep
      their document order. */
  lemma {:induction false} EventsAppend(a: seq<Entry>, b: seq<Entry>)
    ensures Events(a + b) == Events(a) + Events(b)
  {
    if |a| > 0 {
      assert (a + b)[1..] == a[1..] + b;
      EventsAppend(a[1..], b);
      if IsEvent(a[0].kind) {
        assert [a[0]] + (Events(a[1..]) + Events(b)) == ([a[0]] + Events(a[1..])) + Events(b);
      }
    } else {
      assert a + b == b;
    }
  }

  /** The walk over the entries: `derive` applied to each event entry, in
      order. */
  function CollectFrom(entries: seq<Entry>, derive: Entry -> Location): seq<Location> {
    if |entries| == 0 then []
    else if IsEvent(entries[0].kind) then [derive(entries[0])] + CollectFrom(entries[1..], derive)
    else CollectFrom(entries[1..], derive)
  }

  /** `collectLocations`: one location per conference, festival or
      exhibition entry, in document order. */
  function CollectLocations(sections: seq<Section>, overrides: seq<LocationOverride>): seq<Location> {
    CollectFrom(AllEntries(sections), e => DeriveLocation(e, overrides))
  }

  lemma {:induction false} CollectFromEvents(entries: seq<Entry>, derive: Entry -> Location)
    ensures |CollectFrom(entries, derive)| == |Events(entries)|
    ensures forall i :: 0 <= i < |Events(entries)| ==> CollectFrom(entries, derive)[i] == derive(Events(entries)[i])
  {
    if |entries| > 0 {
      CollectFromEvents(entries[1..], derive);
      if IsEvent(entries[0].kind) {
        var ev := Events(entries[1..]);
        var rest := CollectFrom(entries[1..], derive);
        assert Events(entries) == [entries[0]] + ev;
        assert CollectFrom(entries, derive) == [derive(entries[0])] + rest;
        forall i | 0 < i < |Events(entries)|
          ensures CollectFrom(entries, derive)[i] == derive(Events(entries)[i])
        {
          assert Events(entries)[i] == ev[i - 1];
        }
      }
    }
  }

  /** Exactly one location per event entry, in document order, each tagged
      with the id of the entry it comes from. */
  lemma CollectLocationsOnePerEvent(sections: seq<Section>, overrides: seq<LocationOverride>)
    ensures var locs := CollectLocations(sections, overrides);
            var events := Events(AllEntries(sections));
            && |locs| == |events|
            && (forall i :: 0 <= i < |locs| ==> locs[i] == DeriveLocation(events[i], overrides))
            && (forall i :: 0 <= i < |locs| ==> locs[i].entryId == events[i].id)
  {
    CollectFromEvents(AllEntries(sections), e => DeriveLocation(e, overrides));
  }

  /** Overrides change only the title and the description of a location. */
  lemma OverridesOnlyTitleAndDescription(e: Entry, o1: seq<LocationOverride>, o2: seq<LocationOverride>)
    ensures var a := DeriveLocation(e, o1);
            var b := DeriveLocation(e, o2);
            a.(title := b.title, description := b.description) == b
  {
  }

  /** Title precedence: a non-empty override title, else "<type>: <title>";
      description precedence: override, then the entry's own. */
  lemma DeriveLocationPrecedence(e: Entry, overrides: seq<LocationOverride>)
    ensures var r := DeriveLocation(e, overrides);
            match FindOverride(overrides, e.id)
            case None => r.title == DefaultLocationTitle(e) && r.description == e.description
            case Some(k) =>
              && (r.title == if overrides[k].title != "" then overrides[k].title else DefaultLocationTitle(e))
              && (r.description == if overrides[k].description != "" then overrides[k].description else e.description)
  {
  }

  lemma {:induction false} FindOverrideAppendOther(overrides: seq<LocationOverride>, o: LocationOverride, id: Id)
    requires o.entryId != id
    ensures FindOverride(overrides + [o], id) == FindOverride(overrides, id)
  {
    if |overrides| > 0 {
      assert (overrides + [o])[1..] == overrides[1..] + [o];
      FindOverrideAppendOther(overrides[1..], o, id);
    } else {
      assert (overrides + [o])[1..] == [];
    }
  }

  /** Two derivations that agree on every entry collect the same list. */
  lemma {:induction false} CollectFromAgree(entries: seq<Entry>, d1: Entry -> Location, d2: Entry -> Location)
    requires forall i :: 0 <= i < |entries| ==> d1(entries[i]) == d2(entries[i])
    ensures CollectFrom(entries, d1) == CollectFrom(entries, d2)
  {
    if |entries| > 0 {
      assert d1(entries[0]) == d2(entries[0]);
      CollectFromAgree(entries[1..], d1, d2);
    }
  }

  /** An override whose entry is not in the document changes nothing. */
  lemma StrayOverrideIgnored(sections: seq<Section>, overrides: seq<LocationOverride>, o: LocationOverride)
    requires forall i :: 0 <= i < |AllEntries(sections)| ==> AllEntries(sections)[i].id != o.entryId
    ensures CollectLocations(sections, overrides + [o]) == CollectLocations(sections, overrides)
  {
    var entries := AllEntries(sections);
    forall i | 0 <= i < |entries|
      ensures DeriveLocation(entries[i], overrides + [o]) == DeriveLocation(entries[i], overrides)
    {
      FindOverrideAppendOther(overrides, o, entries[i].id);
    }
    CollectFromAgree(entries, e => DeriveLocation(e, overrides + [o]), e => DeriveLocation(e, overrides));
  }

  // ---------------------------------------------------------------------------
  // generateFrontmatter

  const Delimiter := "---"
  const LayoutLine := "layout: digest-entry"
  const LocationsKey := "locations:"

  function Quoted(s: string): string {
    "\"" + s + "\""
  }

  lemma QuotedExcludes(e: string)
    requires '\n' !in e
    ensures '\n' !in Quoted(e)
  {
  }

  /** A `key: "value"` line with the value escaped. */
  function Field(key: string, value: string): string {
    key + Quoted(YamlEscape(value))
  }

  lemma FieldOneLine(key: string, value: string)
    requires '\n' !in key
    ensures '\n' !in Field(key, value)
  {
    QuotedExcludes(YamlEscape(value));
  }

  function QuoteTags(tags: seq<string>): (r: seq<string>)
    ensures |r| == |tags|
    ensures forall i :: 0 <= i < |tags| ==> r[i] == Quoted(YamlEscape(tags[i]))
  {
    seq(|tags|, i requires 0 <= i < |tags| => Quoted(YamlEscape(tags[i])))
  }

  /** The text inside `tags: [...]`: the escaped tags, quoted and joined, or
      nothing when the tags are not a list. */
  function TagsText(tags: Option<seq<string>>): string {
    match tags
    case None => ""
    case Some(ts) => Join(QuoteTags(ts), ", ")
  }

  function BoolText(b: bool): string {
    if b then "true" else "false"
  }

  /** The title line; the title defaults to "Untitled" and is escaped. */
  function TitleLine(fm: Frontmatter): string {
    Field("title: ", if fm.title != "" then fm.title else "Untitled")
  }

  /** The date line; the date defaults to "2025-01-01" and is written as is. */
  function DateLine(fm: Frontmatter): string {
    "date: " + Quoted(if fm.date != "" then fm.date else "2025-01-01")
  }

  function TagsLine(fm: Frontmatter): string {
    "tags: [" + TagsText(fm.tags) + "]"
  }

  /** The draft line; `draft` defaults to true when it is not set. */
  function DraftLine(fm: Frontmatter): string {
    "draft: " + BoolText(fm.draft.GetOr(true))
  }

  /** The six lines that open the block. */
  function HeaderLines(fm: Frontmatter): seq<string> {
    [Delimiter, LayoutLine, TitleLine(fm), DateLine(fm), TagsLine(fm), DraftLine(fm)]
  }

  /** The coordinates written as a flow sequence of numbers. */
  function CoordsLine(coords: seq<string>): string {
    "    coords: [" + Join(coords, ", ") + "]"
  }

  /** Line `k` of the seven lines of one location item. */
  function LocationLine(loc: Location, k: nat): string
    requires k < 7
  {
    if k == 0 then Field("  - title: ", loc.title)
    else if k == 1 then Field("    city: ", loc.city)
    else if k == 2 then Field("    venue: ", loc.venue)
    else if k == 3 then Field("    country: ", loc.country)
    else if k == 4 then Field("    date: ", loc.date)
    else if k == 5 then CoordsLine(loc.coords)
    else Field("    description: ", loc.description)
  }

  function LocationLines(loc: Location): seq<string> {
    seq(7, k requires 0 <= k < 7 => LocationLine(loc, k))
  }

  function LocationItems(locs: seq<Location>): (r: seq<string>)
    ensures |r| == 7 * |locs|
  {
    var blocks := seq(|locs|, i requires 0 <= i < |locs| => LocationLines(locs[i]));
    FlattenLength(blocks, 7);
    Flatten(blocks)
  }

  /** The `locations:` key and its items, or nothing when there are none. */
  function LocationsBlock(locs: seq<Location>): seq<string> {
    if |locs| == 0 then [] else [LocationsKey] + LocationItems(locs)
  }

  /** `generateFrontmatter`: the block between two `---` lines, followed by
      one empty line. */
  function GenerateFrontmatter(fm: Frontmatter, locs: seq<Location>): string {
    Unlines(FrontmatterLines(fm, locs))
  }

  /** The lines of the block, the last one empty. */
  function FrontmatterLines(fm: Frontmatter, locs: seq<Location>): seq<string> {
    HeaderLines(fm) + LocationsBlock(locs) + [Delimiter, ""]
  }

  lemma LocationItemsAt(locs: seq<Location>, i: nat, j: nat)
    requires i < |locs| && j < 7
    ensures LocationItems(locs)[7 * i + j] == LocationLine(locs[i], j)
  {
    FlattenAt(seq(|locs|, i requires 0 <= i < |locs| => LocationLines(locs[i])), 7, i, j);
  }

  /** Every coordinate of every location fits on one line. */
  predicate OneLineCoords(locs: seq<Location>) {
    forall i, j :: 0 <= i < |locs| && 0 <= j < |locs[i].coords| ==> '\n' !in locs[i].coords[j]
  }

  lemma LocationKeysOneLine()
    ensures '\n' !in "  - title: " && '\n' !in "    city: " && '\n' !in "    venue: "
    ensures '\n' !in "    country: " && '\n' !in "    date: " && '\n' !in "    description: "
    ensures '\n' !in "    coords: [" && '\n' !in "]"
  {
  }

  lemma LocationLinesOneLine(loc: Location)
    requires forall j :: 0 <= j < |loc.coords| ==> '\n' !in loc.coords[j]
    ensures forall k :: 0 <= k < 7 ==> '\n' !in LocationLines(loc)[k]
  {
    LocationKeysOneLine();
    forall k | 0 <= k < 7 ensures '\n' !in LocationLine(loc, k) {
      if k == 0 { FieldOneLine("  - title: ", loc.title); }
      else if k == 1 { FieldOneLine("    city: ", loc.city); }
      else if k == 2 { FieldOneLine("    venue: ", loc.venue); }
      else if k == 3 { FieldOneLine("    country: ", loc.country); }
      else if k == 4 { FieldOneLine("    date: ", loc.date); }
      else if k == 5 { JoinExcludes(loc.coords, ", ", '\n'); }
      else { FieldOneLine("    description: ", loc.description); }
    }
  }

  lemma LocationItemsOneLine(locs: seq<Location>)
    requires OneLineCoords(locs)
    ensures NoNewline(LocationItems(locs))
  {
    var blocks := seq(|locs|, i requires 0 <= i < |locs| => LocationLines(locs[i]));
    forall k, j | 0 <= k < |blocks| && 0 <= j < |blocks[k]| ensures '\n' !in blocks[k][j] {
      LocationLinesOneLine(locs[k]);
    }
    FlattenAll(blocks, (l: string) => '\n' !in l);
  }

  lemma HeaderKeysOneLine()
    ensures '\n' !in Delimiter && '\n' !in LayoutLine && '\n' !in LocationsKey && '\n' !in "title: "
    ensures '\n' !in "date: " && '\n' !in "2025-01-01" && '\n' !in "tags: [" && '\n' !in "]"
    ensures '\n' !in "draft: " && '\n' !in "true" && '\n' !in "false"
  {
  }

  lemma TagsTextOneLine(tags: Option<seq<string>>)
    ensures '\n' !in TagsText(tags)
  {
    if tags.Some? {
      var quoted := QuoteTags(tags.value);
      forall i | 0 <= i < |quoted| ensures '\n' !in quoted[i] {
        QuotedExcludes(YamlEscape(tags.value[i]));
      }
      JoinExcludes(quoted, ", ", '\n');
    }
  }

  lemma TitleLineOneLine(fm: Frontmatter)
    ensures '\n' !in TitleLine(fm)
  {
    HeaderKeysOneLine();
    FieldOneLine("title: ", if fm.title != "" then fm.title else "Untitled");
  }

  lemma DateLineOneLine(fm: Frontmatter)
    requires '\n' !in fm.date
    ensures '\n' !in DateLine(fm)
  {
    HeaderKeysOneLine();
    var d := if fm.date != "" then fm.date else "2025-01-01";
    QuotedExcludes(d);
    assert DateLine(fm) == "date: " + Quoted(d);
  }

  lemma TagsLineOneLine(fm: Frontmatter)
    ensures '\n' !in TagsLine(fm)
  {
    HeaderKeysOneLine();
    TagsTextOneLine(fm.tags);
    assert TagsLine(fm) == "tags: [" + TagsText(fm.tags) + "]";
  }

  lemma DraftLineOneLine(fm: Frontmatter)
    ensures '\n' !in DraftLine(fm)
  {
    HeaderKeysOneLine();
    assert '\n' !in BoolText(fm.draft.GetOr(true));
  }

  lemma HeaderOneLine(fm: Frontmatter)
    requires '\n' !in fm.date
    ensures NoNewline(HeaderLines(fm))
  {
    HeaderKeysOneLine();
    TitleLineOneLine(fm);
    DateLineOneLine(fm);
    TagsLineOneLine(fm);
    DraftLineOneLine(fm);
    NoNewlineSix(Delimiter, LayoutLine, TitleLine(fm), DateLine(fm), TagsLine(fm), DraftLine(fm));
  }

  lemma LocationsBlockOneLine(locs: seq<Location>)
    requires OneLineCoords(locs)
    ensures NoNewline(LocationsBlock(locs))
  {
    if |locs| > 0 {
      HeaderKeysOneLine();
      LocationItemsOneLine(locs);
      NoNewlineConcat([LocationsKey], LocationItems(locs));
    }
  }

  lemma LinesOneLine(fm: Frontmatter, locs: seq<Location>)
    requires '\n' !in fm.date
    requires OneLineCoords(locs)
    ensures NoNewline(FrontmatterLines(fm, locs))
  {
    HeaderOneLine(fm);
    LocationsBlockOneLine(locs);
    HeaderKeysOneLine();
    NoNewlineTwo(Delimiter, "");
    NoNewlineConcat(HeaderLines(fm), LocationsBlock(locs));
    NoNewlineConcat(HeaderLines(fm) + LocationsBlock(locs), [Delimiter, ""]);
  }

  /** The lines of the generated block: they are the lines written, each on
      a line of its own, because every value written in them is escaped onto
      one line (the date is written unescaped, so it must not contain a
      newline). The block is the delimiter, the layout, the title, date,
      tags and draft lines in this order, then `locations:` and seven lines
      per location when there is at least one, then the closing delimiter
      and an empty line. */
  lemma GenerateFrontmatterLines(fm: Frontmatter, locs: seq<Location>)
    requires '\n' !in fm.date
    requires OneLineCoords(locs)
    ensures Split(GenerateFrontmatter(fm, locs), '\n') == FrontmatterLines(fm, locs) + [""]
  {
    LinesOneLine(fm, locs);
    SplitUnlines(FrontmatterLines(fm, locs));
  }

  /** The block opens with the delimiter, the layout, the title, date, tags
      and draft lines in this order, and ends with the closing delimiter and
      an empty line. */
  lemma FrontmatterLinesFrame(fm: Frontmatter, locs: seq<Location>)
    ensures var ls := FrontmatterLines(fm, locs);
            && |ls| == 8 + |LocationsBlock(locs)|
            && ls[0] == Delimiter && ls[1] == LayoutLine && ls[2] == TitleLine(fm)
            && ls[3] == DateLine(fm) && ls[4] == TagsLine(fm) && ls[5] == DraftLine(fm)
            && ls[|ls| - 2] == Delimiter && ls[|ls| - 1] == ""
  {
    ThreeParts(HeaderLines(fm), LocationsBlock(locs), [Delimiter, ""]);
  }

  /** Between them, `locations:` and seven lines per location, in order,
      when there is at least one location. */
  lemma FrontmatterLinesLocations(fm: Frontmatter, locs: seq<Location>)
    ensures var ls := FrontmatterLines(fm, locs);
            && |ls| == (if |locs| == 0 then 8 else 9 + 7 * |locs|)
            && (|locs| > 0 ==> ls[6] == LocationsKey)
            && (forall i, j :: 0 <= i < |locs| && 0 <= j < 7 ==> ls[7 + 7 * i + j] == LocationLine(locs[i], j))
  {
    var b := LocationsBlock(locs);
    ThreeParts(HeaderLines(fm), b, [Delimiter, ""]);
    if |locs| > 0 {
      LocationsBlockAt(locs);
    }
  }

  lemma LocationsBlockAt(locs: seq<Location>)
    requires |locs| > 0
    ensures var b := LocationsBlock(locs);
            && |b| == 1 + 7 * |locs| && b[0] == LocationsKey
            && forall i, j :: 0 <= i < |locs| && 0 <= j < 7 ==> b[1 + 7 * i + j] == LocationLine(locs[i], j)
  {
    var items := LocationItems(locs);
    ThreeParts([LocationsKey], items, []);
    forall i, j | 0 <= i < |locs| && 0 <= j < 7
      ensures 7 * i + j < |items| && items[7 * i + j] == LocationLine(locs[i], j)
    {
      LocationItemsAt(locs, i, j);
      MulBound(7, i, j, |locs|);
    }
  }
}
