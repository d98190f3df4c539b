/** `normalizeMarkdown`, the whitespace pass over an assembled digest: runs
    of three or more newlines become one blank line, spaces and tabs at the
    end of a line go, the text is trimmed and one newline ends it. */
module Markdown {
  import opened Strings
  import Runs

  predicate IsNewline(c: char) { c == '\n' }

  predicate NotNewline(c: char) { c != '\n' }

  /** The characters of `[ \t]`. */
  predicate IsBlank(c: char) { c == ' ' || c == '\t' }

  predicate NotSpace(c: char) { !IsSpace(c) }

  /** `replace(/\n{3,}/g, "\n\n")`. */
  function CollapseNewlines(s: string): (r: string)
    ensures |s| > 0 && s[0] != '\n' ==> |r| > 0 && r[0] == s[0]
    decreases |s|
  {
    if |s| == 0 then ""
    else if s[0] != '\n' then [s[0]] + CollapseNewlines(s[1..])
    else
      var k := Runs.RunLength(s, IsNewline);
      (if k >= 3 then "\n\n" else s[..k]) + CollapseNewlines(s[k..])
  }

  /** `replace(/[ \t]+$/gm, "")`: a run of blanks goes when the end of the
      text or a line terminator follows it. */
  function StripTrailingBlanks(s: string): (r: string)
    ensures |s| > 0 && !IsBlank(s[0]) ==> |r| > 0 && r[0] == s[0]
    decreases |s|
  {
    if |s| == 0 then ""
    else if !IsBlank(s[0]) then [s[0]] + StripTrailingBlanks(s[1..])
    else
      var k := Runs.RunLength(s, IsBlank);
      if k == |s| || IsLineTerminator(s[k]) then StripTrailingBlanks(s[k..])
      else s[..k] + StripTrailingBlanks(s[k..])
  }

  /** `normalizeMarkdown`. */
  function NormalizeMarkdown(md: string): (r: string)
    ensures |r| > 0 && r[|r| - 1] == '\n'
    ensures r == "\n" || (|r| >= 2 && !IsSpace(r[|r| - 2]))
  {
    Trim(StripTrailingBlanks(CollapseNewlines(md))) + "\n"
  }

  /** No space or tab ends a line or the text. */
  predicate NoTrailingBlank(s: string) {
    forall i :: 0 <= i < |s| && IsBlank(s[i]) ==> i + 1 < |s| && !IsLineTerminator(s[i + 1])
  }

  /** No three newlines in a row. */
  predicate NoTripleNewline(s: string) {
    forall i :: 0 <= i < |s| - 2 ==> !(s[i] == '\n' && s[i + 1] == '\n' && s[i + 2] == '\n')
  }

  lemma {:induction false} StripTrailingBlanksClean(s: string)
    ensures NoTrailingBlank(StripTrailingBlanks(s))
    decreases |s|
  {
    if |s| > 0 {
      var r := StripTrailingBlanks(s);
      if !IsBlank(s[0]) {
        StripTrailingBlanksClean(s[1..]);
        assert r == [s[0]] + StripTrailingBlanks(s[1..]);
      } else {
        var k := Runs.RunLength(s, IsBlank);
        StripTrailingBlanksClean(s[k..]);
        if !(k == |s| || IsLineTerminator(s[k])) {
          var t := StripTrailingBlanks(s[k..]);
          assert r == s[..k] + t;
          assert |t| > 0 && t[0] == s[k];
          forall i | 0 <= i < |r| && IsBlank(r[i]) ensures i + 1 < |r| && !IsLineTerminator(r[i + 1]) {
            if i + 1 < k {
              assert r[i + 1] == s[i + 1];
            } else if i + 1 == k {
              assert r[i + 1] == t[0];
            } else {
              assert r[i] == t[i - k] && r[i + 1] == t[i - k + 1];
            }
          }
        }
      }
    }
  }

  /** Trimming keeps a slice whose last character is not a blank, so the
      property survives it. */
  lemma TrimKeepsClean(s: string)
    requires NoTrailingBlank(s)
    ensures NoTrailingBlank(Trim(s))
  {
    TrimStartKeepsClean(s);
    TrimEndKeepsClean(TrimStart(s));
  }

  lemma {:induction false} TrimStartKeepsClean(s: string)
    requires NoTrailingBlank(s)
    ensures NoTrailingBlank(TrimStart(s))
  {
    if |s| > 0 && IsSpace(s[0]) {
      assert NoTrailingBlank(s[1..]) by {
        forall i | 0 <= i < |s[1..]| && IsBlank(s[1..][i])
          ensures i + 1 < |s[1..]| && !IsLineTerminator(s[1..][i + 1])
        {
          assert s[1..][i] == s[i + 1];
        }
      }
      TrimStartKeepsClean(s[1..]);
    }
  }

  lemma TrimEndKeepsClean(s: string)
    requires NoTrailingBlank(s)
    ensures NoTrailingBlank(TrimEnd(s))
  {
    var t := TrimEnd(s);
    TrimEndPrefix(s);
    forall i | 0 <= i < |t| && IsBlank(t[i]) ensures i + 1 < |t| && !IsLineTerminator(t[i + 1]) {
      assert t[i] == s[i];
    }
  }

  lemma {:induction false} TrimEndPrefix(s: string)
    ensures TrimEnd(s) == s[..|TrimEnd(s)|]
  {
    if |s| > 0 && IsSpace(s[|s| - 1]) {
      TrimEndPrefix(s[..|s| - 1]);
    }
  }

  /** No line of the result ends in a space or a tab. */
  lemma NormalizeMarkdownLines(md: string)
    ensures NoTrailingBlank(NormalizeMarkdown(md))
  {
    var t := Trim(StripTrailingBlanks(CollapseNewlines(md)));
    StripTrailingBlanksClean(CollapseNewlines(md));
    TrimKeepsClean(StripTrailingBlanks(CollapseNewlines(md)));
    var r := t + "\n";
    forall i | 0 <= i < |r| && IsBlank(r[i]) ensures i + 1 < |r| && !IsLineTerminator(r[i + 1]) {
      assert i < |t| && r[i] == t[i];
      if i + 1 < |t| {
        assert r[i + 1] == t[i + 1];
      }
    }
  }

  /** Only whitespace changes: the other characters stay, in order. */
  lemma NormalizeMarkdownKeepsText(md: string)
    ensures Runs.Only(NormalizeMarkdown(md), NotSpace) == Runs.Only(md, NotSpace)
  {
    var c := CollapseNewlines(md);
    var b := StripTrailingBlanks(c);
    CollapseNewlinesKeepsText(md);
    StripTrailingBlanksKeepsText(c);
    Runs.TrimKeepsOthers(b, NotSpace);
    Runs.OnlyAppend(Trim(b), "\n", NotSpace);
  }

  lemma {:induction false} CollapseNewlinesKeepsText(s: string)
    ensures Runs.Only(CollapseNewlines(s), NotSpace) == Runs.Only(s, NotSpace)
    decreases |s|
  {
    if |s| > 0 {
      if s[0] != '\n' {
        CollapseNewlinesKeepsText(s[1..]);
        assert CollapseNewlines(s)[1..] == CollapseNewlines(s[1..]);
      } else {
        var k := Runs.RunLength(s, IsNewline);
        CollapseNewlinesKeepsText(s[k..]);
        var run := CollapsedRun(s, k);
        assert s == s[..k] + s[k..];
        SpacesKeepNothing(run, CollapseNewlines(s[k..]), s[..k], s[k..]);
      }
    }
  }

  /** Replacing one whitespace prefix by another keeps the text. */
  lemma SpacesKeepNothing(a: string, b: string, c: string, d: string)
    requires forall i :: 0 <= i < |a| ==> IsSpace(a[i])
    requires forall i :: 0 <= i < |c| ==> IsSpace(c[i])
    requires Runs.Only(b, NotSpace) == Runs.Only(d, NotSpace)
    ensures Runs.Only(a + b, NotSpace) == Runs.Only(c + d, NotSpace)
  {
    SpacesOnly(a);
    SpacesOnly(c);
    Runs.OnlyAppend(a, b, NotSpace);
    Runs.OnlyAppend(c, d, NotSpace);
  }

  /** What the collapse writes for the run of `k` newlines that starts `s`. */
  lemma CollapsedRun(s: string, k: nat) returns (run: string)
    requires 0 < k <= |s| && k == Runs.RunLength(s, IsNewline)
    ensures CollapseNewlines(s) == run + CollapseNewlines(s[k..])
    ensures forall i :: 0 <= i < |run| ==> run[i] == '\n'
  {
    assert s[0] == '\n';
    run := if k >= 3 then "\n\n" else s[..k];
  }

  lemma {:induction false} SpacesOnly(t: string)
    requires forall i :: 0 <= i < |t| ==> IsSpace(t[i])
    ensures Runs.Only(t, NotSpace) == []
  {
    if |t| > 0 {
      SpacesOnly(t[1..]);
    }
  }

  lemma {:induction false} StripTrailingBlanksKeepsText(s: string)
    ensures Runs.Only(StripTrailingBlanks(s), NotSpace) == Runs.Only(s, NotSpace)
    decreases |s|
  {
    if |s| > 0 {
      if !IsBlank(s[0]) {
        StripTrailingBlanksKeepsText(s[1..]);
        assert StripTrailingBlanks(s)[1..] == StripTrailingBlanks(s[1..]);
      } else {
        var k := Runs.RunLength(s, IsBlank);
        StripTrailingBlanksKeepsText(s[k..]);
        Runs.OnlyAppend(s[..k], StripTrailingBlanks(s[k..]), NotSpace);
        assert s == s[..k] + s[k..];
        Runs.OnlyAppend(s[..k], s[k..], NotSpace);
        Runs.NoneKept(s[..k], IsBlank, NotSpace);
      }
    }
  }

  /** The collapse itself leaves no three newlines in a row. */
  lemma {:induction false} CollapseNewlinesNoTriple(s: string)
    ensures NoTripleNewline(CollapseNewlines(s))
    decreases |s|
  {
    if |s| > 0 {
      var r := CollapseNewlines(s);
      if s[0] != '\n' {
        var t := CollapseNewlines(s[1..]);
        CollapseNewlinesNoTriple(s[1..]);
        assert r == [s[0]] + t;
        forall i | 0 <= i < |r| - 2 ensures !(r[i] == '\n' && r[i + 1] == '\n' && r[i + 2] == '\n') {
          if i > 0 {
            assert r[i] == t[i - 1] && r[i + 1] == t[i] && r[i + 2] == t[i + 1];
          }
        }
      } else {
        var k := Runs.RunLength(s, IsNewline);
        var run := if k >= 3 then "\n\n" else s[..k];
        var t := CollapseNewlines(s[k..]);
        CollapseNewlinesNoTriple(s[k..]);
        assert r == run + t;
        assert |run| <= 2;
        assert |t| > 0 ==> t[0] != '\n';
        forall i | 0 <= i < |r| - 2 ensures !(r[i] == '\n' && r[i + 1] == '\n' && r[i + 2] == '\n') {
          if i >= |run| {
            assert r[i] == t[i - |run|] && r[i + 1] == t[i - |run| + 1] && r[i + 2] == t[i - |run| + 2];
          } else if i + 2 == |run| + 0 {
          } else {
            assert r[|run|] == t[0];
          }
        }
      }
    }
  }

  /** A line holding only a space between two blank-line newlines escapes
      the collapse and then loses its space, so three newlines in a row
      reach the result. */
  lemma WhitespaceLineLeavesTriple(x: char, y: char)
    requires !IsSpace(x) && !IsSpace(y)
    ensures NormalizeMarkdown([x, '\n', '\n', ' ', '\n', y]) == [x, '\n', '\n', '\n', y, '\n']
  {
    WitnessCollapse(x, y);
    WitnessStrip(x, y);
    TrimUnchanged([x, '\n', '\n', '\n', y]);
  }

  lemma WitnessCollapse(x: char, y: char)
    requires x != '\n' && y != '\n'
    ensures CollapseNewlines([x, '\n', '\n', ' ', '\n', y]) == [x, '\n', '\n', ' ', '\n', y]
  {
    assert CollapseNewlines([y]) == [y];
    var t := ['\n', y];
    assert Runs.RunLength(t, IsNewline) == 1 by {
      assert Runs.RunLength(t[1..], IsNewline) == 0;
    }
    assert CollapseNewlines(t) == t by {
      assert t[1..] == [y];
    }
    assert CollapseNewlines([' '] + t) == [' '] + t;
    var u := ['\n', '\n', ' ', '\n', y];
    assert Runs.RunLength(u, IsNewline) == 2 by {
      assert u[1..][1..] == [' '] + t;
    }
    assert CollapseNewlines(u) == u by {
      assert u[2..] == [' '] + t;
    }
    assert [x, '\n', '\n', ' ', '\n', y] == [x] + u;
  }

  lemma WitnessStrip(x: char, y: char)
    requires !IsBlank(x) && !IsBlank(y)
    ensures StripTrailingBlanks([x, '\n', '\n', ' ', '\n', y]) == [x, '\n', '\n', '\n', y]
  {
    assert StripTrailingBlanks([y]) == [y];
    var t := ['\n', y];
    assert StripTrailingBlanks(t) == t by {
      assert t[1..] == [y];
    }
    var u := [' '] + t;
    assert Runs.RunLength(u, IsBlank) == 1 by {
      assert u[1..] == t;
    }
    assert StripTrailingBlanks(u) == t by {
      assert u[1..] == t;
    }
    assert StripTrailingBlanks(['\n'] + u) == ['\n'] + t;
    assert StripTrailingBlanks(['\n', '\n'] + u) == ['\n', '\n'] + t by {
      assert (['\n', '\n'] + u)[1..] == ['\n'] + u;
    }
    assert [x, '\n', '\n', ' ', '\n', y] == [x] + (['\n', '\n'] + u);
  }

  /** Normalising the result of `WhitespaceLineLeavesTriple` again changes
      it, so the pass is not idempotent. */
  lemma NormalizeMarkdownNotIdempotent(x: char, y: char)
    requires !IsSpace(x) && !IsSpace(y)
    ensures NormalizeMarkdown(NormalizeMarkdown([x, '\n', '\n', ' ', '\n', y])) == [x, '\n', '\n', y, '\n']
    ensures NormalizeMarkdown([x, '\n', '\n', ' ', '\n', y]) != [x, '\n', '\n', y, '\n']
  {
    WhitespaceLineLeavesTriple(x, y);
    var w := [x, '\n', '\n', y, '\n'];
    SecondPassCollapse(x, y);
    SecondPassStrip(x, y);
    assert TrimStart(w) == w;
    assert TrimEnd(w) == w[..4];
  }

  lemma SecondPassCollapse(x: char, y: char)
    requires x != '\n' && y != '\n'
    ensures CollapseNewlines([x, '\n', '\n', '\n', y, '\n']) == [x, '\n', '\n', y, '\n']
  {
    var u := ['\n', '\n', '\n', y, '\n'];
    ThreeNewlinesCollapse(y);
    assert [x, '\n', '\n', '\n', y, '\n'][1..] == u;
  }

  lemma ThreeNewlinesCollapse(y: char)
    requires y != '\n'
    ensures CollapseNewlines(['\n', '\n', '\n', y, '\n']) == ['\n', '\n', y, '\n']
  {
    var t := [y, '\n'];
    var u := ['\n', '\n', '\n', y, '\n'];
    LineEndKept(y);
    ThreeNewlinesRun(y);
    assert u[3..] == t;
  }

  lemma LineEndKept(y: char)
    requires y != '\n'
    ensures CollapseNewlines([y, '\n']) == [y, '\n']
  {
    assert Runs.RunLength(['\n'], IsNewline) == 1;
    assert CollapseNewlines(['\n']) == ['\n'];
  }

  lemma ThreeNewlinesRun(y: char)
    requires y != '\n'
    ensures Runs.RunLength(['\n', '\n', '\n', y, '\n'], IsNewline) == 3
  {
    var t := [y, '\n'];
    assert Runs.RunLength(t, IsNewline) == 0;
    assert Runs.RunLength(['\n'] + t, IsNewline) == 1;
    assert Runs.RunLength(['\n', '\n'] + t, IsNewline) == 2;
    assert ['\n', '\n', '\n', y, '\n'][1..] == ['\n', '\n'] + t;
  }

  lemma SecondPassStrip(x: char, y: char)
    requires !IsBlank(x) && !IsBlank(y)
    ensures StripTrailingBlanks([x, '\n', '\n', y, '\n']) == [x, '\n', '\n', y, '\n']
  {
    assert StripTrailingBlanks(['\n']) == ['\n'];
    assert StripTrailingBlanks([y, '\n']) == [y, '\n'];
    assert StripTrailingBlanks(['\n', y, '\n']) == ['\n', y, '\n'];
    assert StripTrailingBlanks(['\n', '\n', y, '\n']) == ['\n', '\n', y, '\n'];
  }
}
