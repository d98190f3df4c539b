/** Replacing each maximal run of characters of one class by a single
    character, as `replace(/[class]+/g, rep)` does, and keeping the
    characters outside a class, as `filter` does. The title comparison of
    the importer and the anchors of the table of contents are both built
    on these. */
module Runs {
  import opened Strings

  /** The characters of `s` that satisfy `p`, in order. */
  function Only(s: string, p: char -> bool): (r: string)
    ensures |r| <= |s|
    ensures forall i :: 0 <= i < |r| ==> p(r[i])
  {
    if |s| == 0 then [] else (if p(s[0]) then [s[0]] else []) + Only(s[1..], p)
  }

  lemma {:induction false} OnlyAppend(a: string, b: string, p: char -> bool)
    ensures Only(a + b, p) == Only(a, p) + Only(b, p)
  {
    if |a| > 0 {
      assert (a + b)[1..] == a[1..] + b;
      OnlyAppend(a[1..], b, p);
    } else {
      assert a + b == b;
    }
  }

  /** The length of the run of `p`-characters `s` starts with. */
  function RunLength(s: string, p: char -> bool): (n: nat)
    ensures n <= |s|
    ensures forall i :: 0 <= i < n ==> p(s[i])
    ensures n < |s| ==> !p(s[n])
  {
    if |s| > 0 && p(s[0]) then 1 + RunLength(s[1..], p) else 0
  }

  /** `s` without the run of `p`-characters it starts with. */
  function DropRun(s: string, p: char -> bool): string {
    s[RunLength(s, p)..]
  }

  /** The dropped characters all satisfy `p`, so nothing else is lost. */
  lemma DropRunKeepsOthers(s: string, p: char -> bool, q: char -> bool)
    requires forall c :: p(c) ==> !q(c)
    ensures Only(DropRun(s, p), q) == Only(s, q)
  {
    var n := RunLength(s, p);
    var r := s[n..];
    assert s == s[..n] + r;
    OnlyAppend(s[..n], r, q);
    NoneKept(s[..n], p, q);
  }

  lemma {:induction false} NoneKept(s: string, p: char -> bool, q: char -> bool)
    requires forall c :: p(c) ==> !q(c)
    requires forall i :: 0 <= i < |s| ==> p(s[i])
    ensures Only(s, q) == []
  {
    if |s| > 0 {
      NoneKept(s[1..], p, q);
    }
  }

  /** `s` with every maximal run of `p`-characters replaced by `rep`. */
  function CollapseRuns(s: string, p: char -> bool, rep: char): (r: string)
    ensures |r| <= |s|
    ensures |s| > 0 ==> |r| > 0 && (p(s[0]) ==> r[0] == rep) && (!p(s[0]) ==> r[0] == s[0])
    decreases |s|
  {
    if |s| == 0 then []
    else if p(s[0]) then [rep] + CollapseRuns(DropRun(s[1..], p), p, rep)
    else [s[0]] + CollapseRuns(s[1..], p, rep)
  }

  /** Every `p`-character is `rep`, and none follows another. */
  predicate Collapsed(s: string, p: char -> bool, rep: char) {
    forall i :: 0 <= i < |s| && p(s[i]) ==> s[i] == rep && (i + 1 == |s| || !p(s[i + 1]))
  }

  /** The result has single `rep` characters where the runs were. */
  lemma {:induction false} CollapseRunsCollapsed(s: string, p: char -> bool, rep: char)
    requires p(rep)
    ensures Collapsed(CollapseRuns(s, p, rep), p, rep)
    decreases |s|
  {
    if |s| > 0 {
      if p(s[0]) {
        var t := DropRun(s[1..], p);
        CollapseRunsCollapsed(t, p, rep);
        var r := CollapseRuns(t, p, rep);
        assert |t| > 0 ==> !p(r[0]);
        assert CollapseRuns(s, p, rep) == [rep] + r;
      } else {
        CollapseRunsCollapsed(s[1..], p, rep);
        assert CollapseRuns(s, p, rep) == [s[0]] + CollapseRuns(s[1..], p, rep);
      }
    }
  }

  /** Only the runs change: the other characters stay, in order. */
  lemma {:induction false} CollapseRunsKeepsOthers(s: string, p: char -> bool, rep: char, q: char -> bool)
    requires forall c :: p(c) ==> !q(c)
    requires p(rep)
    ensures Only(CollapseRuns(s, p, rep), q) == Only(s, q)
    decreases |s|
  {
    if |s| > 0 {
      var r := CollapseRuns(s, p, rep);
      if p(s[0]) {
        var t := DropRun(s[1..], p);
        CollapseRunsKeepsOthers(t, p, rep, q);
        DropRunKeepsOthers(s[1..], p, q);
        assert r == [rep] + CollapseRuns(t, p, rep);
        assert r[1..] == CollapseRuns(t, p, rep);
      } else {
        CollapseRunsKeepsOthers(s[1..], p, rep, q);
        assert r[1..] == CollapseRuns(s[1..], p, rep);
      }
    }
  }

  /** A collapsed string is left as it is. */
  lemma {:induction false} CollapsedFixed(s: string, p: char -> bool, rep: char)
    requires Collapsed(s, p, rep)
    ensures CollapseRuns(s, p, rep) == s
    decreases |s|
  {
    if |s| > 0 {
      assert Collapsed(s[1..], p, rep) by {
        forall i | 0 <= i < |s[1..]| && p(s[1..][i])
          ensures s[1..][i] == rep && (i + 1 == |s[1..]| || !p(s[1..][i + 1]))
        {
          assert s[1..][i] == s[i + 1];
        }
      }
      CollapsedFixed(s[1..], p, rep);
      if p(s[0]) {
        assert |s| == 1 || !p(s[1]);
        assert DropRun(s[1..], p) == s[1..];
      }
      assert s == [s[0]] + s[1..];
    }
  }

  /** Collapsing twice is collapsing once. */
  lemma CollapseRunsIdempotent(s: string, p: char -> bool, rep: char)
    requires p(rep)
    ensures CollapseRuns(CollapseRuns(s, p, rep), p, rep) == CollapseRuns(s, p, rep)
  {
    CollapseRunsCollapsed(s, p, rep);
    CollapsedFixed(CollapseRuns(s, p, rep), p, rep);
  }

  /** A class that `rep` and every character of `s` belong to contains every
      character of the result. */
  lemma {:induction false} CollapseRunsWithin(s: string, p: char -> bool, rep: char, q: char -> bool)
    requires q(rep) && forall i :: 0 <= i < |s| ==> q(s[i])
    ensures forall i :: 0 <= i < |CollapseRuns(s, p, rep)| ==> q(CollapseRuns(s, p, rep)[i])
    decreases |s|
  {
    if |s| > 0 {
      var r := CollapseRuns(s, p, rep);
      if p(s[0]) {
        var t := DropRun(s[1..], p);
        CollapseRunsWithin(t, p, rep, q);
        assert r == [rep] + CollapseRuns(t, p, rep);
      } else {
        CollapseRunsWithin(s[1..], p, rep, q);
        assert r == [s[0]] + CollapseRuns(s[1..], p, rep);
      }
    }
  }

  /** A string that does not end in a `p`-character gives a result that
      ends in the same character. */
  lemma {:induction false} CollapseRunsLast(s: string, p: char -> bool, rep: char)
    requires |s| > 0 && !p(s[|s| - 1])
    ensures var r := CollapseRuns(s, p, rep); |r| > 0 && r[|r| - 1] == s[|s| - 1]
    decreases |s|
  {
    var r := CollapseRuns(s, p, rep);
    if p(s[0]) {
      var t := DropRun(s[1..], p);
      assert |t| > 0 && t[|t| - 1] == s[|s| - 1];
      CollapseRunsLast(t, p, rep);
      assert r == [rep] + CollapseRuns(t, p, rep);
    } else if |s| > 1 {
      CollapseRunsLast(s[1..], p, rep);
      assert r == [s[0]] + CollapseRuns(s[1..], p, rep);
    }
  }

  /** `trim` drops whitespace only: every character outside the whitespace
      class survives, in order. */
  lemma TrimKeepsOthers(s: string, q: char -> bool)
    requires forall c :: IsSpace(c) ==> !q(c)
    ensures Only(Trim(s), q) == Only(s, q)
  {
    TrimStartKeepsOthers(s, q);
    TrimEndKeepsOthers(TrimStart(s), q);
  }

  lemma {:induction false} TrimStartKeepsOthers(s: string, q: char -> bool)
    requires forall c :: IsSpace(c) ==> !q(c)
    ensures Only(TrimStart(s), q) == Only(s, q)
  {
    if |s| > 0 && IsSpace(s[0]) {
      TrimStartKeepsOthers(s[1..], q);
    }
  }

  lemma {:induction false} TrimEndKeepsOthers(s: string, q: char -> bool)
    requires forall c :: IsSpace(c) ==> !q(c)
    ensures Only(TrimEnd(s), q) == Only(s, q)
  {
    if |s| > 0 && IsSpace(s[|s| - 1]) {
      var init := s[..|s| - 1];
      TrimEndKeepsOthers(init, q);
      assert s == init + [s[|s| - 1]];
      OnlyAppend(init, [s[|s| - 1]], q);
    }
  }

  /** `trim` keeps a slice of its input, so a class holding every character
      of the input holds every character of the result. */
  lemma TrimWithin(s: string, q: char -> bool)
    requires forall i :: 0 <= i < |s| ==> q(s[i])
    ensures forall i :: 0 <= i < |Trim(s)| ==> q(Trim(s)[i])
  {
    TrimStartWithin(s, q);
    TrimEndWithin(TrimStart(s), q);
  }

  lemma {:induction false} TrimStartWithin(s: string, q: char -> bool)
    requires forall i :: 0 <= i < |s| ==> q(s[i])
    ensures forall i :: 0 <= i < |TrimStart(s)| ==> q(TrimStart(s)[i])
  {
    if |s| > 0 && IsSpace(s[0]) {
      TrimStartWithin(s[1..], q);
    }
  }

  lemma {:induction false} TrimEndWithin(s: string, q: char -> bool)
    requires forall i :: 0 <= i < |s| ==> q(s[i])
    ensures forall i :: 0 <= i < |TrimEnd(s)| ==> q(TrimEnd(s)[i])
  {
    if |s| > 0 && IsSpace(s[|s| - 1]) {
      TrimEndWithin(s[..|s| - 1], q);
    }
  }
}
