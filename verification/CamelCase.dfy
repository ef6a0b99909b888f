/** The printer/parser pair `camelize` and `uncamelize`, and what a dashed name
    keeps of itself on the way through both. */
module CamelCase {
  import opened Texts

  function UpperChar(c: char): char {
    if 'a' <= c <= 'z' then 'A' + (c - 'a') else c
  }

  /** The end of the run of characters other than `-` that starts at `i`. */
  function RunEnd(s: string, i: nat): (k: nat)
    requires i <= |s|
    ensures i <= k <= |s|
    ensures forall j :: i <= j < k ==> s[j] != '-'
    ensures k < |s| ==> s[k] == '-'
    decreases |s| - i
  {
    if i < |s| && s[i] != '-' then RunEnd(s, i + 1) else i
  }

  /** A dash, any character on the same line, and a run: the second alternative. */
  predicate Hump(s: string) {
    |s| > 2 && s[0] == '-' && !IsBreak(s[1]) && s[2] != '-'
  }

  /** Replaces every match of `([^-]+)|(?:-(.)([^-]+))`; a dash that starts no match stays. */
  function Camelize(s: string): string
    decreases |s|
  {
    if s == "" then ""
    else if s[0] != '-' then
      var k := RunEnd(s, 1);
      Lower(s[..k]) + Camelize(s[k..])
    else if Hump(s) then
      var k := RunEnd(s, 3);
      [UpperChar(s[1])] + Lower(s[2..k]) + Camelize(s[k..])
    else ['-'] + Camelize(s[1..])
  }

  function Uncamelize(s: string): string {
    if s == "" then ""
    else (if 'A' <= s[0] <= 'Z' then ['-', LowerChar(s[0])] else [s[0]]) + Uncamelize(s[1..])
  }

  /** Lowercase letters and dashes. */
  predicate Dashed(s: string) {
    forall i :: 0 <= i < |s| ==> s[i] == '-' || 'a' <= s[i] <= 'z'
  }

  /** Two dashes and then a letter. */
  predicate DoubleDash(s: string) {
    |s| > 2 && s[0] == '-' && s[1] == '-' && s[2] != '-'
  }

  /** Drops one dash wherever two are followed by a letter. */
  function Collapse(s: string): string {
    if s == "" then "" else (if DoubleDash(s) then "" else [s[0]]) + Collapse(s[1..])
  }

  lemma {:induction false} UncamelizeAppend(a: string, b: string)
    ensures Uncamelize(a + b) == Uncamelize(a) + Uncamelize(b)
    decreases |a|
  {
    if a == "" {
      assert a + b == b;
    } else {
      assert (a + b)[1..] == a[1..] + b;
      UncamelizeAppend(a[1..], b);
    }
  }

  lemma {:induction false} UncamelizeLower(s: string)
    requires forall i :: 0 <= i < |s| ==> 'a' <= s[i] <= 'z'
    ensures Lower(s) == s && Uncamelize(s) == s
    decreases |s|
  {
    if s == "" {
    } else {
      UncamelizeLower(s[1..]);
    }
  }

  lemma {:induction false} CollapseRun(s: string, k: nat)
    requires k <= |s| && forall j :: 0 <= j < k ==> s[j] != '-'
    ensures Collapse(s) == s[..k] + Collapse(s[k..])
    decreases k
  {
    if k == 0 {
    } else {
      CollapseRun(s[1..], k - 1);
      assert s[1..][k - 1..] == s[k..];
      assert s[..k] == [s[0]] + s[1..][..k - 1];
    }
  }

  lemma UpperBack(c: char)
    requires c == '-' || 'a' <= c <= 'z'
    ensures Uncamelize([UpperChar(c)]) == if c == '-' then ['-'] else ['-', c]
  {
    assert [UpperChar(c)][1..] == "";
  }

  lemma CollapseHump(s: string)
    requires Hump(s)
    ensures Collapse(s) == (if s[1] == '-' then ['-'] else ['-', s[1]]) + Collapse(s[2..])
  {
    assert s[1..][1..] == s[2..];
    assert Collapse(s[1..]) == [s[1]] + Collapse(s[2..]);
    if s[1] != '-' {
      assert ['-'] + ([s[1]] + Collapse(s[2..])) == ['-', s[1]] + Collapse(s[2..]);
    }
  }

  lemma RunKept(s: string, k: nat)
    requires Dashed(s) && k <= |s| && forall j :: 0 <= j < k ==> s[j] != '-'
    requires Uncamelize(Camelize(s[k..])) == Collapse(s[k..])
    ensures Uncamelize(Lower(s[..k]) + Camelize(s[k..])) == Collapse(s)
  {
    UncamelizeLower(s[..k]);
    UncamelizeAppend(s[..k], Camelize(s[k..]));
    CollapseRun(s, k);
  }

  lemma HumpKept(s: string, k: nat)
    requires Dashed(s) && Hump(s) && k == RunEnd(s, 3)
    requires Uncamelize(Camelize(s[k..])) == Collapse(s[k..])
    ensures Uncamelize([UpperChar(s[1])] + Lower(s[2..k]) + Camelize(s[k..])) == Collapse(s)
  {
    var t := s[2..];
    assert t[..k - 2] == s[2..k] && t[k - 2..] == s[k..];
    RunKept(t, k - 2);
    var rest := Lower(s[2..k]) + Camelize(s[k..]);
    UncamelizeAppend([UpperChar(s[1])], rest);
    assert [UpperChar(s[1])] + Lower(s[2..k]) + Camelize(s[k..]) == [UpperChar(s[1])] + rest;
    UpperBack(s[1]);
    CollapseHump(s);
  }

  /** Through both functions a dashed name comes back with one dash dropped wherever
      two dashes precede a letter, and otherwise unchanged. */
  lemma {:induction false} ThereAndBack(s: string)
    requires Dashed(s)
    ensures Uncamelize(Camelize(s)) == Collapse(s)
    decreases |s|
  {
    if s == "" {
    } else if s[0] != '-' {
      var k := RunEnd(s, 1);
      ThereAndBack(s[k..]);
      RunKept(s, k);
    } else if Hump(s) {
      var k := RunEnd(s, 3);
      ThereAndBack(s[k..]);
      HumpKept(s, k);
    } else {
      ThereAndBack(s[1..]);
      UncamelizeAppend(['-'], Camelize(s[1..]));
      assert Uncamelize(['-']) == ['-'] by { assert ['-'][1..] == ""; }
    }
  }

  ghost predicate HasDoubleDash(s: string) {
    exists i :: 0 <= i < |s| && DoubleDash(s[i..])
  }

  lemma {:induction false} CollapseSame(s: string)
    ensures |Collapse(s)| <= |s|
    ensures HasDoubleDash(s) ==> |Collapse(s)| < |s|
    ensures !HasDoubleDash(s) ==> Collapse(s) == s
    decreases |s|
  {
    if s == "" {
    } else {
      CollapseSame(s[1..]);
      assert s[0..] == s;
      if i :| 0 <= i < |s[1..]| && DoubleDash(s[1..][i..]) {
        assert s[1..][i..] == s[i + 1..];
      }
      if i :| 0 < i < |s| && DoubleDash(s[i..]) {
        assert s[i..] == s[1..][i - 1..];
      }
    }
  }

  /** `uncamelize` undoes `camelize` on a dashed name exactly when no two dashes are
      followed by a letter; leading, trailing and one-letter segments do no harm. */
  lemma RoundTripExactly(s: string)
    requires Dashed(s)
    ensures Uncamelize(Camelize(s)) == s <==> !HasDoubleDash(s)
  {
    ThereAndBack(s);
    CollapseSame(s);
  }

  /** The shortest kind of name that is spoiled. */
  lemma DashLost()
    ensures Dashed("a--b") && HasDoubleDash("a--b") && Uncamelize(Camelize("a--b")) == "a-b"
  {
    ThereAndBack("a--b");
    assert "a--b"[1..] == "--b" && "--b"[1..] == "-b" && "-b"[1..] == "b" && "b"[1..] == "";
    assert DoubleDash("a--b"[1..]);
  }
}
