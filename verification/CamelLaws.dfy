/** What `camelize` makes of a name, character by character, and of names made of
    words. */
module CamelLaws {
  import opened Texts
  import opened CamelCase

  /** The dash at `i` goes, and the next character becomes a capital: a character that is
      not a line terminator follows, and then one that is no dash; and the dash is not
      itself what follows a dash that goes. */
  predicate HumpAt(s: string, i: int) {
    && 0 <= i && i + 2 < |s| && s[i] == '-' && !IsBreak(s[i + 1]) && s[i + 2] != '-'
    && !(i > 0 && s[i - 1] == '-' && s[i + 1] != '-')
  }

  function Capital(c: char): char { if 'a' <= c <= 'z' then (c as int - 32) as char else c }

  function Small(c: char): char { if 'A' <= c <= 'Z' then (c as int + 32) as char else c }

  /** What the character at `i` becomes. */
  function Place(s: string, i: nat): string
    requires i < |s|
  {
    if HumpAt(s, i) then "" else if HumpAt(s, i - 1) then [Capital(s[i])] else [Small(s[i])]
  }

  function Places(s: string, i: nat, k: nat): string
    requires i <= k <= |s|
    decreases k - i
  {
    if i == k then "" else Place(s, i) + Places(s, i + 1, k)
  }

  lemma {:induction false} PlacesSplit(s: string, i: nat, j: nat, k: nat)
    requires i <= j <= k <= |s|
    ensures Places(s, i, k) == Places(s, i, j) + Places(s, j, k)
    decreases j - i
  {
    if i == j {
      assert "" + Places(s, j, k) == Places(s, j, k);
    } else {
      PlacesSplit(s, i + 1, j, k);
      assert Place(s, i) + (Places(s, i + 1, j) + Places(s, j, k)) == Place(s, i) + Places(s, i + 1, j) + Places(s, j, k);
    }
  }

  lemma LowerFirst(s: string, i: nat, k: nat)
    requires i < k <= |s|
    ensures Lower(s[i..k]) == [LowerChar(s[i])] + Lower(s[i + 1..k])
  {
  }

  /** A run without dashes comes out in lower case. */
  lemma {:induction false} RunPlaces(s: string, i: nat, k: nat)
    requires i <= k <= |s| && !HumpAt(s, i - 1) && forall j :: i <= j < k ==> s[j] != '-'
    ensures Places(s, i, k) == Lower(s[i..k])
    decreases k - i
  {
    if i == k {
    } else {
      RunPlaces(s, i + 1, k);
      assert Place(s, i) == [LowerChar(s[i])];
      LowerFirst(s, i, k);
    }
  }

  lemma HumpHere(s: string, i: nat)
    requires i < |s| && s[i] == '-' && !HumpAt(s, i - 1)
    ensures HumpAt(s, i) <==> Hump(s[i..])
    ensures HumpAt(s, i) ==> !HumpAt(s, i + 1)
  {
    var t := s[i..];
    assert |t| > 1 ==> t[1] == s[i + 1];
    assert |t| > 2 ==> t[2] == s[i + 2];
  }

  lemma HumpPlaces(s: string, i: nat, k: nat)
    requires HumpAt(s, i) && !HumpAt(s, i - 1) && !HumpAt(s, i + 1) && i + 2 <= k <= |s|
    requires forall j :: i + 2 <= j < k ==> s[j] != '-'
    ensures Places(s, i, k) == [UpperChar(s[i + 1])] + Lower(s[i + 2..k])
  {
    RunPlaces(s, i + 2, k);
    assert Place(s, i) == "" && Place(s, i + 1) == [UpperChar(s[i + 1])];
    assert Places(s, i + 1, k) == Place(s, i + 1) + Places(s, i + 2, k);
    assert "" + Places(s, i + 1, k) == Places(s, i + 1, k);
  }

  lemma RunFirst(t: string, k: nat)
    requires t != "" && t[0] != '-' && k == RunEnd(t, 1)
    ensures Camelize(t) == Lower(t[..k]) + Camelize(t[k..])
  {
  }

  lemma CamelRun(s: string, i: nat, k: nat)
    requires i < |s| && s[i] != '-' && !HumpAt(s, i - 1) && k == i + RunEnd(s[i..], 1)
    requires Camelize(s[k..]) == Places(s, k, |s|)
    ensures Camelize(s[i..]) == Places(s, i, |s|)
  {
    HeadSlices(s, i, k);
    RunPlaces(s, i, k);
    RunFirst(s[i..], k - i);
    PlacesSplit(s, i, k, |s|);
  }

  lemma HeadSlices(s: string, i: nat, k: nat)
    requires i <= k <= |s|
    ensures s[i..][..k - i] == s[i..k] && s[i..][k - i..] == s[k..]
    ensures forall j :: i <= j < k ==> s[j] == s[i..][j - i]
  {
  }

  lemma HumpFirst(t: string, k: nat)
    requires Hump(t) && k == RunEnd(t, 3)
    ensures Camelize(t) == ([UpperChar(t[1])] + Lower(t[2..k])) + Camelize(t[k..])
  {
  }

  lemma TailSlices(s: string, i: nat, k: nat)
    requires i + 2 <= k <= |s|
    ensures s[i..][1] == s[i + 1] && s[i..][2..k - i] == s[i + 2..k] && s[i..][k - i..] == s[k..]
    ensures forall j :: i <= j < k ==> s[j] == s[i..][j - i]
  {
  }

  lemma CamelHump(s: string, i: nat, k: nat)
    requires i < |s| && Hump(s[i..]) && !HumpAt(s, i - 1) && k == i + RunEnd(s[i..], 3)
    requires Camelize(s[k..]) == Places(s, k, |s|)
    ensures Camelize(s[i..]) == Places(s, i, |s|)
  {
    HumpHere(s, i);
    TailSlices(s, i, k);
    HumpPlaces(s, i, k);
    HumpFirst(s[i..], k - i);
    PlacesSplit(s, i, k, |s|);
  }

  lemma CamelDash(s: string, i: nat)
    requires i < |s| && s[i] == '-' && !Hump(s[i..]) && !HumpAt(s, i - 1)
    requires Camelize(s[i + 1..]) == Places(s, i + 1, |s|)
    ensures Camelize(s[i..]) == Places(s, i, |s|)
  {
    HumpHere(s, i);
    assert s[i..][1..] == s[i + 1..];
    assert Place(s, i) == ['-'];
  }

  lemma {:induction false} CamelFrom(s: string, i: nat)
    requires i <= |s| && !HumpAt(s, i - 1)
    ensures Camelize(s[i..]) == Places(s, i, |s|)
    decreases |s| - i
  {
    if i == |s| {
    } else if s[i] != '-' {
      var k := i + RunEnd(s[i..], 1);
      assert s[k - 1] == s[i..][k - 1 - i];
      CamelFrom(s, k);
      CamelRun(s, i, k);
    } else if Hump(s[i..]) {
      var k := i + RunEnd(s[i..], 3);
      assert s[k - 1] == s[i..][k - 1 - i];
      HumpHere(s, i);
      CamelFrom(s, k);
      CamelHump(s, i, k);
    } else {
      HumpHere(s, i);
      CamelFrom(s, i + 1);
      CamelDash(s, i);
    }
  }

  /** `camelize`, character by character, for every text: the dashes of humps go, the
      character after such a dash becomes a capital, and all else becomes small. */
  lemma CamelizePlaces(s: string)
    ensures Camelize(s) == Places(s, 0, |s|)
  {
    assert s[0..] == s;
    CamelFrom(s, 0);
  }

  lemma {:induction false} SamePlaces(s: string, t: string, i: nat)
    requires |s| == |t| && i <= |s|
    requires forall j :: 0 <= j < |s| ==> Small(s[j]) == Small(t[j])
    ensures Places(s, i, |s|) == Places(t, i, |t|)
    decreases |s| - i
  {
    if i == |s| {
    } else {
      SamePlaces(s, t, i + 1);
      assert forall j :: 0 <= j < |s| ==> (s[j] == '-' <==> t[j] == '-') && (IsBreak(s[j]) <==> IsBreak(t[j]));
      assert Capital(s[i]) == Capital(t[i]);
    }
  }

  /** Upper and lower case in the name make no difference. */
  lemma CaseForgotten(s: string, t: string)
    requires |s| == |t| && forall j :: 0 <= j < |s| ==> Small(s[j]) == Small(t[j])
    ensures Camelize(s) == Camelize(t)
  {
    CamelizePlaces(s);
    CamelizePlaces(t);
    SamePlaces(s, t, 0);
  }

  // ---------------------------------------------------------------- names made of words

  function SmallAll(w: string): (r: string)
    ensures |r| == |w| && forall i :: 0 <= i < |w| ==> r[i] == Small(w[i])
  {
    seq(|w|, i requires 0 <= i < |w| => Small(w[i]))
  }

  predicate IsWord(w: string) { |w| >= 2 && '-' !in w && !IsBreak(w[0]) }

  function Dashes(ws: seq<string>): string {
    if ws == [] then "" else "-" + ws[0] + Dashes(ws[1..])
  }

  function Capitals(ws: seq<string>): string
    requires forall w :: w in ws ==> IsWord(w)
  {
    if ws == [] then ""
    else
      assert IsWord(ws[0]);
      [Capital(ws[0][0])] + SmallAll(ws[0][1..]) + Capitals(ws[1..])
  }

  lemma LowerSmall(w: string)
    ensures Lower(w) == SmallAll(w)
  {
    forall i | 0 <= i < |w| ensures Lower(w)[i] == Small(w[i]) {
      assert LowerChar(w[i]) == Small(w[i]);
    }
  }

  lemma {:induction false} RunEndIs(s: string, i: nat, k: nat)
    requires i <= k <= |s| && (forall j :: i <= j < k ==> s[j] != '-') && (k < |s| ==> s[k] == '-')
    ensures RunEnd(s, i) == k
    decreases k - i
  {
    if i == k {
    } else {
      RunEndIs(s, i + 1, k);
    }
  }

  lemma OneWord(w: string, rest: string)
    requires IsWord(w) && (rest != "" ==> rest[0] == '-')
    ensures Camelize("-" + w + rest) == [Capital(w[0])] + SmallAll(w[1..]) + Camelize(rest)
  {
    var s := "-" + w + rest;
    var k := 1 + |w|;
    WordSlices(w, rest);
    RunEndIs(s, 3, k);
    HumpFirst(s, k);
    LowerSmall(w[1..]);
    assert UpperChar(w[0]) == Capital(w[0]);
  }

  lemma WordSlices(w: string, rest: string)
    requires IsWord(w)
    ensures var s := "-" + w + rest;
      && Hump(s) && s[1] == w[0] && s[2..1 + |w|] == w[1..] && s[1 + |w|..] == rest
      && forall j :: 3 <= j < 1 + |w| ==> s[j] == w[j - 1] && s[j] != '-'
  {
    var s := "-" + w + rest;
    assert s[2] == w[1];
    forall j | 3 <= j < 1 + |w| ensures s[j] == w[j - 1] && s[j] != '-' {
      assert w[j - 1] in w;
    }
  }

  lemma DashFirst(ws: seq<string>)
    ensures Dashes(ws) != "" ==> Dashes(ws)[0] == '-'
  {
  }

  lemma {:induction false} CamelDashes(ws: seq<string>)
    requires forall w :: w in ws ==> IsWord(w)
    ensures Camelize(Dashes(ws)) == Capitals(ws)
  {
    if ws == [] {
    } else {
      CamelDashes(ws[1..]);
      DashFirst(ws[1..]);
      OneWord(ws[0], Dashes(ws[1..]));
    }
  }

  lemma {:induction false} DashesJoin(first: string, ws: seq<string>)
    ensures JoinText([first] + ws, "-") == first + Dashes(ws)
    decreases |ws|
  {
    var all := [first] + ws;
    assert all[1..] == ws;
    if ws == [] {
      assert first + "" == first;
    } else {
      DashesJoin(ws[0], ws[1..]);
      assert ws == [ws[0]] + ws[1..];
      assert first + "-" + (ws[0] + Dashes(ws[1..])) == first + ("-" + ws[0] + Dashes(ws[1..]));
    }
  }

  /** Words joined by dashes, all but the first of two characters at least, give the first
      word in lower case and the others capitalised: `font-size` gives `fontSize`. */
  lemma CamelizeWords(first: string, ws: seq<string>)
    requires '-' !in first && forall w :: w in ws ==> IsWord(w)
    ensures Camelize(JoinText([first] + ws, "-")) == SmallAll(first) + Capitals(ws)
  {
    DashesJoin(first, ws);
    CamelDashes(ws);
    DashFirst(ws);
    var s := first + Dashes(ws);
    if first == "" {
      assert s == Dashes(ws) && SmallAll(first) + Capitals(ws) == Capitals(ws);
    } else {
      RunEndIs(s, 1, |first|);
      LowerSmall(first);
      assert s[..|first|] == first && s[|first|..] == Dashes(ws);
    }
  }

  // --------------------------------------------------------------- what dashes are left

  predicate IsSmall(c: char) { 'a' <= c <= 'z' }

  /** A dash, a letter, a letter. */
  predicate DashLetters(t: string) { |t| > 2 && t[0] == '-' && IsSmall(t[1]) && IsSmall(t[2]) }

  /** Two dashes, a letter, a letter. */
  predicate DashDashLetters(t: string) {
    |t| > 3 && t[0] == '-' && t[1] == '-' && IsSmall(t[2]) && IsSmall(t[3])
  }

  /** Some tail of `s` starts with a dash and two letters. */
  predicate HasDashLetters(s: string) {
    s != "" && (DashLetters(s) || HasDashLetters(s[1..]))
  }

  predicate HasDashDashLetters(s: string) {
    s != "" && (DashDashLetters(s) || HasDashDashLetters(s[1..]))
  }

  lemma {:induction false} PastRun(run: string, rest: string)
    requires '-' !in run
    ensures HasDashLetters(run + rest) <==> HasDashLetters(rest)
    ensures HasDashDashLetters(run + rest) <==> HasDashDashLetters(rest)
  {
    if run == "" {
      assert run + rest == rest;
    } else {
      PastRun(run[1..], rest);
      assert (run + rest)[1..] == run[1..] + rest;
      assert (run + rest)[0] != '-';
    }
  }

  lemma LettersStay(run: string)
    requires forall i :: 0 <= i < |run| ==> IsSmall(run[i])
    ensures Lower(run) == run && '-' !in run
  {
  }

  lemma NoSmallFirst(t: string)
    requires Dashed(t) && (t != "" ==> t[0] == '-')
    ensures Camelize(t) != "" ==> !IsSmall(Camelize(t)[0])
  {
  }

  lemma AfterDash(t: string)
    requires Dashed(t) && t != "" && t[0] == '-' && !Hump(t)
    ensures !DashLetters(['-'] + Camelize(t[1..]))
    ensures !DashDashLetters(t)
  {
    var u := t[1..];
    var c := Camelize(u);
    if u == "" {
    } else if u[0] == '-' {
      NoSmallFirst(u);
    } else {
      assert |u| > 1 ==> u[1] == t[2] == '-';
      RunEndIs(u, 1, 1);
      NoSmallFirst(u[1..]);
      assert c == Lower(u[..1]) + Camelize(u[1..]);
      assert |c| > 1 ==> c[1] == Camelize(u[1..])[0];
    }
  }

  lemma DashLeaves(t: string)
    requires Dashed(t) && t != "" && t[0] == '-' && !Hump(t)
    ensures HasDashLetters(Camelize(t)) <==> HasDashLetters(Camelize(t[1..]))
    ensures HasDashDashLetters(t) <==> HasDashDashLetters(t[1..])
  {
    AfterDash(t);
    assert (['-'] + Camelize(t[1..]))[1..] == Camelize(t[1..]);
  }

  lemma RunLeaves(t: string, k: nat)
    requires Dashed(t) && t != "" && t[0] != '-' && k == RunEnd(t, 1)
    ensures HasDashLetters(Camelize(t)) <==> HasDashLetters(Camelize(t[k..]))
    ensures HasDashDashLetters(t) <==> HasDashDashLetters(t[k..])
  {
    LettersStay(t[..k]);
    PastRun(t[..k], Camelize(t[k..]));
    PastRun(t[..k], t[k..]);
    assert t[..k] + t[k..] == t;
  }

  lemma HumpSource(t: string, k: nat)
    requires Dashed(t) && Hump(t) && k == RunEnd(t, 3)
    ensures HasDashDashLetters(t) <==> (t[1] == '-' && k >= 4) || HasDashDashLetters(t[k..])
  {
    var run := t[2..k];
    LettersStay(run);
    PastRun(run, t[k..]);
    assert t[2..] == run + t[k..];
    assert t[1..][1..] == t[2..];
    assert !DashDashLetters(t[1..]);
  }

  lemma HumpResult(c: char, run: string, rest: string)
    requires run != "" && forall i :: 0 <= i < |run| ==> IsSmall(run[i])
    requires rest != "" ==> !IsSmall(rest[0])
    ensures HasDashLetters([c] + run + rest) <==> (c == '-' && |run| >= 2) || HasDashLetters(rest)
  {
    LettersStay(run);
    PastRun(run, rest);
    FirstOrLater(c, run + rest);
    ThirdSmall(c, run, rest);
    assert [c] + run + rest == [c] + (run + rest);
  }

  lemma FirstOrLater(c: char, t: string)
    ensures HasDashLetters([c] + t) <==> DashLetters([c] + t) || HasDashLetters(t)
  {
    assert ([c] + t)[1..] == t;
  }

  lemma ThirdSmall(c: char, run: string, rest: string)
    requires run != "" && forall i :: 0 <= i < |run| ==> IsSmall(run[i])
    requires rest != "" ==> !IsSmall(rest[0])
    ensures DashLetters([c] + run + rest) <==> c == '-' && |run| >= 2
  {
    var r := [c] + run + rest;
    assert r[1] == run[0];
    if |run| >= 2 {
      assert r[2] == run[1];
    } else if |r| > 2 {
      assert r[2] == rest[0];
    }
  }

  lemma HumpLeaves(t: string, k: nat)
    requires Dashed(t) && Hump(t) && k == RunEnd(t, 3)
    requires HasDashLetters(Camelize(t[k..])) <==> HasDashDashLetters(t[k..])
    ensures HasDashLetters(Camelize(t)) <==> HasDashDashLetters(t)
  {
    HumpSource(t, k);
    LettersStay(t[2..k]);
    NoSmallFirst(t[k..]);
    HumpFirst(t, k);
    HumpResult(UpperChar(t[1]), t[2..k], Camelize(t[k..]));
  }

  /** A dashed name comes out with a dash before two letters exactly when it has two
      dashes before two letters: there the pattern takes the second dash for the letter
      to capitalise. */
  lemma {:induction false} DashesLeft(t: string)
    requires Dashed(t)
    ensures HasDashLetters(Camelize(t)) <==> HasDashDashLetters(t)
    decreases |t|
  {
    if t == "" {
    } else if t[0] != '-' {
      var k := RunEnd(t, 1);
      DashesLeft(t[k..]);
      RunLeaves(t, k);
    } else if Hump(t) {
      DashesLeft(t[RunEnd(t, 3)..]);
      HumpLeaves(t, RunEnd(t, 3));
    } else {
      DashesLeft(t[1..]);
      DashLeaves(t);
    }
  }

  // --------------------------------------------------------------------- the way back

  /** `uncamelize` rewrites character by character: a capital becomes a dash and its small
      letter, and nothing else changes. */
  lemma UncamelizeEach(s: string, c: char)
    ensures Uncamelize(s + [c]) == Uncamelize(s) + (if 'A' <= c <= 'Z' then ['-', (c as int + 32) as char] else [c])
    ensures Uncamelize("") == ""
  {
    UncamelizeAppend(s, [c]);
    assert [c][1..] == "";
  }
}
