/**
  The email validator shared by both entry points: the lower-cased input must
  match `^\w+([\.-]?\w+)*@\w+([\.-]?\w+)*(\.\w{2,3})+$` in full.

  `Accepts` is a hand-written recogniser; `RegexMatch` is the language of the
  pattern written group by group. `AcceptsIsRegex` proves they agree.
*/
module Email {

  /** `\w` of a JavaScript pattern without the `u` flag. */
  predicate IsWordChar(c: char) {
    ('a' <= c <= 'z') || ('A' <= c <= 'Z') || ('0' <= c <= '9') || c == '_'
  }

  /** The class `[\.-]`. */
  predicate IsSeparator(c: char) {
    c == '.' || c == '-'
  }

  predicate AllWord(s: string) {
    forall i :: 0 <= i < |s| ==> IsWordChar(s[i])
  }

  /** ASCII `toLowerCase`; every other character is left as it is. */
  function LowerChar(c: char): (d: char)
    ensures IsWordChar(d) <==> IsWordChar(c)
    ensures IsSeparator(d) <==> IsSeparator(c)
    ensures d == '@' <==> c == '@'
    ensures d == '.' <==> c == '.'
    ensures !('A' <= d <= 'Z')
    ensures 'a' <= c <= 'z' ==> d == c
  {
    if 'A' <= c <= 'Z' then (c as int + 32) as char else c
  }

  function ToLower(s: string): (t: string)
    ensures |t| == |s|
    ensures forall i :: 0 <= i < |s| ==> t[i] == LowerChar(s[i])
  {
    seq(|s|, i requires 0 <= i < |s| => LowerChar(s[i]))
  }

  // ---------------------------------------------------------------------------
  // Word runs: the shape `\w+([\.-]?\w+)*` stated declaratively.

  /** A separator at `i` is followed by a word character. */
  ghost predicate SepThenWord(s: string, i: nat)
    requires i + 1 < |s|
  {
    IsSeparator(s[i]) ==> IsWordChar(s[i + 1])
  }

  /** What may follow a word character inside a run: only word characters and
      separators, never two separators in a row, and a word character last. */
  ghost predicate JoinedTail(t: string) {
    && (t != [] ==> IsWordChar(t[|t| - 1]))
    && (forall i :: 0 <= i < |t| ==> IsWordChar(t[i]) || IsSeparator(t[i]))
    && (forall i :: 0 <= i < |t| - 1 ==> SepThenWord(t, i))
  }

  /** Runs of word characters joined by single `.` or `-`. */
  ghost predicate Joined(s: string) {
    && |s| > 0
    && IsWordChar(s[0])
    && IsWordChar(s[|s| - 1])
    && (forall i :: 0 <= i < |s| ==> IsWordChar(s[i]) || IsSeparator(s[i]))
    && (forall i :: 0 <= i < |s| - 1 ==> SepThenWord(s, i))
  }

  // ---------------------------------------------------------------------------
  // The recogniser.

  /** Recognises what follows the first word character of a run: the end,
      another word character, or one separator and then a word character. */
  function RunsTail(t: string): bool
    decreases |t|
  {
    if t == [] then true
    else if IsWordChar(t[0]) then RunsTail(t[1..])
    else IsSeparator(t[0]) && |t| >= 2 && IsWordChar(t[1]) && RunsTail(t[2..])
  }

  /** Recognises a whole run: a word character, then a run tail. */
  function Runs(s: string): bool {
    |s| > 0 && IsWordChar(s[0]) && RunsTail(s[1..])
  }

  /** Position of the first `@`, or `|s|` when there is none. */
  function FirstAt(s: string): (i: nat)
    ensures i <= |s|
    ensures i < |s| ==> s[i] == '@'
    ensures forall j :: 0 <= j < i ==> s[j] != '@'
  {
    if s == [] then 0
    else if s[0] == '@' then 0
    else 1 + FirstAt(s[1..])
  }

  /** The host ends at `d` in a top-level label: `h[d]` is `.`, then 2 or 3
      word characters to the end, and a word run before `d`. */
  predicate TopLabelAt(h: string, d: nat) {
    && 0 < d < |h|
    && 3 <= |h| - d <= 4
    && h[d] == '.'
    && AllWord(h[d + 1..])
    && Runs(h[..d])
  }

  /** The part after `@`: a word run, a dot, and 2 or 3 word characters.
      Only the last `.` can start the top label, so two cuts suffice. */
  function Host(h: string): bool {
    (|h| >= 4 && TopLabelAt(h, |h| - 3)) || (|h| >= 5 && TopLabelAt(h, |h| - 4))
  }

  /** Decides the pattern on an already lower-cased string: the first `@`
      splits it into a word run and a host. */
  function Accepts(s: string): bool {
    var i := FirstAt(s);
    i < |s| && Runs(s[..i]) && Host(s[i + 1..])
  }

  /** The host is accepted iff some cut gives a run and a top label. */
  lemma {:induction false} HostAt(h: string)
    ensures Host(h) <==> exists d :: 0 < d < |h| && TopLabelAt(h, d)
  {
  }

  /** Accepted iff some `@` splits the input into a word run and a host: a
      word run holds no `@`, so checking the first `@` is enough. */
  lemma {:induction false} AcceptsAt(s: string)
    ensures Accepts(s) <==> exists i :: 0 <= i < |s| && s[i] == '@' && Runs(s[..i]) && Host(s[i + 1..])
  {
    var i := FirstAt(s);
    forall k | 0 <= k < |s| && s[k] == '@' && Runs(s[..k])
      ensures k == i
    {
      if k > i { AtNotInRun(s[..k], i); }
    }
  }

  /** `validateEmail`: the pattern matched against the lower-cased input. On
      ASCII text lower-casing keeps every character class, so the verdict is
      that of the input itself. */
  function ValidateEmail(email: string): (r: bool)
    ensures r == Accepts(email)
  {
    var t := ToLower(email);
    SameClassesAccepts(email, t);
    Accepts(t)
  }

  // ---------------------------------------------------------------------------
  // The recogniser against the declarative shape.

  /** A run tail is what `JoinedTail` describes. */
  lemma {:induction false} TailIsJoined(t: string)
    ensures RunsTail(t) <==> JoinedTail(t)
    decreases |t|
  {
    if t == [] {
    } else if IsWordChar(t[0]) || (IsSeparator(t[0]) && |t| >= 2 && IsWordChar(t[1])) {
      var n := if IsWordChar(t[0]) then 1 else 2;
      TailIsJoined(t[n..]);
      var u := t[n..];
      assert forall i :: 0 <= i < |u| ==> u[i] == t[i + n];
      if JoinedTail(u) {
        forall i | 0 <= i < |t| - 1 ensures SepThenWord(t, i) {
          if i >= n { assert SepThenWord(u, i - n); }
        }
        forall i | 0 <= i < |t| ensures IsWordChar(t[i]) || IsSeparator(t[i]) {
          if i >= n { assert t[i] == u[i - n]; }
        }
      }
      if JoinedTail(t) {
        forall i | 0 <= i < |u| - 1 ensures SepThenWord(u, i) {
          assert SepThenWord(t, i + n);
        }
      }
    } else {
      if |t| >= 2 && IsSeparator(t[0]) {
        assert !SepThenWord(t, 0);
      }
    }
  }

  /** A run is exactly a sequence of word characters joined by single
      separators. */
  lemma {:induction false} RunsIsJoined(s: string)
    ensures Runs(s) <==> Joined(s)
  {
    if |s| > 0 {
      TailIsJoined(s[1..]);
      var u := s[1..];
      assert forall i :: 0 <= i < |u| ==> u[i] == s[i + 1];
      if Joined(s) {
        forall i | 0 <= i < |u| - 1 ensures SepThenWord(u, i) {
          assert SepThenWord(s, i + 1);
        }
      }
      if IsWordChar(s[0]) && JoinedTail(u) {
        forall i | 0 <= i < |s| - 1 ensures SepThenWord(s, i) {
          if i > 0 { assert SepThenWord(u, i - 1); }
        }
      }
    }
  }

  /** A run holds no `@`. */
  lemma {:induction false} AtNotInRun(s: string, i: nat)
    requires i < |s| && s[i] == '@'
    ensures !Runs(s)
  {
    RunsIsJoined(s);
  }

  /** An accepted host is itself a run, ending in its top-level label. */
  lemma {:induction false} HostJoined(h: string, d: nat)
    requires TopLabelAt(h, d)
    ensures Joined(h)
  {
    var p := h[..d];
    var q := h[d + 1..];
    RunsIsJoined(p);
    forall i | 0 <= i < |h| ensures IsWordChar(h[i]) || IsSeparator(h[i]) {
      if i < d { assert h[i] == p[i]; }
      else if i > d { assert h[i] == q[i - d - 1]; }
    }
    forall i | 0 <= i < |h| - 1 ensures SepThenWord(h, i) {
      if i + 1 < d { assert SepThenWord(p, i); assert h[i] == p[i] && h[i + 1] == p[i + 1]; }
      else if i + 1 == d { assert h[i] == p[|p| - 1]; }
      else { assert h[i + 1] == q[i - d]; }
    }
    assert h[|h| - 1] == q[|h| - d - 2];
  }

  /** `s` and `t` agree on every character class the pattern looks at. */
  ghost predicate SameClasses(s: string, t: string) {
    && |s| == |t|
    && forall i :: 0 <= i < |s| ==>
         && (IsWordChar(s[i]) <==> IsWordChar(t[i]))
         && (IsSeparator(s[i]) <==> IsSeparator(t[i]))
         && (s[i] == '@' <==> t[i] == '@')
         && (s[i] == '.' <==> t[i] == '.')
  }

  lemma {:induction false} SameClassesSlice(s: string, t: string, a: nat, b: nat)
    requires SameClasses(s, t) && a <= b <= |s|
    ensures SameClasses(s[a..b], t[a..b])
  {
    forall i | 0 <= i < b - a ensures s[a..b][i] == s[a + i] && t[a..b][i] == t[a + i] { }
  }

  lemma {:induction false} SameClassesRunsTail(s: string, t: string)
    requires SameClasses(s, t)
    ensures RunsTail(s) <==> RunsTail(t)
    decreases |s|
  {
    if |s| >= 1 {
      SameClassesSlice(s, t, 1, |s|);
      SameClassesRunsTail(s[1..], t[1..]);
    }
    if |s| >= 2 {
      SameClassesSlice(s, t, 2, |s|);
      SameClassesRunsTail(s[2..], t[2..]);
    }
  }

  lemma {:induction false} SameClassesRuns(s: string, t: string)
    requires SameClasses(s, t)
    ensures Runs(s) <==> Runs(t)
  {
    if |s| >= 1 {
      SameClassesSlice(s, t, 1, |s|);
      SameClassesRunsTail(s[1..], t[1..]);
    }
  }

  lemma {:induction false} SameClassesTopLabel(s: string, t: string, d: nat)
    requires SameClasses(s, t)
    ensures TopLabelAt(s, d) <==> TopLabelAt(t, d)
  {
    if 0 < d < |s| {
      SameClassesSlice(s, t, 0, d);
      SameClassesRuns(s[..d], t[..d]);
      SameClassesSlice(s, t, d + 1, |s|);
      assert s[d + 1..] == s[d + 1..|s|] && t[d + 1..] == t[d + 1..|t|];
      var u, v := s[d + 1..], t[d + 1..];
      assert AllWord(u) <==> AllWord(v) by {
        assert forall i :: 0 <= i < |u| ==> (IsWordChar(u[i]) <==> IsWordChar(v[i]));
      }
    }
  }

  lemma {:induction false} SameClassesHost(s: string, t: string)
    requires SameClasses(s, t)
    ensures Host(s) <==> Host(t)
  {
    if |s| >= 4 { SameClassesTopLabel(s, t, |s| - 3); }
    if |s| >= 5 { SameClassesTopLabel(s, t, |s| - 4); }
  }

  lemma {:induction false} SameClassesAccepts(s: string, t: string)
    requires SameClasses(s, t)
    ensures Accepts(s) <==> Accepts(t)
  {
    AcceptsAt(s);
    forall i | 0 <= i < |s|
      ensures (s[i] == '@' && Runs(s[..i]) && Host(s[i + 1..]))
          <==> (t[i] == '@' && Runs(t[..i]) && Host(t[i + 1..]))
    {
      SameClassesSlice(s, t, 0, i);
      SameClassesRuns(s[..i], t[..i]);
      SameClassesSlice(s, t, i + 1, |s|);
      assert s[i + 1..] == s[i + 1..|s|] && t[i + 1..] == t[i + 1..|t|];
      SameClassesHost(s[i + 1..], t[i + 1..]);
    }
  }

  // ---------------------------------------------------------------------------
  // The pattern's language, group by group, as a reference for `Accepts`.

  /** `\w+` */
  ghost predicate WordPlus(s: string) {
    |s| > 0 && AllWord(s)
  }

  /** `[\.-]?\w+` */
  ghost predicate SepGroup(g: string) {
    WordPlus(g) || (|g| > 0 && IsSeparator(g[0]) && WordPlus(g[1..]))
  }

  /** The groups a starred or plussed pattern matched, joined back in order. */
  function Concat(gs: seq<string>): string {
    if gs == [] then [] else gs[0] + Concat(gs[1..])
  }

  lemma {:induction false} ConcatAppend(gs: seq<string>, hs: seq<string>)
    ensures Concat(gs + hs) == Concat(gs) + Concat(hs)
    decreases |gs|
  {
    if gs == [] {
      assert gs + hs == hs;
    } else {
      assert (gs + hs)[0] == gs[0];
      assert (gs + hs)[1..] == gs[1..] + hs;
      ConcatAppend(gs[1..], hs);
    }
  }

  lemma ConcatOne(g: string)
    ensures Concat([g]) == g
  {
    assert [g][1..] == [];
  }

  ghost predicate AllSep(gs: seq<string>) {
    forall i :: 0 <= i < |gs| ==> SepGroup(gs[i])
  }

  /** `([\.-]?\w+)*`: zero or more groups. */
  ghost predicate SepGroups(s: string) {
    exists gs :: AllSep(gs) && Concat(gs) == s
  }

  /** `\.\w{2,3}` */
  ghost predicate TopGroup(g: string) {
    (|g| == 3 || |g| == 4) && g[0] == '.' && AllWord(g[1..])
  }

  ghost predicate AllTop(gs: seq<string>) {
    forall i :: 0 <= i < |gs| ==> TopGroup(gs[i])
  }

  /** `(\.\w{2,3})+`: one or more groups. */
  ghost predicate TopGroups(s: string) {
    exists gs :: |gs| > 0 && AllTop(gs) && Concat(gs) == s
  }

  /** `\w+([\.-]?\w+)*`, the part before `@` */
  ghost predicate LocalMatch(s: string) {
    exists j :: 0 < j <= |s| && WordPlus(s[..j]) && SepGroups(s[j..])
  }

  /** `\w+([\.-]?\w+)*(\.\w{2,3})+`, the part after `@` */
  ghost predicate HostMatch(s: string) {
    exists j, k :: 0 < j <= k <= |s| && WordPlus(s[..j]) && SepGroups(s[j..k]) && TopGroups(s[k..])
  }

  /** The whole anchored pattern. */
  ghost predicate RegexMatch(s: string) {
    exists i :: 0 <= i < |s| && s[i] == '@' && LocalMatch(s[..i]) && HostMatch(s[i + 1..])
  }

  lemma {:induction false} WordsThenTail(w: string, t: string)
    requires AllWord(w) && RunsTail(t)
    ensures RunsTail(w + t)
    decreases |w|
  {
    if w != [] {
      assert (w + t)[0] == w[0];
      assert (w + t)[1..] == w[1..] + t;
      assert AllWord(w[1..]) by {
        forall i | 0 <= i < |w[1..]| ensures IsWordChar(w[1..][i]) {
          assert w[1..][i] == w[i + 1];
        }
      }
      WordsThenTail(w[1..], t);
    } else {
      assert w + t == t;
    }
  }

  lemma {:induction false} GroupThenTail(g: string, t: string)
    requires SepGroup(g) && RunsTail(t)
    ensures RunsTail(g + t)
  {
    if WordPlus(g) {
      WordsThenTail(g, t);
    } else {
      var w := g[1..];
      assert g[2..] == w[1..];
      assert AllWord(g[2..]) by {
        forall i | 0 <= i < |w[1..]| ensures IsWordChar(w[1..][i]) {
          assert w[1..][i] == w[i + 1];
        }
      }
      WordsThenTail(g[2..], t);
      assert (g + t)[2..] == g[2..] + t;
      assert (g + t)[0] == g[0];
      assert (g + t)[1] == w[0];
    }
  }

  /** Groups joined together form a run tail. */
  lemma {:induction false} GroupsAreTail(gs: seq<string>)
    requires AllSep(gs)
    ensures RunsTail(Concat(gs))
    decreases |gs|
  {
    if gs != [] {
      assert AllSep(gs[1..]) by {
        forall i | 0 <= i < |gs[1..]| ensures SepGroup(gs[1..][i]) {
          assert gs[1..][i] == gs[i + 1];
        }
      }
      GroupsAreTail(gs[1..]);
      GroupThenTail(gs[0], Concat(gs[1..]));
    }
  }

  /** One group in front of a list of groups. */
  lemma {:induction false} Cons(g: string, gs: seq<string>)
    requires SepGroup(g) && AllSep(gs)
    ensures AllSep([g] + gs) && Concat([g] + gs) == g + Concat(gs)
  {
    var hs := [g] + gs;
    assert hs[0] == g && hs[1..] == gs;
    forall i | 0 <= i < |hs| ensures SepGroup(hs[i]) {
      if i > 0 {
        assert hs[i] == gs[i - 1];
      }
    }
  }

  /** A run tail cuts into groups: one per word character, or a separator
      together with the word character after it. */
  lemma {:induction false} TailGroups(t: string) returns (gs: seq<string>)
    requires RunsTail(t)
    ensures AllSep(gs) && Concat(gs) == t
    decreases |t|
  {
    if t == [] {
      gs := [];
    } else if IsWordChar(t[0]) {
      var rest := TailGroups(t[1..]);
      assert WordPlus(t[..1]);
      Cons(t[..1], rest);
      gs := [t[..1]] + rest;
      assert t[..1] + t[1..] == t;
    } else {
      var rest := TailGroups(t[2..]);
      assert t[..2][1..] == [t[1]];
      assert WordPlus(t[..2][1..]);
      Cons(t[..2], rest);
      gs := [t[..2]] + rest;
      assert t[..2] + t[2..] == t;
    }
  }

  /** A run tail is exactly a sequence of `[\.-]?\w+` groups. */
  lemma {:induction false} TailIsGroups(t: string)
    ensures RunsTail(t) <==> SepGroups(t)
  {
    if RunsTail(t) {
      var gs := TailGroups(t);
    }
    if SepGroups(t) {
      var gs :| AllSep(gs) && Concat(gs) == t;
      GroupsAreTail(gs);
    }
  }

  lemma {:induction false} GroupsAppend(s: string, t: string)
    requires SepGroups(s) && SepGroups(t)
    ensures SepGroups(s + t)
  {
    var gs :| AllSep(gs) && Concat(gs) == s;
    var hs :| AllSep(hs) && Concat(hs) == t;
    ConcatAppend(gs, hs);
    var both := gs + hs;
    forall i | 0 <= i < |both| ensures SepGroup(both[i]) {
      if i < |gs| {
        assert both[i] == gs[i];
      } else {
        assert both[i] == hs[i - |gs|];
      }
    }
  }

  lemma {:induction false} RunsIsLocalMatch(s: string)
    requires Runs(s)
    ensures LocalMatch(s)
  {
    TailIsGroups(s[1..]);
    assert WordPlus(s[..1]);
    assert s[..1][1..] == [];
  }

  lemma {:induction false} MatchIsRuns(s: string, j: nat)
    requires 0 < j <= |s| && WordPlus(s[..j]) && SepGroups(s[j..])
    ensures Runs(s)
  {
    TailIsGroups(s[j..]);
    var w := s[1..j];
    assert AllWord(w) by {
      forall i | 0 <= i < |w| ensures IsWordChar(w[i]) {
        assert w[i] == s[..j][i + 1];
      }
    }
    WordsThenTail(w, s[j..]);
    assert w + s[j..] == s[1..];
    assert s[0] == s[..j][0];
  }

  lemma {:induction false} TopIsSepGroup(g: string)
    requires TopGroup(g)
    ensures SepGroup(g)
  {
    assert WordPlus(g[1..]);
  }

  /** `(\.\w{2,3})+` splits into `([\.-]?\w+)*` followed by one last top group. */
  lemma {:induction false} TopGroupsSplit(s: string) returns (e: nat)
    requires TopGroups(s)
    ensures e < |s| && SepGroups(s[..e]) && TopGroup(s[e..])
  {
    var gs :| |gs| > 0 && AllTop(gs) && Concat(gs) == s;
    var n := |gs| - 1;
    var front, last := gs[..n], gs[n];
    assert gs == front + [last];
    ConcatAppend(front, [last]);
    ConcatOne(last);
    forall i | 0 <= i < |front| ensures SepGroup(front[i]) {
      assert front[i] == gs[i];
      TopIsSepGroup(gs[i]);
    }
    e := |Concat(front)|;
    assert s[..e] == Concat(front) && s[e..] == last;
  }

  /** Slices of a suffix are slices of the whole. */
  lemma {:induction false} SubSlices(s: string, k: nat, e: nat)
    requires k <= e <= |s|
    ensures s[k..][..e - k] == s[k..e] && s[k..][e - k..] == s[e..]
    ensures s[..k] + s[k..e] == s[..e]
  {
  }

  /** A top group at `d` behind a word run is a top label. */
  lemma {:induction false} TopGroupAt(h: string, d: nat)
    requires 0 < d < |h| && TopGroup(h[d..]) && Runs(h[..d])
    ensures TopLabelAt(h, d)
  {
    assert h[d..][1..] == h[d + 1..];
    assert h[d..][0] == h[d];
  }

  lemma {:induction false} MatchIsHost(h: string, j: nat, k: nat)
    requires 0 < j <= k <= |h| && WordPlus(h[..j]) && SepGroups(h[j..k]) && TopGroups(h[k..])
    ensures Host(h)
  {
    var e := TopGroupsSplit(h[k..]);
    var d := k + e;
    SubSlices(h, k, d);
    MatchRuns(h, j, k, d);
    LabelHost(h, d);
  }

  /** The word run and the groups before the last top group form a run. */
  lemma {:induction false} MatchRuns(h: string, j: nat, k: nat, d: nat)
    requires 0 < j <= k <= d <= |h| && WordPlus(h[..j]) && SepGroups(h[j..k]) && SepGroups(h[k..d])
    ensures Runs(h[..d])
  {
    GroupsAppend(h[j..k], h[k..d]);
    PrefixSlices(h, j, k, d);
    MatchIsRuns(h[..d], j);
  }

  /** A run followed by one top group is an accepted host. */
  lemma {:induction false} LabelHost(h: string, d: nat)
    requires 0 < d < |h| && TopGroup(h[d..]) && Runs(h[..d])
    ensures Host(h)
  {
    TopGroupAt(h, d);
    assert d == |h| - 3 || d == |h| - 4;
  }

  lemma {:induction false} PrefixSlices(h: string, j: nat, k: nat, d: nat)
    requires j <= k <= d <= |h|
    ensures h[..d][..j] == h[..j] && h[..d][j..] == h[j..k] + h[k..d]
  {
    assert h[..d][j..] == h[j..d];
  }

  lemma {:induction false} HostIsMatch(h: string, d: nat)
    requires TopLabelAt(h, d)
    ensures HostMatch(h)
  {
    assert h[..d][1..] == h[1..d];
    TailIsGroups(h[1..d]);
    assert h[..1] == h[..d][..1];
    assert WordPlus(h[..1]);
    assert h[d..][1..] == h[d + 1..];
    assert TopGroup(h[d..]);
    ConcatOne(h[d..]);
    assert AllTop([h[d..]]);
  }

  lemma {:induction false} HostMatchIsHost(h: string)
    ensures HostMatch(h) <==> Host(h)
  {
    if HostMatch(h) {
      var j, k :| 0 < j <= k <= |h| && WordPlus(h[..j]) && SepGroups(h[j..k]) && TopGroups(h[k..]);
      MatchIsHost(h, j, k);
    }
    if Host(h) {
      var d := HostCut(h);
      HostIsMatch(h, d);
    }
  }

  lemma {:induction false} LocalMatchIsRuns(s: string)
    ensures LocalMatch(s) <==> Runs(s)
  {
    if LocalMatch(s) {
      var j :| 0 < j <= |s| && WordPlus(s[..j]) && SepGroups(s[j..]);
      MatchIsRuns(s, j);
    }
    if Runs(s) {
      RunsIsLocalMatch(s);
    }
  }

  /** The recogniser decides exactly the language of the pattern. */
  lemma {:induction false} AcceptsIsRegex(s: string)
    ensures Accepts(s) <==> RegexMatch(s)
  {
    AcceptsAt(s);
    forall i | 0 <= i < |s|
      ensures (s[i] == '@' && Runs(s[..i]) && Host(s[i + 1..]))
          <==> (s[i] == '@' && LocalMatch(s[..i]) && HostMatch(s[i + 1..]))
    {
      LocalMatchIsRuns(s[..i]);
      HostMatchIsHost(s[i + 1..]);
    }
  }

  // ---------------------------------------------------------------------------
  // What an accepted address looks like, and what is turned away.

  /** An accepted address is a local part, `@`, and a host; the local part is
      a word run, and the host is a word run `domain` followed by `.` and a top
      label of 2 or 3 word characters. */
  lemma {:induction false} AcceptedShape(email: string) returns (local: string, host: string, domain: string, tld: string)
    requires ValidateEmail(email)
    ensures email == local + "@" + host && host == domain + "." + tld
    ensures Joined(local) && Joined(host) && Joined(domain)
    ensures 2 <= |tld| <= 3 && AllWord(tld)
  {
    var at := SplitAt(email);
    local, host := SplitOn(email, at);
    var d := HostCut(host);
    domain, tld := SplitOn(host, d);
    RunsIsJoined(local);
    RunsIsJoined(domain);
    HostJoined(host, d);
  }

  /** Conversely, every address of that shape is accepted. */
  lemma {:induction false} ShapeAccepted(local: string, domain: string, tld: string)
    requires Joined(local) && Joined(domain)
    requires 2 <= |tld| <= 3 && AllWord(tld)
    ensures ValidateEmail(local + "@" + (domain + "." + tld))
  {
    RunsIsJoined(local);
    RunsIsJoined(domain);
    var host := Join(domain, '.', tld);
    assert TopLabelAt(host, |domain|);
    assert Host(host);
    AcceptsJoined(local, host);
  }

  /** A word run, `@` and an accepted host make an accepted address. */
  lemma {:induction false} AcceptsJoined(local: string, host: string)
    requires Runs(local) && Host(host)
    ensures Accepts(local + "@" + host)
  {
    var email := Join(local, '@', host);
    var i := |local|;
    assert email[i] == '@' && Runs(email[..i]) && Host(email[i + 1..]);
    AcceptsAt(email);
  }

  lemma {:induction false} SplitOn(s: string, k: nat) returns (before: string, after: string)
    requires k < |s|
    ensures before == s[..k] && after == s[k + 1..]
    ensures s == before + [s[k]] + after
  {
    before, after := s[..k], s[k + 1..];
    assert s == before + [s[k]] + after;
  }

  lemma {:induction false} Join(before: string, c: char, after: string) returns (s: string)
    ensures s == before + [c] + after
    ensures |s| == |before| + 1 + |after|
    ensures s[..|before|] == before && s[|before|] == c && s[|before| + 1..] == after
  {
    s := before + [c] + after;
    assert s[..|before|] == before;
    assert s[|before| + 1..] == after;
  }

  /** An accepted address holds exactly one `@`. */
  lemma {:induction false} OneAt(email: string) returns (at: nat)
    requires ValidateEmail(email)
    ensures at < |email| && email[at] == '@'
    ensures forall j :: 0 <= j < |email| && email[j] == '@' ==> j == at
  {
    at := SplitAt(email);
    var h := email[at + 1..];
    var d := HostCut(h);
    OnlyAt(email, at, h, d);
  }

  lemma {:induction false} SplitAt(email: string) returns (at: nat)
    requires ValidateEmail(email)
    ensures at < |email| && email[at] == '@' && Runs(email[..at]) && Host(email[at + 1..])
  {
    at := FirstAt(email);
  }

  /** Where the top label of an accepted host starts. */
  lemma {:induction false} HostCut(h: string) returns (d: nat)
    requires Host(h)
    ensures 0 < d < |h| && TopLabelAt(h, d)
  {
    if |h| >= 4 && TopLabelAt(h, |h| - 3) {
      d := |h| - 3;
    } else {
      d := |h| - 4;
    }
  }

  lemma {:induction false} OnlyAt(email: string, at: nat, h: string, d: nat)
    requires at < |email| && Runs(email[..at]) && h == email[at + 1..] && TopLabelAt(h, d)
    ensures forall j :: 0 <= j < |email| && email[j] == '@' ==> j == at
  {
    HostJoined(h, d);
    forall j | 0 <= j < |email| && email[j] == '@' ensures j == at {
      if j < at {
        AtNotInRun(email[..at], j);
      }
    }
  }

  lemma {:induction false} RejectsWithoutAt(email: string)
    requires '@' !in email
    ensures !ValidateEmail(email)
  {
    if ValidateEmail(email) {
      var at := OneAt(email);
    }
  }

  lemma {:induction false} RejectsEmptyLocalPart(email: string)
    requires |email| > 0 && email[0] == '@'
    ensures !ValidateEmail(email)
  {
    if ValidateEmail(email) {
      var local, host, domain, tld := AcceptedShape(email);
    }
  }

  /** An accepted address ends in `.` and its top label. */
  lemma {:induction false} EndsInTopLabel(email: string) returns (tld: string)
    requires ValidateEmail(email)
    ensures |email| > |tld| + 1 && email[|email| - |tld| - 1] == '.' && email[|email| - |tld|..] == tld
    ensures 2 <= |tld| <= 3 && AllWord(tld)
  {
    var at := SplitAt(email);
    var host := email[at + 1..];
    var d := HostCut(host);
    tld := TopLabelSuffix(email, at, d);
  }

  lemma {:induction false} TopLabelSuffix(email: string, at: nat, d: nat) returns (tld: string)
    requires at < |email| && TopLabelAt(email[at + 1..], d)
    ensures |email| > |tld| + 1 && email[|email| - |tld| - 1] == '.' && email[|email| - |tld|..] == tld
    ensures 2 <= |tld| <= 3 && AllWord(tld)
  {
    var host := email[at + 1..];
    tld := host[d + 1..];
    assert host[d + 1..] == email[at + d + 2..];
    assert host[d] == email[at + d + 1];
  }

  /** An address whose text after its last `.` is not 2 or 3 word characters
      is turned away. */
  lemma {:induction false} RejectsBadTopLabel(email: string, last: string)
    requires |email| > |last| && email[|email| - |last| - 1] == '.' && email[|email| - |last|..] == last
    requires '.' !in last
    requires !(2 <= |last| <= 3 && AllWord(last))
    ensures !ValidateEmail(email)
  {
    if ValidateEmail(email) {
      var tld := EndsInTopLabel(email);
    }
  }

  // Examples: each is its own lemma, so the solver sees one literal at a time.

  lemma ExampleShortAddress()
    ensures ValidateEmail("a@b.co")
  {
    assert TopLabelAt("b.co", 1);
    assert Runs("a");
  }

  lemma ExampleDottedAddress()
    ensures ValidateEmail("a.b-c@d.e.org")
  {
    var local, host := "a.b-c", "d.e.org";
    assert Runs(local);
    assert TopLabelAt(host, 3);
    AcceptsJoined(local, host);
    assert local + "@" + host == "a.b-c@d.e.org";
  }

  lemma ExampleNoAt()
    ensures !ValidateEmail("not-an-email")
  {
    var email := "not-an-email";
    assert forall i :: 0 <= i < |email| ==> email[i] != '@';
    RejectsWithoutAt(email);
  }

  lemma ExampleEmptyLocalPart()
    ensures !ValidateEmail("@missing-local.com")
  {
    RejectsEmptyLocalPart("@missing-local.com");
  }

  lemma ExampleShortTopLabel()
    ensures !ValidateEmail("a@b.c")
  {
    RejectsBadTopLabel("a@b.c", "c");
  }

  lemma ExampleLongTopLabel()
    ensures !ValidateEmail("a@b.info")
  {
    RejectsBadTopLabel("a@b.info", "info");
  }
}
