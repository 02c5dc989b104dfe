/** The `--ignore-missing` glob matcher (src/autoformatelf.rs): a backtracking
    loop against the recursive meaning of `*` and `?`. */
module Glob {

  /** `*` matches any run of characters, `?` any one, everything else itself. */
  predicate Matches(p: string, t: string)
    decreases |p| + |t|
  {
    if p == "" then t == ""
    else if p[0] == '*' then Matches(p[1..], t) || (t != "" && Matches(p, t[1..]))
    else t != "" && (p[0] == '?' || p[0] == t[0]) && Matches(p[1..], t[1..])
  }

  predicate StarFree(s: string)
  {
    forall i :: 0 <= i < |s| ==> s[i] != '*'
  }

  // ---- The loop as a function of its state ----

  /** Pattern and text positions; the last star seen (or -1) and the text position it last absorbed up to. */
  datatype State = State(pi: nat, ti: nat, star: int, mark: nat)

  predicate Valid(p: string, t: string, s: State)
  {
    s.pi <= |p| && s.ti <= |t| && -1 <= s.star < s.pi && s.mark <= s.ti
  }

  predicate AllStars(p: string)
  {
    forall i :: 0 <= i < |p| ==> p[i] == '*'
  }

  /** What the loop returns from a state: the literal branch is tried before the star branch. */
  predicate Run(p: string, t: string, s: State)
    requires Valid(p, t, s)
    decreases |p| - s.star, |t| - s.mark, |t| - s.ti
  {
    if s.ti == |t| then AllStars(p[s.pi..])
    else if s.pi < |p| && (p[s.pi] == '?' || p[s.pi] == t[s.ti]) then Run(p, t, s.(pi := s.pi + 1, ti := s.ti + 1))
    else if s.pi < |p| && p[s.pi] == '*' then Run(p, t, State(s.pi + 1, s.ti, s.pi, s.ti))
    else if s.star >= 0 then Run(p, t, State(s.star + 1, s.mark + 1, s.star, s.mark + 1))
    else false
  }

  const START := State(0, 0, -1, 0)

  // ---- Soundness: no star on one side ----

  lemma {:induction false} StarAbsorbs(p: string, t: string, b: nat, j: nat, k: nat)
    requires b < |p| && p[b] == '*' && j <= k <= |t|
    requires Matches(p[b..], t[k..])
    ensures Matches(p[b..], t[j..])
    decreases k - j
  {
    if j < k {
      StarAbsorbs(p, t, b, j + 1, k);
      assert t[j..][1..] == t[j + 1..];
    }
  }

  /** A star-free stretch of pattern consumes exactly its length. */
  lemma {:induction false} StretchConsumes(p: string, t: string, a: nat, b: nat, m: nat)
    requires a <= b <= |p| && m <= |t| && Matches(p[a..], t[m..])
    requires forall i :: a <= i < b ==> p[i] != '*'
    ensures m + (b - a) <= |t| && Matches(p[b..], t[m + (b - a)..])
    decreases b - a
  {
    if a < b {
      assert p[a..][1..] == p[a + 1..] && t[m..][1..] == t[m + 1..];
      StretchConsumes(p, t, a + 1, b, m + 1);
    }
  }

  /** A star matches by absorbing some prefix. */
  lemma {:induction false} StarMatches(p: string, t: string, b: nat, j: nat)
    requires b < |p| && p[b] == '*' && j <= |t|
    ensures Matches(p[b..], t[j..]) <==> exists m :: j <= m <= |t| && Matches(p[b + 1..], t[m..])
    decreases |t| - j
  {
    assert p[b..][1..] == p[b + 1..];
    if j < |t| {
      assert t[j..][1..] == t[j + 1..];
      StarMatches(p, t, b, j + 1);
    }
  }

  /** Restarting the last star later could still match. */
  ghost predicate Later(p: string, t: string, star: int, mark: nat)
    requires -1 <= star < |p|
  {
    star >= 0 && exists m :: mark < m <= |t| && Matches(p[star + 1..], t[m..])
  }

  ghost predicate Pending(p: string, t: string, s: State)
    requires Valid(p, t, s)
  {
    Matches(p[s.pi..], t[s.ti..]) || (s.star >= 0 && Later(p, t, s.star, s.mark))
  }

  /** Since the last star, pattern and text have advanced together, literally. */
  ghost predicate InStep(p: string, s: State)
    requires s.pi <= |p| && -1 <= s.star < s.pi
  {
    s.star >= 0 ==> s.ti - s.mark == s.pi - (s.star + 1) && forall i :: s.star + 1 <= i < s.pi ==> p[i] != '*'
  }

  lemma StarSupersedes(p: string, t: string, s: State)
    requires Valid(p, t, s) && InStep(p, s) && s.pi < |p| && p[s.pi] == '*'
    ensures s.star >= 0 && Later(p, t, s.star, s.mark) ==> Matches(p[s.pi..], t[s.ti..])
  {
    if s.star >= 0 && Later(p, t, s.star, s.mark) {
      var m :| s.mark < m <= |t| && Matches(p[s.star + 1..], t[m..]);
      StretchConsumes(p, t, s.star + 1, s.pi, m);
      StarAbsorbs(p, t, s.pi, s.ti, m + (s.pi - (s.star + 1)));
    }
  }

  lemma NoRoomLater(p: string, t: string, s: State)
    requires Valid(p, t, s) && InStep(p, s) && s.ti == |t|
    ensures !(s.star >= 0 && Later(p, t, s.star, s.mark))
  {
    if s.star >= 0 {
      forall m | s.mark < m <= |t|
        ensures !Matches(p[s.star + 1..], t[m..])
      {
        if Matches(p[s.star + 1..], t[m..]) {
          StretchConsumes(p, t, s.star + 1, s.pi, m);
        }
      }
    }
  }

  lemma {:induction false} StarsMatchEmpty(p: string)
    ensures Matches(p, "") <==> AllStars(p)
  {
    if p != "" {
      StarsMatchEmpty(p[1..]);
      assert AllStars(p) <==> p[0] == '*' && AllStars(p[1..]) by {
        assert forall i :: 0 < i < |p| ==> p[i] == p[1..][i - 1];
      }
    }
  }

  lemma BacktrackLater(p: string, t: string, s: State)
    requires Valid(p, t, s) && s.star >= 0 && s.ti < |t|
    ensures Later(p, t, s.star, s.mark)
            <==> Matches(p[s.star + 1..], t[s.mark + 1..]) || Later(p, t, s.star, s.mark + 1)
  {
  }

  lemma PendingLiteral(p: string, t: string, s: State)
    requires Valid(p, t, s) && s.ti < |t| && s.pi < |p| && p[s.pi] != '*' && (p[s.pi] == '?' || p[s.pi] == t[s.ti])
    ensures Pending(p, t, s) <==> Pending(p, t, s.(pi := s.pi + 1, ti := s.ti + 1))
  {
    assert p[s.pi..][1..] == p[s.pi + 1..] && t[s.ti..][1..] == t[s.ti + 1..];
  }

  lemma PendingStar(p: string, t: string, s: State)
    requires Valid(p, t, s) && InStep(p, s) && s.ti < |t| && s.pi < |p| && p[s.pi] == '*'
    ensures Pending(p, t, s) <==> Pending(p, t, State(s.pi + 1, s.ti, s.pi, s.ti))
  {
    StarSupersedes(p, t, s);
    StarMatches(p, t, s.pi, s.ti);
  }

  lemma PendingBacktrack(p: string, t: string, s: State)
    requires Valid(p, t, s) && s.star >= 0 && s.ti < |t|
    requires s.pi < |p| ==> p[s.pi] != '*' && p[s.pi] != '?' && p[s.pi] != t[s.ti]
    ensures Pending(p, t, s) <==> Pending(p, t, State(s.star + 1, s.mark + 1, s.star, s.mark + 1))
  {
    BacktrackLater(p, t, s);
    assert !Matches(p[s.pi..], t[s.ti..]);
  }

  /** With a star on at most one side, the loop decides what is pending. */
  lemma {:induction false} RunDecides(p: string, t: string, s: State)
    requires Valid(p, t, s) && InStep(p, s)
    requires StarFree(p) || StarFree(t)
    ensures Run(p, t, s) <==> Pending(p, t, s)
    decreases |p| - s.star, |t| - s.mark, |t| - s.ti
  {
    if s.ti == |t| {
      NoRoomLater(p, t, s);
      StarsMatchEmpty(p[s.pi..]);
    } else if s.pi < |p| && (p[s.pi] == '?' || p[s.pi] == t[s.ti]) {
      PendingLiteral(p, t, s);
      RunDecides(p, t, s.(pi := s.pi + 1, ti := s.ti + 1));
    } else if s.pi < |p| && p[s.pi] == '*' {
      PendingStar(p, t, s);
      RunDecides(p, t, State(s.pi + 1, s.ti, s.pi, s.ti));
    } else if s.star >= 0 {
      PendingBacktrack(p, t, s);
      RunDecides(p, t, State(s.star + 1, s.mark + 1, s.star, s.mark + 1));
    }
  }

  /** The matcher is right whenever pattern or text has no star. */
  lemma GlobDecidesMatching(p: string, t: string)
    requires StarFree(p) || StarFree(t)
    ensures Run(p, t, START) <==> Matches(p, t)
  {
    RunDecides(p, t, START);
    assert p[0..] == p && t[0..] == t;
  }

  // ---- Exactness: where it goes wrong ----

  lemma {:induction false} PrefixMatches(a: string, b: string, c: string)
    requires Matches(b, c)
    ensures Matches(a + b, a + c)
  {
    if a == "" {
      assert a + b == b && a + c == c;
    } else {
      PrefixMatches(a[1..], b, c);
      assert (a + b)[1..] == a[1..] + b && (a + c)[1..] == a[1..] + c;
      if a[0] == '*' {
        assert Matches(a + b, (a + c)[1..]);
      }
    }
  }

  lemma SelfMatches(s: string)
    ensures Matches(s, s)
  {
    PrefixMatches(s, "", "");
    assert s + "" == s;
  }

  /** Equal characters are consumed literally, stars included. */
  lemma {:induction false} RunLiterally(p: string, t: string, k: nat, n: nat)
    requires k <= n <= |p| && n <= |t| && forall i :: k <= i < n ==> p[i] == t[i]
    ensures Run(p, t, State(k, k, -1, 0)) == Run(p, t, State(n, n, -1, 0))
    decreases n - k
  {
    if k < n {
      RunLiterally(p, t, k + 1, n);
    }
  }

  /** Without a star to fall back on, lengths must agree. */
  lemma {:induction false} RunWithoutStar(p: string, t: string, s: State)
    requires Valid(p, t, s) && s.star == -1
    requires forall i :: s.pi <= i < |p| ==> p[i] != '*'
    requires |t| - s.ti != |p| - s.pi
    ensures !Run(p, t, s)
    decreases |t| - s.ti
  {
    if s.ti == |t| {
      assert p[s.pi..][0] == p[s.pi];
    } else if s.pi < |p| && (p[s.pi] == '?' || p[s.pi] == t[s.ti]) {
      RunWithoutStar(p, t, s.(pi := s.pi + 1, ti := s.ti + 1));
    }
  }

  lemma LastStar(p: string) returns (i: nat)
    requires !StarFree(p)
    ensures i < |p| && p[i] == '*' && forall k :: i < k < |p| ==> p[k] != '*'
  {
    i := |p| - 1;
    while p[i] != '*'
      invariant 0 <= i < |p| && forall k :: i < k < |p| ==> p[k] != '*'
      decreases i
    {
      i := i - 1;
    }
  }

  /** A pattern with a star misses a text: one that repeats the pattern, with a
      character inserted after the last star. */
  lemma StarPatternFails(p: string)
    requires !StarFree(p)
    ensures exists t :: Matches(p, t) && !Run(p, t, START)
  {
    var i := LastStar(p);
    var rest := p[i + 1..];
    var t := p[..i + 1] + ("x" + rest);
    assert Matches(p[i..], "*x" + rest) by {
      SelfMatches(rest);
      assert p[i..][1..] == rest && ("*x" + rest)[1..] == "x" + rest && ("x" + rest)[1..] == rest;
      assert Matches(p[i..], rest);
      assert Matches(p[i..], "x" + rest);
    }
    PrefixMatches(p[..i], p[i..], "*x" + rest);
    assert p == p[..i] + p[i..] && t == p[..i] + ("*x" + rest);
    RunLiterally(p, t, 0, i + 1);
    RunWithoutStar(p, t, State(i + 1, i + 1, -1, 0));
  }

  /** A text with a star is missed by a pattern: its prefix up to the star, a
      star, and one `?` for every remaining character. */
  lemma StarTextFails(t: string)
    requires !StarFree(t)
    ensures exists p :: Matches(p, t) && !Run(p, t, START)
  {
    var j :| 0 <= j < |t| && t[j] == '*';
    var marks := seq(|t| - j, k => '?');
    var p := t[..j] + ("*" + marks);
    QuestionsMatch(marks, t[j..]);
    assert ("*" + marks)[1..] == marks;
    assert Matches("*" + marks, t[j..]);
    PrefixMatches(t[..j], "*" + marks, t[j..]);
    assert t == t[..j] + t[j..];
    RunLiterally(p, t, 0, j + 1);
    RunWithoutStar(p, t, State(j + 1, j + 1, -1, 0));
  }

  lemma {:induction false} QuestionsMatch(q: string, t: string)
    requires |q| == |t| && forall i :: 0 <= i < |q| ==> q[i] == '?'
    ensures Matches(q, t)
  {
    if q != "" {
      QuestionsMatch(q[1..], t[1..]);
    }
  }

  ghost predicate Right(p: string, t: string)
  {
    Run(p, t, START) == Matches(p, t)
  }

  /** The matcher is right on every text exactly for the patterns without a star. */
  lemma PatternExactness(p: string)
    ensures (forall t: string :: Right(p, t)) <==> StarFree(p)
  {
    if StarFree(p) {
      forall t: string ensures Right(p, t) {
        GlobDecidesMatching(p, t);
      }
    } else {
      StarPatternFails(p);
      var t :| Matches(p, t) && !Run(p, t, START);
      assert !Right(p, t);
    }
  }

  /** The matcher is right for every pattern exactly on the texts without a star. */
  lemma TextExactness(t: string)
    ensures (forall p: string :: Right(p, t)) <==> StarFree(t)
  {
    if StarFree(t) {
      forall p: string ensures Right(p, t) {
        GlobDecidesMatching(p, t);
      }
    } else {
      StarTextFails(t);
      var p :| Matches(p, t) && !Run(p, t, START);
      assert !Right(p, t);
    }
  }

  // ---- It never matches too much ----

  /** Consuming one character literally is a match of the pattern's head. */
  lemma LiteralStep(p: string, t: string, pi: nat, ti: nat)
    requires pi < |p| && ti < |t| && (p[pi] == '?' || p[pi] == t[ti]) && Matches(p[pi + 1..], t[ti + 1..])
    ensures Matches(p[pi..], t[ti..])
  {
    assert p[pi..][1..] == p[pi + 1..] && t[ti..][1..] == t[ti + 1..];
    if p[pi] == '*' {
      assert Matches(p[pi..], t[ti + 1..]);
    }
  }

  lemma {:induction false} RunIsSound(p: string, t: string, s: State)
    requires Valid(p, t, s) && Run(p, t, s)
    ensures Pending(p, t, s)
    decreases |p| - s.star, |t| - s.mark, |t| - s.ti
  {
    if s.ti == |t| {
      StarsMatchEmpty(p[s.pi..]);
    } else if s.pi < |p| && (p[s.pi] == '?' || p[s.pi] == t[s.ti]) {
      RunIsSound(p, t, s.(pi := s.pi + 1, ti := s.ti + 1));
      if Matches(p[s.pi + 1..], t[s.ti + 1..]) {
        LiteralStep(p, t, s.pi, s.ti);
      }
    } else if s.pi < |p| && p[s.pi] == '*' {
      StarMatches(p, t, s.pi, s.ti);
      RunIsSound(p, t, State(s.pi + 1, s.ti, s.pi, s.ti));
    } else if s.star >= 0 {
      BacktrackLater(p, t, s);
      RunIsSound(p, t, State(s.star + 1, s.mark + 1, s.star, s.mark + 1));
    }
  }

  /** Whatever the pattern and the text, a reported match is a match: stars on
      both sides can only make the loop miss one. */
  lemma NeverOvermatches(p: string, t: string)
    requires Run(p, t, START)
    ensures Matches(p, t)
  {
    RunIsSound(p, t, START);
    assert p[0..] == p && t[0..] == t;
  }

  /** The pattern `*` matches the text `*a`, and the loop says it does not. */
  lemma StarAgainstStar()
    ensures Matches("*", "*a") && !Run("*", "*a", START)
  {
    var p, t := "*", "*a";
    StarsMatchEmpty(p);
    assert t[1..] == "a" && t[1..][1..] == "";
    assert Matches(p, t[1..][1..]);
    assert Matches(p, t[1..]);
    assert !Run(p, t, State(1, 1, -1, 0));
  }

  // ---- The loop ----

  method GlobMatch(pattern: string, text: string) returns (r: bool)
    ensures r == Run(pattern, text, START)
    ensures StarFree(pattern) || StarFree(text) ==> r == Matches(pattern, text)
    ensures r ==> Matches(pattern, text)
  {
    if Run(pattern, text, START) {
      NeverOvermatches(pattern, text);
    }
    if StarFree(pattern) || StarFree(text) {
      GlobDecidesMatching(pattern, text);
    }
    var pi, ti, star, mark := 0, 0, -1, 0;
    while ti < |text|
      invariant Valid(pattern, text, State(pi, ti, star, mark))
      invariant Run(pattern, text, State(pi, ti, star, mark)) == Run(pattern, text, START)
      decreases |pattern| - star, |text| - mark, |text| - ti
    {
      if pi < |pattern| && (pattern[pi] == '?' || pattern[pi] == text[ti]) {
        pi := pi + 1;
        ti := ti + 1;
      } else if pi < |pattern| && pattern[pi] == '*' {
        star := pi;
        mark := ti;
        pi := pi + 1;
      } else if star != -1 {
        pi := star + 1;
        mark := mark + 1;
        ti := mark;
      } else {
        return false;
      }
    }
    ghost var rest := pattern[pi..];
    ghost var from := pi;
    while pi < |pattern| && pattern[pi] == '*'
      invariant from <= pi <= |pattern|
      invariant forall i :: from <= i < pi ==> pattern[i] == '*'
    {
      pi := pi + 1;
    }
    assert AllStars(rest) <==> pi == |pattern| by {
      if pi < |pattern| {
        assert rest[pi - from] == pattern[pi];
      }
    }
    return pi == |pattern|;
  }
}
