/** Filtering a colon-separated search path (src/rpath.rs). */
module FilterDirs {
  import opened Bytes
  import Rpath

  const COLON: byte := 58
  const SLASH: byte := 47

  // ---- Splitting and joining ----

  /** The position of the first colon, or the length. */
  function FirstColon(s: seq<byte>): (n: nat)
    ensures n <= |s| && (forall i :: 0 <= i < n ==> s[i] != COLON) && (n < |s| ==> s[n] == COLON)
  {
    if s == [] || s[0] == COLON then 0 else FirstColon(s[1..]) + 1
  }

  lemma FirstColonIs(s: seq<byte>, n: nat)
    requires n <= |s| && (forall i :: 0 <= i < n ==> s[i] != COLON) && (n < |s| ==> s[n] == COLON)
    ensures FirstColon(s) == n
  {
  }

  /** The components between colons, empty ones dropped. */
  function Parts(s: seq<byte>): seq<seq<byte>>
    decreases |s|
  {
    var n := FirstColon(s);
    var rest := if n < |s| then Parts(s[n + 1..]) else [];
    if n == 0 then rest else [s[..n]] + rest
  }

  function Join(parts: seq<seq<byte>>): seq<byte>
  {
    if parts == [] then [] else if |parts| == 1 then parts[0] else parts[0] + [COLON] + Join(parts[1..])
  }

  ghost predicate Component(p: seq<byte>)
  {
    p != [] && COLON !in p
  }

  ghost predicate Components(parts: seq<seq<byte>>)
  {
    forall k :: 0 <= k < |parts| ==> Component(parts[k])
  }

  lemma {:induction false} PartsAreComponents(s: seq<byte>)
    ensures Components(Parts(s))
    decreases |s|
  {
    var n := FirstColon(s);
    if n < |s| {
      PartsAreComponents(s[n + 1..]);
    }
  }

  /** The first component of a join, and what follows its colon. */
  lemma JoinHead(parts: seq<seq<byte>>)
    requires parts != [] && Component(parts[0])
    ensures var s, n := Join(parts), |parts[0]|;
            && 0 < n <= |s| && s[..n] == parts[0] && forall i :: 0 <= i < n ==> s[i] != COLON
    ensures var s, n := Join(parts), |parts[0]|;
            if |parts| == 1 then n == |s| && parts == [parts[0]]
            else n < |s| && s[n] == COLON && s[n + 1..] == Join(parts[1..]) && parts == [parts[0]] + parts[1..]
  {
    var s, p := Join(parts), parts[0];
    if |parts| == 1 {
      assert s == p;
    } else {
      assert s == p + [COLON] + Join(parts[1..]);
    }
    assert forall i :: 0 <= i < |p| ==> s[i] == p[i];
  }

  /** Splitting what was joined gives the components back. */
  lemma {:induction false} PartsOfJoin(parts: seq<seq<byte>>)
    requires Components(parts)
    ensures Parts(Join(parts)) == parts
    decreases |parts|
  {
    if parts != [] {
      assert Component(parts[0]);
      JoinHead(parts);
      FirstColonIs(Join(parts), |parts[0]|);
      if |parts| > 1 {
        PartsOfJoin(parts[1..]);
      }
    }
  }

  lemma {:induction false} PartsOfBoth(a: seq<byte>, b: seq<byte>)
    ensures Parts(a + [COLON] + b) == Parts(a) + Parts(b)
    decreases |a|
  {
    var s, n := a + [COLON] + b, FirstColon(a);
    FirstColonIs(s, n);
    assert s[..n] == a[..n];
    if n < |a| {
      assert s[n + 1..] == a[n + 1..] + [COLON] + b;
      PartsOfBoth(a[n + 1..], b);
    } else {
      assert s[n + 1..] == b;
    }
  }

  /** A directory added to a run path is its last component, behind all it had. */
  lemma PartsOfAdded(cur: seq<byte>, path: seq<byte>)
    ensures Parts(Rpath.Joined(cur, path)) == Parts(cur) + Parts(path)
    ensures Component(path) ==> Parts(Rpath.Joined(cur, path)) == Parts(cur) + [path]
  {
    if cur != [] {
      assert Rpath.COLON == [COLON];
      PartsOfBoth(cur, path);
    }
    if Component(path) {
      FirstColonIs(path, |path|);
      assert path[..|path|] == path && [path] + [] == [path];
    }
  }

  // ---- Filtering ----

  predicate StartsWith(s: seq<byte>, prefix: seq<byte>)
  {
    |prefix| <= |s| && s[..|prefix|] == prefix
  }

  predicate Absolute(dir: seq<byte>)
  {
    StartsWith(dir, [SLASH])
  }

  predicate Allowed(dir: seq<byte>, allowed: seq<seq<byte>>)
  {
    allowed == [] || exists p :: p in allowed && StartsWith(dir, p)
  }

  /** The probe's answer may depend on the directories it was asked about before. */
  type Probe = (seq<seq<byte>>, seq<byte>) -> bool

  /** The directories kept, and those the probe was asked about. */
  datatype Walk = Walk(kept: seq<seq<byte>>, asked: seq<seq<byte>>)

  function Visit(w: Walk, dir: seq<byte>, allowed: seq<seq<byte>>, keep: Probe): Walk
  {
    if !Absolute(dir) then Walk(w.kept + [dir], w.asked)
    else if !Allowed(dir, allowed) then w
    else Walk(if keep(w.asked, dir) then w.kept + [dir] else w.kept, w.asked + [dir])
  }

  function WalkAll(parts: seq<seq<byte>>, allowed: seq<seq<byte>>, keep: Probe): Walk
  {
    if parts == [] then Walk([], [])
    else Visit(WalkAll(parts[..|parts| - 1], allowed, keep), parts[|parts| - 1], allowed, keep)
  }

  method Filter(cur: seq<byte>, allowed: seq<seq<byte>>, keep: Probe) returns (r: seq<byte>)
    ensures r == Join(WalkAll(Parts(cur), allowed, keep).kept)
  {
    var parts := Parts(cur);
    var out: seq<seq<byte>>, asked: seq<seq<byte>> := [], [];
    for k := 0 to |parts|
      invariant Walk(out, asked) == WalkAll(parts[..k], allowed, keep)
    {
      var dir := parts[k];
      assert parts[..k + 1][..k] == parts[..k];
      if !Absolute(dir) {
        out := out + [dir];
      } else if Allowed(dir, allowed) {
        if keep(asked, dir) {
          out := out + [dir];
        }
        asked := asked + [dir];
      }
    }
    assert parts[..|parts|] == parts;
    r := Join(out);
  }

  /** The components the probe is asked about: absolute and allowed. */
  function Asked(parts: seq<seq<byte>>, allowed: seq<seq<byte>>): seq<seq<byte>>
  {
    if parts == [] then []
    else
      var n := |parts| - 1;
      Asked(parts[..n], allowed) + if Absolute(parts[n]) && Allowed(parts[n], allowed) then [parts[n]] else []
  }

  /** Component `k` is relative, or it is allowed and the probe, having been asked
      about the ones before it, accepts it. */
  predicate KeptAt(parts: seq<seq<byte>>, k: nat, allowed: seq<seq<byte>>, keep: Probe)
    requires k < |parts|
  {
    var dir := parts[k];
    || dir == [] || dir[0] != SLASH
    || ((allowed == [] || exists p :: p in allowed && |p| <= |dir| && dir[..|p|] == p)
        && keep(Asked(parts[..k], allowed), dir))
  }

  /** `kept` is `parts` at the ascending positions `at`. */
  ghost predicate Picks(parts: seq<seq<byte>>, kept: seq<seq<byte>>, at: seq<nat>)
  {
    && |at| == |kept| && (forall i, j :: 0 <= i < j < |at| ==> at[i] < at[j])
    && forall j :: 0 <= j < |at| ==> at[j] < |parts| && kept[j] == parts[at[j]]
  }

  /** Exactly the components that `KeptAt` names are kept, each once and in order. */
  lemma {:induction false} WalkKeeps(parts: seq<seq<byte>>, allowed: seq<seq<byte>>, keep: Probe) returns (at: seq<nat>)
    ensures var w := WalkAll(parts, allowed, keep);
            w.asked == Asked(parts, allowed) && Picks(parts, w.kept, at)
    ensures forall k :: 0 <= k < |parts| ==> (k in at <==> KeptAt(parts, k, allowed, keep))
  {
    at := [];
    if parts != [] {
      var n := |parts| - 1;
      at := WalkKeeps(parts[..n], allowed, keep);
      forall k | 0 <= k < n
        ensures KeptAt(parts, k, allowed, keep) == KeptAt(parts[..n], k, allowed, keep)
      {
        assert parts[..n][..k] == parts[..k];
      }
      if KeptAt(parts, n, allowed, keep) {
        at := at + [n];
      }
    }
  }

  /** The filtered path splits into exactly the kept directories. */
  lemma FilterSplits(cur: seq<byte>, allowed: seq<seq<byte>>, keep: Probe) returns (at: seq<nat>)
    ensures var parts, kept := Parts(cur), WalkAll(Parts(cur), allowed, keep).kept;
            && Parts(Join(kept)) == kept && Picks(parts, kept, at)
            && forall k :: 0 <= k < |parts| ==> (k in at <==> KeptAt(parts, k, allowed, keep))
  {
    PartsAreComponents(cur);
    at := WalkKeeps(Parts(cur), allowed, keep);
    var kept := WalkAll(Parts(cur), allowed, keep).kept;
    forall j | 0 <= j < |kept| ensures Component(kept[j]) {
      assert kept[j] == Parts(cur)[at[j]];
    }
    PartsOfJoin(kept);
  }

  /** Accepting everything only drops empty components. */
  lemma {:induction false} KeepAll(parts: seq<seq<byte>>, keep: Probe)
    requires forall asked, d :: keep(asked, d)
    ensures WalkAll(parts, [], keep).kept == parts
  {
    if parts != [] {
      KeepAll(parts[..|parts| - 1], keep);
    }
  }
}
