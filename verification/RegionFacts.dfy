/** What a planned region guarantees: its sections are exactly the ones chosen,
    aligned, disjoint, data before code, all past the header space. */
module RegionFacts {
  import opened Ir
  import opened Align
  import opened Serialize
  import opened Layout

  function RelEnd(img: Image, r: Region, k: nat): nat
    requires Placeable(img, r) && k < |r.sections|
  {
    r.offsets[k] + SectionLen(img, r.sections[k])
  }

  ghost predicate RegionOk(img: Image, r: Region, flags: seq<bool>, head: nat, page: nat)
    requires |flags| == |img.shdrs|
  {
    && Placeable(img, r)
    && Distinct(r.sections)
    && (forall i :: i in r.sections <==> 0 <= i < |flags| && flags[i])
    && head <= r.dataLen <= r.len
    && (r.loads == 1 || r.loads == 2)
    && (r.loads == 1 ==> r.dataLen == r.len)
    && (page > 0 && r.loads == 2 ==> r.dataLen % page == 0)
    && (forall k :: 0 <= k < |r.sections| ==> SectionPlaced(img, r, k, head))
    && (forall k, l :: 0 <= k < l < |r.sections| ==> RelEnd(img, r, k) <= r.offsets[l])
  }

  ghost predicate SectionPlaced(img: Image, r: Region, k: nat, head: nat)
    requires Placeable(img, r) && k < |r.sections|
  {
    && r.offsets[k] % SecAlign(img, r.sections[k]) == 0
    && if Executable(img.shdrs[r.sections[k]]) then r.loads == 2 && r.dataLen <= r.offsets[k]
      && RelEnd(img, r, k) <= r.len
       else head <= r.offsets[k] && RelEnd(img, r, k) <= r.dataLen
  }

  lemma OffsetFacts(img: Image, secs: seq<nat>, start: nat, k: nat)
    requires InRange(img, secs) && k < |secs|
    ensures start <= OffsetAt(img, secs, start, k)
    ensures OffsetAt(img, secs, start, k) % SecAlign(img, secs[k]) == 0
    ensures OffsetAt(img, secs, start, k) + SectionLen(img, secs[k]) == LayoutEnd(img, secs[..k + 1], start)
    ensures LayoutEnd(img, secs[..k], start) <= OffsetAt(img, secs, start, k)
  {
    RoundUpFacts(LayoutEnd(img, secs[..k], start), SecAlign(img, secs[k]));
    assert secs[..k + 1][..k] == secs[..k];
  }

  lemma {:induction false} LayoutEndMonotone(img: Image, secs: seq<nat>, start: nat, k: nat, l: nat)
    requires InRange(img, secs) && k <= l <= |secs|
    ensures LayoutEnd(img, secs[..k], start) <= LayoutEnd(img, secs[..l], start)
    decreases l
  {
    if k < l {
      LayoutEndMonotone(img, secs, start, k, l - 1);
      OffsetFacts(img, secs, start, l - 1);
    }
  }

  /** One run of sections is laid out in order, aligned, between its ends. */
  lemma RunFacts(img: Image, secs: seq<nat>, start: nat)
    requires InRange(img, secs)
    ensures forall k :: 0 <= k < |secs| ==>
              && start <= OffsetAt(img, secs, start, k)
              && OffsetAt(img, secs, start, k) % SecAlign(img, secs[k]) == 0
              && OffsetAt(img, secs, start, k) + SectionLen(img, secs[k]) <= LayoutEnd(img, secs, start)
    ensures forall k, l :: 0 <= k < l < |secs| ==>
              OffsetAt(img, secs, start, k) + SectionLen(img, secs[k]) <= OffsetAt(img, secs, start, l)
  {
    assert secs[..|secs|] == secs;
    forall k | 0 <= k < |secs|
      ensures && start <= OffsetAt(img, secs, start, k)
              && OffsetAt(img, secs, start, k) % SecAlign(img, secs[k]) == 0
              && OffsetAt(img, secs, start, k) + SectionLen(img, secs[k]) <= LayoutEnd(img, secs, start)
    {
      OffsetFacts(img, secs, start, k);
      LayoutEndMonotone(img, secs, start, k + 1, |secs|);
    }
    forall k, l | 0 <= k < l < |secs|
      ensures OffsetAt(img, secs, start, k) + SectionLen(img, secs[k]) <= OffsetAt(img, secs, start, l)
    {
      OffsetFacts(img, secs, start, k);
      OffsetFacts(img, secs, start, l);
      LayoutEndMonotone(img, secs, start, k + 1, l);
    }
  }

  /** The region `Plan` chooses has every property of a region. */
  lemma PlanOk(img: Image, flags: seq<bool>, head1: nat, head2: nat, page: nat)
    requires WellShaped(img) && |flags| == |img.shdrs|
    ensures var r := Plan(img, flags, head1, head2, page);
            RegionOk(img, r, flags, if r.loads == 2 then head2 else head1, page)
  {
    var data, exec := Indices(DataFlags(img, flags)), Indices(ExecFlags(img, flags));
    IndicesFacts(DataFlags(img, flags));
    IndicesFacts(ExecFlags(img, flags));
    PlanFromOk(img, flags, data, exec, if exec == [] then head1 else head2, page);
  }

  lemma PlanFromOk(img: Image, flags: seq<bool>, data: seq<nat>, exec: seq<nat>, head: nat, page: nat)
    requires WellShaped(img) && |flags| == |img.shdrs|
    requires InRange(img, data) && InRange(img, exec) && Distinct(data) && Distinct(exec)
    requires forall i :: i in data <==> 0 <= i < |flags| && flags[i] && !Executable(img.shdrs[i])
    requires forall i :: i in exec <==> 0 <= i < |flags| && flags[i] && Executable(img.shdrs[i])
    ensures RegionOk(img, PlanFrom(img, data, exec, head, page), flags, head, page)
  {
    var r := PlanFrom(img, data, exec, head, page);
    RoundUpFacts(LayoutEnd(img, data, head), page);
    assert forall i :: i in data + exec <==> i in data || i in exec;
    forall k | 0 <= k < |r.sections|
      ensures SectionPlaced(img, r, k, head)
    {
      PlanPlaces(img, flags, data, exec, head, page, k);
    }
    PlanOrder(img, data, exec, head, page);
    DistinctConcat(data, exec);
  }

  lemma PlanPlaces(img: Image, flags: seq<bool>, data: seq<nat>, exec: seq<nat>, head: nat, page: nat, k: nat)
    requires WellShaped(img) && |flags| == |img.shdrs|
    requires InRange(img, data) && InRange(img, exec)
    requires forall i :: i in data ==> !Executable(img.shdrs[i])
    requires forall i :: i in exec ==> Executable(img.shdrs[i])
    requires k < |data| + |exec|
    ensures SectionPlaced(img, PlanFrom(img, data, exec, head, page), k, head)
  {
    var r := PlanFrom(img, data, exec, head, page);
    RoundUpFacts(LayoutEnd(img, data, head), page);
    PlanAt(img, data, exec, head, page, k);
    if k < |data| {
      RunFacts(img, data, head);
      assert data[k] in data;
    } else {
      RunFacts(img, exec, r.dataLen);
      assert exec[k - |data|] in exec;
    }
  }

  /** The header room of a plan is the one for the loads it needs. */
  lemma PlanHead(img: Image, flags: seq<bool>, head: nat -> nat, page: nat)
    requires WellShaped(img) && |flags| == |img.shdrs|
    ensures var r := Plan(img, flags, head(1), head(2), page); RegionOk(img, r, flags, head(r.loads), page)
  {
    PlanOk(img, flags, head(1), head(2), page);
    var r := Plan(img, flags, head(1), head(2), page);
    assert r.loads == 1 || r.loads == 2;
  }

  /** Entry `k` of a plan: a data section, or a code one after them. */
  lemma PlanAt(img: Image, data: seq<nat>, exec: seq<nat>, head: nat, page: nat, k: nat)
    requires InRange(img, data) && InRange(img, exec) && k < |data| + |exec|
    ensures var r, n := PlanFrom(img, data, exec, head, page), |data|;
            && |r.sections| == |r.offsets| == n + |exec|
            && if k < n then r.sections[k] == data[k] && r.offsets[k] == OffsetAt(img, data, head, k)
               else
                 && r.loads == 2 && r.sections[k] == exec[k - n]
                 && r.offsets[k] == OffsetAt(img, exec, r.dataLen, k - n)
  {
  }

  lemma DistinctConcat(data: seq<nat>, exec: seq<nat>)
    requires Distinct(data) && Distinct(exec)
    requires forall i :: i in data ==> i !in exec
    ensures Distinct(data + exec)
  {
    var s := data + exec;
    forall k, l | 0 <= k < l < |s|
      ensures s[k] != s[l]
    {
      if k < |data| <= l {
        assert s[k] in data && s[l] == exec[l - |data|] && s[l] in exec;
      }
    }
  }

  lemma PlanOrder(img: Image, data: seq<nat>, exec: seq<nat>, head: nat, page: nat)
    requires InRange(img, data) && InRange(img, exec)
    ensures var r := PlanFrom(img, data, exec, head, page);
            forall k, l :: 0 <= k < l < |r.sections| ==> RelEnd(img, r, k) <= r.offsets[l]
  {
    var r := PlanFrom(img, data, exec, head, page);
    RoundUpFacts(LayoutEnd(img, data, head), page);
    RunFacts(img, data, head);
    RunFacts(img, exec, r.dataLen);
    forall k, l | 0 <= k < l < |r.sections|
      ensures RelEnd(img, r, k) <= r.offsets[l]
    {
      PlanAt(img, data, exec, head, page, k);
      PlanAt(img, data, exec, head, page, l);
    }
  }

  lemma IndexOfDistinct(s: seq<nat>, k: nat)
    requires Distinct(s) && k < |s|
    ensures s[k] in s && IndexOf(s, s[k]) == k
  {
  }

  // ---- Rebasing addresses ----

  ghost predicate OldRangesDisjoint(img: Image, r: Region)
    requires Placeable(img, r)
  {
    forall k, l :: 0 <= k < l < |r.sections| ==>
      var s, t := img.shdrs[r.sections[k]], img.shdrs[r.sections[l]];
      s.addr == 0 || t.addr == 0 || s.addr + s.size <= t.addr || t.addr + t.size <= s.addr
  }

  /** Address `v` lies in the old range of the region's `k`th section. */
  predicate HitBy(img: Image, r: Region, v: nat, k: nat)
    requires Placeable(img, r) && k < |r.sections|
  {
    var s := img.shdrs[r.sections[k]];
    s.addr != 0 && s.addr <= v < s.addr + s.size
  }

  ghost predicate SomeContains(moves: seq<Moved>, v: nat)
  {
    exists x :: x in moves && x.Contains(v)
  }

  lemma SomeContainsSnoc(moves: seq<Moved>, m: Moved, v: nat)
    ensures SomeContains(moves + [m], v) <==> SomeContains(moves, v) || m.Contains(v)
  {
    assert m in moves + [m];
    assert forall x :: x in moves + [m] <==> x in moves || x == m;
  }

  lemma {:induction false} RebaseSnoc(moves: seq<Moved>, m: Moved, v: nat)
    ensures Rebase(moves + [m], v) ==
            if SomeContains(moves, v) then Rebase(moves, v)
            else if m.Contains(v) then m.newAddr + (v - m.oldAddr) else v
  {
    if moves != [] {
      RebaseSnoc(moves[1..], m, v);
      assert (moves + [m])[1..] == moves[1..] + [m];
      assert moves == [moves[0]] + moves[1..];
    } else {
      assert (moves + [m])[1..] == [];
    }
  }

  /** An address in a moved section keeps its inner offset. */
  lemma {:induction false} RebaseHit(img: Image, r: Region, vaddr: nat, n: nat, v: nat, k: nat)
    requires Placeable(img, r) && n <= |r.sections| && OldRangesDisjoint(img, r)
    requires k < |r.sections| && HitBy(img, r, v, k)
    ensures k < n ==> Rebase(Moves(img, r, vaddr, n), v) == vaddr + r.offsets[k] + (v - img.shdrs[r.sections[k]].addr)
    ensures k >= n ==> Rebase(Moves(img, r, vaddr, n), v) == v
    ensures SomeContains(Moves(img, r, vaddr, n), v) <==> k < n
    decreases n
  {
    if n > 0 {
      RebaseHit(img, r, vaddr, n - 1, v, k);
      MovesStep(img, r, vaddr, n, v);
    }
  }

  /** An address outside every moved section stays as it is. */
  lemma {:induction false} RebaseMiss(img: Image, r: Region, vaddr: nat, n: nat, v: nat)
    requires Placeable(img, r) && n <= |r.sections|
    requires forall k :: 0 <= k < n ==> !HitBy(img, r, v, k)
    ensures Rebase(Moves(img, r, vaddr, n), v) == v
    ensures !SomeContains(Moves(img, r, vaddr, n), v)
  {
    if n > 0 {
      RebaseMiss(img, r, vaddr, n - 1, v);
      assert !HitBy(img, r, v, n - 1);
      MovesStep(img, r, vaddr, n, v);
    }
  }

  lemma MovesStep(img: Image, r: Region, vaddr: nat, n: nat, v: nat)
    requires Placeable(img, r) && 0 < n <= |r.sections|
    ensures var before, after := Moves(img, r, vaddr, n - 1), Moves(img, r, vaddr, n);
            && (SomeContains(after, v) <==> SomeContains(before, v) || HitBy(img, r, v, n - 1))
            && Rebase(after, v) ==
               if SomeContains(before, v) then Rebase(before, v)
               else if HitBy(img, r, v, n - 1) then vaddr + r.offsets[n - 1] + (v - img.shdrs[r.sections[n - 1]].addr)
               else v
  {
    var s := img.shdrs[r.sections[n - 1]];
    var m := Moved(s.addr, s.size, vaddr + r.offsets[n - 1]);
    var before := Moves(img, r, vaddr, n - 1);
    if s.addr != 0 {
      RebaseSnoc(before, m, v);
      SomeContainsSnoc(before, m, v);
    } else {
      assert before + [] == before;
      RebaseNone(before, v);
    }
  }

  lemma {:induction false} RebaseNone(moves: seq<Moved>, v: nat)
    ensures !SomeContains(moves, v) ==> Rebase(moves, v) == v
  {
    if moves != [] {
      RebaseNone(moves[1..], v);
      assert moves == [moves[0]] + moves[1..];
    }
  }
}
