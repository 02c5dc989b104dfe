/** Moving a whole image up in the file: every condition on its input survives. */
module Shift {
  import opened Ir
  import opened Align
  import opened Serialize
  import opened Layout
  import opened RegionFacts
  import opened Shape
  import opened Placed
  import opened Segments
  import opened Verify
  import opened Accepted
  import opened Dynamic
  import opened Append
  import Sorting

  function Up(p: Phdr, shift: nat): Phdr
  {
    p.(offset := p.offset + shift)
  }

  lemma {:induction false} LoadsShifted(phdrs: seq<Phdr>, shift: nat)
    ensures Loads(ShiftedPhdrs(phdrs, shift)) == ShiftedPhdrs(Loads(phdrs), shift)
  {
    if phdrs != [] {
      var init, q := phdrs[..|phdrs| - 1], phdrs[|phdrs| - 1];
      LoadsShifted(init, shift);
      assert ShiftedPhdrs(phdrs, shift)[..|phdrs| - 1] == ShiftedPhdrs(init, shift);
    }
  }

  lemma {:induction false} InsertShifted(s: seq<Phdr>, x: Phdr, shift: nat)
    ensures Sorting.Insert(ShiftedPhdrs(s, shift), Up(x, shift),
                           VaddrOf) == ShiftedPhdrs(Sorting.Insert(s, x, VaddrOf), shift)
  {
    if s != [] && VaddrOf(s[|s| - 1]) > VaddrOf(x) {
      var init := s[..|s| - 1];
      InsertShifted(init, x, shift);
      assert ShiftedPhdrs(s, shift)[..|s| - 1] == ShiftedPhdrs(init, shift);
    }
  }

  lemma {:induction false} SortShifted(s: seq<Phdr>, shift: nat)
    ensures Sorting.Sort(ShiftedPhdrs(s, shift), VaddrOf) == ShiftedPhdrs(Sorting.Sort(s, VaddrOf), shift)
  {
    if s != [] {
      var init, x := s[..|s| - 1], s[|s| - 1];
      SortShifted(init, shift);
      InsertShifted(Sorting.Sort(init, VaddrOf), x, shift);
      assert ShiftedPhdrs(s, shift)[..|s| - 1] == ShiftedPhdrs(init, shift);
    }
  }

  lemma UpMember(loads: seq<Phdr>, shift: nat, p: Phdr)
    requires p in loads
    ensures Up(p, shift) in ShiftedPhdrs(loads, shift)
  {
    var i :| 0 <= i < |loads| && loads[i] == p;
    assert ShiftedPhdrs(loads, shift)[i] == Up(p, shift);
  }

  lemma ShiftedLoads(loads: seq<Phdr>, shift: nat)
    requires MemoryDisjoint(loads)
    requires forall p :: p in loads ==> LoadOk(p)
    requires forall p :: p in loads && p.align > 1 ==> shift % p.align == 0
    ensures MemoryDisjoint(ShiftedPhdrs(loads, shift))
    ensures forall p :: p in ShiftedPhdrs(loads, shift) ==> LoadOk(p)
  {
    SortShifted(loads, shift);
    forall i | 0 <= i < |loads|
      ensures LoadOk(ShiftedPhdrs(loads, shift)[i])
    {
      var p := loads[i];
      assert p in loads;
      if p.align > 1 {
        AddMultiples(p.offset, shift, p.align);
      }
    }
  }

  lemma MappedShifted(loads: seq<Phdr>, shift: nat, a: nat)
    requires Mapped(loads, a)
    ensures Mapped(ShiftedPhdrs(loads, shift), a)
  {
    var p :| p in loads && InMemory(p, a);
    UpMember(loads, shift, p);
    assert InMemory(Up(p, shift), a);
  }

  lemma CodeShifted(loads: seq<Phdr>, shift: nat, a: nat)
    requires exists p :: p in loads && HasFlag(p.flags, PF_X) && InMemory(p, a)
    ensures exists p :: p in ShiftedPhdrs(loads, shift) && HasFlag(p.flags, PF_X) && InMemory(p, a)
  {
    var p :| p in loads && HasFlag(p.flags, PF_X) && InMemory(p, a);
    UpMember(loads, shift, p);
    assert InMemory(Up(p, shift), a);
  }

  lemma FileRangeShifted(loads: seq<Phdr>, shift: nat, off: nat, end: nat)
    requires exists p :: p in loads && FileRangeIn(p, off, end)
    ensures exists p :: p in ShiftedPhdrs(loads, shift) && FileRangeIn(p, off + shift, end + shift)
  {
    var p :| p in loads && FileRangeIn(p, off, end);
    UpMember(loads, shift, p);
    assert FileRangeIn(Up(p, shift), off + shift, end + shift);
  }

  lemma ShiftedNames(img: Image, shift: nat)
    requires WellShaped(img)
    ensures SameNames(img, Shifted(img, shift))
    ensures SameSections(img, Shifted(img, shift))
    ensures Shifted(img, shift).DynIdx() == img.DynIdx()
    ensures forall name :: Shifted(img, shift).FindSection(name) == img.FindSection(name)
  {
    SameDynIdx(img, Shifted(img, shift));
    forall name ensures Shifted(img, shift).FindSection(name) == img.FindSection(name) {
      SameFind(img, Shifted(img, shift), name);
    }
  }

  function ShiftedJob(job: Job, shift: nat): Job
  {
    job.(img := Shifted(job.img, shift), lo := job.lo + shift, hi := job.hi + shift)
  }

  lemma ShiftedSections(job: Job, shift: nat)
    requires WellShaped(job.img) && |job.flags| == |job.img.shdrs| && KeptSections(job.img, job.flags, job.lo, job.hi)
    ensures KeptSections(Shifted(job.img, shift), job.flags, job.lo + shift, job.hi + shift)
  {
    var img, b := job.img, Shifted(job.img, shift);
    ShiftedNames(img, shift);
    forall i: nat | Kept(b, job.flags, i)
      ensures SectionLen(b, i) == b.shdrs[i].size
      ensures b.shdrs[i].offset + b.shdrs[i].size <= job.hi + shift
      ensures b.shdrs[i].size > 0 ==> job.lo + shift <= b.shdrs[i].offset
    {
      assert Kept(img, job.flags, i);
      SameSectionLen(img, b, i);
    }
    forall i: nat, j: nat | i < j && Kept(b, job.flags, i) && Kept(b, job.flags, j)
      ensures RangesApart(b.shdrs[i], b.shdrs[j])
    {
      assert Kept(img, job.flags, i) && Kept(img, job.flags, j);
      assert RangesApart(img.shdrs[i], img.shdrs[j]);
    }
  }

  /** Shifting changes no type, so the loads are pushed to the same places. */
  lemma ShiftedNote(job: Job, shift: nat)
    requires WellShaped(job.img)
    ensures NoteStays(ShiftedJob(job, shift)) == NoteStays(job)
    ensures NoteReady(ShiftedJob(job, shift)) == NoteReady(job)
    ensures NoteInInterp(ShiftedJob(job, shift)) == NoteInInterp(job)
  {
    ShiftedNames(job.img, shift);
    if job.g.region.dataLen <= job.g.region.len {
      PushedTypes(job.img, Shifted(job.img, shift), job.g, job.front);
    }
  }

  lemma ShiftedSegments(job: Job, shift: nat)
    requires WellShaped(job.img) && SegmentsBounded(job)
    ensures SegmentsBounded(ShiftedJob(job, shift))
  {
    var img, b := job.img, Shifted(job.img, shift);
    ShiftedNames(img, shift);
    ShiftedNote(job, shift);
    forall i | 0 <= i < |b.phdrs| && Unframed(ShiftedJob(job, shift), i)
      ensures b.phdrs[i].offset + b.phdrs[i].filesz <= job.hi + shift
    {
      assert Unframed(job, i);
    }
  }

  lemma ShiftedInterp(job: Job, shift: nat)
    requires WellShaped(job.img) && InterpReady(job)
    ensures InterpReady(ShiftedJob(job, shift))
  {
    var img, b := job.img, Shifted(job.img, shift);
    ShiftedNames(img, shift);
    LoadsShifted(img.phdrs, shift);
    if img.FindSection(INTERP).Some? {
      ShiftedNamedInterp(job, shift, img.FindSection(INTERP).value);
    } else {
      ShiftedBareInterp(img.phdrs, shift);
      ShiftedNote(job, shift);
      if NoteInInterp(job) {
        ShiftedNoteCovered(job, shift);
      }
    }
  }

  lemma ShiftedNamedInterp(job: Job, shift: nat, s: nat)
    requires WellShaped(job.img) && InterpReady(job) && job.img.FindSection(INTERP) == Some(s)
    ensures InterpReady(ShiftedJob(job, shift))
  {
    var img := job.img;
    ShiftedNames(img, shift);
    LoadsShifted(img.phdrs, shift);
    if !job.flags[s] {
      FileRangeShifted(Loads(img.phdrs), shift, img.shdrs[s].offset, img.shdrs[s].offset + img.shdrs[s].size);
    }
  }

  lemma ShiftedNoteCovered(job: Job, shift: nat)
    requires WellShaped(job.img) && job.img.FindSection(LDCACHE).Some? && NoteCovered(job)
    ensures ShiftedJob(job, shift).img.FindSection(LDCACHE).Some? && NoteCovered(ShiftedJob(job, shift))
  {
    var img, b := job.img, Shifted(job.img, shift);
    ShiftedNames(img, shift);
    LoadsShifted(img.phdrs, shift);
    var s := img.FindSection(LDCACHE).value;
    if job.flags[s] {
      SameSectionLen(img, b, s);
    } else {
      FileRangeShifted(Loads(img.phdrs), shift, img.shdrs[s].offset, img.shdrs[s].offset + img.shdrs[s].size);
    }
  }

  lemma ShiftedBareInterp(phdrs: seq<Phdr>, shift: nat)
    requires BareCovered(phdrs)
    ensures BareCovered(ShiftedPhdrs(phdrs, shift))
  {
    LoadsShifted(phdrs, shift);
    var b := ShiftedPhdrs(phdrs, shift);
    forall i | 0 <= i < |b| && b[i].ptype == PT_INTERP
      ensures exists p :: p in Loads(b) && FileRangeIn(p, b[i].offset, b[i].offset + b[i].filesz)
    {
      FileRangeShifted(Loads(phdrs), shift, phdrs[i].offset, phdrs[i].offset + phdrs[i].filesz);
    }
  }

  lemma ShiftedEntry(job: Job, shift: nat)
    requires WellShaped(job.img) && EntryReady(job)
    ensures EntryReady(ShiftedJob(job, shift))
  {
    var img, b := job.img, Shifted(job.img, shift);
    ShiftedNames(img, shift);
    LoadsShifted(img.phdrs, shift);
    if job.g.region.loads == 2 && img.FindSection(STUB).Some? {
      var s := img.FindSection(STUB).value;
      if job.flags[s] {
        SameSectionLen(img, b, s);
      } else {
        CodeShifted(Loads(img.phdrs), shift, img.shdrs[s].addr + STUB_CODE_OFFSET);
      }
    } else if exists p :: p in Loads(img.phdrs) && HasFlag(p.flags, PF_X) && InMemory(p, img.ehdr.entry) {
      CodeShifted(Loads(img.phdrs), shift, img.ehdr.entry);
    }
  }

  lemma ShiftedAddress(job: Job, shift: nat, v: nat)
    requires WellShaped(job.img) && Placeable(job.img, job.g.region) && AddressReady(job, v)
    ensures AddressReady(ShiftedJob(job, shift), v)
  {
    var img, b, r := job.img, Shifted(job.img, shift), job.g.region;
    ShiftedNames(img, shift);
    LoadsShifted(img.phdrs, shift);
    if Missed(job, v) && Mapped(Loads(img.phdrs), v) {
      MappedShifted(Loads(img.phdrs), shift, v);
      assert forall k :: 0 <= k < |r.sections| ==> HitBy(b, r, v, k) == HitBy(img, r, v, k);
    } else {
      var k :| 0 <= k < |r.sections| && HitBy(img, r, v, k)
      && v - img.shdrs[r.sections[k]].addr < SectionLen(img, r.sections[k]);
      SameSectionLen(img, b, r.sections[k]);
      assert HitBy(b, r, v, k);
    }
  }

  lemma ShiftedDynamic(job: Job, shift: nat)
    requires WellShaped(job.img) && DynReady(job)
    ensures DynReady(ShiftedJob(job, shift))
  {
    var img, b, r := job.img, Shifted(job.img, shift), job.g.region;
    ShiftedNames(img, shift);
    forall d | d in b.dynamic && d.tag in ADDR_TAGS && d.val != 0
      ensures AddressReady(ShiftedJob(job, shift), d.val)
    {
      ShiftedAddress(job, shift, d.val);
    }
    if img.FindSection(DYNSTR).Some? {
      var s := img.FindSection(DYNSTR).value;
      SameSectionLen(img, b, s);
      assert Missed(job, img.shdrs[s].addr) ==> Missed(ShiftedJob(job, shift), b.shdrs[s].addr) by {
        assert forall k :: 0 <= k < |r.sections| ==>
                 HitBy(b, r, b.shdrs[s].addr, k) == HitBy(img, r, img.shdrs[s].addr, k);
      }
    }
  }

  lemma ShiftedLinks(img: Image, shift: nat)
    requires SectionLinks(img)
    ensures SectionLinks(Shifted(img, shift))
  {
    var b := Shifted(img, shift);
    forall s | s in b.shdrs && UsesLink(s.shtype)
      ensures s.link < |b.shdrs|
    {
      var i :| 0 <= i < |b.shdrs| && b.shdrs[i] == s;
      assert img.shdrs[i] in img.shdrs;
    }
  }

  lemma ShiftedAligns(phdrs: seq<Phdr>, shift: nat)
    requires forall p :: p in phdrs ==> ValidAlign(p.align)
    ensures forall p :: p in ShiftedPhdrs(phdrs, shift) ==> ValidAlign(p.align)
  {
    forall i | 0 <= i < |phdrs|
      ensures ValidAlign(ShiftedPhdrs(phdrs, shift)[i].align)
    {
      assert phdrs[i] in phdrs;
    }
  }

  /** An input that is sound stays sound when every byte of it moves up. */
  lemma ShiftedSound(job: Job, shift: nat)
    requires InputSound(job)
    requires forall p :: p in Loads(job.img.phdrs) && p.align > 1 ==> shift % p.align == 0
    ensures InputSound(ShiftedJob(job, shift))
  {
    ShiftedPlaces(job, shift);
    ShiftedMemory(job.img.phdrs, shift);
    ShiftedFollowed(job, shift);
  }

  lemma ShiftedPlaces(job: Job, shift: nat)
    requires WellShaped(job.img) && |job.flags| == |job.img.shdrs| && KeptSections(job.img, job.flags, job.lo, job.hi)
    requires ClassSizes(job.img) && NamesFixed(job.img) && SegmentsBounded(job)
    ensures var b := ShiftedJob(job, shift);
            && WellShaped(b.img) && |b.flags| == |b.img.shdrs| && KeptSections(b.img, b.flags, b.lo, b.hi)
            && ClassSizes(b.img) && NamesFixed(b.img) && SegmentsBounded(b)
  {
    ShiftedNames(job.img, shift);
    ShiftedSections(job, shift);
    ShiftedSegments(job, shift);
  }

  lemma ShiftedMemory(phdrs: seq<Phdr>, shift: nat)
    requires (forall p :: p in phdrs ==> ValidAlign(p.align)) && (forall p :: p in Loads(phdrs) ==> LoadOk(p))
    requires MemoryDisjoint(Loads(phdrs))
    requires forall p :: p in Loads(phdrs) && p.align > 1 ==> shift % p.align == 0
    ensures var b := ShiftedPhdrs(phdrs, shift);
            && (forall p :: p in b ==> ValidAlign(p.align)) && (forall p :: p in Loads(b) ==> LoadOk(p))
            && MemoryDisjoint(Loads(b))
  {
    ShiftedAligns(phdrs, shift);
    LoadsShifted(phdrs, shift);
    ShiftedLoads(Loads(phdrs), shift);
  }

  lemma ShiftedFollowed(job: Job, shift: nat)
    requires WellShaped(job.img) && SectionLinks(job.img) && InterpReady(job) && EntryReady(job) && DynReady(job)
    ensures var b := ShiftedJob(job, shift); SectionLinks(b.img) && InterpReady(b) && EntryReady(b) && DynReady(b)
  {
    ShiftedLinks(job.img, shift);
    ShiftedInterp(job, shift);
    ShiftedEntry(job, shift);
    ShiftedDynamic(job, shift);
  }

  /** An input that is ready stays ready. */
  lemma ShiftedInput(job: Job, shift: nat)
    requires InputReady(job)
    requires forall p :: p in Loads(job.img.phdrs) && p.align > 1 ==> shift % p.align == 0
    ensures InputReady(ShiftedJob(job, shift))
  {
    ShiftedNote(job, shift);
    ShiftedSound(job, shift);
  }
}
