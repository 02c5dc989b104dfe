/** What the loader finds by following the final image: the interpreter, the
    entry point, and the dynamic array's strings and addresses. */
module Dynamic {
  import opened Ir
  import opened Serialize
  import opened Layout
  import opened RegionFacts
  import opened Shape
  import opened Placed
  import opened Segments
  import opened Verify
  import opened Accepted

  // ---- Interpreter ----

  ghost predicate InterpReady(job: Job)
  {
    var img, loads := job.img, Loads(job.img.phdrs);
    match img.FindSection(INTERP)
    case Some(s) =>
      && s < |img.data| == |img.shdrs| == |job.flags|
      && img.shdrs[s].shtype != SHT_NOBITS && img.DynIdx() != Some(s)
      && img.data[s] != [] && img.data[s][|img.data[s]| - 1] == 0
      && (!job.flags[s] ==> exists p ::
            p in loads && FileRangeIn(p, img.shdrs[s].offset, img.shdrs[s].offset + img.shdrs[s].size))
    case None => BareCovered(img.phdrs) && (NoteInInterp(job) ==> NoteCovered(job))
  }

  /** Interpreter entries that no section decides lie in a load's file range. */
  ghost predicate BareCovered(phdrs: seq<Phdr>)
  {
    forall i :: 0 <= i < |phdrs| && phdrs[i].ptype == PT_INTERP ==>
      && phdrs[i].filesz != 0
      && exists p :: p in Loads(phdrs) && FileRangeIn(p, phdrs[i].offset, phdrs[i].offset + phdrs[i].filesz)
  }

  /** The entry that takes the ld-cache note's extent is an interpreter's. */
  ghost predicate NoteInInterp(job: Job)
  {
    && job.note.Some? && job.img.FindSection(LDCACHE).Some? && job.g.region.dataLen <= job.g.region.len
    && job.note.value < |PushedPhdrs(job.img, job.g, job.front)|
    && PushedPhdrs(job.img, job.g, job.front)[job.note.value].ptype == PT_INTERP
  }

  /** The note is not empty, and moves or lies in a load's file range. */
  ghost predicate NoteCovered(job: Job)
    requires job.img.FindSection(LDCACHE).Some?
  {
    var img, s := job.img, job.img.FindSection(LDCACHE).value;
    && WellShaped(img) && |job.flags| == |img.shdrs|
    && if job.flags[s] then SectionLen(img, s) != 0
       else
         && img.shdrs[s].size != 0
         && exists p ::
              p in Loads(img.phdrs) && FileRangeIn(p, img.shdrs[s].offset, img.shdrs[s].offset + img.shdrs[s].size)
  }

  lemma FinalInterp(job: Job, f: Image)
    requires FileReady(job) && Yields(job, f) && NoteReady(job) && MemSite(job) && NamesFixed(job.img)
             && InterpReady(job)
    ensures InterpOk(f, Loads(f.phdrs))
  {
    var found := FindPhdr(f.phdrs, PT_INTERP);
    if found.Some? {
      SameNamesFinal(job, f);
      SameFind(job.img, f, INTERP);
      JoinedMembers(job, f);
      FoundInterp(job, f, found.value);
    }
  }

  lemma FoundInterp(job: Job, f: Image, x: nat)
    requires FileReady(job) && Yields(job, f) && NoteReady(job) && MemSite(job) && NamesFixed(job.img)
             && InterpReady(job)
    requires FindPhdr(f.phdrs, PT_INTERP) == Some(x) && f.FindSection(INTERP) == job.img.FindSection(INTERP)
    requires forall p :: p in Loads(f.phdrs) <==> p in Loads(job.img.phdrs) || p in NewLoads(job.g.region, job.g.at)
    ensures InterpOk(f, Loads(f.phdrs))
  {
    match job.img.FindSection(INTERP) {
      case Some(s) =>
        FramedInterp(job, f, x, s);
        InterpWith(f, x, s);
      case None =>
        BareInterp(job, f, x);
        InterpWithout(f, x);
    }
  }

  lemma InterpWith(f: Image, x: nat, s: nat)
    requires FindPhdr(f.phdrs, PT_INTERP) == Some(x) && f.FindSection(INTERP) == Some(s) && s < |f.shdrs| == |f.data|
    requires f.phdrs[x].offset == f.shdrs[s].offset && f.phdrs[x].filesz == f.shdrs[s].size != 0
    requires exists p :: p in Loads(f.phdrs) && FileRangeIn(p, f.phdrs[x].offset, f.phdrs[x].offset + f.phdrs[x].filesz)
    requires f.data[s] != [] && f.data[s][|f.data[s]| - 1] == 0
    ensures InterpOk(f, Loads(f.phdrs))
  {
  }

  lemma InterpWithout(f: Image, x: nat)
    requires FindPhdr(f.phdrs, PT_INTERP) == Some(x) && f.FindSection(INTERP).None? && f.phdrs[x].filesz != 0
    requires exists p :: p in Loads(f.phdrs) && FileRangeIn(p, f.phdrs[x].offset, f.phdrs[x].offset + f.phdrs[x].filesz)
    ensures InterpOk(f, Loads(f.phdrs))
  {
  }

  lemma FramedInterp(job: Job, f: Image, x: nat, s: nat)
    requires FileReady(job) && Yields(job, f) && NoteReady(job) && MemSite(job) && NamesFixed(job.img)
             && InterpReady(job)
    requires x < |f.phdrs| && f.phdrs[x].ptype == PT_INTERP
    requires job.img.FindSection(INTERP) == Some(s) == f.FindSection(INTERP)
    requires forall p :: p in Loads(f.phdrs) <==> p in Loads(job.img.phdrs) || p in NewLoads(job.g.region, job.g.at)
    ensures s < |f.shdrs| == |f.data|
    ensures f.phdrs[x].offset == f.shdrs[s].offset && f.phdrs[x].filesz == f.shdrs[s].size != 0
    ensures exists p :: p in Loads(f.phdrs) && FileRangeIn(p, f.phdrs[x].offset, f.phdrs[x].offset + f.phdrs[x].filesz)
    ensures f.data[s] != [] && f.data[s][|f.data[s]| - 1] == 0
  {
    SegmentsFrame(job, f, x);
    InterpBytes(job, f, s);
    InterpCovered(job, f, s);
  }

  lemma InterpBytes(job: Job, f: Image, s: nat)
    requires FileReady(job) && Yields(job, f) && InterpReady(job) && job.img.FindSection(INTERP) == Some(s)
    ensures s < |f.shdrs| == |f.data| && f.shdrs[s].size != 0
    ensures f.data[s] != [] && f.data[s][|f.data[s]| - 1] == 0
  {
    FinalFields(job.img, job.g, job.note, job.front, f);
    FinalSizes(job, f);
  }

  lemma InterpCovered(job: Job, f: Image, s: nat)
    requires FileReady(job) && Yields(job, f) && MemSite(job) && InterpReady(job)
             && job.img.FindSection(INTERP) == Some(s)
    requires forall p :: p in Loads(f.phdrs) <==> p in Loads(job.img.phdrs) || p in NewLoads(job.g.region, job.g.at)
    ensures s < |f.shdrs|
    ensures exists p :: p in Loads(f.phdrs) && FileRangeIn(p, f.shdrs[s].offset, f.shdrs[s].offset + f.shdrs[s].size)
  {
    FinalShdr(job, f, s);
    if job.flags[s] {
      var k := IndexOf(job.g.region.sections, s);
      HomeCovers(job, k);
      assert Home(job, k) in Loads(f.phdrs);
    }
  }

  lemma BareInterp(job: Job, f: Image, x: nat)
    requires FileReady(job) && Yields(job, f) && MemSite(job) && NamesFixed(job.img) && InterpReady(job)
    requires x < |f.phdrs| && f.phdrs[x].ptype == PT_INTERP
    requires job.img.FindSection(INTERP) == None == f.FindSection(INTERP)
    requires forall p :: p in Loads(f.phdrs) <==> p in Loads(job.img.phdrs) || p in NewLoads(job.g.region, job.g.at)
    ensures f.phdrs[x].filesz != 0
    ensures exists p :: p in Loads(f.phdrs) && FileRangeIn(p, f.phdrs[x].offset, f.phdrs[x].offset + f.phdrs[x].filesz)
  {
    if job.note == Some(x) && f.FindSection(LDCACHE).Some? {
      NoteAsInterp(job, f, x);
    } else {
      KeptInterp(job, f, x);
    }
  }

  lemma KeptInterp(job: Job, f: Image, x: nat)
    requires Yields(job, f) && NamesFixed(job.img) && BareCovered(job.img.phdrs)
    requires x < |f.phdrs| && f.phdrs[x].ptype == PT_INTERP && f.FindSection(INTERP).None?
    requires !(job.note == Some(x) && f.FindSection(LDCACHE).Some?)
    requires forall p :: p in Loads(job.img.phdrs) ==> p in Loads(f.phdrs)
    ensures f.phdrs[x].filesz != 0
    ensures exists p :: p in Loads(f.phdrs) && FileRangeIn(p, f.phdrs[x].offset, f.phdrs[x].offset + f.phdrs[x].filesz)
  {
    var i := InterpEntry(job, f, x);
    assert job.img.phdrs[i].ptype == PT_INTERP;
  }

  lemma InterpEntry(job: Job, f: Image, x: nat) returns (i: nat)
    requires Yields(job, f) && NamesFixed(job.img) && x < |f.phdrs| && f.phdrs[x].ptype == PT_INTERP
    requires f.FindSection(INTERP).None? && !(job.note == Some(x) && f.FindSection(LDCACHE).Some?)
    ensures i < |job.img.phdrs| && f.phdrs[x] == job.img.phdrs[i]
  {
    UnframedEntry(job, f, x);
    PushedOriginal(job.img, job.g, job.front, x, PT_INTERP);
    PushedEntries(job.img, job.g, job.front);
    i :| 0 <= i < |job.img.phdrs| && job.img.phdrs[i].ptype == PT_INTERP && NewIndex(job.img, job.g, job.front, i) == x;
  }

  lemma NoteAsInterp(job: Job, f: Image, x: nat)
    requires FileReady(job) && Yields(job, f) && MemSite(job) && NamesFixed(job.img) && InterpReady(job)
    requires x < |f.phdrs| && f.phdrs[x].ptype == PT_INTERP && job.note == Some(x) && f.FindSection(LDCACHE).Some?
    requires job.img.FindSection(INTERP) == None == f.FindSection(INTERP)
    requires forall p :: p in Loads(f.phdrs) <==> p in Loads(job.img.phdrs) || p in NewLoads(job.g.region, job.g.at)
    ensures f.phdrs[x].filesz != 0
    ensures exists p :: p in Loads(f.phdrs) && FileRangeIn(p, f.phdrs[x].offset, f.phdrs[x].offset + f.phdrs[x].filesz)
  {
    FramesNote(job, f, x);
    SameNamesFinal(job, f);
    SameFind(job.img, f, LDCACHE);
    assert NoteInInterp(job);
    NoteLies(job, f, f.FindSection(LDCACHE).value);
  }

  /** A covered note has bytes, in a load's file range. */
  lemma NoteLies(job: Job, f: Image, s: nat)
    requires FileReady(job) && Yields(job, f) && MemSite(job) && job.img.FindSection(LDCACHE) == Some(s)
    requires NoteCovered(job) && s < |f.shdrs|
    requires forall p :: p in Loads(f.phdrs) <==> p in Loads(job.img.phdrs) || p in NewLoads(job.g.region, job.g.at)
    ensures f.shdrs[s].size != 0
    ensures exists p :: p in Loads(f.phdrs) && FileRangeIn(p, f.shdrs[s].offset, f.shdrs[s].offset + f.shdrs[s].size)
  {
    FinalShdr(job, f, s);
    if job.flags[s] {
      var k := IndexOf(job.g.region.sections, s);
      HomeCovers(job, k);
      assert Home(job, k) in Loads(f.phdrs);
    }
  }

  // ---- Entry point ----

  /** The entry lands in kept code, or on a stub that is laid out as code. */
  ghost predicate EntryReady(job: Job)
  {
    var img, loads := job.img, Loads(job.img.phdrs);
    if job.g.region.loads == 2 && img.FindSection(STUB).Some? then
      var s := img.FindSection(STUB).value;
      && s < |job.flags| && WellShaped(img)
      && if job.flags[s] then Executable(img.shdrs[s]) && SectionLen(img, s) > STUB_CODE_OFFSET
         else exists p :: p in loads && HasFlag(p.flags, PF_X) && InMemory(p, img.shdrs[s].addr + STUB_CODE_OFFSET)
    else EntryOk(img, loads)
  }

  lemma FinalEntry(job: Job, f: Image)
    requires FileReady(job) && Yields(job, f) && NoteReady(job) && MemSite(job) && EntryReady(job)
    ensures EntryOk(f, Loads(f.phdrs))
  {
    JoinedMembers(job, f);
    FinalFields(job.img, job.g, job.note, job.front, f);
    FinalEntryAddr(job, f);
    if job.g.region.loads == 2 && job.img.FindSection(STUB).Some? {
      var s := job.img.FindSection(STUB).value;
      FinalShdr(job, f, s);
      if job.flags[s] {
        var k := IndexOf(job.g.region.sections, s);
        HomeCovers(job, k);
        assert Home(job, k) in Loads(f.phdrs) && InMemory(Home(job, k), f.ehdr.entry);
      }
    }
  }

  /** With code in the region, the entry is 16 bytes into the stub section;
      otherwise it is unchanged. */
  lemma FinalEntryAddr(job: Job, f: Image)
    requires Yields(job, f)
    ensures var stub := job.img.FindSection(STUB);
            if job.g.region.loads == 2 && stub.Some? then stub.value < |f.shdrs|
              && f.ehdr.entry == f.shdrs[stub.value].addr + 16
            else f.ehdr.entry == job.img.ehdr.entry
  {
    PushedShape(job.img, job.g, job.front);
  }

  // ---- Dynamic array ----

  lemma FinalDynamicEntry(job: Job, f: Image, j: nat)
    requires Yields(job, f) && NamesFixed(job.img) && j < |job.img.dynamic|
    ensures |f.dynamic| == |job.img.dynamic|
    ensures f.dynamic[j].tag == job.img.dynamic[j].tag
    ensures job.img.dynamic[j].tag in MOVED_TAGS ==>
              f.dynamic[j].val == Rebase(Moves(job.img, job.g.region, job.g.at.vaddr, |job.g.region.sections|),
                                         job.img.dynamic[j].val)
    ensures job.img.dynamic[j].tag == DT_STRSZ && f.FindSection(DYNSTR).Some? ==>
              f.dynamic[j].val == f.shdrs[f.FindSection(DYNSTR).value].size
    ensures job.img.dynamic[j].tag == DT_STRSZ && f.FindSection(DYNSTR).None? ==> f.dynamic[j] == job.img.dynamic[j]
    ensures job.img.dynamic[j].tag !in MOVED_TAGS && job.img.dynamic[j].tag != DT_STRSZ
            && job.img.dynamic[j].tag != DT_MIPS_RLD_MAP_REL ==>
              f.dynamic[j] == job.img.dynamic[j]
  {
    PushedShape(job.img, job.g, job.front);
    SameNamesFinal(job, f);
    FinalFields(job.img, job.g, job.note, job.front, f);
    SameFind(job.img, f, DYNSTR);
    SameFind(job.img, Pushed(job.img, job.g, job.front), DYNSTR);
  }

  lemma FinalTags(job: Job, f: Image)
    requires Yields(job, f) && NamesFixed(job.img)
    ensures |f.dynamic| == |job.img.dynamic|
    ensures forall j :: 0 <= j < |f.dynamic| ==> f.dynamic[j].tag == job.img.dynamic[j].tag
  {
    FinalFields(job.img, job.g, job.note, job.front, f);
    forall j | 0 <= j < |f.dynamic|
      ensures f.dynamic[j].tag == job.img.dynamic[j].tag
    {
      FinalDynamicEntry(job, f, j);
    }
  }

  ghost predicate Missed(job: Job, v: nat)
    requires Placeable(job.img, job.g.region)
  {
    forall k :: 0 <= k < |job.g.region.sections| ==> !HitBy(job.img, job.g.region, v, k)
  }

  /** A tag value points into a moved section, inside its new length, or at kept memory. */
  ghost predicate AddressReady(job: Job, v: nat)
    requires Placeable(job.img, job.g.region)
  {
    || (exists k :: 0 <= k < |job.g.region.sections| && HitBy(job.img, job.g.region, v, k)
         && v - job.img.shdrs[job.g.region.sections[k]].addr < SectionLen(job.img, job.g.region.sections[k]))
    || (Missed(job, v) && Mapped(Loads(job.img.phdrs), v))
  }

  /** Conditions on the dynamic array and its string table before the move. */
  ghost predicate DynReady(job: Job)
  {
    && Placeable(job.img, job.g.region) && |job.flags| == |job.img.shdrs|
    && OldRangesDisjoint(job.img, job.g.region)
    && (forall d :: d in job.img.dynamic && d.tag in ADDR_TAGS && d.val != 0 ==> AddressReady(job, d.val))
    && match job.img.FindSection(DYNSTR)
       case None => StringsInTable(job.img)
       case Some(s) =>
         && job.img.shdrs[s].shtype != SHT_NOBITS
         && (DynVal(job.img.dynamic, DT_STRTAB).Some? ==>
               && DynVal(job.img.dynamic, DT_STRTAB).value == job.img.shdrs[s].addr
               && if job.flags[s] then job.img.shdrs[s].addr > 0 && job.img.shdrs[s].size > 0
                  else Missed(job, job.img.shdrs[s].addr))
         && (DynVal(job.img.dynamic, DT_STRSZ).Some? ==>
               forall d :: d in job.img.dynamic && d.tag in STR_TAGS ==> d.val < SectionLen(job.img, s))
  }

  lemma TagsIncluded()
    ensures forall t :: t in ADDR_TAGS ==> t in MOVED_TAGS
    ensures forall t :: t in STR_TAGS ==> t !in MOVED_TAGS && t != DT_STRSZ && t != DT_MIPS_RLD_MAP_REL
  {
  }

  /** Every address-valued tag is mapped in the final image. */
  lemma FinalDynamicAddrs(job: Job, f: Image)
    requires FileReady(job) && Yields(job, f) && NoteReady(job) && MemSite(job) && NamesFixed(job.img) && DynReady(job)
    ensures DynamicAddrs(f, Loads(f.phdrs))
  {
    JoinedMembers(job, f);
    FinalTags(job, f);
    TagsIncluded();
    forall j | 0 <= j < |f.dynamic| && f.dynamic[j].tag in ADDR_TAGS && f.dynamic[j].val != 0
      ensures Mapped(Loads(f.phdrs), f.dynamic[j].val)
    {
      FinalDynamicEntry(job, f, j);
      assert job.img.dynamic[j] in job.img.dynamic;
      RebasedMapped(job, f, job.img.dynamic[j].val);
    }
  }

  lemma RebasedMapped(job: Job, f: Image, v: nat)
    requires FileReady(job) && MemSite(job) && DynReady(job)
    requires forall p :: p in Loads(f.phdrs) <==> p in Loads(job.img.phdrs) || p in NewLoads(job.g.region, job.g.at)
    requires v != 0 ==> AddressReady(job, v)
    ensures var w := Rebase(Moves(job.img, job.g.region, job.g.at.vaddr, |job.g.region.sections|), v);
            w != 0 ==> Mapped(Loads(f.phdrs), w)
  {
    var r, n := job.g.region, |job.g.region.sections|;
    if Missed(job, v) {
      RebaseMiss(job.img, r, job.g.at.vaddr, n, v);
    } else {
      var k :| 0 <= k < n && HitBy(job.img, r, v, k);
      assert v != 0;
      var k' :| 0 <= k' < n && HitBy(job.img, r, v, k')
        && v - job.img.shdrs[r.sections[k']].addr < SectionLen(job.img, r.sections[k']);
      HitMapped(job, f, v, k');
    }
  }

  lemma HitMapped(job: Job, f: Image, v: nat, k: nat)
    requires FileReady(job) && MemSite(job) && OldRangesDisjoint(job.img, job.g.region)
    requires forall p :: p in NewLoads(job.g.region, job.g.at) ==> p in Loads(f.phdrs)
    requires k < |job.g.region.sections| && HitBy(job.img, job.g.region, v, k)
    requires v - job.img.shdrs[job.g.region.sections[k]].addr < SectionLen(job.img, job.g.region.sections[k])
    ensures Mapped(Loads(f.phdrs), Rebase(Moves(job.img, job.g.region, job.g.at.vaddr, |job.g.region.sections|), v))
  {
    RebaseHit(job.img, job.g.region, job.g.at.vaddr, |job.g.region.sections|, v, k);
    HomeCovers(job, k);
    assert Home(job, k) in Loads(f.phdrs);
  }

  /** `DT_STRTAB` is the final `.dynstr` address and `DT_STRSZ` its final size. */
  lemma FinalDynstr(job: Job, f: Image)
    requires FileReady(job) && Yields(job, f) && NamesFixed(job.img) && DynReady(job)
    ensures DynstrConsistent(f) && StringsInTable(f)
    ensures f.FindSection(DYNSTR).Some? && DynVal(f.dynamic, DT_STRSZ).Some? ==>
              DynVal(f.dynamic, DT_STRSZ).value == f.shdrs[f.FindSection(DYNSTR).value].size
  {
    SameNamesFinal(job, f);
    SameFind(job.img, f, DYNSTR);
    FinalStrings(job, f);
    FinalStrsz(job, f);
    if job.img.FindSection(DYNSTR).Some? {
      var s := job.img.FindSection(DYNSTR).value;
      FinalTable(job, f, s);
      if DynPos(f.dynamic, DT_STRTAB).Some? {
        FinalStrtab(job, f, s, DynPos(f.dynamic, DT_STRTAB).value);
      }
    }
  }

  /** Entries whose value is a string stay as they are. */
  lemma FinalStrings(job: Job, f: Image)
    requires Yields(job, f) && NamesFixed(job.img)
    ensures |f.dynamic| == |job.img.dynamic| && DynPos(f.dynamic, DT_STRTAB) == DynPos(job.img.dynamic, DT_STRTAB)
    ensures forall d :: d in f.dynamic && d.tag in STR_TAGS ==> d in job.img.dynamic
  {
    FinalTags(job, f);
    TagsIncluded();
    SamePos(f.dynamic, job.img.dynamic, DT_STRTAB);
    forall j | 0 <= j < |f.dynamic| && f.dynamic[j].tag in STR_TAGS
      ensures f.dynamic[j] == job.img.dynamic[j] && f.dynamic[j] in job.img.dynamic
    {
      FinalDynamicEntry(job, f, j);
    }
  }

  /** The string table's size follows the table, if there is one. */
  lemma FinalStrsz(job: Job, f: Image)
    requires Yields(job, f) && NamesFixed(job.img)
    ensures var size := DynVal(f.dynamic, DT_STRSZ);
            size.Some? ==> match f.FindSection(DYNSTR)
                           case Some(s) => s < |f.shdrs| && size.value == f.shdrs[s].size
                           case None => DynVal(job.img.dynamic, DT_STRSZ) == size
    ensures DynVal(f.dynamic, DT_STRSZ).Some? ==> DynVal(job.img.dynamic, DT_STRSZ).Some?
  {
    FinalTags(job, f);
    SamePos(f.dynamic, job.img.dynamic, DT_STRSZ);
    var size := DynPos(f.dynamic, DT_STRSZ);
    if size.Some? {
      FinalDynamicEntry(job, f, size.value);
    }
  }

  lemma FinalTable(job: Job, f: Image, s: nat)
    requires FileReady(job) && Yields(job, f) && s < |job.img.shdrs| && job.img.shdrs[s].shtype != SHT_NOBITS
    ensures s < |f.shdrs| && f.shdrs[s].size == SectionLen(job.img, s)
  {
    FinalShdr(job, f, s);
    if !job.flags[s] {
      assert Kept(job.img, job.flags, s);
    }
  }

  lemma FinalStrtab(job: Job, f: Image, s: nat, j: nat)
    requires FileReady(job) && Yields(job, f) && NamesFixed(job.img) && DynReady(job)
    requires job.img.FindSection(DYNSTR) == Some(s) && DynPos(job.img.dynamic, DT_STRTAB) == Some(j)
    ensures j < |f.dynamic| && s < |f.shdrs| && f.dynamic[j].val == f.shdrs[s].addr
  {
    var r, n := job.g.region, |job.g.region.sections|;
    FinalDynamicEntry(job, f, j);
    FinalShdr(job, f, s);
    assert DT_STRTAB in MOVED_TAGS;
    if job.flags[s] {
      RebaseHit(job.img, r, job.g.at.vaddr, n, job.img.shdrs[s].addr, IndexOf(r.sections, s));
    } else {
      RebaseMiss(job.img, r, job.g.at.vaddr, n, job.img.shdrs[s].addr);
    }
  }

  lemma FinalDynamicSegment(job: Job, f: Image)
    requires Yields(job, f) && NamesFixed(job.img)
    ensures DynamicSegment(f)
  {
    var seg := FindPhdr(f.phdrs, PT_DYNAMIC);
    if seg.Some? {
      SegmentsFrame(job, f, seg.value);
    }
  }

  // ---- All of it ----

  /** Everything a layout needs of its input. */
  ghost predicate Ready(job: Job)
  {
    && FileReady(job) && NamesFixed(job.img)
    && SegmentsReady(job) && MemSite(job) && AnchorReady(job)
    && SectionLinks(job.img) && InterpReady(job) && EntryReady(job) && DynReady(job)
  }

  /** The final image passes every check of `verify::run`. */
  lemma FinalAccepted(job: Job, f: Image)
    requires Ready(job) && Yields(job, f)
    ensures Accepts(f, job.g.total)
  {
    FinalAligns(job, f);
    FinalDisjoint(job, f);
    FinalPht(job, f);
    FinalAnchor(job, f);
    FinalFileBounds(job, f);
    FinalLinks(job, f);
    FinalInterp(job, f);
    FinalEntry(job, f);
    FinalDynstr(job, f);
    FinalDynamicSegment(job, f);
    FinalDynamicAddrs(job, f);
  }
}
