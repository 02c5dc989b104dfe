/** When `place_relocated` (src/layout.rs) refuses to move a section: some loaded
    relocation or symbol names an address inside it. */
module AddressRefs {
  import opened Bytes
  import opened Ir
  import opened Serialize
  import opened Layout
  import Align
  import RegionFacts

  /** Record `r` of a table of this type (gABI numbers) names the address `v`: the
      `r_offset` of a relocation or the `st_value` of a symbol. */
  ghost predicate Addresses64(e: Endian, t: u32, b: seq<byte>, r: nat, v: nat)
  {
    || (t == 4 && 24 * r + 24 <= |b| && v == Get(e, b, 24 * r, 8))
    || (t == 9 && 16 * r + 16 <= |b| && v == Get(e, b, 16 * r, 8))
    || ((t == 11 || t == 2) && 24 * r + 24 <= |b| && v == Get(e, b, 24 * r + 8, 8))
  }

  ghost predicate Addresses32(e: Endian, t: u32, b: seq<byte>, r: nat, v: nat)
  {
    || (t == 4 && 12 * r + 12 <= |b| && v == Get(e, b, 12 * r, 4))
    || (t == 9 && 8 * r + 8 <= |b| && v == Get(e, b, 8 * r, 4))
    || ((t == 11 || t == 2) && 16 * r + 16 <= |b| && v == Get(e, b, 16 * r + 4, 4))
  }

  ghost predicate Addresses(enc: Enc, t: u32, b: seq<byte>, r: nat, v: nat)
  {
    if enc.class_.Elf64? then Addresses64(enc.endian, t, b, r, v) else Addresses32(enc.endian, t, b, r, v)
  }

  /** Record `r` of section `i`, which is loaded (`SHF_ALLOC`), names `v`. */
  ghost predicate Names(img: Image, i: nat, r: nat, v: nat)
    requires WellShaped(img)
  {
    && i < |img.shdrs| && img.shdrs[i].flags / 2 % 2 == 1
    && Addresses(img.enc, img.shdrs[i].shtype, img.data[i], r, v)
  }

  // ---- The scan of one section ----

  lemma RecordCount(n: nat, stride: nat, r: nat)
    requires stride > 0
    ensures r < n / stride <==> r * stride + stride <= n
  {
    if r < n / stride {
      RecordInside(n, stride, r);
    } else {
      Align.DivModFacts(n, stride);
      assert stride * (n / stride) <= stride * r;
    }
  }

  /** The records the scan reads are those the gABI's layouts name. */
  lemma ScanReads(enc: Enc, t: u32, b: seq<byte>, r: nat, v: nat)
    ensures var f := AddressField(enc.class_, t);
            Addresses(enc, t, b, r, v)
            <==> f.Field? && r * f.stride + f.stride <= |b| && v == Get(enc.endian, b, r * f.stride + f.fo, f.width)
  {
  }

  lemma FieldNamed(enc: Enc, t: u32, b: seq<byte>, r: nat, ranges: seq<(nat, nat)>)
    requires AddressField(enc.class_, t).Field? && r < |b| / AddressField(enc.class_, t).stride
    ensures var f := AddressField(enc.class_, t);
            FieldHits(enc.endian, b, r, f.stride, f.fo, f.width, ranges)
            ==> exists v :: Addresses(enc, t, b, r, v) && Hits(ranges, v)
  {
    var f := AddressField(enc.class_, t);
    RecordInside(|b|, f.stride, r);
    ScanReads(enc, t, b, r, Get(enc.endian, b, r * f.stride + f.fo, f.width));
  }

  lemma NamedField(enc: Enc, t: u32, b: seq<byte>, r: nat, v: nat, ranges: seq<(nat, nat)>)
    requires Addresses(enc, t, b, r, v) && Hits(ranges, v)
    ensures var f := AddressField(enc.class_, t);
            f.Field? && r < |b| / f.stride && FieldHits(enc.endian, b, r, f.stride, f.fo, f.width, ranges)
  {
    ScanReads(enc, t, b, r, v);
    RecordCount(|b|, AddressField(enc.class_, t).stride, r);
  }

  lemma SectionRefs(img: Image, i: nat, ranges: seq<(nat, nat)>)
    requires WellShaped(img) && i < |img.shdrs|
    ensures References(img, i, ranges) <==> exists r, v :: Names(img, i, r, v) && Hits(ranges, v)
  {
    var t, b := img.shdrs[i].shtype, img.data[i];
    var f := AddressField(img.enc.class_, t);
    if References(img, i, ranges) {
      var r: nat :| r < |b| / f.stride && FieldHits(img.enc.endian, b, r, f.stride, f.fo, f.width, ranges);
      FieldNamed(img.enc, t, b, r, ranges);
      var v :| Addresses(img.enc, t, b, r, v) && Hits(ranges, v);
      assert Names(img, i, r, v);
    }
    if r, v :| Names(img, i, r, v) && Hits(ranges, v) {
      NamedField(img.enc, t, b, r, v, ranges);
    }
  }

  // ---- The whole scan ----

  /** The scan passes exactly when no loaded record names an address in a range. */
  lemma ScanExact(img: Image, ranges: seq<(nat, nat)>)
    requires WellShaped(img)
    ensures NoAddressRefs(img, ranges) <==> forall i, r, v :: Names(img, i, r, v) ==> !Hits(ranges, v)
  {
    if NoAddressRefs(img, ranges) {
      forall i, r, v | Names(img, i, r, v) ensures !Hits(ranges, v) {
        SectionRefs(img, i, ranges);
      }
    } else {
      var i :| 0 <= i < |img.shdrs| && References(img, i, ranges);
      SectionRefs(img, i, ranges);
    }
  }

  /** The section had an address, and `v` lies in its extent. */
  ghost predicate Inside(s: Shdr, v: nat)
  {
    s.addr != 0 && s.addr <= v < s.addr + s.size
  }

  lemma {:induction false} OldRangesHit(img: Image, secs: seq<nat>, n: nat, v: nat)
    requires InRange(img, secs) && n <= |secs|
    ensures Hits(OldRanges(img, secs, n), v) <==> exists k :: 0 <= k < n && Inside(img.shdrs[secs[k]], v)
  {
    if n > 0 {
      OldRangesHit(img, secs, n - 1, v);
      var before, s := OldRanges(img, secs, n - 1), img.shdrs[secs[n - 1]];
      if s.addr != 0 {
        HitsMore(before, (s.addr, s.size), v);
      } else {
        assert before + [] == before;
      }
      if k :| 0 <= k < n && Inside(img.shdrs[secs[k]], v) {
        assert k < n - 1 || k == n - 1;
      }
    }
  }

  lemma HitsMore(ranges: seq<(nat, nat)>, x: (nat, nat), v: nat)
    ensures Hits(ranges + [x], v) <==> Hits(ranges, v) || x.0 <= v < x.0 + x.1
  {
    assert x in ranges + [x];
    assert forall y :: y in ranges ==> y in ranges + [x];
  }

  /** Record `r` of section `i` names an address in the old place of `k`, which moves. */
  ghost predicate Clash(img: Image, flags: seq<bool>, i: nat, r: nat, k: nat)
    requires WellShaped(img) && |flags| == |img.shdrs|
  {
    k < |flags| && flags[k] && exists v :: Names(img, i, r, v) && Inside(img.shdrs[k], v)
  }

  /** Nothing that stays loaded names an address in the old place of a moved section. */
  lemma ClashIff(img: Image, flags: seq<bool>, secs: seq<nat>)
    requires WellShaped(img) && |flags| == |img.shdrs| && InRange(img, secs)
    requires forall i :: i in secs <==> 0 <= i < |flags| && flags[i]
    ensures NoAddressRefs(img, OldRanges(img, secs, |secs|)) <==> forall i, r, k :: !Clash(img, flags, i, r, k)
  {
    var ranges := OldRanges(img, secs, |secs|);
    ScanExact(img, ranges);
    if NoAddressRefs(img, ranges) {
      forall i: nat, r: nat, k: nat | Clash(img, flags, i, r, k) ensures false {
        var v: nat :| Names(img, i, r, v) && Inside(img.shdrs[k], v);
        var m :| 0 <= m < |secs| && secs[m] == k;
        OldRangesHit(img, secs, |secs|, v);
      }
    } else {
      var i, r, v :| Names(img, i, r, v) && Hits(ranges, v);
      OldRangesHit(img, secs, |secs|, v);
      var m :| 0 <= m < |secs| && Inside(img.shdrs[secs[m]], v);
      assert secs[m] in secs && Clash(img, flags, i, r, secs[m]);
    }
  }

  /** The append layout refuses exactly when a loaded record names an address in the
      old place of a section it moves. */
  lemma AppendRefusedIff(img: Image, flags: seq<bool>, cut: nat, page: nat)
    requires WellShaped(img) && |flags| == |img.shdrs|
    ensures Appended(img, flags, cut, page) == Err(UnsupportedError) <==> exists i, r, k :: Clash(img, flags, i, r, k)
  {
    var head1, head2 := AppendPhtSize(img, 1) + ShtSize(img), AppendPhtSize(img, 2) + ShtSize(img);
    RegionFacts.PlanOk(img, flags, head1, head2, page);
    ClashIff(img, flags, Plan(img, flags, head1, head2, page).sections);
  }

  /** So does the prepend layout. */
  lemma PrependRefusedIff(img: Image, flags: seq<bool>, origLen: nat, page: nat, keepTail: bool)
    requires WellShaped(img) && |flags| == |img.shdrs| && page > 0 && CanPrepend(img, flags, page, keepTail)
    ensures Prepended(img, flags, origLen, page, keepTail) == Err(UnsupportedError)
            <==> exists i, r, k :: Clash(img, flags, i, r, k)
  {
    var head1, head2 := PrependHead(img, 1, keepTail), PrependHead(img, 2, keepTail);
    RegionFacts.PlanOk(img, flags, head1, head2, page);
    ClashIff(img, flags, Plan(img, flags, head1, head2, page).sections);
  }
}
