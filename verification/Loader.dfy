/** The program a loader builds from a file: the `PT_LOAD` entries mapped in
    table order, file bytes first and zeros up to the memory size. */
module Loader {
  import opened Bytes
  import opened Ir
  import opened Verify
  import Sorting

  /** The byte a single load puts at an address it covers; nothing when the
      file is too short. */
  function LoadByte(file: seq<byte>, p: Phdr, a: nat): Option<byte>
    requires InMemory(p, a)
  {
    var k := a - p.vaddr;
    if k >= p.filesz then Some(0)
    else if p.offset + k < |file| then Some(file[p.offset + k])
    else None
  }

  /** The byte at an address after mapping every load; a later mapping replaces an earlier one. */
  function Mem(file: seq<byte>, loads: seq<Phdr>, a: nat): Option<byte>
  {
    if loads == [] then None
    else
      var p := loads[|loads| - 1];
      if InMemory(p, a) then LoadByte(file, p, a) else Mem(file, loads[..|loads| - 1], a)
  }

  /** The memory image of a file under a program header table. */
  function MemAt(file: seq<byte>, phdrs: seq<Phdr>, a: nat): Option<byte>
  {
    Mem(file, Loads(phdrs), a)
  }

  /** The memory image holds these bytes from an address on. */
  ghost predicate Reads(file: seq<byte>, phdrs: seq<Phdr>, addr: nat, bytes: seq<byte>)
  {
    forall x :: 0 <= x < |bytes| ==> MemAt(file, phdrs, addr + x) == Some(bytes[x])
  }

  /** The only load covering an address decides its byte. */
  lemma {:induction false} MemOnly(file: seq<byte>, loads: seq<Phdr>, k: nat, a: nat)
    requires k < |loads| && InMemory(loads[k], a)
    requires forall j :: 0 <= j < |loads| && j != k ==> !InMemory(loads[j], a)
    ensures Mem(file, loads, a) == LoadByte(file, loads[k], a)
  {
    if k < |loads| - 1 {
      MemOnly(file, loads[..|loads| - 1], k, a);
    }
  }

  predicate MemApart(p: Phdr, q: Phdr)
  {
    p.vaddr + p.memsz <= q.vaddr || q.vaddr + q.memsz <= p.vaddr
  }

  /** Loads that pass the overlap check share no address. */
  lemma DisjointLoads(loads: seq<Phdr>)
    requires MemoryDisjoint(loads)
    ensures Sorting.PairwiseBy(loads, MemApart)
  {
    var ss := Sorting.Sort(loads, VaddrOf);
    forall i, j | 0 <= i < j < |ss|
      ensures MemApart(ss[i], ss[j])
    {
      AscendingFar(ss, i, j);
    }
    Sorting.SortPairwise(loads, VaddrOf, MemApart);
  }

  lemma {:induction false} AscendingFar(ss: seq<Phdr>, i: nat, j: nat)
    requires Ascending(ss) && i < j < |ss|
    ensures ss[i].vaddr + ss[i].memsz <= ss[j].vaddr
  {
    if i < j - 1 {
      AscendingFar(ss, i, j - 1);
      assert ss[j - 1].vaddr + ss[j - 1].memsz <= ss[j].vaddr;
    } else {
      assert ss[i].vaddr + ss[i].memsz <= ss[i + 1].vaddr;
    }
  }

  /** With no overlap, the load covering an address decides its byte. */
  lemma MemOf(file: seq<byte>, loads: seq<Phdr>, p: Phdr, a: nat)
    requires MemoryDisjoint(loads) && p in loads && InMemory(p, a)
    ensures Mem(file, loads, a) == LoadByte(file, p, a)
  {
    DisjointLoads(loads);
    var k :| 0 <= k < |loads| && loads[k] == p;
    forall j | 0 <= j < |loads| && j != k
      ensures !InMemory(loads[j], a)
    {
      if j < k {
        assert MemApart(loads[j], loads[k]);
      } else {
        assert MemApart(loads[k], loads[j]);
      }
    }
    MemOnly(file, loads, k, a);
  }
}
