/** Adding a section with its name, as the entry stub (src/stub.rs) and the ld-cache
    note (src/ldcache.rs) do. */
module NewSection {
  import opened Bytes
  import opened Ir
  import SymbolNames

  /** Every section's name is terminated in the name table. */
  ghost predicate NamesTerminated(v: Image)
  {
    && v.ehdr.shstrndx < |v.data|
    && forall i :: 0 <= i < |v.shdrs| ==> SymbolNames.Terminated(v.data[v.ehdr.shstrndx], v.shdrs[i].name)
  }

  /** Room for one more name in the name table. */
  predicate NameFits(v: Image)
  {
    v.ehdr.shstrndx < |v.data| && |v.data[v.ehdr.shstrndx]| < 0x1_0000_0000
  }

  /** The image with one more section and its name, last in both tables. */
  function WithSection(v: Image, name: seq<byte>, s: Shdr, bytes: seq<byte>): (w: Image)
    requires NameFits(v)
  {
    var names := v.data[v.ehdr.shstrndx];
    v.(data := v.data[v.ehdr.shstrndx := names + name + [0]] + [bytes], shdrs := v.shdrs + [s.(name := |names|)])
  }

  /** Every section keeps its name; the new one has the one it was given. */
  lemma WithSectionNames(v: Image, name: seq<byte>, s: Shdr, bytes: seq<byte>)
    requires |v.data| == |v.shdrs| && NamesTerminated(v) && NameFits(v) && 0 !in name
    ensures var w := WithSection(v, name, s, bytes);
            && NamesTerminated(w) && |w.shdrs| == |v.shdrs| + 1
            && w.SectionName(|v.shdrs|) == Some(name)
            && forall i :: 0 <= i < |v.shdrs| ==> w.SectionName(i) == v.SectionName(i)
  {
    var w, names := WithSection(v, name, s, bytes), v.data[v.ehdr.shstrndx];
    var table := names + name + [0];
    assert w.data[v.ehdr.shstrndx] == table;
    SymbolNames.AppendReads(names, name);
    SeqAssoc(names, name, [0]);
    forall i | 0 <= i < |v.shdrs|
      ensures w.SectionName(i) == v.SectionName(i) && SymbolNames.Terminated(table, w.shdrs[i].name)
    {
      SymbolNames.AppendKeeps(names, name + [0], v.shdrs[i].name);
      SymbolNames.CStrIsNameAt(table, v.shdrs[i].name);
      SymbolNames.CStrIsNameAt(names, v.shdrs[i].name);
    }
    SymbolNames.CStrIsNameAt(table, |names|);
    forall i | 0 <= i < |w.shdrs|
      ensures SymbolNames.Terminated(w.data[w.ehdr.shstrndx], w.shdrs[i].name)
    {
      if i == |v.shdrs| {
        assert w.shdrs[i].name == |names|;
      }
    }
  }

  /** An ASCII name without a NUL character has no NUL byte. */
  lemma AsciiClean(s: string)
    requires forall i :: 0 <= i < |s| ==> 0 < s[i] as int < 0x100
    ensures 0 !in Ascii(s)
  {
    forall i | 0 <= i < |s| ensures Ascii(s)[i] != 0 {
      assert Ascii(s)[i] == s[i] as int % 0x100;
    }
  }
}
