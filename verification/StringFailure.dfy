/** A concrete input on which setting the run path (src/rpath.rs) renames a library:
    the two strings share a tail in the dynamic string table, as linkers lay them out. */
module StringFailure {
  import opened Bytes
  import opened Ir
  import opened Codec
  import opened Parser
  import opened SampleFiles
  import opened DynStrings
  import Needed
  import Rpath

  const OLD_PATH: seq<byte> := Ascii("/a/lib")
  const NEW_PATH: seq<byte> := Ascii("/libs")
  const LIBRARY: seq<byte> := Ascii("lib")

  /** The path at 1; the library's name is its tail, at 4. */
  const STRINGS: seq<byte> := [0] + OLD_PATH + [0]
  const TAGS: seq<DynEntry> := [DynEntry(DT_NEEDED, 4), DynEntry(DT_RUNPATH, 1), DynEntry(DT_NULL, 0)]

  lemma TheStrings()
    ensures |STRINGS| == 8 && CStr(STRINGS, 1) == Some(OLD_PATH) && CStr(STRINGS, 4) == Some(LIBRARY)
  {
    assert STRINGS == [0, '/' as int, 'a' as int, '/' as int, 'l' as int, 'i' as int, 'b' as int, 0];
    NulEndUnique(STRINGS, 1, 7);
    NulEndUnique(STRINGS, 4, 7);
    assert STRINGS[1..7] == OLD_PATH && STRINGS[4..7] == LIBRARY;
  }

  /** The new path is shorter, so it goes into the old one's slot. */
  lemma TheWritten()
    ensures |STRINGS| == 8 && SlotOk(STRINGS, Some(1), NEW_PATH) && DynStrings.Fits(STRINGS, Some(1), NEW_PATH)
    ensures var t := Set(STRINGS, Some(1), NEW_PATH);
            t.off == 1 && CStr(t.tab, 1) == Some(NEW_PATH) && CStr(t.tab, 4) == Some(Ascii("bs"))
  {
    TheStrings();
    var t := Set(STRINGS, Some(1), NEW_PATH).tab;
    assert t == [0, '/' as int, 'l' as int, 'i' as int, 'b' as int, 's' as int, 0, 0];
    NulEndUnique(t, 1, 6);
    NulEndUnique(t, 4, 6);
    assert t[1..6] == NEW_PATH && t[4..6] == Ascii("bs");
  }

  // ---- Reading the array ----

  lemma ReadsTags(tab: seq<byte>, path: seq<byte>, lib: seq<byte>)
    requires CStr(tab, 1) == Some(path) && CStr(tab, 4) == Some(lib)
    ensures Rpath.Scan(TAGS, tab, []) == path && Needed.Libs(TAGS, tab) == [lib]
  {
    assert TAGS[1..] == [DynEntry(DT_RUNPATH, 1), DynEntry(DT_NULL, 0)];
    assert TAGS[1..][1..] == [DynEntry(DT_NULL, 0)];
    assert Needed.Libs(TAGS[1..][1..], tab) == [];
    assert Needed.Libs(TAGS[1..], tab) == [];
    assert Needed.NameIn(TAGS[0], tab) == [lib];
  }

  /** The one entry of the path is live, and reused as it is. */
  lemma SamePath()
    ensures Rpath.Reuse(TAGS) == Some(1) && Rpath.WithPath(TAGS, false, 1) == TAGS
  {
    Rpath.LiveIs(TAGS, 2);
    var bs := Rpath.Existing(TAGS);
    assert !bs[0] && bs[1] && !bs[2];
    FirstTrueIs(bs, 1);
    assert TAGS[1].tag == DT_RUNPATH;
    assert Rpath.Repointed(TAGS, false, 1) == TAGS;
  }

  /** A program whose file has the library as the tail of its run path: setting a
      shorter path overwrites the slot, and the program asks for another library. */
  lemma SharedTailRenames(ident: seq<byte>) returns (v: Image, file: seq<byte>, w: Image)
    requires IdentOk(ident, Enc(Elf64, Little))
    ensures Parse(file) == Ok(v) && Rpath.Linked(v, 1) && Rpath.Read(v) == Ok(OLD_PATH)
            && Needed.NeededOf(v) == Ok([LIBRARY])
    ensures Rpath.SetOk(v, NEW_PATH) && Rpath.SetPath(v, NEW_PATH, false) == Ok(w)
    ensures Rpath.Read(w) == Ok(NEW_PATH) && Needed.NeededOf(w) == Ok([Ascii("bs")])
  {
    TheStrings();
    var tags;
    v, file, tags := LinkedFile(ident, 0x10000, STRINGS, TAGS);
    w := RunPathSet(v, ident, tags);
  }

  lemma RunPathSet(v: Image, ident: seq<byte>, tags: seq<byte>) returns (w: Image)
    requires v == SampleFiles.Linked(ident, 0x10000, STRINGS, TAGS, tags)
    ensures Rpath.Linked(v, 1) && Rpath.Read(v) == Ok(OLD_PATH) && Needed.NeededOf(v) == Ok([LIBRARY])
    ensures Rpath.SetOk(v, NEW_PATH) && Rpath.SetPath(v, NEW_PATH, false) == Ok(w)
    ensures Rpath.Read(w) == Ok(NEW_PATH) && Needed.NeededOf(w) == Ok([Ascii("bs")])
  {
    LinkedFinds(v, ident, 0x10000, STRINGS, TAGS, tags);
    TheStrings();
    TheWritten();
    SamePath();
    ReadsTags(STRINGS, OLD_PATH, LIBRARY);
    var t := Set(STRINGS, Some(1), NEW_PATH).tab;
    ReadsTags(t, NEW_PATH, Ascii("bs"));
    w := Rpath.SetPath(v, NEW_PATH, false).value;
    Rpath.LinkedKept(v, 1, STRINGS, TAGS);
    Rpath.LinkedKept(v, 1, t, TAGS);
  }
}
