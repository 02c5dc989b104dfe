/** Edits of the dynamic string table (src/ops.rs): appending, and reusing a slot. */
module DynStrings {
  import opened Bytes
  import opened Ir
  import opened SymbolNames

  /** Where a string ended up, and the table that holds it. */
  datatype Stored = Stored(off: nat, tab: seq<byte>)

  function Append(tab: seq<byte>, s: seq<byte>): Stored
  {
    Stored(|tab|, tab + s + [0])
  }

  /** The length of the string a slot holds; an offset past the table holds none. */
  function SlotLen(tab: seq<byte>, off: nat): nat
  {
    match CStr(tab, off) case None => 0 case Some(x) => |x|
  }

  predicate Fits(tab: seq<byte>, reuse: Option<nat>, s: seq<byte>)
  {
    reuse.Some? && |s| <= SlotLen(tab, reuse.value)
  }

  /** A reused slot has room for the string's NUL inside the table. */
  predicate SlotOk(tab: seq<byte>, reuse: Option<nat>, s: seq<byte>)
  {
    Fits(tab, reuse, s) ==> reuse.value + |s| < |tab|
  }

  /** Store `s` in the slot at `reuse` when it fits there, at the end otherwise. */
  function Set(tab: seq<byte>, reuse: Option<nat>, s: seq<byte>): (r: Stored)
    requires SlotOk(tab, reuse, s)
  {
    if Fits(tab, reuse, s) then
      var off := reuse.value;
      Stored(off, Written(tab, off, s))
    else Append(tab, s)
  }

  /** The string at `off` ends with a NUL before the table does. */
  ghost predicate Ends(tab: seq<byte>, off: nat)
  {
    Terminated(tab, off)
  }

  /** What is stored reads back, exactly when it has no NUL in it. */
  lemma SetReads(tab: seq<byte>, reuse: Option<nat>, s: seq<byte>)
    requires SlotOk(tab, reuse, s)
    ensures var r := Set(tab, reuse, s);
            Ends(r.tab, r.off) && (CStr(r.tab, r.off) == Some(s) <==> 0 !in s)
  {
    if Fits(tab, reuse, s) {
      var off := reuse.value;
      var before, after := tab[..off], tab[off + |s| + 1..];
      AppendReads(before, s);
      AppendKeeps(before + s + [0], after, off);
      CStrIsNameAt(before + s + [0] + after, off);
    } else {
      AppendReads(tab, s);
      CStrIsNameAt(tab + s + [0], |tab|);
    }
  }

  /** Setting the same string in the slot it was put in changes nothing. */
  lemma SetAgain(tab: seq<byte>, reuse: Option<nat>, s: seq<byte>)
    requires SlotOk(tab, reuse, s) && 0 !in s
    ensures var r := Set(tab, reuse, s);
            SlotOk(r.tab, Some(r.off), s) && Set(r.tab, Some(r.off), s) == r
  {
    var r := Set(tab, reuse, s);
    SetReads(tab, reuse, s);
    assert Fits(r.tab, Some(r.off), s);
    var end := NulEnd(r.tab, r.off);
    assert r.tab[r.off..end] == s && r.tab[end] == 0;
    assert r.tab == r.tab[..r.off] + s + [0] + r.tab[r.off + |s| + 1..];
  }

  /** Where the string at `off`, its NUL included, meets the bytes that storing `s`
      in the slot at `slot` writes, it already has those bytes. */
  ghost predicate Agrees(tab: seq<byte>, off: nat, slot: nat, s: seq<byte>)
    requires off <= |tab|
  {
    forall i :: off <= i <= NulEnd(tab, off) && slot <= i <= slot + |s| ==> i < |tab| && tab[i] == (s + [0])[i - slot]
  }

  /** A terminated string keeps its value if and only if the table grows or the
      string agrees with the bytes written into the reused slot. */
  lemma SetKeeps(tab: seq<byte>, reuse: Option<nat>, s: seq<byte>, off: nat)
    requires SlotOk(tab, reuse, s) && Ends(tab, off)
    ensures CStr(Set(tab, reuse, s).tab, off) == CStr(tab, off)
            <==> (Fits(tab, reuse, s) ==> Agrees(tab, off, reuse.value, s))
  {
    if Fits(tab, reuse, s) {
      SlotKeeps(tab, reuse.value, s, off);
    } else {
      SeqAssoc(tab, s, [0]);
      AppendKeeps(tab, s + [0], off);
      CStrIsNameAt(tab, off);
      CStrIsNameAt(tab + (s + [0]), off);
    }
  }

  /** A table with the string and its NUL written at `slot`. */
  function Written(tab: seq<byte>, slot: nat, s: seq<byte>): (t: seq<byte>)
    requires slot + |s| < |tab|
    ensures |t| == |tab|
    ensures forall i :: 0 <= i < |t| ==> t[i] == if slot <= i <= slot + |s| then (s + [0])[i - slot] else tab[i]
  {
    tab[..slot] + s + [0] + tab[slot + |s| + 1..]
  }

  lemma SlotKeeps(tab: seq<byte>, slot: nat, s: seq<byte>, off: nat)
    requires slot + |s| < |tab| && Ends(tab, off)
    ensures CStr(Written(tab, slot, s), off) == CStr(tab, off) <==> Agrees(tab, off, slot, s)
  {
    var t, end := Written(tab, slot, s), NulEnd(tab, off);
    if Agrees(tab, off, slot, s) {
      assert forall i :: off <= i <= end ==> t[i] == tab[i];
      NulEndUnique(t, off, end);
      assert t[off..end] == tab[off..end];
    } else if CStr(t, off) == CStr(tab, off) {
      assert |t[off..NulEnd(t, off)]| == |tab[off..end]|;
      forall i | off <= i <= end ensures t[i] == tab[i] {
        assert i < end ==> t[off..end][i - off] == tab[off..end][i - off];
      }
    }
  }

  /** On the bytes from `from` to the string's end, agreeing is being equal: the
      NUL written must meet the string's own. */
  lemma AgreesIs(tab: seq<byte>, off: nat, slot: nat, s: seq<byte>, from: nat)
    requires Ends(tab, off) && off <= from && slot <= from <= slot + |s| <= NulEnd(tab, off)
             && (from == off || from == slot)
    ensures Agrees(tab, off, slot, s) <==> tab[from..NulEnd(tab, off)] == s[from - slot..]
  {
    var end := NulEnd(tab, off);
    if Agrees(tab, off, slot, s) {
      assert tab[slot + |s|] == 0 && slot + |s| == end;
      assert forall i :: from <= i < end ==> tab[i] == s[i - slot];
    }
    if tab[from..end] == s[from - slot..] {
      assert |tab[from..end]| == |s[from - slot..]|;
      assert forall i :: from <= i < end ==>
               tab[from..end][i - from] == tab[i] && s[from - slot..][i - from] == s[i - slot];
    }
  }

  lemma SameNul(tab: seq<byte>, off: nat, from: nat)
    requires Ends(tab, off) && off <= from <= NulEnd(tab, off)
    ensures Ends(tab, from) && NulEnd(tab, from) == NulEnd(tab, off)
  {
    NulEndUnique(tab, from, NulEnd(tab, off));
  }

  lemma FitsBefore(tab: seq<byte>, slot: nat, s: seq<byte>)
    requires Ends(tab, slot) && Fits(tab, Some(slot), s)
    ensures slot + |s| <= slot + SlotLen(tab, slot) == NulEnd(tab, slot) < |tab|
  {
  }

  /** A string none of whose bytes the slot's new contents touch keeps its value. */
  lemma ClearKeeps(tab: seq<byte>, slot: nat, s: seq<byte>, off: nat)
    requires Ends(tab, off) && (NulEnd(tab, off) < slot || slot + |s| < off)
    ensures Agrees(tab, off, slot, s)
  {
  }

  /** A string that starts inside a reused slot, and so shares its tail, keeps its
      value exactly when it lies past the bytes written or the new string has the
      same tail. */
  lemma SharedTail(tab: seq<byte>, slot: nat, s: seq<byte>, off: nat)
    requires Ends(tab, slot) && Fits(tab, Some(slot), s) && slot <= off <= NulEnd(tab, slot)
    ensures SlotOk(tab, Some(slot), s)
    ensures CStr(Set(tab, Some(slot), s).tab, off) == CStr(tab, off)
            <==> slot + |s| < off || CStr(tab, off) == Some(s[off - slot..])
  {
    FitsBefore(tab, slot, s);
    SameNul(tab, slot, off);
    SetKeeps(tab, Some(slot), s, off);
    if slot + |s| < off {
      ClearKeeps(tab, slot, s, off);
    } else {
      AgreesIs(tab, off, slot, s, off);
    }
  }

  /** A string that runs into a reused slot keeps its value exactly when the slot does. */
  lemma SharedHead(tab: seq<byte>, slot: nat, s: seq<byte>, off: nat)
    requires off <= slot <= |tab| && Ends(tab, off) && slot <= NulEnd(tab, off) && Fits(tab, Some(slot), s)
    ensures SlotOk(tab, Some(slot), s)
    ensures CStr(Set(tab, Some(slot), s).tab, off) == CStr(tab, off) <==> CStr(tab, slot) == Some(s)
  {
    SameNul(tab, off, slot);
    SetKeeps(tab, Some(slot), s, off);
    AgreesIs(tab, off, slot, s, slot);
  }

  /** `dynstr_set`: overwrite the slot byte by byte, or append. */
  method SetInPlace(tab: seq<byte>, reuse: Option<nat>, s: seq<byte>) returns (r: Stored)
    requires SlotOk(tab, reuse, s)
    ensures r == Set(tab, reuse, s)
  {
    if reuse.Some? {
      var off := reuse.value;
      var cur := CStr(tab, off);
      var oldLen := match cur case None => 0 case Some(x) => |x|;
      if |s| <= oldLen {
        var t := tab;
        for i := 0 to |s|
          invariant t == tab[..off] + s[..i] + tab[off + i..]
        {
          t := t[off + i := s[i]];
          assert s[..i + 1] == s[..i] + [s[i]];
        }
        t := t[off + |s| := 0];
        assert s[..|s|] == s;
        return Stored(off, t);
      }
    }
    r := Append(tab, s);
  }
}
