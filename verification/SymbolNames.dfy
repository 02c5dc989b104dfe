/** Renaming dynamic symbols: new names are appended to `.dynstr` and `st_name` is
    pointed at them (src/symbols.rs). */
module SymbolNames {
  import opened Bytes
  import opened Ir
  import opened Words
  import opened Reorder

  function SymSize(c: Class): nat
  {
    if c.Elf64? then 24 else 16
  }

  /** The symbol table's and the string table's bytes. */
  datatype Tables = Tables(sym: seq<byte>, str: seq<byte>)

  /** The string at `off`, up to a NUL or the table's end; none past the end. */
  function NameAt(str: seq<byte>, off: nat): seq<byte>
  {
    if off > |str| then [] else str[off..NulEnd(str, off)]
  }

  function StName(enc: Enc, rec: seq<byte>): nat
    requires |rec| >= 4
  {
    Get(enc.endian, rec, 0, 4)
  }

  function NameOf(enc: Enc, t: Tables, i: nat): seq<byte>
    requires Span(i, SymSize(enc.class_)) + SymSize(enc.class_) <= |t.sym|
  {
    NameAt(t.str, StName(enc, Record(t.sym, SymSize(enc.class_), i)))
  }

  ghost predicate HasSymbols(enc: Enc, t: Tables, n: nat)
  {
    Span(n, SymSize(enc.class_)) <= |t.sym|
  }

  function Names(enc: Enc, t: Tables, n: nat): (r: seq<seq<byte>>)
    requires HasSymbols(enc, t, n)
    ensures |r| == n
  {
    seq(n, i requires 0 <= i < n => SpanBounds(i, n, SymSize(enc.class_)); NameOf(enc, t, i))
  }

  /** The symbols to rename, in table order, with their new names. */
  function Renames(names: seq<seq<byte>>, remap: map<seq<byte>, seq<byte>>): (r: seq<(nat, seq<byte>)>)
    ensures forall k :: 0 <= k < |r| ==> r[k].0 < |names|
  {
    if names == [] then []
    else
      var n := |names| - 1;
      var r := Renames(names[..n], remap);
      if names[n] in remap then r + [(n, remap[names[n]])] else r
  }

  ghost predicate InTable(renames: seq<(nat, seq<byte>)>, n: nat)
  {
    forall k :: 0 <= k < |renames| ==> renames[k].0 < n
  }

  /** Append each new name and repoint its symbol; a table offset that does not
      fit `st_name` fails. */
  function Renamed(enc: Enc, t: Tables, n: nat, renames: seq<(nat, seq<byte>)>): (r: Option<Tables>)
    requires HasSymbols(enc, t, n) && InTable(renames, n)
    ensures r.Some? ==> |r.value.sym| == |t.sym|
  {
    if renames == [] then Some(t)
    else
      var m := |renames| - 1;
      var (i, name) := renames[m];
      match Renamed(enc, t, n, renames[..m])
      case None => None
      case Some(u) =>
        if |u.str| >= 0x1_0000_0000 then None
        else Some(Repointed(enc, u, n, i, name))
  }

  function Repointed(enc: Enc, u: Tables, n: nat, i: nat, name: seq<byte>): (r: Tables)
    requires HasSymbols(enc, u, n) && i < n
    ensures |r.sym| == |u.sym| && r.str == u.str + name + [0]
  {
    SpanBounds(i, n, SymSize(enc.class_));
    Tables(Put(enc.endian, u.sym, Span(i, SymSize(enc.class_)), 4, |u.str|), u.str + name + [0])
  }

  // ---- Strings survive an append ----

  ghost predicate Terminated(str: seq<byte>, off: nat)
  {
    off < |str| && NulEnd(str, off) < |str|
  }

  /** A terminated string is not changed by appending. */
  lemma AppendKeeps(str: seq<byte>, extra: seq<byte>, off: nat)
    requires Terminated(str, off)
    ensures NameAt(str + extra, off) == NameAt(str, off) && Terminated(str + extra, off)
  {
    NulEndUnique(str + extra, off, NulEnd(str, off));
  }

  /** An appended name reads back exactly when it has no NUL in it. */
  lemma AppendReads(str: seq<byte>, name: seq<byte>)
    ensures Terminated(str + name + [0], |str|)
    ensures NameAt(str + name + [0], |str|) == name <==> 0 !in name
  {
    var tab, off := str + name + [0], |str|;
    assert forall i :: 0 <= i < |name| ==> tab[off + i] == name[i];
    assert tab[off + |name|] == 0;
    if 0 !in name {
      NulEndUnique(tab, off, off + |name|);
      assert tab[off..off + |name|] == name;
    } else {
      var i :| 0 <= i < |name| && name[i] == 0;
      assert NulEnd(tab, off) <= off + i;
      assert |NameAt(tab, off)| < |name|;
    }
  }

  lemma CStrIsNameAt(tab: seq<byte>, off: nat)
    requires off <= |tab|
    ensures CStr(tab, off) == Some(NameAt(tab, off))
  {
  }

  // ---- What a rename changes ----

  /** A symbol record but for its name. */
  function Rest(enc: Enc, t: Tables, i: nat): seq<byte>
    requires Span(i, SymSize(enc.class_)) + SymSize(enc.class_) <= |t.sym|
  {
    Record(t.sym, SymSize(enc.class_), i)[4..]
  }

  ghost predicate AllTerminated(enc: Enc, t: Tables, n: nat)
    requires HasSymbols(enc, t, n)
  {
    forall i :: 0 <= i < n ==> TerminatedName(enc, t, n, i)
  }

  ghost predicate TerminatedName(enc: Enc, t: Tables, n: nat, i: nat)
    requires HasSymbols(enc, t, n) && i < n
  {
    SpanBounds(i, n, SymSize(enc.class_));
    Terminated(t.str, StName(enc, Record(t.sym, SymSize(enc.class_), i)))
  }

  /** The record of a symbol after repointing symbol `j`. */
  lemma RepointedRecord(enc: Enc, u: Tables, n: nat, j: nat, name: seq<byte>, i: nat)
    requires HasSymbols(enc, u, n) && i < n && j < n && |u.str| < 0x1_0000_0000
    ensures Span(i, SymSize(enc.class_)) + SymSize(enc.class_) <= |u.sym|
    ensures var r, w := Repointed(enc, u, n, j, name), SymSize(enc.class_);
            if i == j then StName(enc, Record(r.sym, w, i)) == |u.str| && Rest(enc, r, i) == Rest(enc, u, i)
            else Record(r.sym, w, i) == Record(u.sym, w, i)
  {
    var w := SymSize(enc.class_);
    SpanBounds(i, n, w);
    SpanBounds(j, n, w);
    var r := Repointed(enc, u, n, j, name);
    if i == j {
      GetPut(enc.endian, u.sym, Span(i, w), 4, |u.str|) by { Pow256Widths(); }
      assert Record(r.sym, w, i)[0..4] == r.sym[Span(i, w)..Span(i, w) + 4];
      assert Rest(enc, r, i) == Rest(enc, u, i);
    } else {
      if i < j {
        SpanBounds(i, j, w);
      } else {
        SpanBounds(j, i, w);
      }
      assert Record(r.sym, w, i) == Record(u.sym, w, i);
    }
  }

  /** One rename: the symbol has its new name, every other keeps its own. */
  lemma RepointedName(enc: Enc, u: Tables, n: nat, j: nat, name: seq<byte>, i: nat)
    requires HasSymbols(enc, u, n) && i < n && j < n && |u.str| < 0x1_0000_0000 && 0 !in name
    requires i != j ==> TerminatedName(enc, u, n, i)
    ensures Span(i, SymSize(enc.class_)) + SymSize(enc.class_) <= |u.sym|
    ensures var r := Repointed(enc, u, n, j, name);
            && NameOf(enc, r, i) == (if i == j then name else NameOf(enc, u, i))
            && Rest(enc, r, i) == Rest(enc, u, i) && TerminatedName(enc, r, n, i)
  {
    RepointedRecord(enc, u, n, j, name, i);
    if i == j {
      AppendReads(u.str, name);
    } else {
      SeqAssoc(u.str, name, [0]);
      AppendKeeps(u.str, name + [0], StName(enc, Record(u.sym, SymSize(enc.class_), i)));
    }
  }

  ghost predicate CleanValues(remap: map<seq<byte>, seq<byte>>)
  {
    forall name :: name in remap ==> 0 !in remap[name]
  }

  /** What a name becomes. */
  function NewName(remap: map<seq<byte>, seq<byte>>, name: seq<byte>): seq<byte>
  {
    if name in remap then remap[name] else name
  }

  /** Names change exactly as the map says; nothing else of any record changes. */
  ghost predicate NamesFollow(enc: Enc, t: Tables, u: Tables, n: nat, names: seq<seq<byte>>,
                              remap: map<seq<byte>, seq<byte>>)
    requires HasSymbols(enc, t, n) && HasSymbols(enc, u, n) && |names| <= n
  {
    forall i :: 0 <= i < n ==> NameFollows(enc, t, u, n, names, remap, i)
  }

  ghost predicate NameFollows(enc: Enc, t: Tables, u: Tables, n: nat, names: seq<seq<byte>>,
                              remap: map<seq<byte>, seq<byte>>, i: nat)
    requires HasSymbols(enc, t, n) && HasSymbols(enc, u, n) && |names| <= n && i < n
  {
    SpanBounds(i, n, SymSize(enc.class_));
    && NameOf(enc, u, i) == (if i < |names| then NewName(remap, names[i]) else NameOf(enc, t, i))
    && Rest(enc, u, i) == Rest(enc, t, i) && TerminatedName(enc, u, n, i)
  }

  ghost predicate AreNames(enc: Enc, t: Tables, n: nat, names: seq<seq<byte>>)
    requires HasSymbols(enc, t, n)
  {
    |names| <= n && forall i :: 0 <= i < |names| ==> names[i] == Names(enc, t, n)[i]
  }

  lemma {:induction false} RenamedFollow(enc: Enc, t: Tables, n: nat, names: seq<seq<byte>>,
                                         remap: map<seq<byte>, seq<byte>>)
    requires HasSymbols(enc, t, n) && AllTerminated(enc, t, n) && AreNames(enc, t, n, names) && CleanValues(remap)
    requires InTable(Renames(names, remap), n) && Renamed(enc, t, n, Renames(names, remap)).Some?
    ensures NamesFollow(enc, t, Renamed(enc, t, n, Renames(names, remap)).value, n, names, remap)
  {
    var u := Renamed(enc, t, n, Renames(names, remap)).value;
    if names == [] {
      forall i | 0 <= i < n ensures NameFollows(enc, t, u, n, names, remap, i) {
        assert TerminatedName(enc, t, n, i);
      }
    } else {
      var m := |names| - 1;
      var before := Renames(names[..m], remap);
      if names[m] in remap {
        assert Renames(names, remap)[..|before|] == before;
      }
      RenamedFollow(enc, t, n, names[..m], remap);
      var u' := Renamed(enc, t, n, before).value;
      forall i | 0 <= i < n ensures NameFollows(enc, t, u, n, names, remap, i) {
        RenamedStep(enc, t, u', n, names, remap, i);
      }
    }
  }

  lemma RenamedStep(enc: Enc, t: Tables, u: Tables, n: nat, names: seq<seq<byte>>,
                    remap: map<seq<byte>, seq<byte>>, i: nat)
    requires HasSymbols(enc, t, n) && HasSymbols(enc, u, n) && i < n && AreNames(enc, t, n, names) && names != []
    requires NameFollows(enc, t, u, n, names[..|names| - 1], remap, i) && CleanValues(remap)
    requires names[|names| - 1] in remap ==> |u.str| < 0x1_0000_0000
    ensures var m := |names| - 1;
            var r := if names[m] in remap then Repointed(enc, u, n, m, remap[names[m]]) else u;
            NameFollows(enc, t, r, n, names, remap, i)
  {
    var m := |names| - 1;
    SpanBounds(i, n, SymSize(enc.class_));
    if names[m] in remap {
      RepointedName(enc, u, n, m, remap[names[m]], i);
    } else if i == m {
      assert names[m] == NameOf(enc, t, m);
    }
  }
}
