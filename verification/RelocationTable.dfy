/**
  * The tables that the relocators read, as a linker writes them: the dynamic section
  * and the relocation entries of ELF64, with their tags and types as numbers.
  */
module RelocationTable {
  import opened Machine
  import opened Relocation

  // ---------- the dynamic section ----------

  /** Entry `i` is the last of the first `n` that has a tag. */
  predicate LastWith(m: seq<Word>, d: nat, n: nat, tag: nat, i: nat)
    requires d + 2 * n <= |m|
  {
    i < n && m[d + 2 * i] == tag && forall j :: i < j < n ==> m[d + 2 * j] != tag
  }

  lemma {:induction false} TaggedIs(m: seq<Word>, d: nat, n: nat, tag: nat, i: nat)
    requires d + 2 * n <= |m| && LastWith(m, d, n, tag, i)
    ensures Tagged(m, d, n, tag) == m[d + 2 * i + 1]
  {
    if i < n - 1 {
      TaggedIs(m, d, n - 1, tag, i);
    }
  }

  lemma {:induction false} TaggedNone(m: seq<Word>, d: nat, n: nat, tag: nat)
    requires d + 2 * n <= |m| && forall j :: 0 <= j < n ==> m[d + 2 * j] != tag
    ensures Tagged(m, d, n, tag) == -1
  {
    if n > 0 {
      TaggedNone(m, d, n - 1, tag);
    }
  }

  /** DT_RELA is 7, DT_RELASZ 8 and DT_RELAENT 9; of several entries with a tag the last counts. */
  lemma PlaceRead(m: seq<Word>, d: nat, n: nat, base: Word, i: nat)
    requires d + 2 * n <= |m| && i < n
    ensures var p, v := PlaceOf(m, d, n, base), m[d + 2 * i + 1];
            && (LastWith(m, d, n, 7, i) ==> p.at == v && (p.found <==> (v + base) % 0x1_0000_0000_0000_0000 != 0))
            && (LastWith(m, d, n, 8, i) ==> p.size == Signed(v))
            && (LastWith(m, d, n, 9, i) ==> p.step == Signed(v))
  {
    hide Tagged;
    if LastWith(m, d, n, 7, i) {
      TaggedIs(m, d, n, 7, i);
    }
    if LastWith(m, d, n, 8, i) {
      TaggedIs(m, d, n, 8, i);
    }
    if LastWith(m, d, n, 9, i) {
      TaggedIs(m, d, n, 9, i);
    }
  }

  /** What is missing counts as zero, and a missing table as none. */
  lemma PlaceMissing(m: seq<Word>, d: nat, n: nat, base: Word)
    requires d + 2 * n <= |m|
    ensures var p := PlaceOf(m, d, n, base);
            && ((forall j :: 0 <= j < n ==> m[d + 2 * j] != 7) ==> !p.found)
            && ((forall j :: 0 <= j < n ==> m[d + 2 * j] != 8) ==> p.size == 0)
            && ((forall j :: 0 <= j < n ==> m[d + 2 * j] != 9) ==> p.step == 0)
  {
    hide Tagged;
    if forall j :: 0 <= j < n ==> m[d + 2 * j] != 7 {
      TaggedNone(m, d, n, 7);
    }
    if forall j :: 0 <= j < n ==> m[d + 2 * j] != 8 {
      TaggedNone(m, d, n, 8);
    }
    if forall j :: 0 <= j < n ==> m[d + 2 * j] != 9 {
      TaggedNone(m, d, n, 9);
    }
  }

  /** A table without entry size, or an entry size without table, is a load error; neither, or both, is none. */
  lemma StatusValues(p: Place)
    ensures p.found && p.step != 0 ==> StatusOf(p) == 0
    ensures !p.found && p.step == 0 ==> StatusOf(p) == 0
    ensures p.found && p.step == 0 ==> StatusOf(p) == 0x8000_0000_0000_0001
    ensures !p.found && p.step != 0 ==> StatusOf(p) == 0x8000_0000_0000_0001
  {
  }

  // ---------- the entries ----------

  type Half = x: int | 0 <= x < TWO32

  /** Elf64_Rela: what to relocate, how, and with which addend. */
  datatype Rela = Rela(offset: Word, symbol: Half, kind: Half, addend: Word) {
    function Words(): (ws: seq<Word>)
      ensures |ws| == 3
    {
      [offset, symbol * TWO32 + kind, addend]
    }
  }

  function Table(rs: seq<Rela>): (ws: seq<Word>)
    ensures |ws| == 3 * |rs|
  {
    if rs == [] then [] else rs[0].Words() + Table(rs[1..])
  }

  /** The entries of a table, with those of one type marked. */
  function Marked(rs: seq<Rela>, kind: nat): (es: seq<Entry>)
    ensures |es| == |rs|
  {
    if rs == [] then [] else [Entry(rs[0].offset, rs[0].kind == kind, rs[0].addend)] + Marked(rs[1..], kind)
  }

  lemma TypeRead(r: Rela)
    ensures (r.symbol * TWO32 + r.kind) % TWO32 == r.kind
  {
  }

  /** A table in memory is read back entry by entry. */
  lemma {:induction false} EntriesRead(m: seq<Word>, w: nat, rs: seq<Rela>, kind: nat)
    requires w + 3 * |rs| <= |m| && m[w..w + 3 * |rs|] == Table(rs)
    ensures Entries(m, w, 3, |rs|, kind) == Marked(rs, kind)
    decreases |rs|
  {
    if rs != [] {
      var r := rs[0];
      TypeRead(r);
      FirstRead(m, w, rs);
      EntriesRead(m, w + 3, rs[1..], kind);
    }
  }

  lemma FirstRead(m: seq<Word>, w: nat, rs: seq<Rela>)
    requires rs != [] && w + 3 * |rs| <= |m| && m[w..w + 3 * |rs|] == Table(rs)
    ensures m[w] == rs[0].offset && m[w + 1] == rs[0].symbol * TWO32 + rs[0].kind && m[w + 2] == rs[0].addend
    ensures m[w + 3..w + 3 + 3 * |rs[1..]|] == Table(rs[1..])
  {
    var t := m[w..w + 3 * |rs|];
    assert t == rs[0].Words() + Table(rs[1..]);
    assert t[0] == m[w] && t[1] == m[w + 1] && t[2] == m[w + 2];
    assert t[3..] == Table(rs[1..]) && t[3..] == m[w + 3..w + 3 * |rs|];
  }

  /** A table of whole entries of 24 bytes, where the dynamic section says, is read as the linker wrote it. */
  lemma TableRead(m: seq<Word>, p: Place, rs: seq<Rela>, kind: nat)
    requires p.step == 24 && p.size == 24 * |rs| && p.at % 8 == 0
    requires p.at / 8 + 3 * |rs| <= |m| && m[p.at / 8..p.at / 8 + 3 * |rs|] == Table(rs)
    ensures EntriesOf(m, p, kind) == Marked(rs, kind)
  {
    hide Entries, Rounds;
    WholeTable(|rs|, 24);
    assert |rs| * 24 == 24 * |rs|;
    EntriesRead(m, p.at / 8, rs, kind);
  }

  // ---------- what becomes of the image ----------

  /** How many entries of a type name a word. */
  function Named(rs: seq<Rela>, kind: nat, w: nat): nat {
    if rs == [] then 0 else (if rs[0].kind == kind && rs[0].offset / 8 == w then 1 else 0) + Named(rs[1..], kind, w)
  }

  lemma {:induction false} NamedCounts(rs: seq<Rela>, kind: nat, w: nat)
    ensures Count(Marked(rs, kind), w) == Named(rs, kind, w)
  {
    if rs != [] {
      NamedCounts(rs[1..], kind, w);
    }
  }

  /**
    * x86_64: every word grows by the base once for each entry of type 8 (relative) that
    * names it, modulo 2^64; entries of other types do nothing.
    */
  lemma ImageOfX86(m: seq<Word>, p: Place, rs: seq<Rela>, base: Word, w: nat)
    requires p.step == 24 && p.size == 24 * |rs| && p.at % 8 == 0 && w < |m|
    requires p.at / 8 + 3 * |rs| <= |m| && m[p.at / 8..p.at / 8 + 3 * |rs|] == Table(rs)
    ensures Added(m, EntriesOf(m, p, R_X86_64_RELATIVE), base)[w]
      == (m[w] + Named(rs, 8, w) * base) % 0x1_0000_0000_0000_0000
  {
    hide Added, EntriesOf, Count;
    TableRead(m, p, rs, 8);
    NamedCounts(rs, 8, w);
    AddedCounts(m, Marked(rs, 8), base, w);
  }

  /** No two entries of a type name the same word. */
  predicate Once(rs: seq<Rela>, kind: nat) {
    forall i, j :: 0 <= i < j < |rs| && rs[i].kind == kind && rs[j].kind == kind ==>
      rs[i].offset / 8 != rs[j].offset / 8
  }

  lemma {:induction false} MarkedAt(rs: seq<Rela>, kind: nat, i: nat)
    requires i < |rs|
    ensures Marked(rs, kind)[i] == Entry(rs[i].offset, rs[i].kind == kind, rs[i].addend)
  {
    if i > 0 {
      MarkedAt(rs[1..], kind, i - 1);
    }
  }

  /**
    * AArch64: a word that an entry of type 1027 (relative) names holds base and addend,
    * and a word that none names is as it was.
    */
  lemma ImageOfAarch64(m: seq<Word>, p: Place, rs: seq<Rela>, base: Word, i: nat, w: nat)
    requires p.step == 24 && p.size == 24 * |rs| && p.at % 8 == 0 && w < |m| && Once(rs, 1027)
    requires p.at / 8 + 3 * |rs| <= |m| && m[p.at / 8..p.at / 8 + 3 * |rs|] == Table(rs)
    ensures var image := Stored(m, EntriesOf(m, p, R_AARCH64_RELATIVE), base);
            && (i < |rs| && rs[i].kind == 1027 && rs[i].offset / 8 == w ==>
                  image[w] == (base + rs[i].addend) % 0x1_0000_0000_0000_0000)
            && (Named(rs, 1027, w) == 0 ==> image[w] == m[w])
  {
    hide Stored, EntriesOf, Count, Marked, Added;
    var es := Marked(rs, 1027);
    TableRead(m, p, rs, 1027);
    NamedCounts(rs, 1027, w);
    if Named(rs, 1027, w) == 0 {
      StoredElsewhere(m, es, base, w);
    }
    if i < |rs| && rs[i].kind == 1027 && rs[i].offset / 8 == w {
      forall j | 0 <= j < |rs| ensures es[j] == Entry(rs[j].offset, rs[j].kind == 1027, rs[j].addend) {
        MarkedAt(rs, 1027, j);
      }
      Relocation.Named(m, es, base, i);
    }
  }
}
