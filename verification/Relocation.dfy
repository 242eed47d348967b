/**
  * The self-relocating entry code: it finds the relocation table through the
  * dynamic section and patches the image, of which both are part.  Memory is an
  * array of 64-bit words, addressed from the start of the image.
  */
module Relocation {
  import opened Arith
  import opened Machine

  const DT_NULL := 0
  const DT_RELA := 7
  const DT_RELASZ := 8
  const DT_RELAENT := 9
  const R_X86_64_RELATIVE := 8
  const R_AARCH64_RELATIVE := 1027

  type Word = x: int | 0 <= x < TWO64

  function Plus(a: Word, b: Word): Word {
    (a + b) % TWO64
  }

  /** A word read as a signed number. */
  function Signed(a: Word): int {
    if a < TWO63 then a else a - TWO64
  }

  // ---------- the dynamic section ----------

  /** The section at word `d` has `n` entries in front of the terminating one. */
  ghost predicate Dynamic(m: seq<Word>, d: nat, n: nat) {
    && d + 2 * n < |m| && m[d + 2 * n] == DT_NULL
    && forall i :: 0 <= i < n ==> m[d + 2 * i] != DT_NULL
  }

  /** The value of the last of the first `n` entries that has a tag. */
  function Tagged(m: seq<Word>, d: nat, n: nat, tag: nat): (v: int)
    requires d + 2 * n <= |m|
    ensures -1 <= v < TWO64
  {
    if n == 0 then -1 else if m[d + 2 * (n - 1)] == tag then m[d + 2 * (n - 1) + 1] else Tagged(m, d, n - 1, tag)
  }

  function OrZero(v: int): Word
    requires -1 <= v < TWO64
  {
    if v == -1 then 0 else v
  }

  /** Where the table is (no place, if that adds up to address zero), its size and the size of an entry. */
  datatype Place = Place(found: bool, at: Word, size: int, step: int)

  function PlaceOf(m: seq<Word>, d: nat, n: nat, base: Word): Place
    requires d + 2 * n <= |m|
  {
    var at := Tagged(m, d, n, DT_RELA);
    Place(at != -1 && Plus(OrZero(at), base) != 0, OrZero(at),
          Signed(OrZero(Tagged(m, d, n, DT_RELASZ))), Signed(OrZero(Tagged(m, d, n, DT_RELAENT))))
  }

  /** Scans the dynamic section; later entries override earlier ones. */
  method FindTable(image: array<Word>, base: Word, d: nat, ghost n: nat) returns (p: Place)
    requires Dynamic(image[..], d, n)
    ensures p == PlaceOf(image[..], d, n, base)
  {
    var rel, at: Word, size, step := false, 0, 0, 0;
    var i := 0;
    while image[d + 2 * i] != DT_NULL
      invariant 0 <= i <= n
      invariant Place(rel, at, size, step) == PlaceOf(image[..], d, i, base)
      decreases n - i
    {
      var tag, value := image[d + 2 * i], image[d + 2 * i + 1];
      if tag == DT_RELA {
        rel, at := Plus(value, base) != 0, value;
      } else if tag == DT_RELASZ {
        size := Signed(value);
      } else if tag == DT_RELAENT {
        step := Signed(value);
      }
      i := i + 1;
    }
    p := Place(rel, at, size, step);
  }

  // ---------- relocation entries ----------

  /** An entry: the address it names, whether it is relative to the load base, and its addend. */
  datatype Entry = Entry(offset: Word, relative: bool, addend: Word)

  function ReadEntry(m: seq<Word>, w: nat, kind: nat): Entry {
    if w + 1 < |m| then Entry(m[w], m[w + 1] % TWO32 == kind, if w + 2 < |m| then m[w + 2] else 0)
    else Entry(0, false, 0)
  }

  /** How often the loop goes round. */
  function Rounds(size: int, step: int): nat
    requires step > 0
    decreases size
  {
    if size <= 0 then 0 else 1 + Rounds(size - step, step)
  }

  /** A table of `k` whole entries is read entry by entry. */
  lemma {:induction false} WholeTable(k: nat, step: int)
    requires step > 0
    ensures Rounds(k * step, step) == k
  {
    if k > 0 {
      WholeTable(k - 1, step);
      assert k * step - step == (k - 1) * step;
      assert k * step > 0;
    }
  }

  /** `k` entries from word `w` on, `step` words apart. */
  function Entries(m: seq<Word>, w: nat, step: nat, k: nat, kind: nat): (es: seq<Entry>)
    ensures |es| == k
    decreases k
  {
    if k == 0 then [] else [ReadEntry(m, w, kind)] + Entries(m, w + step, step, k - 1, kind)
  }

  /** The word that a relative entry names. */
  function Target(e: Entry): nat {
    e.offset / 8
  }

  /** The words that hold the entries of a table. */
  predicate InTable(t: nat, w: nat, step: nat, k: nat)
    decreases k
  {
    k > 0 && (w <= t < w + 3 || InTable(t, w + step, step, k - 1))
  }

  /** The first `words` words of each entry lie in the image. */
  predicate Readable(size: nat, w: nat, step: nat, k: nat, words: nat)
    decreases k
  {
    k == 0 || (w + words <= size && Readable(size, w + step, step, k - 1, words))
  }

  /** Relative entries name whole words of the image, and none of the table. */
  predicate Apart(size: nat, es: seq<Entry>, w: nat, step: nat, k: nat) {
    forall i :: 0 <= i < |es| && es[i].relative ==>
      es[i].offset % 8 == 0 && Target(es[i]) < size && !InTable(Target(es[i]), w, step, k)
  }

  // ---------- adding the base in place ----------

  function AddOne(m: seq<Word>, e: Entry, base: Word): (m': seq<Word>)
    ensures |m'| == |m|
  {
    if e.relative && Target(e) < |m| then m[Target(e) := Plus(m[Target(e)], base)] else m
  }

  function Added(m: seq<Word>, es: seq<Entry>, base: Word): (m': seq<Word>)
    ensures |m'| == |m|
    decreases |es|
  {
    if es == [] then m else Added(AddOne(m, es[0], base), es[1..], base)
  }

  /** How many relative entries name a word. */
  function Count(es: seq<Entry>, w: nat): nat {
    if es == [] then 0 else Naming(es[0], w) + Count(es[1..], w)
  }

  function Multiple(k: nat, base: Word): nat {
    k * base
  }

  lemma PlusMultiple(a: Word, k: nat, base: Word)
    ensures (Plus(a, base) + Multiple(k, base)) % TWO64 == (a + Multiple(k + 1, base)) % TWO64
  {
    var x, y := a + base, Multiple(k, base);
    assert a + Multiple(k + 1, base) == x + y by {
      assert (k + 1) * base == k * base + base;
    }
    var q := x / TWO64;
    hide Multiple;
    assert x + y == q * TWO64 + (Plus(a, base) + y);
    ModOfMultiple(q, TWO64);
    ModAdd(q * TWO64, Plus(a, base) + y, TWO64);
  }

  /** Each word grows by the base once for each entry that names it, and no other word changes. */
  lemma {:induction false} AddedCounts(m: seq<Word>, es: seq<Entry>, base: Word, w: nat)
    requires w < |m|
    ensures Added(m, es, base)[w] == (m[w] + Multiple(Count(es, w), base)) % TWO64
    ensures Count(es, w) == 0 ==> Added(m, es, base)[w] == m[w]
    decreases |es|
  {
    if es != [] {
      hide Plus, Multiple;
      AddedCounts(AddOne(m, es[0], base), es[1..], base, w);
      PlusMultiple(m[w], Count(es[1..], w), base);
    } else {
      assert Multiple(0, base) == 0;
    }
  }

  /** All entries but one. */
  ghost function Drop(es: seq<Entry>, k: nat): (r: seq<Entry>)
    requires k < |es|
    ensures |r| == |es| - 1
  {
    es[..k] + es[k + 1..]
  }

  function Naming(e: Entry, w: nat): nat {
    if e.relative && Target(e) == w then 1 else 0
  }

  lemma {:induction false} CountByMultiset(es: seq<Entry>, fs: seq<Entry>, w: nat)
    requires multiset(es) == multiset(fs)
    ensures Count(es, w) == Count(fs, w)
    decreases |es|
  {
    hide Count, Drop, Naming;
    if es == [] {
      NoElements(fs);
    } else {
      var k := Find(fs, es[0]);
      MultisetWithout(fs, k);
      MultisetWithout(es, 0);
      CountByMultiset(Drop(es, 0), Drop(fs, k), w);
      CountWithout(fs, k, w);
      CountWithout(es, 0, w);
    }
  }

  lemma NoElements(fs: seq<Entry>)
    requires multiset(fs) == multiset([])
    ensures fs == []
  {
    assert |multiset(fs)| == |fs|;
  }

  lemma Find(fs: seq<Entry>, e: Entry) returns (k: nat)
    requires e in multiset(fs)
    ensures k < |fs| && fs[k] == e
  {
    k :| 0 <= k < |fs| && fs[k] == e;
  }

  lemma MultisetWithout(fs: seq<Entry>, k: nat)
    requires k < |fs|
    ensures multiset(Drop(fs, k)) == multiset(fs) - multiset{fs[k]}
  {
    assert fs == fs[..k] + [fs[k]] + fs[k + 1..];
  }

  lemma {:induction false} CountWithout(fs: seq<Entry>, k: nat, w: nat)
    requires k < |fs|
    ensures Count(fs, w) == Count(Drop(fs, k), w) + Naming(fs[k], w)
  {
    if k == 0 {
      assert Drop(fs, 0) == fs[1..];
    } else {
      CountWithout(fs[1..], k - 1, w);
      assert Drop(fs[1..], k - 1) == Drop(fs, k)[1..];
    }
  }

  /** The order of the entries does not matter. */
  lemma OrderIrrelevant(m: seq<Word>, es: seq<Entry>, fs: seq<Entry>, base: Word)
    requires multiset(es) == multiset(fs)
    ensures Added(m, es, base) == Added(m, fs, base)
  {
    forall w | 0 <= w < |m| ensures Added(m, es, base)[w] == Added(m, fs, base)[w] {
      CountByMultiset(es, fs, w);
      AddedCounts(m, es, base, w);
      AddedCounts(m, fs, base, w);
    }
  }

  // ---------- storing base and addend ----------

  function StoreOne(m: seq<Word>, e: Entry, base: Word): (m': seq<Word>)
    ensures |m'| == |m|
  {
    if e.relative && Target(e) < |m| then m[Target(e) := Plus(base, e.addend)] else m
  }

  function Stored(m: seq<Word>, es: seq<Entry>, base: Word): (m': seq<Word>)
    ensures |m'| == |m|
    decreases |es|
  {
    if es == [] then m else Stored(StoreOne(m, es[0], base), es[1..], base)
  }

  /** No two relative entries name the same word. */
  predicate DistinctTargets(es: seq<Entry>) {
    forall i, j :: 0 <= i < j < |es| && es[i].relative && es[j].relative ==> Target(es[i]) != Target(es[j])
  }

  lemma {:induction false} StoredElsewhere(m: seq<Word>, es: seq<Entry>, base: Word, w: nat)
    requires w < |m| && Count(es, w) == 0
    ensures Stored(m, es, base)[w] == m[w]
    decreases |es|
  {
    if es != [] {
      StoredElsewhere(StoreOne(m, es[0], base), es[1..], base, w);
    }
  }

  lemma {:induction false} NamedOnce(es: seq<Entry>, w: nat)
    requires DistinctTargets(es)
    ensures Count(es, w) <= 1
    ensures es != [] && es[0].relative && Target(es[0]) == w ==> Count(es[1..], w) == 0
  {
    if es != [] {
      NamedOnce(es[1..], w);
      if es[0].relative && Target(es[0]) == w && Count(es[1..], w) > 0 {
        var k := SomeNaming(es[1..], w);
        assert false;
      }
    }
  }

  lemma {:induction false} SomeNaming(es: seq<Entry>, w: nat) returns (k: nat)
    requires Count(es, w) > 0
    ensures k < |es| && es[k].relative && Target(es[k]) == w
  {
    if es[0].relative && Target(es[0]) == w {
      k := 0;
    } else {
      k := SomeNaming(es[1..], w);
      k := k + 1;
    }
  }

  /** The words that the entries name hold the addends. */
  predicate Prelinked(m: seq<Word>, es: seq<Entry>) {
    forall i :: 0 <= i < |es| && es[i].relative && Target(es[i]) < |m| ==> m[Target(es[i])] == es[i].addend
  }

  lemma PlusInjective(a: Word, b: Word, base: Word)
    ensures Plus(a, base) == Plus(base, b) <==> a == b
  {
  }

  /**
    * With at most one entry for each word, both forms make the same image exactly
    * when the linker has put the addends in place.
    */
  lemma {:induction false} SameImage(m: seq<Word>, es: seq<Entry>, base: Word)
    requires DistinctTargets(es)
    ensures Added(m, es, base) == Stored(m, es, base) <==> Prelinked(m, es)
  {
    forall i | 0 <= i < |es| && es[i].relative && Target(es[i]) < |m|
      ensures Added(m, es, base)[Target(es[i])] == Plus(m[Target(es[i])], base)
      ensures Stored(m, es, base)[Target(es[i])] == Plus(base, es[i].addend)
      ensures Plus(m[Target(es[i])], base) == Plus(base, es[i].addend) <==> m[Target(es[i])] == es[i].addend
    {
      Named(m, es, base, i);
      PlusInjective(m[Target(es[i])], es[i].addend, base);
    }
    if Prelinked(m, es) {
      forall w | 0 <= w < |m| ensures Added(m, es, base)[w] == Stored(m, es, base)[w] {
        if Count(es, w) == 0 {
          StoredElsewhere(m, es, base, w);
          AddedCounts(m, es, base, w);
        } else {
          var k := SomeNaming(es, w);
        }
      }
    }
  }

  /** What both forms do to a word that entry `i` names. */
  lemma {:induction false} Named(m: seq<Word>, es: seq<Entry>, base: Word, i: nat)
    requires DistinctTargets(es) && i < |es| && es[i].relative && Target(es[i]) < |m|
    ensures Added(m, es, base)[Target(es[i])] == Plus(m[Target(es[i])], base)
    ensures Stored(m, es, base)[Target(es[i])] == Plus(base, es[i].addend)
    decreases |es|
  {
    var w := Target(es[i]);
    if i == 0 {
      NamedOnce(es, w);
      AddedCounts(AddOne(m, es[0], base), es[1..], base, w);
      StoredElsewhere(StoreOne(m, es[0], base), es[1..], base, w);
    } else {
      assert es[1..][i - 1] == es[i];
      Named(AddOne(m, es[0], base), es[1..], base, i - 1);
      Named(StoreOne(m, es[0], base), es[1..], base, i - 1);
    }
  }

  // ---------- the relocators ----------

  /** The entries of the table that the dynamic section points to. */
  function EntriesOf(m: seq<Word>, p: Place, kind: nat): seq<Entry>
    requires p.step > 0
  {
    Entries(m, p.at / 8, p.step / 8, Rounds(p.size, p.step), kind)
  }

  /** There is a table to apply. */
  predicate HasTable(p: Place) {
    p.found && p.step != 0
  }

  /** The table is aligned, lies in the image, and is not relocated itself. */
  predicate Applicable(m: seq<Word>, p: Place, kind: nat, words: nat) {
    && p.step > 0 && p.step % 8 == 0 && p.at % 8 == 0
    && Readable(|m|, p.at / 8, p.step / 8, Rounds(p.size, p.step), words)
    && Apart(|m|, EntriesOf(m, p, kind), p.at / 8, p.step / 8, Rounds(p.size, p.step))
  }

  function StatusOf(p: Place): nat {
    if p.found == (p.step != 0) then SUCCESS else LOAD_ERROR
  }

  /**
    * The loop is at word `w` with `k` entries to go: the words of these entries are
    * as they were, and the entries will not change them.
    */
  ghost predicate Pending(m: seq<Word>, now: seq<Word>, w: nat, step: nat, k: nat, kind: nat, words: nat) {
    && |now| == |m|
    && Readable(|m|, w, step, k, words)
    && Apart(|m|, Entries(m, w, step, k, kind), w, step, k)
    && forall t :: 0 <= t < |m| && InTable(t, w, step, k) ==> now[t] == m[t]
  }

  /** The memories differ at most in the word that a relative entry names. */
  ghost predicate OnlyTarget(now: seq<Word>, now': seq<Word>, e: Entry) {
    && |now'| == |now|
    && forall t :: 0 <= t < |now| && !(e.relative && t == Target(e)) ==> now'[t] == now[t]
  }

  lemma PendingEntry(m: seq<Word>, now: seq<Word>, w: nat, step: nat, k: nat, kind: nat, words: nat) returns (e: Entry)
    requires k > 0 && words >= 2 && Pending(m, now, w, step, k, kind, words)
    ensures w + words <= |now| == |m| && ReadEntry(now, w, kind) == e
    ensures Entries(m, w, step, k, kind) == [e] + Entries(m, w + step, step, k - 1, kind)
    ensures e.relative ==> e.offset % 8 == 0 && Target(e) < |m|
  {
    e := ReadEntry(m, w, kind);
    assert forall t :: w <= t < w + 3 ==> InTable(t, w, step, k);
    assert Entries(m, w, step, k, kind)[0] == e;
  }

  lemma PendingStep(m: seq<Word>, now: seq<Word>, now': seq<Word>, w: nat, step: nat, k: nat, kind: nat, words: nat,
                    e: Entry)
    requires k > 0 && Pending(m, now, w, step, k, kind, words) && OnlyTarget(now, now', e)
    requires Entries(m, w, step, k, kind) == [e] + Entries(m, w + step, step, k - 1, kind)
    ensures Pending(m, now', w + step, step, k - 1, kind, words)
  {
    var es, rest := Entries(m, w, step, k, kind), Entries(m, w + step, step, k - 1, kind);
    assert es[0] == e && forall i :: 0 <= i < |rest| ==> rest[i] == es[i + 1];
    assert forall t :: InTable(t, w + step, step, k - 1) ==> InTable(t, w, step, k);
  }

  lemma AddedStep(m: seq<Word>, e: Entry, es: seq<Entry>, base: Word)
    ensures Added(m, [e] + es, base) == Added(AddOne(m, e, base), es, base)
    ensures OnlyTarget(m, AddOne(m, e, base), e)
  {
    assert ([e] + es)[1..] == es;
  }

  lemma StoredStep(m: seq<Word>, e: Entry, es: seq<Entry>, base: Word)
    ensures Stored(m, [e] + es, base) == Stored(StoreOne(m, e, base), es, base)
    ensures OnlyTarget(m, StoreOne(m, e, base), e)
  {
    assert ([e] + es)[1..] == es;
  }

  /** The loop that adds the base to each word that a relative entry names. */
  method ApplyAdd(image: array<Word>, base: Word, p: Place)
    requires Applicable(image[..], p, R_X86_64_RELATIVE, 2)
    modifies image
    ensures image[..] == Added(old(image[..]), EntriesOf(old(image[..]), p, R_X86_64_RELATIVE), base)
  {
    ghost var m, k := image[..], Rounds(p.size, p.step);
    var rel: nat, step: nat, size := p.at / 8, p.step / 8, p.size;
    hide Entries, Pending, Added;
    BeginPending(m, p, R_X86_64_RELATIVE, 2);
    assert EntriesOf(m, p, R_X86_64_RELATIVE) == Entries(m, rel, step, k, R_X86_64_RELATIVE);
    hide Applicable, Rounds, EntriesOf;
    while size > 0
      invariant k == Rounds(size, p.step)
      invariant Pending(m, image[..], rel, step, k, R_X86_64_RELATIVE, 2)
      invariant Added(image[..], Entries(m, rel, step, k, R_X86_64_RELATIVE), base)
        == Added(m, EntriesOf(m, p, R_X86_64_RELATIVE), base)
      decreases size
    {
      RoundsStep(size, p.step);
      AddEntry(image, base, rel, m, step, k);
      rel := rel + step;
      size := size - p.step;
      k := k - 1;
    }
    RoundsStep(size, p.step);
    NoEntries(m, image[..], rel, step, R_X86_64_RELATIVE, base);
  }

  /** One entry of the table. */
  method AddEntry(image: array<Word>, base: Word, rel: nat, ghost m: seq<Word>, ghost step: nat, ghost k: nat)
    requires k > 0 && Pending(m, image[..], rel, step, k, R_X86_64_RELATIVE, 2)
    modifies image
    ensures Pending(m, image[..], rel + step, step, k - 1, R_X86_64_RELATIVE, 2)
    ensures Added(image[..], Entries(m, rel + step, step, k - 1, R_X86_64_RELATIVE), base)
      == Added(old(image[..]), Entries(m, rel, step, k, R_X86_64_RELATIVE), base)
  {
    hide Entries, Pending, Added, OnlyTarget;
    ghost var now := image[..];
    ghost var e := PendingEntry(m, now, rel, step, k, R_X86_64_RELATIVE, 2);
    if image[rel + 1] % TWO32 == R_X86_64_RELATIVE {
      var addr := image[rel] / 8;
      image[addr] := Plus(image[addr], base);
    }
    AddedStep(now, e, Entries(m, rel + step, step, k - 1, R_X86_64_RELATIVE), base);
    PendingStep(m, now, image[..], rel, step, k, R_X86_64_RELATIVE, 2, e);
  }

  /** The loop that stores base and addend in each word that a relative entry names. */
  method ApplyStore(image: array<Word>, base: Word, p: Place)
    requires Applicable(image[..], p, R_AARCH64_RELATIVE, 3)
    modifies image
    ensures image[..] == Stored(old(image[..]), EntriesOf(old(image[..]), p, R_AARCH64_RELATIVE), base)
  {
    ghost var m, k := image[..], Rounds(p.size, p.step);
    var rel: nat, step: nat, size := p.at / 8, p.step / 8, p.size;
    hide Entries, Pending, Stored;
    BeginPending(m, p, R_AARCH64_RELATIVE, 3);
    assert EntriesOf(m, p, R_AARCH64_RELATIVE) == Entries(m, rel, step, k, R_AARCH64_RELATIVE);
    hide Applicable, Rounds, EntriesOf;
    while size > 0
      invariant k == Rounds(size, p.step)
      invariant Pending(m, image[..], rel, step, k, R_AARCH64_RELATIVE, 3)
      invariant Stored(image[..], Entries(m, rel, step, k, R_AARCH64_RELATIVE), base)
        == Stored(m, EntriesOf(m, p, R_AARCH64_RELATIVE), base)
      decreases size
    {
      RoundsStep(size, p.step);
      StoreEntry(image, base, rel, m, step, k);
      rel := rel + step;
      size := size - p.step;
      k := k - 1;
    }
    RoundsStep(size, p.step);
    NoEntries(m, image[..], rel, step, R_AARCH64_RELATIVE, base);
  }

  /** One entry of the table. */
  method StoreEntry(image: array<Word>, base: Word, rel: nat, ghost m: seq<Word>, ghost step: nat, ghost k: nat)
    requires k > 0 && Pending(m, image[..], rel, step, k, R_AARCH64_RELATIVE, 3)
    modifies image
    ensures Pending(m, image[..], rel + step, step, k - 1, R_AARCH64_RELATIVE, 3)
    ensures Stored(image[..], Entries(m, rel + step, step, k - 1, R_AARCH64_RELATIVE), base)
      == Stored(old(image[..]), Entries(m, rel, step, k, R_AARCH64_RELATIVE), base)
  {
    hide Entries, Pending, Stored, OnlyTarget;
    ghost var now := image[..];
    ghost var e := PendingEntry(m, now, rel, step, k, R_AARCH64_RELATIVE, 3);
    if image[rel + 1] % TWO32 == R_AARCH64_RELATIVE {
      var addr := image[rel] / 8;
      image[addr] := Plus(base, image[rel + 2]);
    }
    StoredStep(now, e, Entries(m, rel + step, step, k - 1, R_AARCH64_RELATIVE), base);
    PendingStep(m, now, image[..], rel, step, k, R_AARCH64_RELATIVE, 3, e);
  }

  lemma RoundsStep(size: int, step: int)
    requires step > 0
    ensures Rounds(size, step) == if size > 0 then 1 + Rounds(size - step, step) else 0
  {
  }

  lemma BeginPending(m: seq<Word>, p: Place, kind: nat, words: nat)
    requires Applicable(m, p, kind, words)
    ensures Pending(m, m, p.at / 8, p.step / 8, Rounds(p.size, p.step), kind, words)
  {
  }

  lemma NoEntries(m: seq<Word>, now: seq<Word>, w: nat, step: nat, kind: nat, base: Word)
    ensures Added(now, Entries(m, w, step, 0, kind), base) == now == Stored(now, Entries(m, w, step, 0, kind), base)
  {
  }

  /** The relocator of x86_64. */
  method RelocateX86(image: array<Word>, base: Word, d: nat, ghost n: nat) returns (status: nat)
    requires Dynamic(image[..], d, n)
    requires var p := PlaceOf(image[..], d, n, base); HasTable(p) ==> Applicable(image[..], p, R_X86_64_RELATIVE, 2)
    modifies image
    ensures var m := old(image[..]);
            var p := PlaceOf(m, d, n, base);
            && status == StatusOf(p)
            && image[..] == if HasTable(p) then Added(m, EntriesOf(m, p, R_X86_64_RELATIVE), base) else m
  {
    hide Applicable, Entries, Added;
    var p := FindTable(image, base, d, n);
    if !p.found && p.step == 0 {
      return SUCCESS;
    }
    if !p.found || p.step == 0 {
      return LOAD_ERROR;
    }
    ApplyAdd(image, base, p);
    return SUCCESS;
  }

  /** The relocator of AArch64. */
  method RelocateAarch64(image: array<Word>, base: Word, d: nat, ghost n: nat) returns (status: nat)
    requires Dynamic(image[..], d, n)
    requires var p := PlaceOf(image[..], d, n, base); HasTable(p) ==> Applicable(image[..], p, R_AARCH64_RELATIVE, 3)
    modifies image
    ensures var m := old(image[..]);
            var p := PlaceOf(m, d, n, base);
            && status == StatusOf(p)
            && image[..] == if HasTable(p) then Stored(m, EntriesOf(m, p, R_AARCH64_RELATIVE), base) else m
  {
    hide Applicable, Entries, Stored;
    var p := FindTable(image, base, d, n);
    if !p.found && p.step == 0 {
      return SUCCESS;
    }
    if !p.found || p.step == 0 {
      return LOAD_ERROR;
    }
    ApplyStore(image, base, p);
    return SUCCESS;
  }
}
