/** The inverted file's slot protocol (1-text/indexation.py): pass 1 only measures
    each stem's future record (`addStem`), pass 2 creates each slot at the end of
    the file padded with commas and then writes later postings in place over the
    padding (`writeStem`), so nothing after a slot ever moves. The main result,
    `ExactFit`, is that when pass 2 sees the occurrences pass 1 measured, every
    slot ends up holding exactly the complete posting record of its stem. */
module Postings {
  import opened Wrappers
  import opened PyText
  import opened Records

  /** One occurrence of a stem in a document, in corpus order: the unit both
      passes iterate over. */
  datatype OccOf<Text> = Occ(stem: Text, title: Text, freq: nat)
  type Occ = OccOf<string>

  /** `self.stems[stem]`, i.e. `{"pos": ..., "len": ...}`: the slot's position in
      the inverted file (-1 until pass 2 creates it) and its reserved length. */
  datatype Slot = Slot(pos: int, len: nat)

  /** The entry `docId:freq` an occurrence contributes to its stem's record. */
  function Item(o: Occ): string {
    Entry(o.title, o.freq)
  }

  /** The characters of every stem avoid the delimiters and every title is a
      decimal number, as the record formats assume. */
  ghost predicate CleanOccs(occs: seq<Occ>) {
    forall i :: 0 <= i < |occs| ==> NoneOf(occs[i].stem, Delimiters) && IsDecimal(occs[i].title)
  }

  // ---------------------------------------------------------------------------
  // Pass 1: reservation

  /** `addStem` (1-text/indexation.py:159-168): the first occurrence of a stem
      reserves `len(stem + "{" + d + ":" + f + "}\n")` with position -1; each
      later one adds `len(d + ":" + f + ",")`. */
  function Reserve(stems: map<string, Slot>, o: Occ): (r: map<string, Slot>)
    ensures r.Keys == stems.Keys + {o.stem}
    ensures o.stem !in stems ==> r[o.stem] == Slot(-1, |o.stem + "{" + Item(o) + "}\n"|)
    ensures o.stem in stems ==>
              r[o.stem].pos == stems[o.stem].pos && r[o.stem].len == stems[o.stem].len + |Item(o) + ","|
    ensures forall s :: s in stems && s != o.stem ==> r[s] == stems[s]
  {
    if o.stem in stems then
      stems[o.stem := stems[o.stem].(len := stems[o.stem].len + |Item(o) + ","|)]
    else
      stems[o.stem := Slot(-1, |o.stem + "{" + Item(o) + "}\n"|)]
  }

  /** Pass 1 over a sequence of occurrences. */
  function ReserveAll(stems: map<string, Slot>, occs: seq<Occ>): (r: map<string, Slot>)
    ensures stems.Keys <= r.Keys
  {
    if occs == [] then stems
    else Reserve(ReserveAll(stems, occs[..|occs| - 1]), occs[|occs| - 1])
  }

  /** Reservation never moves a slot and never shrinks one. */
  lemma {:induction false} ReserveAllGrows(stems: map<string, Slot>, occs: seq<Occ>, s: string)
    requires s in stems
    ensures ReserveAll(stems, occs)[s].pos == stems[s].pos
    ensures ReserveAll(stems, occs)[s].len >= stems[s].len
  {
    if occs != [] {
      ReserveAllGrows(stems, occs[..|occs| - 1], s);
    }
  }

  /** The postings of stem `s` among `occs`: `(docId, freq)` in corpus order. */
  function PostingsOf(occs: seq<Occ>, s: string): seq<(string, nat)>
  {
    if occs == [] then []
    else
      var o := occs[|occs| - 1];
      PostingsOf(occs[..|occs| - 1], s) + (if o.stem == s then [(o.title, o.freq)] else [])
  }

  lemma {:induction false} PostingsAppend(a: seq<Occ>, b: seq<Occ>, s: string)
    ensures PostingsOf(a + b, s) == PostingsOf(a, s) + PostingsOf(b, s)
  {
    if b == [] {
      assert a + b == a;
    } else {
      var n := |b| - 1;
      PostingsAppend(a, b[..n], s);
      assert (a + b)[..|a + b| - 1] == a + b[..n];
    }
  }

  lemma PostingsOne(o: Occ, s: string)
    ensures PostingsOf([o], s) == if o.stem == s then [(o.title, o.freq)] else []
  {
    assert [o][..0] == [];
  }

  /** The postings of a stem in a clean sequence have decimal ids. */
  lemma {:induction false} PostingsDecimal(occs: seq<Occ>, s: string)
    requires CleanOccs(occs)
    ensures forall p :: p in PostingsOf(occs, s) ==> IsDecimal(p.0)
  {
    if occs != [] {
      var n := |occs| - 1;
      assert CleanOccs(occs[..n]) by {
        assert forall i :: 0 <= i < n ==> occs[..n][i] == occs[i];
      }
      PostingsDecimal(occs[..n], s);
      assert IsDecimal(occs[n].title);
    }
  }

  /** The room that postings take in a record: each entry and its comma. */
  function Room(ps: seq<(string, nat)>): nat
  {
    if ps == [] then 0 else |Entry(ps[0].0, ps[0].1)| + 1 + Room(ps[1..])
  }

  lemma {:induction false} RoomAppend(a: seq<(string, nat)>, b: seq<(string, nat)>)
    ensures Room(a + b) == Room(a) + Room(b)
  {
    if a == [] {
      assert a + b == b;
    } else {
      RoomAppend(a[1..], b);
      assert (a + b)[1..] == a[1..] + b;
    }
  }

  lemma {:induction false} JoinAppend(parts: seq<string>, x: string, sep: char)
    requires parts != []
    ensures Join(parts + [x], sep) == Join(parts, sep) + [sep] + x
  {
    if |parts| > 1 {
      JoinAppend(parts[1..], x, sep);
      assert (parts + [x])[1..] == parts[1..] + [x];
    }
  }

  lemma EntriesAppend(a: seq<(string, nat)>, b: seq<(string, nat)>)
    ensures Entries(a + b) == Entries(a) + Entries(b)
  {
  }

  /** Joining entries: the postings in `b` add their room to the record body. */
  lemma {:induction false} JoinEntriesLen(a: seq<(string, nat)>, b: seq<(string, nat)>)
    requires a != []
    ensures |Join(Entries(a + b), ',')| == |Join(Entries(a), ',')| + Room(b)
    decreases |b|
  {
    if b == [] {
      assert a + b == a;
    } else {
      var a' := a + [b[0]];
      JoinEntriesLen(a', b[1..]);
      assert a + b == a' + b[1..];
      EntriesAppend(a, [b[0]]);
      assert Entries(a') == Entries(a) + [Entry(b[0].0, b[0].1)];
      JoinAppend(Entries(a), Entry(b[0].0, b[0].1), ',');
      assert |Join(Entries(a'), ',')| == |Join(Entries(a), ',')| + 1 + |Entry(b[0].0, b[0].1)|;
      assert Room(b) == |Entry(b[0].0, b[0].1)| + 1 + Room(b[1..]);
    }
  }

  /** The length of the complete posting record of `s` over postings `ps`. */
  function RecordLen(s: string, ps: seq<(string, nat)>): nat {
    |SlotText(s, Entries(ps), 0)|
  }

  lemma RecordLenIs(s: string, ps: seq<(string, nat)>)
    ensures RecordLen(s, ps) == |s| + 3 + |Join(Entries(ps), ',')|
  {
    assert |Commas(0)| == 0;
  }

  /** One occurrence of pass 1 keeps each slot's length equal to its record's. */
  lemma ReserveStep(before: map<string, Slot>, o: Occ, s: string, ps: seq<(string, nat)>)
    requires s in before <==> ps != []
    requires s in before ==> before[s] == Slot(-1, RecordLen(s, ps))
    ensures var ps' := ps + (if o.stem == s then [(o.title, o.freq)] else []);
            && (s in Reserve(before, o) <==> ps' != [])
            && (s in Reserve(before, o) ==> Reserve(before, o)[s] == Slot(-1, RecordLen(s, ps')))
  {
    if o.stem == s {
      var p := (o.title, o.freq);
      assert Entry(p.0, p.1) == Item(o);
      RecordLenIs(s, ps + [p]);
      if s in before {
        RecordLenIs(s, ps);
        JoinEntriesLen(ps, [p]);
        assert Room([p]) == |Item(o)| + 1;
      } else {
        assert ps + [p] == [p];
        assert Entries([p]) == [Item(o)];
      }
    } else {
      assert ps + [] == ps;
    }
  }

  /** Stem slot sizing: after pass 1, every stem seen has position -1 and a
      reserved length equal to the length of its complete posting record. */
  lemma {:induction false} ReservedExactly(occs: seq<Occ>, s: string)
    ensures s in ReserveAll(map[], occs) <==> PostingsOf(occs, s) != []
    ensures s in ReserveAll(map[], occs) ==>
              ReserveAll(map[], occs)[s] == Slot(-1, RecordLen(s, PostingsOf(occs, s)))
  {
    if occs != [] {
      var n := |occs| - 1;
      ReservedExactly(occs[..n], s);
      ReserveStep(ReserveAll(map[], occs[..n]), occs[n], s, PostingsOf(occs[..n], s));
    }
  }

  // ---------------------------------------------------------------------------
  // Pass 2: filling the slots

  /** The inverted file and the stem directory during pass 2. */
  datatype InvertedOf<Text> = Inverted(stems: map<string, Slot>, file: Text)
  type Inverted = InvertedOf<string>

  /** Every created slot lies inside the file. */
  ghost predicate InBounds(inv: Inverted) {
    forall s :: s in inv.stems && inv.stems[s].pos >= 0 ==>
      inv.stems[s].pos + inv.stems[s].len <= |inv.file|
  }

  /** Where `writeStem` writes into a placed slot: one position after the
      first `,,` of the slot's text, or the slot's start when there is none. */
  function EntryOffset(f: string, slot: Slot): (at: nat)
    requires 0 <= slot.pos && slot.pos + slot.len <= |f|
    ensures slot.pos <= at <= slot.pos + slot.len
  {
    var repres := Read(f, slot.pos, slot.len);
    slot.pos + FindCommaPair(repres) + 1
  }

  /** `writeStem` (1-text/indexation.py:129-148). For a stem whose slot exists,
      the entry is written one position after the first `,,` of the slot (at the
      slot's start when there is none). Otherwise the slot is created at the end
      of the file as `stem{d:f`, commas up to the reserved length, `}\n`. */
  function WriteEntry(inv: Inverted, o: Occ): (r: Inverted)
    requires o.stem in inv.stems && InBounds(inv)
    ensures InBounds(r)
    ensures r.stems.Keys == inv.stems.Keys
    ensures forall s :: s in inv.stems ==> r.stems[s].len == inv.stems[s].len
    ensures forall s :: s in inv.stems && s != o.stem ==> r.stems[s] == inv.stems[s]
    ensures r.stems[o.stem].pos >= 0
    ensures |r.file| >= |inv.file|
  {
    var slot := inv.stems[o.stem];
    if slot.pos >= 0 then
      Inverted(inv.stems, Overwrite(inv.file, EntryOffset(inv.file, slot), Item(o)))
    else
      var start := o.stem + "{" + Item(o);
      var pad := slot.len - |start| - |"}\n"|;
      var slotText := start + Commas(if pad < 0 then 0 else pad) + "}\n";
      Inverted(inv.stems[o.stem := Slot(|inv.file|, slot.len)], inv.file + slotText)
  }

  /** The two branches of `writeStem`, one lemma each. */
  lemma PlacedEntry(inv: Inverted, o: Occ)
    requires o.stem in inv.stems && InBounds(inv) && inv.stems[o.stem].pos >= 0
    ensures WriteEntry(inv, o) == Inverted(inv.stems, Overwrite(inv.file, EntryOffset(inv.file, inv.stems[o.stem]), Item(o)))
  {
  }

  lemma NewEntry(inv: Inverted, o: Occ)
    requires o.stem in inv.stems && InBounds(inv) && inv.stems[o.stem].pos < 0
    ensures var len := inv.stems[o.stem].len;
            var start := o.stem + "{" + Item(o);
            var pad := len - |start| - |"}\n"|;
            WriteEntry(inv, o) == Inverted(inv.stems[o.stem := Slot(|inv.file|, len)],
                                           inv.file + (start + Commas(if pad < 0 then 0 else pad) + "}\n"))
  {
  }

  /** New stem in pass 2: the slot is appended at the end of the file, its
      position is recorded, and it is exactly the reserved length: `stem{d:f`,
      then only commas, then `}\n`. */
  lemma NewSlotLayout(inv: Inverted, o: Occ)
    requires o.stem in inv.stems && InBounds(inv) && inv.stems[o.stem].pos < 0
    requires inv.stems[o.stem].len >= |o.stem + "{" + Item(o) + "}\n"|
    ensures var r := WriteEntry(inv, o);
            var start := o.stem + "{" + Item(o);
            var len := inv.stems[o.stem].len;
            && r.stems[o.stem] == Slot(|inv.file|, len)
            && |r.file| == |inv.file| + len
            && r.file[..|inv.file|] == inv.file
            && r.file[|inv.file|..|inv.file| + |start|] == start
            && (forall k :: |inv.file| + |start| <= k < |r.file| - 2 ==> r.file[k] == ',')
            && r.file[|r.file| - 2..] == "}\n"
  {
  }

  /** The slots of two different stems do not overlap, when both exist. */
  ghost predicate Apart(inv: Inverted, s1: string, s2: string) {
    (s1 in inv.stems && s2 in inv.stems && s1 != s2 && inv.stems[s1].pos >= 0 && inv.stems[s2].pos >= 0) ==>
    (inv.stems[s1].pos + inv.stems[s1].len <= inv.stems[s2].pos
     || inv.stems[s2].pos + inv.stems[s2].len <= inv.stems[s1].pos)
  }

  /** Created slots do not overlap. */
  ghost predicate Disjoint(inv: Inverted) {
    forall s1, s2 :: Apart(inv, s1, s2)
  }

  /** Stem `s` has a slot inside the file, holding the entries of `done`
      followed by exactly the room the postings `later` will take. */
  ghost predicate SlotHolds(inv: Inverted, s: string, done: seq<(string, nat)>, later: seq<(string, nat)>)
  {
    && s in inv.stems
    && 0 <= inv.stems[s].pos
    && inv.stems[s].pos + inv.stems[s].len <= |inv.file|
    && inv.file[inv.stems[s].pos..inv.stems[s].pos + inv.stems[s].len]
       == SlotText(s, Entries(done), Room(later))
  }

  /** The state of pass 2 after the first `k` occurrences: the directory has the
      stems and lengths of pass 1, slots do not overlap, a stem not met yet has
      no slot, and every other stem's slot holds the postings written so far
      followed by the room of those still to come. */
  ghost predicate Filling(occs: seq<Occ>, k: nat, inv: Inverted)
    requires k <= |occs|
  {
    && inv.stems.Keys == ReserveAll(map[], occs).Keys
    && (forall s :: s in inv.stems ==> inv.stems[s].len == ReserveAll(map[], occs)[s].len)
    && InBounds(inv)
    && Disjoint(inv)
    && (forall s :: s in inv.stems ==> StemFilled(occs, k, inv, s))
  }

  /** Stem `s` after the first `k` occurrences: no slot if it has not occurred,
      otherwise the postings so far followed by the room of the rest. */
  ghost predicate StemFilled(occs: seq<Occ>, k: nat, inv: Inverted, s: string)
    requires k <= |occs|
  {
    if PostingsOf(occs[..k], s) == [] then s in inv.stems && inv.stems[s].pos < 0
    else SlotHolds(inv, s, PostingsOf(occs[..k], s), PostingsOf(occs[k..], s))
  }

  /** No `,,` in a join of non-empty comma-free entries, and it neither starts
      nor ends with a comma. */
  lemma {:induction false} JoinNoCommaPair(parts: seq<string>)
    requires forall i :: 0 <= i < |parts| ==> |parts[i]| > 0 && ',' !in parts[i]
    ensures NoCommaPair(Join(parts, ','))
    ensures parts != [] ==> |Join(parts, ',')| > 0
    ensures parts != [] ==> Join(parts, ',')[|Join(parts, ',')| - 1] != ','
    ensures parts != [] ==> Join(parts, ',')[0] != ','
  {
    if |parts| == 1 {
      assert forall i :: 0 <= i < |parts[0]| ==> parts[0][i] != ',';
    } else if |parts| > 1 {
      JoinNoCommaPair(parts[1..]);
      var rest := Join(parts[1..], ',');
      var j := Join(parts, ',');
      assert j == parts[0] + [','] + rest;
      forall i | 0 <= i < |j| - 1 ensures !CommaPairAt(j, i) {
        if i < |parts[0]| {
          assert j[i] == parts[0][i];
        } else if i > |parts[0]| {
          assert j[i] == rest[i - |parts[0]| - 1] && j[i + 1] == rest[i - |parts[0]|];
          assert !CommaPairAt(rest, i - |parts[0]| - 1);
        } else {
          assert j[i + 1] == rest[0];
        }
      }
      assert j[|j| - 1] == rest[|rest| - 1];
    }
  }

  /** The part of a seen slot before its padding: `stem{` and the entries. */
  lemma SlotPrefixClean(s: string, ps: seq<(string, nat)>)
    requires NoneOf(s, Delimiters)
    requires ps != [] && forall p :: p in ps ==> IsDecimal(p.0)
    ensures var x := s + "{" + Join(Entries(ps), ',');
            |x| > 0 && x[|x| - 1] != ',' && NoCommaPair(x)
  {
    var es := Entries(ps);
    forall i | 0 <= i < |ps| ensures NoneOf(ps[i].0, Delimiters) {
      assert ps[i] in ps;
      assert IsDecimal(ps[i].0);
    }
    EntriesChars(ps);
    forall i | 0 <= i < |es| ensures |es[i]| > 0 && ',' !in es[i] {
      assert NoneOf(es[i], "{},\n");
      assert |es[i]| >= |ps[i].0| > 0;
    }
    JoinNoCommaPair(es);
    var j := Join(es, ',');
    var x := s + "{" + j;
    forall i | 0 <= i < |x| - 1 ensures !CommaPairAt(x, i) {
      if i < |s| {
        assert x[i] == s[i];
      } else if i > |s| {
        assert x[i] == j[i - |s| - 1] && x[i + 1] == j[i - |s|];
        assert !CommaPairAt(j, i - |s| - 1);
      }
    }
    assert x[|x| - 1] == j[|j| - 1];
  }

  /** Writing `w` one position after `x` in a slot `x + commas + "}\n"`. */
  lemma OverwriteInSlot(f: string, pos: nat, len: nat, x: string, room: nat, w: string, at: nat)
    requires pos + len <= |f|
    requires f[pos..pos + len] == x + Commas(room) + "}\n"
    requires room >= |w| + 1 && at == pos + |x| + 1
    ensures pos <= at && at + |w| <= pos + len
    ensures |Overwrite(f, at, w)| == |f|
    ensures Overwrite(f, at, w)[pos..pos + len] == x + "," + w + Commas(room - 1 - |w|) + "}\n"
  {
    assert |x + Commas(room) + "}\n"| == len;
    var g := Overwrite(f, at, w);
    var want := x + "," + w + Commas(room - 1 - |w|) + "}\n";
    assert |want| == len;
    forall k | 0 <= k < len ensures g[pos + k] == want[k] {
      assert f[pos + k] == (x + Commas(room) + "}\n")[k];
      if k < |x| + 1 || k >= |x| + 1 + |w| {
        assert g[pos + k] == f[pos + k];
      } else {
        assert g[pos + k] == g[pos + |x| + 1..pos + |x| + 1 + |w|][k - |x| - 1];
      }
    }
  }

  /** A write outside a range leaves the range as it was. */
  lemma OverwriteOutside(f: string, p: nat, w: string, a: nat, b: nat)
    requires p + |w| <= |f| && a <= b <= |f|
    requires b <= p || p + |w| <= a
    ensures Overwrite(f, p, w)[a..b] == f[a..b]
  {
  }

  /** The postings still to come, split at the next occurrence. */
  lemma RestSplit(occs: seq<Occ>, k: nat, s: string)
    requires k < |occs|
    ensures PostingsOf(occs[k..], s)
            == (if occs[k].stem == s then [(occs[k].title, occs[k].freq)] else [])
               + PostingsOf(occs[k + 1..], s)
    ensures PostingsOf(occs[..k + 1], s)
            == PostingsOf(occs[..k], s)
               + (if occs[k].stem == s then [(occs[k].title, occs[k].freq)] else [])
    ensures PostingsOf(occs, s) == PostingsOf(occs[..k], s) + PostingsOf(occs[k..], s)
  {
    assert occs[k..] == [occs[k]] + occs[k + 1..];
    PostingsAppend([occs[k]], occs[k + 1..], s);
    PostingsOne(occs[k], s);
    assert occs[..k + 1][..k] == occs[..k];
    assert occs == occs[..k] + occs[k..];
    PostingsAppend(occs[..k], occs[k..], s);
  }

  /** A slot with one more entry: the entry follows the others after a comma. */
  lemma SlotTextAppend(s: string, es: seq<string>, e: string, pad: nat)
    requires es != []
    ensures SlotText(s, es + [e], pad) == s + "{" + Join(es, ',') + "," + e + Commas(pad) + "}\n"
  {
    JoinAppend(es, e, ',');
  }

  /** A write that leaves a slot's characters alone leaves the slot holding
      what it held. */
  lemma SlotKept(inv: Inverted, r: Inverted, s: string, done: seq<(string, nat)>, later: seq<(string, nat)>)
    requires SlotHolds(inv, s, done, later)
    requires s in r.stems && r.stems[s] == inv.stems[s] && |r.file| >= |inv.file|
    requires forall i :: inv.stems[s].pos <= i < inv.stems[s].pos + inv.stems[s].len ==> r.file[i] == inv.file[i]
    ensures SlotHolds(r, s, done, later)
  {
    var slot := inv.stems[s];
    assert r.file[slot.pos..slot.pos + slot.len] == inv.file[slot.pos..slot.pos + slot.len];
  }

  /** The write into a slot `x + commas + "}\n"` whose prefix `x` has no `,,`
      and does not end in a comma overwrites the file one position after `x`. */
  lemma SeenWrite(inv: Inverted, o: Occ, x: string, room: nat, at: nat, item: string)
    requires InBounds(inv) && o.stem in inv.stems && inv.stems[o.stem].pos >= 0
    requires |x| > 0 && x[|x| - 1] != ',' && NoCommaPair(x) && room >= 2
    requires var slot := inv.stems[o.stem];
             inv.file[slot.pos..slot.pos + slot.len] == x + Commas(room) + "}\n"
    requires at == inv.stems[o.stem].pos + |x| + 1 && item == Item(o)
    ensures at <= |inv.file|
    ensures WriteEntry(inv, o).stems == inv.stems
    ensures WriteEntry(inv, o).file == Overwrite(inv.file, at, item)
  {
    var slot := inv.stems[o.stem];
    assert FindCommaPair(Read(inv.file, slot.pos, slot.len)) == |x| by {
      assert Read(inv.file, slot.pos, slot.len) == x + Commas(room) + "}\n";
      FindAfterPrefix(x, room, "}\n");
    }
    WriteSeen(inv, o, |x|, at, item);
  }

  /** `writeStem` for a stem whose slot is placed, with the first `,,` of the
      slot at offset `i`. */
  lemma WriteSeen(inv: Inverted, o: Occ, i: nat, at: nat, item: string)
    requires InBounds(inv) && o.stem in inv.stems && inv.stems[o.stem].pos >= 0
    requires FindCommaPair(Read(inv.file, inv.stems[o.stem].pos, inv.stems[o.stem].len)) == i
    requires at == inv.stems[o.stem].pos + i + 1 && item == Item(o)
    ensures at <= |inv.file|
    ensures WriteEntry(inv, o).stems == inv.stems
    ensures WriteEntry(inv, o).file == Overwrite(inv.file, at, item)
  {
    var slot := inv.stems[o.stem];
    assert EntryOffset(inv.file, slot) == at;
  }

  /** Writing to a stem whose slot exists: the entry lands right after the
      entries already there, inside the slot, and nothing else changes. */
  lemma SeenOwn(inv: Inverted, o: Occ, done: seq<(string, nat)>, later: seq<(string, nat)>)
    requires InBounds(inv) && SlotHolds(inv, o.stem, done, [(o.title, o.freq)] + later)
    requires done != [] && forall p :: p in done ==> IsDecimal(p.0)
    requires NoneOf(o.stem, Delimiters)
    ensures var r := WriteEntry(inv, o);
            var slot := inv.stems[o.stem];
            && r.stems == inv.stems
            && |r.file| == |inv.file|
            && SlotHolds(r, o.stem, done + [(o.title, o.freq)], later)
            && forall i :: 0 <= i < |inv.file| && (i < slot.pos || slot.pos + slot.len <= i) ==> r.file[i] == inv.file[i]
  {
    var s := o.stem;
    var p := (o.title, o.freq);
    SlotAfterWrite(s, done, p, later);
    SlotPrefixClean(s, done);
    var x := s + "{" + Join(Entries(done), ',');
    var room := Room([p] + later);
    var slot := inv.stems[s];
    var item := Item(o);
    assert item == Entry(p.0, p.1);
    var at := slot.pos + |x| + 1;
    var r := WriteEntry(inv, o);
    SeenWrite(inv, o, x, room, at, item);
    OverwriteInSlot(inv.file, slot.pos, slot.len, x, room, item, at);
  }

  /** The text of a slot after one more entry, in the terms `SeenWrite` uses. */
  lemma SlotAfterWrite(s: string, done: seq<(string, nat)>, p: (string, nat), later: seq<(string, nat)>)
    requires done != []
    ensures Room([p] + later) >= |Entry(p.0, p.1)| + 1
    ensures SlotText(s, Entries(done + [p]), Room(later))
            == s + "{" + Join(Entries(done), ',') + "," + Entry(p.0, p.1)
               + Commas(Room([p] + later) - 1 - |Entry(p.0, p.1)|) + "}\n"
  {
    assert ([p] + later)[1..] == later;
    EntriesAppend(done, [p]);
    assert Entries(done + [p]) == Entries(done) + [Entry(p.0, p.1)];
    SlotTextAppend(s, Entries(done), Entry(p.0, p.1), Room(later));
  }

  /** Writing to a stem met for the first time: its slot is appended at the end
      of the file, and the file before it does not change. */
  lemma NewOwn(inv: Inverted, o: Occ, later: seq<(string, nat)>)
    requires InBounds(inv) && o.stem in inv.stems && inv.stems[o.stem].pos < 0
    requires inv.stems[o.stem].len == RecordLen(o.stem, [(o.title, o.freq)] + later)
    ensures var r := WriteEntry(inv, o);
            && r.stems == inv.stems[o.stem := Slot(|inv.file|, inv.stems[o.stem].len)]
            && |r.file| == |inv.file| + inv.stems[o.stem].len
            && (forall i :: 0 <= i < |inv.file| ==> r.file[i] == inv.file[i])
            && SlotHolds(r, o.stem, [(o.title, o.freq)], later)
  {
    var s := o.stem;
    var slot := inv.stems[s];
    var p := (o.title, o.freq);
    RecordLenIs(s, [p] + later);
    JoinEntriesLen([p], later);
    assert Entries([p]) == [Item(o)];
    var start := s + "{" + Item(o);
    assert slot.len == |start| + Room(later) + 2;
    var r := WriteEntry(inv, o);
    assert r.file == inv.file + (start + Commas(Room(later)) + "}\n");
    assert r.file[|inv.file|..|inv.file| + slot.len] == SlotText(s, Entries([p]), Room(later));
  }

  /** A step of pass 2 on stem `s` leaves every other stem's slot where it was,
      with the characters it had. */
  lemma OthersKept(inv: Inverted, r: Inverted, s: string)
    requires InBounds(inv) && Disjoint(inv) && s in inv.stems
    requires forall s2 :: s2 in inv.stems && s2 != s ==> s2 in r.stems && r.stems[s2] == inv.stems[s2]
    requires |r.file| >= |inv.file|
    requires var slot := inv.stems[s];
             forall i :: 0 <= i < |inv.file| && (slot.pos < 0 || i < slot.pos || slot.pos + slot.len <= i)
                         ==> r.file[i] == inv.file[i]
    ensures forall s2 :: s2 in inv.stems && s2 != s && inv.stems[s2].pos >= 0 ==>
              r.file[inv.stems[s2].pos..inv.stems[s2].pos + inv.stems[s2].len]
              == inv.file[inv.stems[s2].pos..inv.stems[s2].pos + inv.stems[s2].len]
  {
    forall s2 | s2 in inv.stems && s2 != s && inv.stems[s2].pos >= 0
      ensures r.file[inv.stems[s2].pos..inv.stems[s2].pos + inv.stems[s2].len]
              == inv.file[inv.stems[s2].pos..inv.stems[s2].pos + inv.stems[s2].len]
    {
      var other := inv.stems[s2];
      assert Apart(inv, s, s2);
      forall i | other.pos <= i < other.pos + other.len ensures r.file[i] == inv.file[i] {
      }
    }
  }

  /** One step of pass 2 keeps the slots disjoint. */
  lemma DisjointAfter(inv: Inverted, o: Occ)
    requires InBounds(inv) && Disjoint(inv) && o.stem in inv.stems
    ensures Disjoint(WriteEntry(inv, o))
  {
    var r := WriteEntry(inv, o);
    if inv.stems[o.stem].pos >= 0 {
      assert r.stems == inv.stems;
    } else {
      assert r.stems == inv.stems[o.stem := Slot(|inv.file|, inv.stems[o.stem].len)];
    }
    forall s1, s2 ensures Apart(r, s1, s2) {
      assert Apart(inv, s1, s2);
    }
  }

  /** One step of pass 2 keeps the filling invariant. */
  lemma FillStep(occs: seq<Occ>, k: nat, inv: Inverted)
    requires k < |occs| && CleanOccs(occs) && Filling(occs, k, inv)
    requires occs[k].stem in inv.stems
    ensures Filling(occs, k + 1, WriteEntry(inv, occs[k]))
  {
    var o := occs[k];
    var s := o.stem;
    var r := WriteEntry(inv, o);
    OwnStep(occs, k, inv);
    OthersKept(inv, r, s);
    DisjointAfter(inv, o);
    forall s2 | s2 in r.stems && s2 != s
      ensures StemFilled(occs, k + 1, r, s2)
    {
      OtherStep(occs, k, inv, r, s2);
    }
  }

  /** One step of pass 2 on another stem leaves stem `s2` filled as it was. */
  lemma OtherStep(occs: seq<Occ>, k: nat, inv: Inverted, r: Inverted, s2: string)
    requires k < |occs| && s2 != occs[k].stem
    requires StemFilled(occs, k, inv, s2)
    requires s2 in r.stems && r.stems[s2] == inv.stems[s2] && |r.file| >= |inv.file|
    requires inv.stems[s2].pos >= 0 ==>
               r.file[inv.stems[s2].pos..inv.stems[s2].pos + inv.stems[s2].len]
               == inv.file[inv.stems[s2].pos..inv.stems[s2].pos + inv.stems[s2].len]
    ensures StemFilled(occs, k + 1, r, s2)
  {
    RestSplit(occs, k, s2);
    assert PostingsOf(occs[..k + 1], s2) == PostingsOf(occs[..k], s2);
    assert PostingsOf(occs[k..], s2) == PostingsOf(occs[k + 1..], s2);
  }

  /** One step of pass 2 fills the stem it writes as the invariant says. */
  lemma OwnStep(occs: seq<Occ>, k: nat, inv: Inverted)
    requires k < |occs| && CleanOccs(occs) && Filling(occs, k, inv)
    requires occs[k].stem in inv.stems
    ensures StemFilled(occs, k + 1, WriteEntry(inv, occs[k]), occs[k].stem)
    ensures var r := WriteEntry(inv, occs[k]);
            var slot := inv.stems[occs[k].stem];
            forall i :: 0 <= i < |inv.file| && (slot.pos < 0 || i < slot.pos || slot.pos + slot.len <= i)
                        ==> r.file[i] == inv.file[i]
  {
    var o := occs[k];
    var s := o.stem;
    var p := (o.title, o.freq);
    RestSplit(occs, k, s);
    var done := PostingsOf(occs[..k], s);
    var later := PostingsOf(occs[k + 1..], s);
    assert StemFilled(occs, k, inv, s);
    if done != [] {
      PostingsDecimal(occs[..k], s);
      assert NoneOf(s, Delimiters);
      SeenOwn(inv, o, done, later);
    } else {
      ReservedExactly(occs, s);
      assert PostingsOf(occs, s) == [p] + later;
      NewOwn(inv, o, later);
    }
  }

  /** Each occurrence contributes its posting to its stem. */
  lemma {:induction false} PostingsHas(occs: seq<Occ>, i: nat)
    requires i < |occs|
    ensures (occs[i].title, occs[i].freq) in PostingsOf(occs, occs[i].stem)
  {
    var n := |occs| - 1;
    if i < n {
      PostingsHas(occs[..n], i);
      assert occs[..n][i] == occs[i];
    }
  }

  /** Pass 1 leaves every stem it reserves without a slot, and reserves every
      stem that occurs. */
  lemma ReservedAll(occs: seq<Occ>)
    ensures forall s :: s in ReserveAll(map[], occs) ==> ReserveAll(map[], occs)[s].pos < 0
    ensures forall i :: 0 <= i < |occs| ==> occs[i].stem in ReserveAll(map[], occs)
  {
    forall s | s in ReserveAll(map[], occs) ensures ReserveAll(map[], occs)[s].pos < 0 {
      ReservedExactly(occs, s);
    }
    forall i | 0 <= i < |occs| ensures occs[i].stem in ReserveAll(map[], occs) {
      PostingsHas(occs, i);
      ReservedExactly(occs, occs[i].stem);
    }
  }

  /** The pass-2 state before any write: the directory of pass 1, an empty file. */
  function Start(occs: seq<Occ>): (inv: Inverted)
    ensures InBounds(inv)
  {
    ReservedAll(occs);
    Inverted(ReserveAll(map[], occs), "")
  }

  /** The pass-2 state after the first `k` occurrences have been written,
      one after the other, each into a slot that pass 1 reserved. `Filled`,
      `Written` and `Advanced` are the three steps of one recursion; a proof
      about a few consecutive prefixes then sees no more than their names. */
  function Filled(occs: seq<Occ>, k: nat): (inv: Inverted)
    requires k <= |occs|
    ensures InBounds(inv) && inv.stems.Keys == Start(occs).stems.Keys
    decreases k, 0
  {
    if k == 0 then Start(occs) else Written(occs, k - 1)
  }

  /** The pass-2 state once the `k`-th occurrence has been written after the
      first `k`. */
  function Written(occs: seq<Occ>, k: nat): (inv: Inverted)
    requires k < |occs|
    ensures InBounds(inv) && inv.stems.Keys == Start(occs).stems.Keys
    decreases k, 2
  {
    Advanced(occs, k)
  }

  /** `writeStem` of the `k`-th occurrence on the state after the first `k`. */
  function Advanced(occs: seq<Occ>, k: nat): (inv: Inverted)
    requires k < |occs|
    ensures InBounds(inv) && inv.stems.Keys == Start(occs).stems.Keys
    decreases k, 1
  {
    var prev := Filled(occs, k);
    ReservedAll(occs);
    assert occs[k].stem in prev.stems;
    WriteEntry(prev, occs[k])
  }

  /** Before pass 2 writes anything, the filling invariant holds. */
  lemma FillingStart(occs: seq<Occ>)
    ensures Filling(occs, 0, Filled(occs, 0))
  {
    ReservedAll(occs);
    var inv := Filled(occs, 0);
    assert occs[..0] == [];
    forall s | s in inv.stems ensures StemFilled(occs, 0, inv, s) {
      assert PostingsOf(occs[..0], s) == [];
    }
  }

  /** Writing one more occurrence keeps the filling invariant. */
  lemma FillingNext(occs: seq<Occ>, k: nat)
    requires 0 < k <= |occs| && CleanOccs(occs) && Filling(occs, k - 1, Filled(occs, k - 1))
    ensures Filling(occs, k, Filled(occs, k))
  {
    var inv := Filled(occs, k - 1);
    assert occs[k - 1].stem in inv.stems by {
      ReservedAll(occs);
    }
    var r := WriteEntry(inv, occs[k - 1]);
    assert Filling(occs, k, r) by {
      FillStep(occs, k - 1, inv);
      assert k - 1 + 1 == k;
    }
    assert Filled(occs, k) == r by {
      assert Filled(occs, k) == Written(occs, k - 1) == Advanced(occs, k - 1);
    }
  }

  /** Every prefix of pass 2 keeps the filling invariant. */
  lemma {:induction false} FillingHolds(occs: seq<Occ>, k: nat)
    requires k <= |occs| && CleanOccs(occs)
    ensures Filling(occs, k, Filled(occs, k))
  {
    if k == 0 {
      FillingStart(occs);
    } else {
      FillingHolds(occs, k - 1);
      FillingNext(occs, k);
    }
  }

  /** Pass 2 over the occurrences pass 1 measured. */
  function Fill(occs: seq<Occ>): (inv: Inverted)
    ensures InBounds(inv) && inv.stems.Keys == ReserveAll(map[], occs).Keys
  {
    Filled(occs, |occs|)
  }

  /** A stem that has postings in a clean sequence avoids the delimiters. */
  lemma {:induction false} StemClean(occs: seq<Occ>, s: string)
    requires CleanOccs(occs) && PostingsOf(occs, s) != []
    ensures NoneOf(s, Delimiters)
  {
    var n := |occs| - 1;
    if occs[n].stem != s {
      assert CleanOccs(occs[..n]) by {
        assert forall i :: 0 <= i < n ==> occs[..n][i] == occs[i];
      }
      StemClean(occs[..n], s);
    }
  }

  /** The postings of a stem in a clean sequence have decimal ids, by index. */
  lemma PostingsDecimalAt(occs: seq<Occ>, s: string)
    requires CleanOccs(occs)
    ensures forall i :: 0 <= i < |PostingsOf(occs, s)| ==> IsDecimal(PostingsOf(occs, s)[i].0)
  {
    PostingsDecimal(occs, s);
    var ps := PostingsOf(occs, s);
    forall i | 0 <= i < |ps| ensures IsDecimal(ps[i].0) {
      assert ps[i] in ps;
    }
  }

  /** After pass 2, every stem's slot holds its complete posting record with
      no padding left. */
  lemma FilledExactly(occs: seq<Occ>, s: string)
    requires CleanOccs(occs)
    requires s in Fill(occs).stems
    ensures PostingsOf(occs, s) != []
    ensures var inv := Fill(occs);
            var slot := inv.stems[s];
            && slot.pos >= 0 && slot.pos + slot.len <= |inv.file|
            && inv.file[slot.pos..slot.pos + slot.len] == SlotText(s, Entries(PostingsOf(occs, s)), 0)
  {
    var inv := Fill(occs);
    assert s in ReserveAll(map[], occs) && StemFilled(occs, |occs|, inv, s) by {
      FillingHolds(occs, |occs|);
    }
    ReservedExactly(occs, s);
    assert PostingsOf(occs[|occs|..], s) == [] by {
      assert occs[|occs|..] == [];
    }
    assert occs[..|occs|] == occs;
  }

  /** Exact fit: after pass 2 over the occurrences pass 1 measured, every stem's
      slot holds its complete posting record with no padding left, and so reads
      back as `{int(docId): freq}` over exactly its postings. */
  lemma ExactFit(occs: seq<Occ>, s: string)
    requires CleanOccs(occs)
    requires s in Fill(occs).stems
    ensures forall i :: 0 <= i < |PostingsOf(occs, s)| ==> IsDecimal(PostingsOf(occs, s)[i].0)
    ensures var inv := Fill(occs);
            var slot := inv.stems[s];
            && slot.pos >= 0 && slot.pos + slot.len <= |inv.file|
            && inv.file[slot.pos..slot.pos + slot.len] == SlotText(s, Entries(PostingsOf(occs, s)), 0)
            && ParsePostingRecord(s, Read(inv.file, slot.pos, slot.len))
               == Ok(DictOf(NumericKeys(PostingsOf(occs, s))))
  {
    var inv := Fill(occs);
    var slot := inv.stems[s];
    var ps := PostingsOf(occs, s);
    PostingsDecimalAt(occs, s);
    FilledExactly(occs, s);
    assert Read(inv.file, slot.pos, slot.len) == SlotText(s, Entries(ps), 0);
    assert ParsePostingRecord(s, SlotText(s, Entries(ps), 0)) == Ok(DictOf(NumericKeys(ps))) by {
      StemClean(occs, s);
      PostingRecordRoundTrip(s, ps);
    }
  }
}
