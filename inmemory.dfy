/** Class `InMemoryIndex` of 1-text/indexation.py (lines 282-312): both
    directions of the index held in memory as nested dictionaries, filled in one
    pass over the corpus, with lookups that answer `[]` for an unknown key. */
module InMemory {
  import opened Wrappers
  import opened Postings
  import opened Corpus

  /** A nested dictionary: outer key, then inner key, to a frequency. */
  type Table = map<string, map<string, nat>>

  /** `table[outer][inner]`, or None when either key is missing. */
  function At(t: Table, outer: string, inner: string): Option<nat> {
    if outer in t && inner in t[outer] then Some(t[outer][inner]) else None
  }

  /** `table[outer][inner] = freq` when `outer` is present, `table[outer] =
      {inner: freq}` otherwise (1-text/indexation.py:293-300): one entry is set
      and every other entry keeps its value. */
  function Put(t: Table, outer: string, inner: string, freq: nat): Table
  {
    if outer in t then
      var row: map<string, nat> := t[outer][inner := freq];
      t[outer := row]
    else
      var row: map<string, nat> := map[inner := freq];
      t[outer := row]
  }

  /** `self.docs` after the occurrences `occs`: title, then stem, to frequency. */
  function DocTable(occs: seq<Occ>): Table {
    if occs == [] then map[]
    else
      var o := occs[|occs| - 1];
      Put(DocTable(occs[..|occs| - 1]), o.title, o.stem, o.freq)
  }

  /** `self.stems` after the occurrences `occs`: stem, then title, to frequency. */
  function StemTable(occs: seq<Occ>): Table {
    if occs == [] then map[]
    else
      var o := occs[|occs| - 1];
      Put(StemTable(occs[..|occs| - 1]), o.stem, o.title, o.freq)
  }

  /** Occurrence `k` is the last one of its stem in its document. */
  ghost predicate LastOfPair(occs: seq<Occ>, k: nat)
    requires k < |occs|
  {
    forall j :: k < j < |occs| ==> occs[j].stem != occs[k].stem || occs[j].title != occs[k].title
  }

  /** One more occurrence sets one entry of each table. */
  lemma TablesStep(occs: seq<Occ>, k: nat, o: Occ)
    requires k < |occs| && o == occs[k]
    ensures DocTable(occs[..k + 1]) == Put(DocTable(occs[..k]), o.title, o.stem, o.freq)
    ensures StemTable(occs[..k + 1]) == Put(StemTable(occs[..k]), o.stem, o.title, o.freq)
  {
    assert occs[..k + 1][..k] == occs[..k];
    assert occs[..k + 1][k] == occs[k];
  }

  /** Term `j` of document `d` is occurrence `k` when the document's
      occurrences start at `m`. */
  lemma OccOfTerm(d: Doc, occs: seq<Occ>, m: nat, next: nat, j: nat, k: nat)
    requires next <= |occs| && m <= next && occs[m..next] == DocOccs(d)
    requires j < |d.terms| && k == m + j
    ensures k < |occs| && occs[k] == Occ(d.terms[j].0, d.title, d.terms[j].1)
  {
    assert occs[k] == occs[m..next][j];
  }

  /** The two tables are transposes of each other: `stems[s][d]` exists exactly
      when `docs[d][s]` does, and both hold the same frequency. */
  lemma {:induction false} Transposed(occs: seq<Occ>, s: string, d: string)
    ensures At(StemTable(occs), s, d) == At(DocTable(occs), d, s)
  {
    if occs != [] {
      Transposed(occs[..|occs| - 1], s, d);
    }
  }

  /** The frequency stored for a stem and a document is the one of the last
      occurrence of that stem in that document. */
  lemma {:induction false} DocTableLast(occs: seq<Occ>, k: nat)
    requires k < |occs| && LastOfPair(occs, k)
    ensures At(DocTable(occs), occs[k].title, occs[k].stem) == Some(occs[k].freq)
  {
    var n := |occs| - 1;
    if k < n {
      var p := occs[..n];
      assert p[k] == occs[k];
      assert LastOfPair(p, k) by {
        forall j | k < j < |p| ensures p[j].stem != p[k].stem || p[j].title != p[k].title {
          assert p[j] == occs[j];
        }
      }
      DocTableLast(p, k);
    }
  }

  /** A stem that never occurs in a document has no entry for it. */
  lemma {:induction false} DocTableAbsent(occs: seq<Occ>, s: string, d: string)
    requires forall k :: 0 <= k < |occs| ==> occs[k].stem != s || occs[k].title != d
    ensures At(DocTable(occs), d, s) == None
  {
    if occs != [] {
      var p := occs[..|occs| - 1];
      assert forall k :: 0 <= k < |p| ==> p[k] == occs[k];
      DocTableAbsent(p, s, d);
    }
  }

  /** `self.docs` has an entry for every title that occurs, and for nothing
      else. */
  lemma {:induction false} DocTableKeys(occs: seq<Occ>)
    ensures DocTable(occs).Keys == set k | 0 <= k < |occs| :: occs[k].title
  {
    if occs != [] {
      var n := |occs| - 1;
      var p := occs[..n];
      DocTableKeys(p);
      var titles := set k | 0 <= k < |occs| :: occs[k].title;
      var before := set k | 0 <= k < |p| :: p[k].title;
      forall t | t in titles ensures t in before + {occs[n].title} {
        var k :| 0 <= k < |occs| && occs[k].title == t;
        if k < n {
          assert p[k] == occs[k];
        }
      }
      forall t | t in before ensures t in titles {
        var k :| 0 <= k < |p| && p[k].title == t;
        assert occs[k] == p[k];
      }
    }
  }

  /** `self.stems` has an entry for every stem that occurs, and for nothing
      else. */
  lemma {:induction false} StemTableKeys(occs: seq<Occ>)
    ensures StemTable(occs).Keys == set k | 0 <= k < |occs| :: occs[k].stem
  {
    if occs != [] {
      var n := |occs| - 1;
      var p := occs[..n];
      StemTableKeys(p);
      var found := set k | 0 <= k < |occs| :: occs[k].stem;
      var before := set k | 0 <= k < |p| :: p[k].stem;
      forall s | s in found ensures s in before + {occs[n].stem} {
        var k :| 0 <= k < |occs| && occs[k].stem == s;
        if k < n {
          assert p[k] == occs[k];
        }
      }
      forall s | s in before ensures s in found {
        var k :| 0 <= k < |p| && p[k].stem == s;
        assert occs[k] == p[k];
      }
    }
  }

  /** The titles among the occurrences of a corpus are those of its documents
      with at least one stem. */
  lemma OccTitles(corpus: seq<Doc>, d: string)
    ensures (exists k :: 0 <= k < |CorpusOccs(corpus)| && CorpusOccs(corpus)[k].title == d)
            <==> (exists i :: 0 <= i < |corpus| && corpus[i].title == d && corpus[i].terms != [])
  {
    if exists k :: 0 <= k < |CorpusOccs(corpus)| && CorpusOccs(corpus)[k].title == d {
      var k :| 0 <= k < |CorpusOccs(corpus)| && CorpusOccs(corpus)[k].title == d;
      OccHasDoc(corpus, k);
    }
    if exists i :: 0 <= i < |corpus| && corpus[i].title == d && corpus[i].terms != [] {
      var i :| 0 <= i < |corpus| && corpus[i].title == d && corpus[i].terms != [];
      DocHasOcc(corpus, i);
    }
  }

  /** Every occurrence comes from a document with at least one stem. */
  lemma {:induction false} OccHasDoc(corpus: seq<Doc>, k: nat)
    requires k < |CorpusOccs(corpus)|
    ensures exists i :: 0 <= i < |corpus| && corpus[i].title == CorpusOccs(corpus)[k].title && corpus[i].terms != []
  {
    var n := |corpus| - 1;
    var p := corpus[..n];
    var before, mine := CorpusOccs(p), DocOccs(corpus[n]);
    assert CorpusOccs(corpus) == before + mine;
    if k < |before| {
      assert before[k] == CorpusOccs(corpus)[k];
      OccHasDoc(p, k);
      var i :| 0 <= i < |p| && p[i].title == before[k].title && p[i].terms != [];
      assert corpus[i] == p[i];
    } else {
      assert mine[k - |before|] == CorpusOccs(corpus)[k];
    }
  }

  /** Every document with at least one stem gives an occurrence. */
  lemma {:induction false} DocHasOcc(corpus: seq<Doc>, i: nat)
    requires i < |corpus| && corpus[i].terms != []
    ensures exists k :: 0 <= k < |CorpusOccs(corpus)| && CorpusOccs(corpus)[k].title == corpus[i].title
  {
    var n := |corpus| - 1;
    var p := corpus[..n];
    var before, mine := CorpusOccs(p), DocOccs(corpus[n]);
    assert CorpusOccs(corpus) == before + mine;
    if i < n {
      assert p[i] == corpus[i];
      DocHasOcc(p, i);
      var k :| 0 <= k < |before| && before[k].title == p[i].title;
      assert CorpusOccs(corpus)[k] == before[k];
    } else {
      assert CorpusOccs(corpus)[|before|] == mine[0];
    }
  }

  /** What `getTfsForDoc` and `getTfsForStem` return: the inner dictionary, or
      an empty list for an unknown key. */
  datatype Tfs = EmptyList | Dict(tfs: map<string, nat>)

  class InMemoryIndex {
    /** `self.docs`: each document id to its stem frequencies. */
    var docs: Table
    /** `self.stems`: each stem to its frequency in each document id. */
    var stems: Table

    /** `__init__` (1-text/indexation.py:284-300): every stem of every document
        sets `stems[stem][docId]` and `docs[docId][stem]` to its frequency. */
    constructor (corpus: seq<Doc>)
      ensures docs == DocTable(CorpusOccs(corpus))
      ensures stems == StemTable(CorpusOccs(corpus))
    {
      docs := map[];
      stems := map[];
      new;
      ghost var occs := CorpusOccs(corpus);
      var i := 0;
      ghost var m := 0;
      assert corpus[..0] == [];
      while i < |corpus|
        invariant 0 <= i <= |corpus|
        invariant m == |CorpusOccs(corpus[..i])| <= |occs|
        invariant docs == DocTable(occs[..m]) && stems == StemTable(occs[..m])
      {
        ghost var next := m + |corpus[i].terms|;
        assert next == |CorpusOccs(corpus[..i + 1])| <= |occs| && occs[m..next] == DocOccs(corpus[i])
          by { DocOccsAt(corpus, i, occs, m); OccsLayout(corpus, i); }
        AddDocument(corpus[i], occs, m, next);
        i := i + 1;
        m := next;
      }
      assert corpus[..i] == corpus;
      assert occs[..m] == occs;
    }

    /** The inner loop of `__init__` (1-text/indexation.py:292-300) for one
        document, whose stems are the occurrences `occs[m..next]`. */
    method AddDocument(d: Doc, ghost occs: seq<Occ>, ghost m: nat, ghost next: nat)
      requires next == m + |d.terms| <= |occs|
      requires occs[m..next] == DocOccs(d)
      requires docs == DocTable(occs[..m]) && stems == StemTable(occs[..m])
      modifies this
      ensures docs == DocTable(occs[..next]) && stems == StemTable(occs[..next])
    {
      var j := 0;
      while j < |d.terms|
        invariant 0 <= j <= |d.terms|
        invariant docs == DocTable(occs[..m + j]) && stems == StemTable(occs[..m + j])
      {
        OccOfTerm(d, occs, m, next, j, m + j);
        AddTerm(d.title, d.terms[j].0, d.terms[j].1, occs, m + j);
        j := j + 1;
      }
    }

    /** One step of the inner loop, as occurrence `k` of the corpus. */
    method AddTerm(docId: string, stem: string, freq: nat, ghost occs: seq<Occ>, ghost k: nat)
      requires k < |occs| && occs[k] == Occ(stem, docId, freq)
      requires docs == DocTable(occs[..k]) && stems == StemTable(occs[..k])
      modifies this
      ensures docs == DocTable(occs[..k + 1]) && stems == StemTable(occs[..k + 1])
    {
      AddOccurrence(stem, docId, freq);
      TablesStep(occs, k, occs[k]);
    }

    /** The body of the inner loop of `__init__` (1-text/indexation.py:293-300):
        `stems[stem][docId]` and `docs[docId][stem]` become `freq`, creating the
        inner dictionary when the outer key is new. */
    method AddOccurrence(stem: string, docId: string, freq: nat)
      modifies this
      ensures stems == Put(old(stems), stem, docId, freq)
      ensures docs == Put(old(docs), docId, stem, freq)
    {
      if stem in stems {
        var postings: map<string, nat> := stems[stem][docId := freq];
        stems := stems[stem := postings];
      } else {
        var postings: map<string, nat> := map[docId := freq];
        stems := stems[stem := postings];
      }
      if docId in docs {
        var tfs: map<string, nat> := docs[docId][stem := freq];
        docs := docs[docId := tfs];
      } else {
        var tfs: map<string, nat> := map[stem := freq];
        docs := docs[docId := tfs];
      }
    }

    /** `getTfsForDoc` (1-text/indexation.py:302-306). */
    function GetTfsForDoc(docId: string): (r: Tfs)
      reads this
      ensures r.EmptyList? <==> docId !in docs
      ensures r.Dict? ==> forall s :: s in r.tfs <==> At(docs, docId, s).Some?
      ensures r.Dict? ==> forall s :: s in r.tfs ==> At(docs, docId, s) == Some(r.tfs[s])
    {
      if docId !in docs then EmptyList else Dict(docs[docId])
    }

    /** `getTfsForStem` (1-text/indexation.py:308-312). */
    function GetTfsForStem(stem: string): (r: Tfs)
      reads this
      ensures r.EmptyList? <==> stem !in stems
      ensures r.Dict? ==> forall d :: d in r.tfs <==> At(stems, stem, d).Some?
      ensures r.Dict? ==> forall d :: d in r.tfs ==> At(stems, stem, d) == Some(r.tfs[d])
    {
      if stem !in stems then EmptyList else Dict(stems[stem])
    }

    /** The state the constructor leaves for `corpus`. */
    ghost predicate Built(corpus: seq<Doc>)
      reads this
    {
      docs == DocTable(CorpusOccs(corpus)) && stems == StemTable(CorpusOccs(corpus))
    }

    /** After construction, a document id is unknown (`[]`) exactly when no
        document with that id has a stem. */
    lemma BuiltDocUnknown(corpus: seq<Doc>, d: string)
      requires Built(corpus)
      ensures GetTfsForDoc(d).EmptyList?
              <==> forall i :: 0 <= i < |corpus| && corpus[i].title == d ==> corpus[i].terms == []
    {
      DocTableKeys(CorpusOccs(corpus));
      OccTitles(corpus, d);
    }

    /** After construction, a stem is unknown (`[]`) exactly when no occurrence
        of the corpus has it. */
    lemma BuiltStemUnknown(corpus: seq<Doc>, s: string)
      requires Built(corpus)
      ensures GetTfsForStem(s).EmptyList?
              <==> forall k :: 0 <= k < |CorpusOccs(corpus)| ==> CorpusOccs(corpus)[k].stem != s
    {
      StemTableKeys(CorpusOccs(corpus));
    }

    /** After construction, the two lookups agree: document `d` appears under
        stem `s` exactly when `s` appears under `d`, with the same frequency. */
    lemma BuiltSymmetric(corpus: seq<Doc>, s: string, d: string)
      requires Built(corpus)
      ensures (GetTfsForStem(s).Dict? && d in GetTfsForStem(s).tfs)
              <==> (GetTfsForDoc(d).Dict? && s in GetTfsForDoc(d).tfs)
      ensures GetTfsForStem(s).Dict? && d in GetTfsForStem(s).tfs ==>
                GetTfsForStem(s).tfs[d] == GetTfsForDoc(d).tfs[s]
    {
      Transposed(CorpusOccs(corpus), s, d);
    }

    /** After construction, the last occurrence of a stem in a document gives
        the frequency both lookups report for the pair. */
    lemma BuiltLast(corpus: seq<Doc>, k: nat)
      requires Built(corpus)
      requires k < |CorpusOccs(corpus)| && LastOfPair(CorpusOccs(corpus), k)
      ensures var o := CorpusOccs(corpus)[k];
              && GetTfsForDoc(o.title).Dict? && o.stem in GetTfsForDoc(o.title).tfs
              && GetTfsForDoc(o.title).tfs[o.stem] == o.freq
              && GetTfsForStem(o.stem).Dict? && o.title in GetTfsForStem(o.stem).tfs
              && GetTfsForStem(o.stem).tfs[o.title] == o.freq
    {
      var occs := CorpusOccs(corpus);
      DocTableLast(occs, k);
      Transposed(occs, occs[k].stem, occs[k].title);
    }

    /** After construction, a pair that never occurs is not reported. */
    lemma BuiltAbsent(corpus: seq<Doc>, s: string, d: string)
      requires Built(corpus)
      requires forall k :: 0 <= k < |CorpusOccs(corpus)| ==>
                 CorpusOccs(corpus)[k].stem != s || CorpusOccs(corpus)[k].title != d
      ensures !(GetTfsForDoc(d).Dict? && s in GetTfsForDoc(d).tfs)
      ensures !(GetTfsForStem(s).Dict? && d in GetTfsForStem(s).tfs)
    {
      var occs := CorpusOccs(corpus);
      DocTableAbsent(occs, s, d);
      Transposed(occs, s, d);
    }
  }
}
