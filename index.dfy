/** Class `Index` of 1-text/indexation.py: the two index files and the
    directories into them, built by `indexation` in two passes over a corpus and
    read back by the `get…` accessors. Each file is a `string` field that the
    methods reassign; a file opened with mode `w` or `w+` starts empty. */
module Indexation {
  import opened Wrappers
  import opened PyText
  import opened Records
  import opened Postings
  import opened Links
  import opened Corpus

  class Index {
    /** `self.docs`: each title to the offset and length of its record in the
        forward index file. */
    var docs: map<string, (nat, nat)>
    /** The forward index file, `<name>_index.txt`. */
    var indexFile: string
    /** `self.stems`: each stem to the position and length of its slot in the
        inverted index file (position -1 until pass 2 creates the slot). */
    var stems: map<string, Slot>
    /** The inverted index file, `<name>_inverted.txt`. */
    var invertedFile: string
    /** `self.network`, the link matrix. */
    var network: Network

    /** `__init__` (1-text/indexation.py:15-42), without the file paths. */
    constructor ()
      ensures docs == map[] && indexFile == "" && stems == map[] && invertedFile == ""
      ensures network == Network(0, map[])
    {
      docs := map[];
      indexFile := "";
      stems := map[];
      invertedFile := "";
      network := Network(0, map[]);
    }

    /** The state `indexation` leaves after a corpus whose links raise nothing. */
    ghost predicate Indexed(corpus: seq<Doc>)
      reads this
    {
      var n := |DocsMap(corpus)|;
      && docs == DocsMap(corpus) && indexFile == IndexText(corpus)
      && Inverted(stems, invertedFile) == Fill(CorpusOccs(corpus))
      && LinksOf(n, corpus).Ok? && network == Network(n, LinksOf(n, corpus).value)
    }

    /** `addStem` (1-text/indexation.py:159-168): pass 1 measures the stem's
        posting record. */
    method AddStem(stem: string, docId: string, freq: nat)
      modifies this
      ensures stems == Reserve(old(stems), Occ(stem, docId, freq))
      ensures docs == old(docs) && indexFile == old(indexFile)
      ensures invertedFile == old(invertedFile) && network == old(network)
    {
      if stem in stems {
        var addRepr := docId + ":" + Show(freq) + ",";
        stems := stems[stem := stems[stem].(len := stems[stem].len + |addRepr|)];
      } else {
        var addRepr := stem + "{" + docId + ":" + Show(freq) + "}\n";
        stems := stems[stem := Slot(-1, |addRepr|)];
      }
    }

    /** `writeStem` (1-text/indexation.py:129-148): pass 2 writes one entry
        into the stem's slot, creating the slot at the end of the file the
        first time. */
    method WriteStem(stem: string, docId: string, freq: nat)
      requires stem in stems && InBounds(Inverted(stems, invertedFile))
      modifies this
      ensures Inverted(stems, invertedFile) == WriteEntry(old(Inverted(stems, invertedFile)), Occ(stem, docId, freq))
      ensures docs == old(docs) && indexFile == old(indexFile) && network == old(network)
    {
      ghost var inv, o := Inverted(stems, invertedFile), Occ(stem, docId, freq);
      if stems[stem].pos >= 0 {
        PlacedEntry(inv, o);
        var cursor := stems[stem].pos;
        var repres := Read(invertedFile, cursor, stems[stem].len);
        var idxEmpty := FindCommaPair(repres);
        assert EntryOffset(invertedFile, stems[stem]) == cursor + idxEmpty + 1;
        invertedFile := Overwrite(invertedFile, cursor + idxEmpty + 1, docId + ":" + Show(freq));
      } else {
        NewEntry(inv, o);
        stems := stems[stem := stems[stem].(pos := |invertedFile|)];
        var startRepr := stem + "{" + docId + ":" + Show(freq);
        var endRepr := "}\n";
        var midLen := stems[stem].len - |startRepr| - |endRepr|;
        var midRepr := Commas(if midLen < 0 then 0 else midLen);
        assert startRepr == stem + "{" + Item(o);
        invertedFile := invertedFile + (startRepr + midRepr + endRepr);
      }
    }

    /** One document of pass 1 (1-text/indexation.py:66-79): its stems are
        measured and its record is appended to the forward index file. */
    method IndexDocument(d: Doc)
      modifies this
      ensures stems == ReserveAll(old(stems), DocOccs(d))
      ensures docs == old(docs)[d.title := (|old(indexFile)|, |DocRecord(d.title, d.terms)|)]
      ensures indexFile == old(indexFile) + DocRecord(d.title, d.terms)
      ensures invertedFile == old(invertedFile) && network == old(network)
    {
      var j := 0;
      while j < |d.terms|
        invariant 0 <= j <= |d.terms|
        invariant stems == ReserveAll(old(stems), DocOccs(d)[..j])
        invariant docs == old(docs) && indexFile == old(indexFile)
        invariant invertedFile == old(invertedFile) && network == old(network)
      {
        AddStem(d.terms[j].0, d.title, d.terms[j].1);
        assert DocOccs(d)[..j + 1][..j] == DocOccs(d)[..j];
        j := j + 1;
      }
      assert DocOccs(d)[..j] == DocOccs(d);
      var docRepr := Entries(d.terms);
      var toWrite := d.title + "{" + Join(docRepr, ',') + "}\n";
      docs := docs[d.title := (|indexFile|, |toWrite|)];
      indexFile := indexFile + toWrite;
    }

    /** The stems of one document in pass 2 (1-text/indexation.py:98-100):
        its occurrences are the next ones after the first `m` of the corpus. */
    method InvertDocument(d: Doc, ghost occs: seq<Occ>, ghost m: nat, ghost next: nat)
      requires next == m + |d.terms| <= |occs|
      requires forall j :: 0 <= j < |d.terms| ==> occs[m + j] == Occ(d.terms[j].0, d.title, d.terms[j].1)
      requires Inverted(stems, invertedFile) == Filled(occs, m)
      modifies this
      ensures Inverted(stems, invertedFile) == Filled(occs, next)
      ensures docs == old(docs) && indexFile == old(indexFile) && network == old(network)
    {
      var j := 0;
      ghost var k := m;
      while j < |d.terms|
        invariant 0 <= j <= |d.terms| && k == m + j
        invariant Inverted(stems, invertedFile) == Filled(occs, k)
        invariant docs == old(docs) && indexFile == old(indexFile) && network == old(network)
      {
        var stem, freq := d.terms[j].0, d.terms[j].1;
        assert k < |occs| && occs[k] == Occ(stem, d.title, freq);
        WriteOccurrence(stem, d.title, freq, occs, k);
        j := j + 1;
        k := k + 1;
      }
      assert k == next;
    }

    /** One call of `writeStem` in pass 2: the `k`-th occurrence of the corpus
        is written after the first `k`. */
    method WriteOccurrence(stem: string, docId: string, freq: nat, ghost occs: seq<Occ>, ghost k: nat)
      requires k < |occs| && occs[k] == Occ(stem, docId, freq)
      requires Inverted(stems, invertedFile) == Filled(occs, k)
      modifies this
      ensures Inverted(stems, invertedFile) == Filled(occs, k + 1)
      ensures docs == old(docs) && indexFile == old(indexFile) && network == old(network)
    {
      assert stem in stems by { ReservedAll(occs); }
      WriteStem(stem, docId, freq);
      assert Filled(occs, k + 1) == Written(occs, k) == Advanced(occs, k);
    }

    /** The links of one document in pass 2 (1-text/indexation.py:104-114):
        the destinations are parsed, the title converted, then the keys of
        `neighbours` stored in the document's row. Returns the error raised,
        if any. */
    method StoreDocumentLinks(title: string, links: string) returns (err: Option<Error>)
      modifies this
      ensures err.None? <==> LinkCells(old(network.cells), old(network.n), title, links).Ok?
      ensures err.Some? ==> err.value == LinkCells(old(network.cells), old(network.n), title, links).error
      ensures err.None? ==>
                network == Network(old(network.n), LinkCells(old(network.cells), old(network.n), title, links).value)
      ensures docs == old(docs) && indexFile == old(indexFile)
      ensures stems == old(stems) && invertedFile == old(invertedFile)
    {
      ghost var want := LinkCells(network.cells, network.n, title, links);
      var parsed := DestFields(links);
      if parsed.Err? {
        assert want == Err(parsed.error);
        return Some(parsed.error);
      }
      var fields := parsed.value;
      var titleValue := PyInt(title);
      if titleValue.Err? {
        assert want == Err(titleValue.error);
        return Some(titleValue.error);
      }
      var neighbours := Unique(fields);
      assert want == StoreLinks(network.cells, network.n, titleValue.value, neighbours, fields);
      err := StoreNeighbours(titleValue.value, neighbours, fields);
    }

    /** The loop over `neighbours` (1-text/indexation.py:108-114): for each
        key in order, `int(dest)`, then the guard as written, and the number
        of fields equal to the key stored in cell `(titleId, destId)`, numpy
        wrapping a negative index. */
    method StoreNeighbours(t: nat, neighbours: seq<string>, fields: seq<string>) returns (err: Option<Error>)
      modifies this
      ensures err.None? <==> StoreLinks(old(network.cells), old(network.n), t, neighbours, fields).Ok?
      ensures err.Some? ==> err.value == StoreLinks(old(network.cells), old(network.n), t, neighbours, fields).error
      ensures err.None? ==>
                network == Network(old(network.n), StoreLinks(old(network.cells), old(network.n), t, neighbours, fields).value)
      ensures docs == old(docs) && indexFile == old(indexFile)
      ensures stems == old(stems) && invertedFile == old(invertedFile)
    {
      var titleId := t as int - 1;
      ghost var cells0 := network.cells;
      var k := 0;
      while k < |neighbours|
        invariant 0 <= k <= |neighbours|
        invariant network.n == old(network.n)
        invariant StoreLinks(cells0, network.n, t, neighbours[..k], fields) == Ok(network.cells)
        invariant docs == old(docs) && indexFile == old(indexFile)
        invariant stems == old(stems) && invertedFile == old(invertedFile)
      {
        var dest := neighbours[k];
        var linkNbr := multiset(fields)[dest];
        StoreLinksNext(cells0, network.n, t, neighbours, fields, k, network.cells);
        var destValue := PyInt(dest);
        if destValue.Err? {
          StoreLinksStuck(cells0, network.n, t, neighbours, fields, k + 1);
          return Some(destValue.error);
        }
        ghost var stored := StoredCellAsWritten(network.n, t, destValue.value);
        var destId := destValue.value as int - 1;
        if titleId != destId && destId < network.n {
          var row, col := Wrap(titleId, network.n), Wrap(destId, network.n);
          if row.Err? || col.Err? {
            assert stored == Err(IndexError);
            StoreLinksStuck(cells0, network.n, t, neighbours, fields, k + 1);
            return Some(IndexError);
          }
          assert stored == Ok(Some((row.value, col.value)));
          network := network.(cells := network.cells[(row.value, col.value) := linkNbr]);
        } else {
          assert stored == Ok(None);
        }
        k := k + 1;
      }
      assert neighbours[..k] == neighbours;
      return None;
    }

    /** Pass 1 of `indexation` (1-text/indexation.py:61-83): the forward index
        file is written anew and every stem's posting record is measured. */
    method FirstPass(corpus: seq<Doc>)
      requires docs == map[] && stems == map[]
      modifies this
      ensures docs == DocsMap(corpus) && indexFile == IndexText(corpus)
      ensures stems == ReserveAll(map[], CorpusOccs(corpus))
      ensures invertedFile == old(invertedFile) && network == old(network)
    {
      indexFile := "";
      var i := 0;
      while i < |corpus|
        invariant 0 <= i <= |corpus|
        invariant docs == DocsMap(corpus[..i]) && indexFile == IndexText(corpus[..i])
        invariant stems == ReserveAll(map[], CorpusOccs(corpus[..i]))
        invariant invertedFile == old(invertedFile) && network == old(network)
      {
        PrefixStep(0, corpus, i);
        ReserveAllAppend(map[], CorpusOccs(corpus[..i]), DocOccs(corpus[i]));
        IndexDocument(corpus[i]);
        i := i + 1;
      }
      assert corpus[..i] == corpus;
    }

    /** Pass 2 of `indexation` (1-text/indexation.py:85-115): the inverted index
        file is written anew into the slots pass 1 measured, and the links are
        stored in a matrix of `len(self.docs)` rows. Returns the error that stops
        it, if any. */
    method SecondPass(corpus: seq<Doc>) returns (err: Option<Error>)
      requires stems == ReserveAll(map[], CorpusOccs(corpus))
      modifies this
      ensures err.None? <==> LinksOf(|old(docs)|, corpus).Ok?
      ensures err.Some? ==> err.value == LinksOf(|old(docs)|, corpus).error
      ensures err.None? ==> Inverted(stems, invertedFile) == Fill(CorpusOccs(corpus))
      ensures err.None? ==> network == Network(|old(docs)|, LinksOf(|old(docs)|, corpus).value)
      ensures docs == old(docs) && indexFile == old(indexFile)
    {
      ghost var occs := CorpusOccs(corpus);
      invertedFile := "";
      var n := |docs|;
      network := Network(n, map[]);
      var i := 0;
      ghost var m := 0;
      assert corpus[..0] == [];
      while i < |corpus|
        invariant 0 <= i <= |corpus|
        invariant docs == old(docs) && indexFile == old(indexFile)
        invariant m == |CorpusOccs(corpus[..i])| && m <= |occs|
        invariant Inverted(stems, invertedFile) == Filled(occs, m)
        invariant LinksOf(n, corpus[..i]).Ok? && network == Network(n, LinksOf(n, corpus[..i]).value)
      {
        var d := corpus[i];
        DocOccsAt(corpus, i, occs, m);
        LinksStep(n, corpus, i);
        ghost var next := m + |d.terms|;
        var linkErr := SecondPassDocument(d, occs, m, next);
        if linkErr.Some? {
          LinksOfStuck(n, corpus, i + 1);
          return linkErr;
        }
        i := i + 1;
        m := next;
      }
      assert corpus[..i] == corpus;
      return None;
    }

    /** One document of pass 2 (1-text/indexation.py:90-114): its entries are
        written into the slots of its stems, then its links are stored. */
    method SecondPassDocument(d: Doc, ghost occs: seq<Occ>, ghost m: nat, ghost next: nat) returns (err: Option<Error>)
      requires next == m + |d.terms| <= |occs|
      requires forall j :: 0 <= j < |d.terms| ==> occs[m + j] == Occ(d.terms[j].0, d.title, d.terms[j].1)
      requires Inverted(stems, invertedFile) == Filled(occs, m)
      modifies this
      ensures Inverted(stems, invertedFile) == Filled(occs, next)
      ensures err.None? <==> LinkCells(old(network.cells), old(network.n), d.title, d.links).Ok?
      ensures err.Some? ==> err.value == LinkCells(old(network.cells), old(network.n), d.title, d.links).error
      ensures err.None? ==>
                network == Network(old(network.n), LinkCells(old(network.cells), old(network.n), d.title, d.links).value)
      ensures docs == old(docs) && indexFile == old(indexFile)
    {
      InvertDocument(d, occs, m, next);
      ghost var filled := Inverted(stems, invertedFile);
      err := StoreDocumentLinks(d.title, d.links);
      assert Inverted(stems, invertedFile) == filled;
    }

    /** `indexation` (1-text/indexation.py:44-117) on an index that has not
        indexed anything yet: pass 1, then pass 2 over the same corpus. Returns
        the error that stops pass 2, if any. */
    method Indexation(corpus: seq<Doc>) returns (err: Option<Error>)
      requires docs == map[] && stems == map[]
      modifies this
      ensures err.None? <==> LinksOf(|DocsMap(corpus)|, corpus).Ok?
      ensures err.Some? ==> err.value == LinksOf(|DocsMap(corpus)|, corpus).error
      ensures err.None? ==> Indexed(corpus)
    {
      FirstPass(corpus);
      err := SecondPass(corpus);
    }

    /** `getTfsForDoc` (1-text/indexation.py:170-187): the stem dictionary read
        back from the document's record; KeyError for an unknown document. */
    function GetTfsForDoc(docId: string): (r: Result<map<string, nat>>)
      reads this
      ensures docId !in docs ==> r == Err(KeyError)
    {
      if docId !in docs then Err(KeyError)
      else
        var (pos, length) := docs[docId];
        ParseDocRecord(Read(indexFile, pos, length))
    }

    /** `getTfsForStem` (1-text/indexation.py:189-209): the postings read back
        from the stem's slot, keyed by `int(docId)`; an empty dictionary for an
        unknown stem, ValueError for a slot pass 2 never created (a negative
        seek). */
    function GetTfsForStem(stem: string): (r: Result<map<nat, nat>>)
      reads this
      ensures stem !in stems ==> r == Ok(map[])
      ensures stem in stems && stems[stem].pos < 0 ==> r == Err(ValueError)
    {
      if stem !in stems then Ok(map[])
      else if stems[stem].pos < 0 then Err(ValueError)
      else
        var repres := Read(invertedFile, stems[stem].pos, stems[stem].len);
        ParsePostingRecord(stem, repres)
    }

    /** `getDocsLen` (1-text/indexation.py:254-258): the sum of the stem
        frequencies of a document. */
    ghost function GetDocsLen(docId: string): (r: Result<nat>)
      reads this
      ensures r.Err? <==> GetTfsForDoc(docId).Err?
      ensures r.Err? ==> r.error == GetTfsForDoc(docId).error
    {
      match GetTfsForDoc(docId)
      case Err(e) => Err(e)
      case Ok(tfs) => Ok(SumValues(tfs))
    }

    /** `getSuccNodes` (1-text/indexation.py:270-275): the documents a document
        links to. */
    function GetSuccNodes(docId: int): (r: Result<set<nat>>)
      reads this
      ensures r.Ok? <==> -(network.n as int) <= docId - 1 < network.n
      ensures r.Ok? ==> forall j :: j in r.value ==> 1 <= j <= network.n
    {
      SuccNodes(network, docId)
    }

    /** `getPrevNodes` (1-text/indexation.py:277-280): the documents that link
        to a document. */
    function GetPrevNodes(docId: int): (r: Result<set<nat>>)
      reads this
      ensures r.Ok? <==> -(network.n as int) <= docId - 1 < network.n
      ensures r.Ok? ==> forall i :: i in r.value ==> 1 <= i <= network.n
    {
      PrevNodes(network, docId)
    }

    /** After `indexation`, the forward index gives back the stem dictionary of
        the last document with a title, and ValueError for one without stems. */
    lemma IndexedDocTfs(corpus: seq<Doc>, k: nat)
      requires Indexed(corpus)
      requires k < |corpus| && CleanDoc(corpus[k])
      requires forall j :: k < j < |corpus| ==> corpus[j].title != corpus[k].title
      ensures GetTfsForDoc(corpus[k].title)
              == if corpus[k].terms == [] then Err(ValueError) else Ok(DictOf(corpus[k].terms))
    {
      ForwardRoundTrip(corpus, k);
    }

    /** After `indexation`, the length of a document is the sum of its stem
        frequencies. */
    lemma IndexedDocsLen(corpus: seq<Doc>, k: nat)
      requires Indexed(corpus)
      requires k < |corpus| && CleanDoc(corpus[k]) && DistinctKeys(corpus[k].terms)
      requires forall j :: k < j < |corpus| ==> corpus[j].title != corpus[k].title
      ensures GetDocsLen(corpus[k].title)
              == if corpus[k].terms == [] then Err(ValueError) else Ok(SumFreqs(corpus[k].terms))
    {
      IndexedDocTfs(corpus, k);
      if corpus[k].terms != [] {
        SumOfDict(corpus[k].terms);
      }
    }

    /** After `indexation`, the inverted index gives back, for every stem, the
        frequency in each document that contains it keyed by `int(title)`, and
        nothing for a stem no document contains. */
    lemma IndexedStemTfs(corpus: seq<Doc>, s: string)
      requires Indexed(corpus) && CleanCorpus(corpus)
      ensures var ps := PostingsOf(CorpusOccs(corpus), s);
              forall i :: 0 <= i < |ps| ==> IsDecimal(ps[i].0)
      ensures var ps := PostingsOf(CorpusOccs(corpus), s);
              GetTfsForStem(s) == if ps == [] then Ok(map[]) else Ok(DictOf(NumericKeys(ps)))
    {
      var occs := CorpusOccs(corpus);
      CleanCorpusOccs(corpus);
      PostingsDecimalAt(occs, s);
      ReservedExactly(occs, s);
      if s in stems {
        ExactFit(occs, s);
      }
    }

    /** After `indexation`, the successors of the one document numbered `t`
        are the destinations of its links inside the matrix other than `t`,
        and the last document `n` when it links to `0`. */
    lemma IndexedSucc(corpus: seq<Doc>, k: nat)
      requires Indexed(corpus)
      requires forall j :: 0 <= j < |corpus| ==> LinksClean(|DocsMap(corpus)|, corpus[j])
      requires k < |corpus| && LinksClean(|DocsMap(corpus)|, corpus[k])
      requires forall j :: 0 <= j < |corpus| && j != k ==> PyInt(corpus[j].title) != PyInt(corpus[k].title)
      ensures var n, t, ds := |DocsMap(corpus)|, DecimalValue(corpus[k].title), Dests(|DocsMap(corpus)|, corpus[k]);
              GetSuccNodes(t) == Ok(set x: nat | 1 <= x <= n && ((x in ds && x != t) || (x == n && 0 in ds)))
    {
      var n := |DocsMap(corpus)|;
      var rows := RowsOf(n, corpus);
      LinksOfRows(n, corpus);
      forall j | 0 <= j < |rows| ensures RowOk(n, rows[j]) {
        assert LinksClean(n, corpus[j]);
      }
      forall j | 0 <= j < |rows| && j != k ensures rows[j].0 != rows[k].0 {
        assert LinksClean(n, corpus[j]);
        assert PyInt(corpus[j].title) == Ok(rows[j].0);
        assert PyInt(corpus[k].title) == Ok(rows[k].0);
      }
      RowSucc(n, rows, k);
    }

    /** After `indexation`, a document that links to `0` has the last document
        `n` among its successors: document `n` itself then links to itself. */
    lemma IndexedLinkToZero(corpus: seq<Doc>, k: nat)
      requires Indexed(corpus)
      requires forall j :: 0 <= j < |corpus| ==> LinksClean(|DocsMap(corpus)|, corpus[j])
      requires k < |corpus| && LinksClean(|DocsMap(corpus)|, corpus[k])
      requires forall j :: 0 <= j < |corpus| && j != k ==> PyInt(corpus[j].title) != PyInt(corpus[k].title)
      requires 0 in Dests(|DocsMap(corpus)|, corpus[k])
      ensures GetSuccNodes(DecimalValue(corpus[k].title)).Ok?
      ensures |DocsMap(corpus)| in GetSuccNodes(DecimalValue(corpus[k].title)).value
      ensures DecimalValue(corpus[k].title) == |DocsMap(corpus)| ==>
                DecimalValue(corpus[k].title) in GetSuccNodes(DecimalValue(corpus[k].title)).value
    {
      IndexedSucc(corpus, k);
    }

    /** After `indexation`, a document numbered `a` is a predecessor of `b` exactly
        when `b` is a successor of `a`. */
    lemma IndexedPrev(corpus: seq<Doc>, a: nat, b: nat)
      requires Indexed(corpus)
      requires 1 <= a <= |DocsMap(corpus)| && 1 <= b <= |DocsMap(corpus)|
      ensures a in GetPrevNodes(b).value <==> b in GetSuccNodes(a).value
    {
      SuccPrevDual(network, a, b);
    }
  }

  /** Once a document raises, pass 2 stops with that error. */
  lemma {:induction false} LinksOfStuck(n: nat, corpus: seq<Doc>, k: nat)
    requires k <= |corpus| && LinksOf(n, corpus[..k]).Err?
    ensures LinksOf(n, corpus) == LinksOf(n, corpus[..k])
    decreases |corpus|
  {
    if k == |corpus| {
      assert corpus[..k] == corpus;
    } else {
      var p := corpus[..|corpus| - 1];
      assert p[..k] == corpus[..k];
      LinksOfStuck(n, p, k);
    }
  }
}
