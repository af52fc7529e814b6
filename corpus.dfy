/** The corpus as both passes of `Index.indexation` see it
    (1-text/indexation.py:61-115), and what the passes build from it, written
    as functions of the corpus: the stem occurrences in visiting order, the
    forward index file and its directory `docs`, and the cells of the link
    network. */
module Corpus {
  import opened Wrappers
  import opened PyText
  import opened Records
  import opened Postings
  import opened Links

  /** A document as the parser and the text representer deliver it: its id, the
      items of its stem dictionary in order, and its `links` attribute. */
  datatype Doc = Doc(title: string, terms: seq<(string, nat)>, links: string)

  /** The occurrences one document contributes, in the order of its stems. */
  function DocOccs(d: Doc): (r: seq<Occ>)
    ensures |r| == |d.terms|
    ensures forall j :: 0 <= j < |r| ==> r[j] == Occ(d.terms[j].0, d.title, d.terms[j].1)
  {
    seq(|d.terms|, j requires 0 <= j < |d.terms| => Occ(d.terms[j].0, d.title, d.terms[j].1))
  }

  /** The occurrences of a corpus, document after document. */
  function CorpusOccs(corpus: seq<Doc>): seq<Occ>
  {
    if corpus == [] then []
    else CorpusOccs(corpus[..|corpus| - 1]) + DocOccs(corpus[|corpus| - 1])
  }

  lemma {:induction false} CorpusOccsAppend(a: seq<Doc>, b: seq<Doc>)
    ensures CorpusOccs(a + b) == CorpusOccs(a) + CorpusOccs(b)
  {
    if b == [] {
      assert a + b == a;
    } else {
      var n := |b| - 1;
      var ab, d := a + b, b[n];
      assert ab[..|ab| - 1] == a + b[..n];
      assert ab[|ab| - 1] == d;
      assert CorpusOccs(ab) == CorpusOccs(a + b[..n]) + DocOccs(d);
      assert CorpusOccs(a + b[..n]) == CorpusOccs(a) + CorpusOccs(b[..n]) by {
        CorpusOccsAppend(a, b[..n]);
      }
      assert CorpusOccs(b) == CorpusOccs(b[..n]) + DocOccs(d);
    }
  }

  /** Where the occurrences of document `i` sit among those of the corpus. */
  lemma OccsLayout(corpus: seq<Doc>, i: nat)
    requires i < |corpus|
    ensures CorpusOccs(corpus[..i + 1]) == CorpusOccs(corpus[..i]) + DocOccs(corpus[i])
    ensures var m := |CorpusOccs(corpus[..i])|;
            && m + |corpus[i].terms| <= |CorpusOccs(corpus)|
            && CorpusOccs(corpus)[..m] == CorpusOccs(corpus[..i])
            && CorpusOccs(corpus)[m..m + |corpus[i].terms|] == DocOccs(corpus[i])
  {
    assert corpus[..i + 1][..i] == corpus[..i];
    assert corpus == corpus[..i + 1] + corpus[i + 1..];
    CorpusOccsAppend(corpus[..i + 1], corpus[i + 1..]);
  }

  /** The occurrences of document `i`, one per stem of its dictionary, follow
      the `m` occurrences of the documents before it. */
  lemma DocOccsAt(corpus: seq<Doc>, i: nat, occs: seq<Occ>, m: nat)
    requires i < |corpus| && occs == CorpusOccs(corpus) && m == |CorpusOccs(corpus[..i])|
    ensures |CorpusOccs(corpus[..i + 1])| == m + |corpus[i].terms| <= |occs|
    ensures forall j :: 0 <= j < |corpus[i].terms| ==>
              occs[m + j] == Occ(corpus[i].terms[j].0, corpus[i].title, corpus[i].terms[j].1)
  {
    var d := corpus[i];
    OccsLayout(corpus, i);
    forall j | 0 <= j < |d.terms|
      ensures occs[m + j] == Occ(d.terms[j].0, d.title, d.terms[j].1)
    {
      assert occs[m + j] == occs[m..m + |d.terms|][j];
    }
  }

  /** Reserving over two runs of occurrences is reserving over both in turn. */
  lemma {:induction false} ReserveAllAppend(stems: map<string, Slot>, a: seq<Occ>, b: seq<Occ>)
    ensures ReserveAll(stems, a + b) == ReserveAll(ReserveAll(stems, a), b)
  {
    if b == [] {
      assert a + b == a;
    } else {
      var n := |b| - 1;
      ReserveAllAppend(stems, a, b[..n]);
      assert (a + b)[..|a + b| - 1] == a + b[..n];
      assert (a + b)[|a + b| - 1] == b[n];
    }
  }

  /** Stems avoid the delimiters and titles are decimal numbers. */
  ghost predicate CleanCorpus(corpus: seq<Doc>) {
    forall k :: 0 <= k < |corpus| ==> CleanDoc(corpus[k])
  }

  ghost predicate CleanDoc(d: Doc) {
    && IsDecimal(d.title) && NoneOf(d.title, Delimiters)
    && forall j :: 0 <= j < |d.terms| ==> NoneOf(d.terms[j].0, Delimiters)
  }

  lemma {:induction false} CleanCorpusOccs(corpus: seq<Doc>)
    requires CleanCorpus(corpus)
    ensures CleanOccs(CorpusOccs(corpus))
  {
    if corpus != [] {
      var n := |corpus| - 1;
      CleanCorpusOccs(corpus[..n]);
      var a: seq<Occ> := CorpusOccs(corpus[..n]);
      var b: seq<Occ> := DocOccs(corpus[n]);
      assert CleanDoc(corpus[n]);
      forall i | 0 <= i < |a + b|
        ensures NoneOf((a + b)[i].stem, Delimiters) && IsDecimal((a + b)[i].title)
      {
        if i >= |a| {
          assert (a + b)[i] == b[i - |a|];
        }
      }
    }
  }

  // ---------------------------------------------------------------------------
  // Pass 1: the forward index file and its directory

  /** The forward index file pass 1 writes: one record per document, in corpus
      order. */
  function IndexText(corpus: seq<Doc>): string
  {
    if corpus == [] then ""
    else
      var d := corpus[|corpus| - 1];
      IndexText(corpus[..|corpus| - 1]) + DocRecord(d.title, d.terms)
  }

  /** `self.docs` after pass 1: every title maps to the offset and the length of
      its record; a title that occurs again maps to its later record. */
  function DocsMap(corpus: seq<Doc>): map<string, (nat, nat)>
  {
    if corpus == [] then map[]
    else
      var p, d := corpus[..|corpus| - 1], corpus[|corpus| - 1];
      DocsMap(p)[d.title := (|IndexText(p)|, |DocRecord(d.title, d.terms)|)]
  }

  /** The directory has an entry for every title and for nothing else. */
  lemma {:induction false} DocsMapKeys(corpus: seq<Doc>)
    ensures DocsMap(corpus).Keys == set k | 0 <= k < |corpus| :: corpus[k].title
  {
    if corpus != [] {
      var p := corpus[..|corpus| - 1];
      DocsMapKeys(p);
      TitlesStep(corpus);
    }
  }

  /** The titles of a corpus are those of all its documents but the last, and
      the last one's. */
  lemma TitlesStep(corpus: seq<Doc>)
    requires corpus != []
    ensures var p := corpus[..|corpus| - 1];
            (set k | 0 <= k < |corpus| :: corpus[k].title)
            == (set k | 0 <= k < |p| :: p[k].title) + {corpus[|corpus| - 1].title}
  {
    var p := corpus[..|corpus| - 1];
    var all := set k | 0 <= k < |corpus| :: corpus[k].title;
    var before := set k | 0 <= k < |p| :: p[k].title;
    forall x | x in all ensures x in before + {corpus[|corpus| - 1].title} {
      var k :| 0 <= k < |corpus| && corpus[k].title == x;
      if k < |p| {
        assert p[k] == corpus[k];
      }
    }
    forall x | x in before ensures x in all {
      var k :| 0 <= k < |p| && p[k].title == x;
      assert p[k] == corpus[k];
    }
  }

  /** The directory entry of a title points at the record of the last document
      with that title. */
  lemma {:induction false} RecordAt(corpus: seq<Doc>, k: nat)
    requires k < |corpus|
    requires forall j :: k < j < |corpus| ==> corpus[j].title != corpus[k].title
    ensures corpus[k].title in DocsMap(corpus)
    ensures Located(IndexText(corpus), DocsMap(corpus)[corpus[k].title], DocRecord(corpus[k].title, corpus[k].terms))
  {
    var n := |corpus| - 1;
    var p, d := corpus[..n], corpus[n];
    var rec := DocRecord(d.title, d.terms);
    var text, prev := IndexText(p), DocsMap(p);
    assert IndexText(corpus) == text + rec;
    assert DocsMap(corpus) == prev[d.title := (|text|, |rec|)];
    var title, want := corpus[k].title, DocRecord(corpus[k].title, corpus[k].terms);
    if k < n {
      assert title != d.title;
      assert p[k] == corpus[k];
      assert title in prev && Located(text, prev[title], want) by {
        assert forall j :: k < j < |p| ==> p[j] == corpus[j];
        RecordAt(p, k);
      }
      LocatedInPrefix(text, rec, prev[title], want);
    } else {
      assert want == rec;
      LocatedAtEnd(text, rec);
    }
  }

  /** `text` holds `rec` at the offset and length `e`. */
  ghost predicate Located(text: string, e: (nat, nat), rec: string) {
    e.0 + e.1 <= |text| && text[e.0..e.0 + e.1] == rec
  }

  lemma LocatedInPrefix(text: string, more: string, e: (nat, nat), rec: string)
    requires Located(text, e, rec)
    ensures Located(text + more, e, rec)
  {
    assert (text + more)[e.0..e.0 + e.1] == text[e.0..e.0 + e.1];
  }

  lemma LocatedAtEnd(text: string, rec: string)
    ensures Located(text + rec, (|text|, |rec|), rec)
  {
    assert (text + rec)[|text|..|text| + |rec|] == rec;
  }

  /** `getTfsForDoc` after pass 1 for the last document with a title: its
      stem dictionary, or ValueError when it has no stems. */
  lemma ForwardRoundTrip(corpus: seq<Doc>, k: nat)
    requires k < |corpus| && CleanDoc(corpus[k])
    requires forall j :: k < j < |corpus| ==> corpus[j].title != corpus[k].title
    ensures corpus[k].title in DocsMap(corpus)
    ensures var e := DocsMap(corpus)[corpus[k].title];
            ParseDocRecord(Read(IndexText(corpus), e.0, e.1))
            == if corpus[k].terms == [] then Err(ValueError) else Ok(DictOf(corpus[k].terms))
  {
    var d := corpus[k];
    RecordAt(corpus, k);
    if d.terms == [] {
      EmptyDocRecordFails(d.title);
    } else {
      DocRecordRoundTrip(d.title, d.terms);
    }
  }

  // ---------------------------------------------------------------------------
  // Document lengths

  /** `sum(d.values())`. */
  ghost function SumValues<K>(m: map<K, nat>): nat
    decreases |m|
  {
    if m == map[] then 0
    else
      var k :| k in m;
      m[k] + SumValues(m - {k})
  }

  /** The sum does not depend on the key taken first. */
  lemma {:induction false} SumValuesRemove<K>(m: map<K, nat>, k: K)
    requires k in m
    ensures SumValues(m) == m[k] + SumValues(m - {k})
    decreases |m|
  {
    var k' :| k' in m && SumValues(m) == m[k'] + SumValues(m - {k'});
    if k' != k {
      SumValuesRemove(m - {k'}, k);
      SumValuesRemove(m - {k}, k');
      assert (m - {k'}) - {k} == (m - {k}) - {k'};
    }
  }

  /** The sum of the frequencies of a sequence of pairs. */
  function SumFreqs<K>(pairs: seq<(K, nat)>): nat
  {
    if pairs == [] then 0 else SumFreqs(pairs[..|pairs| - 1]) + pairs[|pairs| - 1].1
  }

  /** With distinct keys no pair is overwritten: the dictionary sums to the sum
      of all the frequencies. */
  lemma {:induction false} SumOfDict<K>(pairs: seq<(K, nat)>)
    requires DistinctKeys(pairs)
    ensures SumValues(DictOf(pairs)) == SumFreqs(pairs)
  {
    if pairs != [] {
      var n := |pairs| - 1;
      var p := pairs[..n];
      assert DistinctKeys(p) by {
        assert forall i :: 0 <= i < n ==> p[i] == pairs[i];
      }
      SumOfDict(p);
      var m := DictOf(pairs);
      var k := pairs[n].0;
      assert k !in DictOf(p) by {
        assert forall i :: 0 <= i < n ==> p[i].0 != k;
      }
      SumValuesRemove(m, k);
      assert m - {k} == DictOf(p);
    }
  }

  // ---------------------------------------------------------------------------
  // Pass 2: the link network

  /** The cells pass 2 stores in an `n` by `n` matrix, document after document;
      the first error raised, if any. */
  function LinksOf(n: nat, corpus: seq<Doc>): (r: Result<map<(nat, nat), nat>>)
    ensures r.Ok? ==> forall c :: c in r.value ==> c.0 < n && c.1 < n
  {
    if corpus == [] then Ok(map[])
    else
      match LinksOf(n, corpus[..|corpus| - 1])
      case Err(e) => Err(e)
      case Ok(cells) => LinkCells(cells, n, corpus[|corpus| - 1].title, corpus[|corpus| - 1].links)
  }

  /** A run of pass 2 that raises nothing has raised nothing on any prefix. */
  lemma {:induction false} LinksOfPrefix(n: nat, corpus: seq<Doc>, i: nat)
    requires i <= |corpus| && LinksOf(n, corpus).Ok?
    ensures LinksOf(n, corpus[..i]).Ok?
    decreases |corpus| - i
  {
    if i < |corpus| {
      var p := corpus[..|corpus| - 1];
      LinksOfPrefix(n, p, i);
      assert p[..i] == corpus[..i];
    } else {
      assert corpus[..i] == corpus;
    }
  }

  /** The links of a document are well formed: a decimal title between 1 and
      `n`, and a decimal destination in front of every token. */
  ghost predicate LinksClean(n: nat, d: Doc) {
    && IsDecimal(d.title) && 1 <= DecimalValue(d.title) <= n
    && DestFields(d.links).Ok?
    && forall i :: 0 <= i < |DestFields(d.links).value| ==> IsDecimal(DestFields(d.links).value[i])
  }

  /** The destinations of a document's links, as numbers. */
  ghost function Dests(n: nat, d: Doc): seq<nat>
    requires LinksClean(n, d)
  {
    Values(DestFields(d.links).value)
  }

  /** A document numbered inside the matrix, with the destination fields of its
      links, all of them numbers. */
  ghost predicate RowOk(n: nat, r: (nat, seq<string>)) {
    1 <= r.0 <= n && forall i :: 0 <= i < |r.1| ==> IsDecimal(r.1[i])
  }

  /** The number and the destination fields of every document of a corpus. */
  ghost function RowsOf(n: nat, corpus: seq<Doc>): (rows: seq<(nat, seq<string>)>)
    requires forall k :: 0 <= k < |corpus| ==> LinksClean(n, corpus[k])
    ensures |rows| == |corpus|
    ensures forall k :: 0 <= k < |corpus| && LinksClean(n, corpus[k]) ==>
              rows[k] == (DecimalValue(corpus[k].title), DestFields(corpus[k].links).value) && RowOk(n, rows[k])
  {
    seq(|corpus|, k requires 0 <= k < |corpus| && LinksClean(n, corpus[k]) =>
                    (DecimalValue(corpus[k].title), DestFields(corpus[k].links).value))
  }

  /** The cells the links of one document store in its row. */
  function RowOf(n: nat, r: (nat, seq<string>)): map<(nat, nat), nat>
    requires RowOk(n, r)
  {
    RowCells(n, r.0, Unique(r.1), r.1)
  }

  /** The union of the rows of documents numbered from 1, a later row over an
      earlier one. */
  function Union(n: nat, rows: seq<(nat, seq<string>)>): map<(nat, nat), nat>
    requires forall k :: 0 <= k < |rows| ==> RowOk(n, rows[k])
  {
    if rows == [] then map[]
    else Union(n, rows[..|rows| - 1]) + RowOf(n, rows[|rows| - 1])
  }

  /** With well-formed links pass 2 raises nothing and stores the union of the
      rows of the documents. */
  lemma {:induction false} LinksOfRows(n: nat, corpus: seq<Doc>)
    requires forall k :: 0 <= k < |corpus| ==> LinksClean(n, corpus[k])
    ensures LinksOf(n, corpus) == Ok(Union(n, RowsOf(n, corpus)))
  {
    if corpus != [] {
      var p := corpus[..|corpus| - 1];
      assert forall k :: 0 <= k < |p| ==> LinksClean(n, p[k]) by {
        assert forall k :: 0 <= k < |p| ==> p[k] == corpus[k];
      }
      LinksOfRows(n, p);
      LinksOfRowsStep(n, corpus);
    }
  }

  /** The step of `LinksOfRows`: one more well-formed document adds its row. */
  lemma LinksOfRowsStep(n: nat, corpus: seq<Doc>)
    requires corpus != [] && forall k :: 0 <= k < |corpus| ==> LinksClean(n, corpus[k])
    requires var p := corpus[..|corpus| - 1];
             (forall k :: 0 <= k < |p| ==> LinksClean(n, p[k])) && LinksOf(n, p) == Ok(Union(n, RowsOf(n, p)))
    ensures LinksOf(n, corpus) == Ok(Union(n, RowsOf(n, corpus)))
  {
    var last := |corpus| - 1;
    var p, d := corpus[..last], corpus[last];
    assert LinksClean(n, d);
    var fields := DestFields(d.links).value;
    var row := RowOf(n, (DecimalValue(d.title), fields));
    var u := Union(n, RowsOf(n, p));
    LinksOfLast(n, corpus, u);
    LinkCellsRow(u, n, d.title, d.links, fields);
    UnionLast(n, corpus);
  }

  lemma LinksOfLast(n: nat, corpus: seq<Doc>, u: map<(nat, nat), nat>)
    requires corpus != [] && LinksOf(n, corpus[..|corpus| - 1]) == Ok(u)
    ensures LinksOf(n, corpus) == LinkCells(u, n, corpus[|corpus| - 1].title, corpus[|corpus| - 1].links)
  {
  }

  lemma UnionLast(n: nat, corpus: seq<Doc>)
    requires corpus != []
    requires forall k :: 0 <= k < |corpus| ==> LinksClean(n, corpus[k])
    ensures var last := |corpus| - 1;
            var d := corpus[last];
            Union(n, RowsOf(n, corpus))
            == Union(n, RowsOf(n, corpus[..last])) + RowOf(n, (DecimalValue(d.title), DestFields(d.links).value))
  {
    var last := |corpus| - 1;
    var p, d := corpus[..last], corpus[last];
    var rows := RowsOf(n, corpus);
    assert rows[..last] == RowsOf(n, p) by {
      assert forall k :: 0 <= k < |p| ==> p[k] == corpus[k] && LinksClean(n, p[k]);
    }
    assert rows[last] == (DecimalValue(d.title), DestFields(d.links).value);
  }

  /** Row `t - 1` of the union is empty when no document is numbered `t`. */
  lemma {:induction false} RowAbsent(n: nat, rows: seq<(nat, seq<string>)>, t: nat, c: (nat, nat))
    requires forall k :: 0 <= k < |rows| ==> RowOk(n, rows[k]) && rows[k].0 != t
    requires c.0 + 1 == t
    ensures c !in Union(n, rows)
  {
    if rows != [] {
      var last := |rows| - 1;
      var p := rows[..last];
      assert forall k :: 0 <= k < |p| ==> p[k] == rows[k];
      RowAbsent(n, p, t, c);
      RowCellsOutside(n, rows[last].0, Unique(rows[last].1), rows[last].1, c);
    }
  }

  /** Row `t - 1` of the union holds exactly the row of the one document
      numbered `t`. */
  lemma {:induction false} RowOfTitle(n: nat, rows: seq<(nat, seq<string>)>, k: nat, c: (nat, nat))
    requires forall j :: 0 <= j < |rows| ==> RowOk(n, rows[j])
    requires k < |rows| && c.0 + 1 == rows[k].0
    requires forall j :: 0 <= j < |rows| && j != k ==> rows[j].0 != rows[k].0
    ensures c in Union(n, rows) <==> c in RowOf(n, rows[k])
    ensures c in Union(n, rows) ==> Union(n, rows)[c] == RowOf(n, rows[k])[c]
  {
    var last := |rows| - 1;
    if k == last {
      LastRowOfTitle(n, rows, c);
    } else {
      var p := rows[..last];
      PrefixRows(n, rows, k);
      RowOfTitle(n, p, k, c);
      EarlierRowOfTitle(n, rows, k, c);
    }
  }

  /** Dropping the last row keeps the rows well formed and row `k` alone with
      its number. */
  lemma PrefixRows(n: nat, rows: seq<(nat, seq<string>)>, k: nat)
    requires forall j :: 0 <= j < |rows| ==> RowOk(n, rows[j])
    requires k < |rows| - 1
    requires forall j :: 0 <= j < |rows| && j != k ==> rows[j].0 != rows[k].0
    ensures var p := rows[..|rows| - 1];
            && (forall j :: 0 <= j < |p| ==> RowOk(n, p[j]))
            && p[k] == rows[k]
            && (forall j :: 0 <= j < |p| && j != k ==> p[j].0 != p[k].0)
  {
    var p := rows[..|rows| - 1];
    assert forall j :: 0 <= j < |p| ==> p[j] == rows[j];
  }

  /** `RowOfTitle` for the last row. */
  lemma LastRowOfTitle(n: nat, rows: seq<(nat, seq<string>)>, c: (nat, nat))
    requires rows != [] && forall j :: 0 <= j < |rows| ==> RowOk(n, rows[j])
    requires c.0 + 1 == rows[|rows| - 1].0
    requires forall j :: 0 <= j < |rows| - 1 ==> rows[j].0 != rows[|rows| - 1].0
    ensures c in Union(n, rows) <==> c in RowOf(n, rows[|rows| - 1])
    ensures c in Union(n, rows) ==> Union(n, rows)[c] == RowOf(n, rows[|rows| - 1])[c]
  {
    var last := |rows| - 1;
    var p, r := rows[..last], rows[last];
    UnionStep(n, rows);
    assert c !in Union(n, p) by {
      assert forall j :: 0 <= j < |p| ==> p[j] == rows[j];
      RowAbsent(n, p, r.0, c);
    }
    CellOfRight(Union(n, p), RowOf(n, r), c);
  }

  /** `RowOfTitle` for an earlier row, from the same fact about the rows before
      the last one. */
  lemma EarlierRowOfTitle(n: nat, rows: seq<(nat, seq<string>)>, k: nat, c: (nat, nat))
    requires forall j :: 0 <= j < |rows| ==> RowOk(n, rows[j])
    requires k < |rows| - 1 && c.0 + 1 == rows[k].0 && rows[|rows| - 1].0 != rows[k].0
    requires var u, own := Union(n, rows[..|rows| - 1]), RowOf(n, rows[k]);
             (c in u <==> c in own) && (c in u ==> u[c] == own[c])
    ensures c in Union(n, rows) <==> c in RowOf(n, rows[k])
    ensures c in Union(n, rows) ==> Union(n, rows)[c] == RowOf(n, rows[k])[c]
  {
    var last := |rows| - 1;
    var p, r := rows[..last], rows[last];
    UnionStep(n, rows);
    RowCellsOutside(n, r.0, Unique(r.1), r.1, c);
    CellOfLeft(Union(n, p), RowOf(n, r), c);
  }

  /** The union of the rows is the union of all rows but the last, overwritten
      by the last one. */
  lemma UnionStep(n: nat, rows: seq<(nat, seq<string>)>)
    requires rows != [] && forall j :: 0 <= j < |rows| ==> RowOk(n, rows[j])
    ensures Union(n, rows) == Union(n, rows[..|rows| - 1]) + RowOf(n, rows[|rows| - 1])
  {
  }

  /** A cell missing from the left operand of `+` is read from the right one. */
  lemma CellOfRight(u: map<(nat, nat), nat>, v: map<(nat, nat), nat>, c: (nat, nat))
    requires c !in u
    ensures (c in u + v <==> c in v) && (c in u + v ==> (u + v)[c] == v[c])
  {
  }

  /** A cell missing from the right operand of `+` is read from the left one. */
  lemma CellOfLeft(u: map<(nat, nat), nat>, v: map<(nat, nat), nat>, c: (nat, nat))
    requires c !in v
    ensures (c in u + v <==> c in u) && (c in u + v ==> (u + v)[c] == u[c])
  {
  }

  // ---------------------------------------------------------------------------
  // One more document, one more occurrence

  /** What one more document adds to each of the functions of the corpus. */
  lemma PrefixStep(n: nat, corpus: seq<Doc>, i: nat)
    requires i < |corpus|
    ensures var p, d := corpus[..i], corpus[i];
            && IndexText(corpus[..i + 1]) == IndexText(p) + DocRecord(d.title, d.terms)
            && DocsMap(corpus[..i + 1]) == DocsMap(p)[d.title := (|IndexText(p)|, |DocRecord(d.title, d.terms)|)]
            && CorpusOccs(corpus[..i + 1]) == CorpusOccs(p) + DocOccs(d)
            && (LinksOf(n, p).Err? ==> LinksOf(n, corpus[..i + 1]) == LinksOf(n, p))
            && (LinksOf(n, p).Ok? ==>
                  LinksOf(n, corpus[..i + 1]) == LinkCells(LinksOf(n, p).value, n, d.title, d.links))
  {
    assert corpus[..i + 1][..i] == corpus[..i];
    assert corpus[..i + 1][i] == corpus[i];
  }

  /** What one more document adds to the network of pass 2. */
  lemma LinksStep(n: nat, corpus: seq<Doc>, i: nat)
    requires i < |corpus|
    ensures LinksOf(n, corpus[..i]).Err? ==> LinksOf(n, corpus[..i + 1]) == LinksOf(n, corpus[..i])
    ensures LinksOf(n, corpus[..i]).Ok? ==>
              LinksOf(n, corpus[..i + 1]) == LinkCells(LinksOf(n, corpus[..i]).value, n, corpus[i].title, corpus[i].links)
  {
    assert corpus[..i + 1][..i] == corpus[..i];
    assert corpus[..i + 1][i] == corpus[i];
  }

  /** A cell of the row of the one document numbered `t` is assigned, and
      nonzero, exactly for a destination of its links inside the matrix other
      than `t`, and in the last column also for a link to `0`. */
  lemma CellOfTitle(n: nat, rows: seq<(nat, seq<string>)>, k: nat, x: nat)
    requires forall j :: 0 <= j < |rows| ==> RowOk(n, rows[j])
    requires k < |rows| && RowOk(n, rows[k])
    requires forall j :: 0 <= j < |rows| && j != k ==> rows[j].0 != rows[k].0
    requires 1 <= x
    ensures var t, vs := rows[k].0, Values(rows[k].1);
            (t - 1, x - 1) in Union(n, rows) <==> x <= n && ((x in vs && x != t) || (x == n && 0 in vs))
    ensures (rows[k].0 - 1, x - 1) in Union(n, rows) ==> Union(n, rows)[(rows[k].0 - 1, x - 1)] != 0
  {
    var t: nat := rows[k].0;
    var c: (nat, nat) := (t - 1, x - 1);
    var vs := Values(rows[k].1);
    RowOfTitle(n, rows, k, c);
    RowOfFields(n, t, rows[k].1, x);
    SameCell(Union(n, rows), RowOf(n, rows[k]), c, x <= n && ((x in vs && x != t) || (x == n && 0 in vs)));
  }

  /** A cell that two maps share, stored exactly when `stored` holds. */
  lemma SameCell(u: map<(nat, nat), nat>, own: map<(nat, nat), nat>, c: (nat, nat), stored: bool)
    requires (c in u <==> c in own) && (c in u ==> u[c] == own[c])
    requires (c in own <==> stored) && (c in own ==> own[c] != 0)
    ensures (c in u <==> stored) && (c in u ==> u[c] != 0)
  {
  }

  /** Cell `(t - 1, x - 1)` is stored and nonzero: document `t` links to `x`. */
  ghost predicate Linked(cells: map<(nat, nat), nat>, t: nat, x: nat)
    requires 1 <= t && 1 <= x
  {
    (t - 1, x - 1) in cells && cells[(t - 1, x - 1)] != 0
  }

  /** Row `t - 1` of a matrix whose nonzero cells are the columns of the
      destinations `vs` inside the matrix other than `t`, and the last column
      for a destination `0`, lists exactly those documents as successors. */
  lemma SuccOfLinked(n: nat, cells: map<(nat, nat), nat>, t: nat, vs: seq<nat>)
    requires 1 <= t <= n
    requires forall x: nat :: 1 <= x ==>
               (Linked(cells, t, x) <==> x <= n && ((x in vs && x != t) || (x == n && 0 in vs)))
    ensures SuccNodes(Network(n, cells), t)
            == Ok(set x: nat | 1 <= x <= n && ((x in vs && x != t) || (x == n && 0 in vs)))
  {
    var row: nat := t - 1;
    var reached := set x: nat | 1 <= x <= n && ((x in vs && x != t) || (x == n && 0 in vs));
    var got := set j: nat | j < n && (row, j) in cells && cells[(row, j)] != 0 :: j + 1;
    assert SuccNodes(Network(n, cells), t) == Ok(got) by {
      assert Wrap(t - 1, n) == Ok(row);
    }
    forall x | x in got ensures x in reached {
      var j: nat :| j < n && (row, j) in cells && cells[(row, j)] != 0 && x == j + 1;
      assert Linked(cells, t, x);
    }
    forall x | x in reached ensures x in got {
      assert Linked(cells, t, x);
      var j: nat := x - 1;
      assert j < n && (row, j) in cells && cells[(row, j)] != 0;
    }
    assert got == reached;
  }

  /** The successors of the one document numbered `t`, read from the union of
      the rows: the destinations of its links inside the matrix other than `t`,
      and the last document `n` when it links to `0`. */
  lemma RowSucc(n: nat, rows: seq<(nat, seq<string>)>, k: nat)
    requires forall j :: 0 <= j < |rows| ==> RowOk(n, rows[j])
    requires k < |rows| && RowOk(n, rows[k])
    requires forall j :: 0 <= j < |rows| && j != k ==> rows[j].0 != rows[k].0
    ensures var t, vs := rows[k].0, Values(rows[k].1);
            SuccNodes(Network(n, Union(n, rows)), t)
            == Ok(set x: nat | 1 <= x <= n && ((x in vs && x != t) || (x == n && 0 in vs)))
  {
    var t: nat := rows[k].0;
    var vs := Values(rows[k].1);
    var cells := Union(n, rows);
    forall x: nat | 1 <= x
      ensures Linked(cells, t, x) <==> x <= n && ((x in vs && x != t) || (x == n && 0 in vs))
    {
      CellOfTitle(n, rows, k, x);
    }
    SuccOfLinked(n, cells, t, vs);
  }
}
