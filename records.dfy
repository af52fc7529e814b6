/** The two record formats of the index files and the parsers that read them back
    (1-text/indexation.py). A forward record is `title{stem:freq,...}\n`; a posting
    record is `stem{docId:freq,...}\n`, and while the inverted file is being filled
    it carries a run of `,` padding before the closing `}\n`. */
module Records {
  import opened Wrappers
  import opened PyText

  /** The characters the formats use as delimiters. Stems and titles must be free
      of them for the records to parse back. */
  const Delimiters: string := "{}:,\n"

  /** `key:freq`, one entry of a record. */
  function Entry(key: string, freq: nat): string {
    key + ":" + Show(freq)
  }

  /** The entries of a record, in dictionary order. */
  function Entries(pairs: seq<(string, nat)>): (es: seq<string>)
    ensures |es| == |pairs|
    ensures forall i :: 0 <= i < |pairs| ==> es[i] == Entry(pairs[i].0, pairs[i].1)
  {
    seq(|pairs|, i requires 0 <= i < |pairs| => Entry(pairs[i].0, pairs[i].1))
  }

  /** The dictionary Python builds from a sequence of pairs: a later pair for the
      same key overwrites an earlier one. */
  function DictOf<K>(pairs: seq<(K, nat)>): (m: map<K, nat>)
    ensures m.Keys == set i | 0 <= i < |pairs| :: pairs[i].0
  {
    if pairs == [] then map[]
    else
      var m := DictOf(pairs[..|pairs| - 1]);
      assert forall i :: 0 <= i < |pairs| - 1 ==> pairs[..|pairs| - 1][i] == pairs[i];
      m[pairs[|pairs| - 1].0 := pairs[|pairs| - 1].1]
  }

  /** No later pair has the key of pair `i`, so Python's dictionary keeps pair
      `i`'s value. */
  ghost predicate LastOfKey<K>(pairs: seq<(K, nat)>, i: nat)
    requires i < |pairs|
  {
    forall j :: i < j < |pairs| ==> pairs[j].0 != pairs[i].0
  }

  /** A repeated key keeps the value of its last pair: `{'1': 2, '1': 5}` is
      `{'1': 5}`. */
  lemma {:induction false} DictOfLast<K>(pairs: seq<(K, nat)>, i: nat)
    requires i < |pairs| && LastOfKey(pairs, i)
    ensures pairs[i].0 in DictOf(pairs) && DictOf(pairs)[pairs[i].0] == pairs[i].1
  {
    var last := |pairs| - 1;
    if i < last {
      var front := pairs[..last];
      assert front[i] == pairs[i];
      assert LastOfKey(front, i) by {
        forall j | i < j < |front| ensures front[j].0 != front[i].0 {
          assert front[j] == pairs[j];
        }
      }
      DictOfLast(front, i);
      assert pairs[last].0 != pairs[i].0;
    }
  }

  ghost predicate DistinctKeys<K>(pairs: seq<(K, nat)>) {
    forall i, j :: 0 <= i < j < |pairs| ==> pairs[i].0 != pairs[j].0
  }

  /** With distinct keys, the dictionary holds every pair as given. */
  lemma {:induction false} DictOfDistinct<K>(pairs: seq<(K, nat)>, i: nat)
    requires DistinctKeys(pairs) && i < |pairs|
    ensures pairs[i].0 in DictOf(pairs) && DictOf(pairs)[pairs[i].0] == pairs[i].1
  {
    if i < |pairs| - 1 {
      DictOfDistinct(pairs[..|pairs| - 1], i);
    }
  }

  /** A key converter that keeps the key as written (a stem). */
  function StemKey(s: string): Result<string> {
    Ok(s)
  }

  /** `[s.split(':') for s in tokens]` followed by the unpacking
      `for (k, f) in ...` with `key(k)` and `int(f)`: a token that does not split
      into exactly two parts, or a part that does not convert, raises ValueError. */
  function ParsePairs<K>(tokens: seq<string>, key: string -> Result<K>): (r: Result<seq<(K, nat)>>)
    ensures r.Ok? ==> |r.value| == |tokens|
  {
    if tokens == [] then Ok([])
    else
      match ParsePairs(tokens[..|tokens| - 1], key)
      case Err(e) => Err(e)
      case Ok(pairs) =>
        var parts := Split(tokens[|tokens| - 1], ':');
        if |parts| != 2 then Err(ValueError)
        else
          match key(parts[0])
          case Err(e) => Err(e)
          case Ok(k) =>
            match PyInt(parts[1])
            case Err(e) => Err(e)
            case Ok(f) => Ok(pairs + [(k, f)])
  }

  /** Parsing pairs raises only ValueError when converting a key does. */
  lemma {:induction false} ParsePairsErrors<K>(tokens: seq<string>, key: string -> Result<K>)
    requires forall s :: key(s).Err? ==> key(s).error == ValueError
    ensures ParsePairs(tokens, key).Err? ==> ParsePairs(tokens, key).error == ValueError
  {
    if tokens != [] {
      ParsePairsErrors(tokens[..|tokens| - 1], key);
    }
  }

  lemma EntrySplits(key: string, freq: nat)
    requires ':' !in key
    ensures Split(Entry(key, freq), ':') == [key, Show(freq)]
  {
    SplitCons(key, ':', Show(freq));
    SplitNoSeparator(Show(freq), ':');
  }

  /** Parsing the entries of a record gives each pair back, with its key
      converted. */
  lemma {:induction false} ParseEntries<K>(pairs: seq<(string, nat)>, key: string -> Result<K>)
    requires forall i :: 0 <= i < |pairs| ==> ':' !in pairs[i].0 && key(pairs[i].0).Ok?
    ensures ParsePairs(Entries(pairs), key).Ok?
    ensures forall i :: 0 <= i < |pairs| ==>
              ParsePairs(Entries(pairs), key).value[i] == (key(pairs[i].0).value, pairs[i].1)
  {
    if pairs != [] {
      var n := |pairs| - 1;
      ParseEntries(pairs[..n], key);
      assert Entries(pairs)[..n] == Entries(pairs[..n]);
      EntrySplits(pairs[n].0, pairs[n].1);
      ShowRoundTrip(pairs[n].1);
    }
  }

  /** The forward-index line of a document: `title{s:f,s:f,...}\n`
      (1-text/indexation.py:74-77). */
  function DocRecord(title: string, terms: seq<(string, nat)>): string {
    title + "{" + Join(Entries(terms), ',') + "}\n"
  }

  /** `getTfsForDoc` once the record is read: the text between the first `{` and
      the first `}`, split on `,`, each piece split on `:`
      (1-text/indexation.py:183-187). */
  function ParseDocRecord(descr: string): (r: Result<map<string, nat>>)
    ensures r.Err? ==> r.error == ValueError
  {
    var start := FindChar(descr, '{');
    var stop := FindChar(descr, '}');
    ParsePairsErrors(Split(PySlice(descr, start + 1, stop), ','), StemKey);
    match ParsePairs(Split(PySlice(descr, start + 1, stop), ','), StemKey)
    case Err(e) => Err(e)
    case Ok(pairs) => Ok(DictOf(pairs))
  }

  /** The characters of every entry avoid `{`, `}` and `,`. */
  lemma EntriesChars(pairs: seq<(string, nat)>)
    requires forall i :: 0 <= i < |pairs| ==> NoneOf(pairs[i].0, Delimiters)
    ensures forall i :: 0 <= i < |pairs| ==> NoneOf(Entries(pairs)[i], "{},\n")
    ensures forall i :: 0 <= i < |pairs| ==> NoneOf(Entries(pairs)[i], "{}")
  {
    forall i | 0 <= i < |pairs| ensures NoneOf(Entries(pairs)[i], "{},\n") && NoneOf(Entries(pairs)[i], "{}") {
      var e := Entries(pairs)[i];
      var sf := Show(pairs[i].1);
      assert e == pairs[i].0 + ":" + sf;
      forall k | 0 <= k < |e| ensures e[k] !in "{},\n" && e[k] !in "{}" {
        if k < |pairs[i].0| {
          assert e[k] == pairs[i].0[k];
        } else if k > |pairs[i].0| {
          assert e[k] == sf[k - |pairs[i].0| - 1];
        }
      }
    }
  }

  /** In `title{body}\n`, the first `{` and the first `}` are the delimiters, so
      the slice between them is `body`. */
  lemma BracesFound(title: string, body: string)
    requires NoneOf(title, "{}") && NoneOf(body, "{}")
    ensures var descr := title + "{" + body + "}\n";
            FindChar(descr, '{') == |title| && FindChar(descr, '}') == |title| + 1 + |body|
            && PySlice(descr, |title| + 1, |title| + 1 + |body|) == body
  {
    var descr := title + "{" + body + "}\n";
    assert descr[..|title|] == title;
    assert descr[|title|] == '{';
    assert descr[|title| + 1 + |body|] == '}';
    assert descr[..|title| + 1 + |body|] == title + "{" + body;
    assert NoneOf(title + "{" + body, "}");
  }

  /** In a forward record, the slice between the braces is the joined entries. */
  lemma BodyFound(title: string, terms: seq<(string, nat)>)
    requires NoneOf(title, Delimiters)
    requires forall i :: 0 <= i < |terms| ==> NoneOf(terms[i].0, Delimiters)
    ensures var descr := DocRecord(title, terms);
            PySlice(descr, FindChar(descr, '{') + 1, FindChar(descr, '}')) == Join(Entries(terms), ',')
  {
    EntriesChars(terms);
    JoinChars(Entries(terms), ',', "{}");
    BracesFound(title, Join(Entries(terms), ','));
  }

  /** The entries of a record, joined with `,`, split and parsed back, give the
      pairs they were written from. */
  lemma EntriesRoundTrip<K>(pairs: seq<(string, nat)>, key: string -> Result<K>)
    requires forall i :: 0 <= i < |pairs| ==> NoneOf(pairs[i].0, Delimiters) && key(pairs[i].0).Ok?
    requires pairs != []
    ensures Split(Join(Entries(pairs), ','), ',') == Entries(pairs)
    ensures ParsePairs(Split(Join(Entries(pairs), ','), ','), key).Ok?
    ensures forall i :: 0 <= i < |pairs| ==>
              ParsePairs(Split(Join(Entries(pairs), ','), ','), key).value[i] == (key(pairs[i].0).value, pairs[i].1)
  {
    EntriesChars(pairs);
    SplitJoin(Entries(pairs), ',');
    forall i | 0 <= i < |pairs| ensures ':' !in pairs[i].0 {
      assert NoneOf(pairs[i].0, Delimiters);
    }
    ParseEntries(pairs, key);
  }

  /** Round trip of the forward index: a document's record parses back to the
      dictionary it was written from, when the document has at least one stem. */
  lemma DocRecordRoundTrip(title: string, terms: seq<(string, nat)>)
    requires NoneOf(title, Delimiters)
    requires forall i :: 0 <= i < |terms| ==> NoneOf(terms[i].0, Delimiters)
    requires terms != []
    ensures ParseDocRecord(DocRecord(title, terms)) == Ok(DictOf(terms))
  {
    DocRecordPieces(title, terms);
    ParsedDocRecord(DocRecord(title, terms), Join(Entries(terms), ','), terms);
  }

  /** The two halves of the round trip: the braces hold the joined entries,
      and those parse back to the pairs. */
  lemma DocRecordPieces(title: string, terms: seq<(string, nat)>)
    requires NoneOf(title, Delimiters)
    requires forall i :: 0 <= i < |terms| ==> NoneOf(terms[i].0, Delimiters)
    requires terms != []
    ensures var descr := DocRecord(title, terms);
            PySlice(descr, FindChar(descr, '{') + 1, FindChar(descr, '}')) == Join(Entries(terms), ',')
    ensures ParsePairs(Split(Join(Entries(terms), ','), ','), StemKey) == Ok(terms)
  {
    BodyFound(title, terms);
    StemEntriesRoundTrip(terms);
  }

  /** `getTfsForDoc` on a record whose braces hold `body`, when `body` parses to
      `pairs`. */
  lemma ParsedDocRecord(descr: string, body: string, pairs: seq<(string, nat)>)
    requires PySlice(descr, FindChar(descr, '{') + 1, FindChar(descr, '}')) == body
    requires ParsePairs(Split(body, ','), StemKey) == Ok(pairs)
    ensures ParseDocRecord(descr) == Ok(DictOf(pairs))
  {
  }

  /** The stem entries of a record parse back to exactly the pairs written. */
  lemma StemEntriesRoundTrip(terms: seq<(string, nat)>)
    requires forall i :: 0 <= i < |terms| ==> NoneOf(terms[i].0, Delimiters)
    requires terms != []
    ensures ParsePairs(Split(Join(Entries(terms), ','), ','), StemKey) == Ok(terms)
  {
    var parsed := ParsePairs(Split(Join(Entries(terms), ','), ','), StemKey);
    assert parsed.Ok? && |parsed.value| == |terms| &&
           forall i :: 0 <= i < |terms| ==> parsed.value[i] == (StemKey(terms[i].0).value, terms[i].1) by {
      EntriesRoundTrip(terms, StemKey);
    }
    forall i | 0 <= i < |terms| ensures parsed.value[i] == terms[i] {
      assert StemKey(terms[i].0).value == terms[i].0;
    }
    assert parsed.value == terms;
  }

  /** A document without stems writes `title{}\n`, which `getTfsForDoc` cannot
      unpack. */
  lemma EmptyDocRecordFails(title: string)
    requires NoneOf(title, Delimiters)
    ensures ParseDocRecord(DocRecord(title, [])) == Err(ValueError)
  {
    var descr := DocRecord(title, []);
    assert descr == title + "{" + "}\n";
    assert descr[..|title|] == title;
    assert FindChar(descr, '{') == |title| by {
      assert descr[|title|] == '{';
      assert '{' !in descr[..|title|];
    }
    assert FindChar(descr, '}') == |title| + 1 by {
      assert descr[|title| + 1] == '}';
      assert descr[..|title| + 1] == title + "{";
      assert NoneOf(title + "{", "}");
    }
    assert Split("", ',') == [""];
    assert Split("", ':') == [""];
    assert [""][..0] == [];
  }

  /** A stem's slot in the inverted file while pass 2 fills it: the stem, `{`, the
      entries written so far, `pad` commas of room left, `}\n`. */
  function SlotText(stem: string, entries: seq<string>, pad: nat): string {
    stem + "{" + Join(entries, ',') + Commas(pad) + "}\n"
  }

  /** `getTfsForStem` once the record is read: strip the stem's characters, drop
      `{` and `}\n`, split on `,`, each piece on `:`, and convert both halves with
      `int` (1-text/indexation.py:205-209). */
  function ParsePostingRecord(stem: string, repres: string): (r: Result<map<nat, nat>>)
    ensures r.Err? ==> r.error == ValueError
  {
    ParsePairsErrors(Split(PySlice(Strip(repres, stem), 1, -2), ','), PyInt);
    match ParsePairs(Split(PySlice(Strip(repres, stem), 1, -2), ','), PyInt)
    case Err(e) => Err(e)
    case Ok(pairs) => Ok(DictOf(pairs))
  }

  /** The postings of a stem keyed by `int(docId)`, in the order written. */
  function NumericKeys(postings: seq<(string, nat)>): (r: seq<(nat, nat)>)
    requires forall i :: 0 <= i < |postings| ==> IsDecimal(postings[i].0)
    ensures |r| == |postings|
    ensures forall i :: 0 <= i < |r| ==> r[i] == (PyInt(postings[i].0).value, postings[i].1)
  {
    seq(|postings|, i requires 0 <= i < |postings| => (PyInt(postings[i].0).value, postings[i].1))
  }

  /** Round trip of the inverted index: a completely filled slot (no padding left)
      parses back to `{int(docId): freq}` over the postings written into it. */
  lemma PostingRecordRoundTrip(stem: string, postings: seq<(string, nat)>)
    requires NoneOf(stem, Delimiters)
    requires forall i :: 0 <= i < |postings| ==> IsDecimal(postings[i].0)
    requires postings != []
    ensures ParsePostingRecord(stem, SlotText(stem, Entries(postings), 0))
            == Ok(DictOf(NumericKeys(postings)))
  {
    var es := Entries(postings);
    var body := Join(es, ',');
    assert Commas(0) == [];
    var t := "{" + body + "}\n";
    assert SlotText(stem, es, 0) == stem + t;
    assert t[0] == '{' && t[|t| - 1] == '\n';
    assert '{' !in stem && '\n' !in stem by {
      assert NoneOf(stem, Delimiters);
    }
    StripKey(stem, t);
    assert PySlice(t, 1, -2) == body;
    forall i | 0 <= i < |postings| ensures NoneOf(postings[i].0, Delimiters) && ':' !in postings[i].0 {
      assert IsDecimal(postings[i].0);
    }
    EntriesChars(postings);
    SplitJoin(es, ',');
    ParseEntries(postings, PyInt);
    assert ParsePairs(es, PyInt).value == NumericKeys(postings);
  }
}
