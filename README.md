# Text index and link sub-graph, modelled in Dafny

This project models the indexing core of a small information-retrieval toolkit.

**`Index`** (1-text/indexation.py) builds two text files in two passes over a corpus.
- **Pass 1** writes the forward index, one record `title{stem:freq,...}\n` per document. It keeps each record's offset and length in `docs`. It only *measures* each stem's future posting record in `stems` (`addStem`).
- **Pass 2** fills the inverted index (`writeStem`).
  - The first occurrence of a stem appends its slot at the end of the file: `stem{d:f`, then `,` padding up to the reserved length, then `}\n`.
  - Every later occurrence is written in place, just after the first `,,` of the slot.
  - The same pass parses each document's `;`-separated links and stores link counts in a sparse `len(docs) × len(docs)` matrix.
- **Queries:**
  - `getTfsForDoc` and `getTfsForStem` parse the records back.
  - `getDocsLen` sums a document's frequencies.
  - `getSuccNodes` and `getPrevNodes` read a row or a column of the matrix.

**`InMemoryIndex`** keeps the two directions of the index as nested dictionaries instead.

**`RandomWalker.__init__`** (1-text/graphes.py) builds the sub-graph that the link-analysis scorers work on.
- The node set is the seed documents, their successors, and a random sample of their predecessors.
- Each node gets a dense local index.
- A 0/1 adjacency matrix holds the links among the nodes.

## How the model is organised

The Dafny modules follow that structure:

- `Wrappers`: `Result`/`Option` and the three Python exceptions the code can raise (`KeyError`, `ValueError`, `IndexError`).
- `PyText`: the Python string and file primitives the formats rely on.
  - `str(n)`, `int(s)`, `split`, `join`, `find`, slicing, `strip`.
  - `seek`+`read` and `seek`+`write`, on a file held as a `string`.
- `Records`: the two record formats and their parsers.
- `Postings`: the inverted file's slot protocol.
  - `addStem` and `writeStem` are written as functions on a value.
  - The main theorem is the exact fit: each slot ends up holding exactly its stem's posting record.
- `Links`: parsing a document's links, the guard and assignment that store them, and reading rows and columns back.
- `Corpus`: what the two passes compute, written as functions of the corpus.
- `Indexation`: class `Index`.
  - The files and the directories are fields that its methods reassign.
  - Each method is proved against the functions of `Corpus`/`Postings`/`Links`.
- `InMemory`: class `InMemoryIndex`, proved against two table functions.
- `Graphs`: class `RandomWalker`.
  - Its constructor's three loops are methods with loop invariants.
  - They are proved against a specification of the node set, a dense numbering and a local adjacency.

The model follows the code. Where the code and its comments differ, the code is modelled.
- The `seeds` docstring says strings, but `getSuccNodes` returns ints. The model uses numbers (see "Left out").
- Class `Index` stores links exactly as the loop at 1-text/indexation.py:104-114 is written. The keys of `neighbours` are visited in ascending string order, with `int(dest)` for each key, then the guard `titleId != destId and destId < len(self.docs)`, then numpy's wrapping of the index -1. So a destination `0` lands in the last column (see "Findings"). `Links.StoredCell` is the intended guard, kept only as a reference that the model compares with.

## Model

| member | source | states |
|---|---|---|
| PyText.Show | 1-text/indexation.py:74 | `str(n)` of a natural number is a non-empty string of decimal digits |
| PyText.PyInt | 1-text/indexation.py:187 | `int(s)` succeeds exactly on a non-empty string of decimal digits; anything else raises ValueError |
| PyText.ShowRoundTrip | 1-text/indexation.py:186-187 | `int(str(n)) == n` for every natural number, proved by induction on the digits |
| PyText.Split | 1-text/indexation.py:186 | `s.split(sep)` yields at least one piece; no piece contains `sep`; joining the pieces with `sep` gives `s` back |
| PyText.SplitJoin | 1-text/indexation.py:186 | splitting a join of separator-free pieces gives the pieces back |
| PyText.JoinChars | 1-text/indexation.py:77 | a join contains no character outside its pieces and the separator |
| PyText.FindChar | 1-text/indexation.py:183-184 | `s.find(c)` is -1 exactly when `c` is absent; otherwise it is the index of the first `c` |
| PyText.FindCommaPair | 1-text/indexation.py:134 | `s.find(',,')` is -1 exactly when no two adjacent commas occur; otherwise it is the first such index |
| PyText.FindAfterPrefix | 1-text/indexation.py:134 | in `x + ",,…" + tail`, where `x` has no `,,` and does not end in a comma, the first `,,` is just after `x` |
| PyText.StripKey | 1-text/indexation.py:205 | `(key + t).strip(key)` is `t` when `t` begins and ends with characters outside `key` (strip removes a character set, not a prefix) |
| PyText.Read | 1-text/indexation.py:131-132 | `seek(p); read(n)` inside the file gives exactly `f[p..p+n]` |
| PyText.Overwrite | 1-text/indexation.py:136-137 | `seek(p); write(w)` puts `w` at `p`, keeps every other character, and extends the file only when `w` runs past its end |
| Records.DictOf | 1-text/indexation.py:187 | the dictionary built from pairs has exactly their keys |
| Records.DictOfLast | 1-text/indexation.py:187 | a key keeps the value of its last pair, Python's rule for a repeated key |
| Records.DictOfDistinct | 1-text/indexation.py:187 | with distinct keys, the dictionary holds every pair as given |
| Records.ParsePairs | 1-text/indexation.py:186-187 | parsing `k:f` tokens keeps one pair per token |
| Records.ParseEntries | 1-text/indexation.py:186-187 | parsing the entries of a record gives each pair back, with its key converted |
| Records.EntriesRoundTrip | 1-text/indexation.py:186-187 | entries joined with `,`, split and parsed give back the pairs they were written from |
| Records.BodyFound | 1-text/indexation.py:183-185 | in a forward record, the slice between the first `{` and the first `}` is the joined entries |
| Records.ParseDocRecord | 1-text/indexation.py:183-187 | parsing a forward record raises nothing but ValueError |
| Records.ParsePairsErrors | 1-text/indexation.py:186-187 | parsing `k:f` tokens raises only ValueError when the key conversion does |
| Records.DocRecordRoundTrip | 1-text/indexation.py:183-187 | a forward record written at lines 74-77 parses back to the document's stem dictionary, when the document has a stem |
| Records.EmptyDocRecordFails | 1-text/indexation.py:185-187 | the record `title{}\n` of a document without stems raises ValueError when read back (`['']` cannot be unpacked) |
| Records.ParsePostingRecord | 1-text/indexation.py:205-209 | parsing a posting record raises nothing but ValueError |
| Records.PostingRecordRoundTrip | 1-text/indexation.py:205-209 | a fully filled posting record parses back to `{int(docId): freq}` over the postings written into it |
| Postings.Reserve | 1-text/indexation.py:159-168 | first occurrence: `Slot(-1, len(stem{d:f}\n))`; later: the same position, with `len(d:f,)` added; other stems unchanged |
| Postings.ReserveAll | 1-text/indexation.py:159-168 | pass 1 never drops a stem |
| Postings.ReserveAllGrows | 1-text/indexation.py:159-168 | reservation never moves a slot and never shrinks one |
| Postings.PostingsAppend | 1-text/indexation.py:99-100 | the postings of a stem over two runs of occurrences are the first run's followed by the second's |
| Postings.RoomAppend | 1-text/indexation.py:160-162 | the room later postings take is additive |
| Postings.JoinEntriesLen | 1-text/indexation.py:160-162 | appending postings to a record body lengthens it by exactly their room (`len(d:f,)` each) |
| Postings.ReservedExactly | 1-text/indexation.py:150-168 | after pass 1, a stem is reserved exactly when it occurs; its slot is `Slot(-1, n)`, where `n` is the length of its complete posting record |
| Postings.WriteEntry | 1-text/indexation.py:129-148 | `writeStem` keeps the directory's keys and every slot length, changes no other stem's slot, places the stem's slot, and never shortens the file |
| Postings.NewSlotLayout | 1-text/indexation.py:141-148 | a new stem's slot is appended at the end of the file, its position recorded, exactly the reserved length: `stem{d:f`, only commas, `}\n` |
| Postings.WriteSeen | 1-text/indexation.py:129-139 | for a placed slot, the entry is written one position after the first `,,` of the slot, inside the file, and the directory is unchanged |
| Postings.SeenOwn | 1-text/indexation.py:129-139 | writing to a placed slot appends the posting after the earlier ones and uses up its room in the padding |
| Postings.NewOwn | 1-text/indexation.py:141-148 | creating a slot leaves it holding the first posting, with room for exactly the later ones |
| Postings.OverwriteInSlot | 1-text/indexation.py:136-137 | a write just after `x` in a slot `x + commas + }\n` stays inside the slot and leaves `x, entry, fewer commas, }\n` |
| Postings.OthersKept | 1-text/indexation.py:129-148 | a write into one slot leaves every other placed slot's characters unchanged |
| Postings.DisjointAfter | 1-text/indexation.py:129-148 | one step of pass 2 keeps the placed slots disjoint |
| Postings.JoinNoCommaPair | 1-text/indexation.py:134 | a record body of non-empty comma-free entries has no `,,`, so the first `,,` is the padding |
| Postings.FillStep | 1-text/indexation.py:99-100 | one `writeStem` keeps the filling invariant (every stem's slot holds its postings so far and room for the rest) |
| Postings.FillingHolds | 1-text/indexation.py:92-100 | every prefix of pass 2 keeps the filling invariant |
| Postings.FilledExactly | 1-text/indexation.py:129-148 | after pass 2, every slot holds its stem's complete posting record with no padding left |
| Postings.Fill | 1-text/indexation.py:92-100 | pass 2's inverted file keeps every placed slot inside the file and has exactly the stems pass 1 reserved |
| Postings.ExactFit | 1-text/indexation.py:191-209 | when pass 2 sees the occurrences pass 1 measured, every slot reads back as `{int(docId): freq}` over exactly its stem's postings |
| Links.Wrap | 1-text/indexation.py:275 | a matrix index is accepted exactly in `-n..n-1`; a negative one counts from the end; anything else raises IndexError |
| Links.FirstField | 1-text/indexation.py:106 | `s.split()[0]` exists exactly when `s` has a non-whitespace character (else IndexError), and is a non-empty run without whitespace |
| Links.FirstFieldOf | 1-text/indexation.py:106 | the first field of `spaces + field + (whitespace…)` is `field` |
| Links.NonEmpty | 1-text/indexation.py:106 | the filter `if len(s) > 0` keeps exactly the non-empty tokens |
| Links.NonEmptyCounts | 1-text/indexation.py:106-109 | the filter keeps each non-empty token as many times as it occurs, which the counts `multiset(fields)[key]` rely on |
| Links.DestFieldsOfLinkText | 1-text/indexation.py:103-106 | a links attribute in the documented form `d\t…;d\t…;` yields its destinations, in order |
| Links.BelowIrreflexive | 1-text/indexation.py:106-107 | Python's order on strings is irreflexive |
| Links.BelowTotal | 1-text/indexation.py:106-107 | any two different strings are ordered one way or the other |
| Links.BelowTransitive | 1-text/indexation.py:106-107 | Python's order on strings is transitive |
| Links.InsertKeyAscending | 1-text/indexation.py:106-107 | inserting a new key into ascending keys keeps them ascending and adds exactly that key |
| Links.Unique | 1-text/indexation.py:106-107 | `np.unique(fields)` lists the fields in strictly ascending string order, every field and nothing else |
| Links.UniqueDistinct | 1-text/indexation.py:106-107 | the keys of `neighbours` are pairwise different |
| Links.StoredCellLands | 1-text/indexation.py:108-112 | for a title inside the matrix the guard as written never raises; destination `d` is stored exactly when `d != t` and `d <= n`, in row `t-1` and the column of `d`, or the last column for `d = 0` |
| Links.DestinationZeroWraps | 1-text/indexation.py:108-112 | for every matrix size `n` and title `1 <= t <= n`, destination `0` is stored in cell `(t-1, n-1)`, a self-loop when `t = n`, while the intended guard skips it |
| Links.StoredCell | 1-text/indexation.py:110-112 | intended guard: a link is stored exactly when the destination is another document of the matrix, in cell `(t-1, d-1)` |
| Links.StoredCellNoSelfLoop | 1-text/indexation.py:110-112 | the intended guard never stores a self-loop |
| Links.GuardsAgree | 1-text/indexation.py:110-112 | the guard as written and the intended one agree on every destination except `0` |
| Links.StoreKey | 1-text/indexation.py:109-112 | one key of `neighbours`: ValueError when it is not a number; otherwise every stored cell is kept and a new cell lies inside the matrix |
| Links.StoreLinks | 1-text/indexation.py:108-114 | the loop over `neighbours` keeps every cell already stored and adds cells only inside the matrix |
| Links.StoreLinksNext | 1-text/indexation.py:108-114 | one more key of the loop is one more `StoreKey` step |
| Links.StoreLinksStuck | 1-text/indexation.py:108-114 | once a key raises, the rest of the loop does not change the error |
| Links.LinkCells | 1-text/indexation.py:104-114 | IndexError when a token has no field; otherwise ValueError when the title is not a number; on success every old cell is kept and new cells lie inside the matrix |
| Links.RowCells | 1-text/indexation.py:108-112 | a document's cells all lie in its own row and inside the matrix |
| Links.RowCellsAt | 1-text/indexation.py:108-112 | cell `(t-1, x-1)` is set exactly when some key lands there (a number `d` with `d != t` and `d <= n`, and `x = d`, or `x = n` for `d = 0`); it holds the count of the last such key in ascending order |
| Links.RowCellsOutside | 1-text/indexation.py:108-112 | a document stores nothing outside its own row |
| Links.StoreLinksRow | 1-text/indexation.py:108-114 | for a title inside the matrix and keys that are all numbers, the loop never raises and adds exactly the row cells |
| Links.LinkCellsRow | 1-text/indexation.py:104-114 | for well-formed links and a title inside the matrix, the document's row receives exactly the cells of its keys in ascending order; no other cell changes |
| Links.RowOfFields | 1-text/indexation.py:104-112 | cell `(t-1, x-1)` is set, and nonzero, exactly when `x <= n` and `x` is a destination other than `t`, or `x = n` and some destination is `0` |
| Links.StoreLinksOutside | 1-text/indexation.py:108-112 | for a title past the matrix, the first key in ascending order that is a number at most `n` raises IndexError, whatever follows it |
| Links.StoreLinksSkipped | 1-text/indexation.py:110 | keys past the matrix are all skipped |
| Links.StoreLinksNotNumber | 1-text/indexation.py:108-110 | for a title inside the matrix, the first key in ascending order that is not a number raises ValueError, whatever follows it |
| Links.SuccNodes | 1-text/indexation.py:270-275 | `getSuccNodes(d)` succeeds exactly when `d-1` is a valid (possibly negative) row; every id it returns is in `1..n` |
| Links.PrevNodes | 1-text/indexation.py:277-280 | `getPrevNodes(d)` succeeds exactly when `d-1` is a valid column; every id it returns is in `1..n` |
| Links.SuccPrevDual | 1-text/indexation.py:270-280 | `b` is a successor of `a` exactly when `a` is a predecessor of `b` |
| Corpus.CorpusOccsAppend | 1-text/indexation.py:63-83 | the occurrences of two runs of documents are the first run's followed by the second's |
| Corpus.OccsLayout | 1-text/indexation.py:92-100 | a document's occurrences directly follow those of the documents before it |
| Corpus.ReserveAllAppend | 1-text/indexation.py:71-72 | pass 1 over two runs of occurrences is pass 1 over one, then the other |
| Corpus.CleanCorpusOccs | 1-text/indexation.py:74-77 | delimiter-free stems and decimal titles carry over to the occurrences |
| Corpus.DocsMapKeys | 1-text/indexation.py:78 | `docs` has an entry for every title and nothing else |
| Corpus.RecordAt | 1-text/indexation.py:74-79 | the entry of a title is the offset and length of the record of the last document with that title |
| Corpus.ForwardRoundTrip | 1-text/indexation.py:178-187 | reading back the record `docs` points at gives the document's stem dictionary, or ValueError when it has no stems |
| Corpus.SumValuesRemove | 1-text/indexation.py:257 | `sum(d.values())` does not depend on the key taken first |
| Corpus.SumOfDict | 1-text/indexation.py:257 | with distinct stems, the sum of the dictionary's values is the sum of all frequencies |
| Corpus.LinksOf | 1-text/indexation.py:94-114 | pass 2's network, document after document, or its first error; every stored cell lies inside the matrix |
| Corpus.LinksOfPrefix | 1-text/indexation.py:92-115 | a pass 2 that raises nothing raised nothing on any prefix of the corpus |
| Corpus.LinksOfRows | 1-text/indexation.py:94-114 | with well-formed links, pass 2 raises nothing and stores the union of the documents' rows, a later row over an earlier one |
| Corpus.RowOfTitle | 1-text/indexation.py:109-112 | row `t-1` of the network is exactly the row of the one document numbered `t` |
| Corpus.RowAbsent | 1-text/indexation.py:109-112 | row `t-1` is empty when no document is numbered `t` |
| Corpus.CellOfTitle | 1-text/indexation.py:108-112 | for the one document numbered `t`, cell `(t-1, x-1)` is set, and nonzero, exactly when `x <= n` and `x` is a destination other than `t`, or `x = n` and the document links to `0` |
| Corpus.SuccOfLinked | 1-text/indexation.py:275 | a row whose nonzero cells are exactly those columns gives exactly those documents as successors |
| Corpus.RowSucc | 1-text/indexation.py:270-275 | the successors of a document `t` are its destinations `x <= n` other than `t`, and `n` when it links to `0` |
| Corpus.LinksStep | 1-text/indexation.py:94-115 | one more document extends pass 2's network by its links, or keeps the first error |
| Indexation.Index.constructor | 1-text/indexation.py:15-39 | a new index has empty directories, empty files and an empty network |
| Indexation.Index.AddStem | 1-text/indexation.py:150-168 | `addStem` updates `stems` as `Reserve` says and changes nothing else |
| Indexation.Index.WriteStem | 1-text/indexation.py:120-148 | `writeStem` updates `stems` and the inverted file as `WriteEntry` says and changes nothing else |
| Indexation.Index.IndexDocument | 1-text/indexation.py:64-79 | one document of pass 1 measures its stems, records `(offset, length)` of its record, and appends the record to the forward file |
| Indexation.Index.InvertDocument | 1-text/indexation.py:97-100 | the stems of one document in pass 2 take the inverted index from the state after the earlier occurrences to the state after its own |
| Indexation.Index.WriteOccurrence | 1-text/indexation.py:100 | one `writeStem` advances pass 2 by exactly one occurrence |
| Indexation.Index.StoreDocumentLinks | 1-text/indexation.py:104-114 | a document's links leave exactly the network `LinkCells` gives, or return its error (IndexError for a token without a field, then ValueError for the title, then the loop's); the index files are untouched |
| Indexation.Index.StoreNeighbours | 1-text/indexation.py:108-114 | the loop over `neighbours`, with the guard as written and numpy's index wrapping, leaves exactly the network `StoreLinks` gives, or returns its error |
| Indexation.Index.FirstPass | 1-text/indexation.py:57-83 | pass 1 leaves `docs`, the forward file and `stems` as functions of the corpus say |
| Indexation.Index.SecondPass | 1-text/indexation.py:86-115 | pass 2 fills the inverted file as `Fill` says and stores the network of `LinksOf`, or returns its first error |
| Indexation.Index.SecondPassDocument | 1-text/indexation.py:94-115 | one document of pass 2: its postings are written, then its links are stored or its error returned |
| Indexation.Index.Indexation | 1-text/indexation.py:41-117 | `indexation` raises exactly when pass 2's links do; otherwise the index is in the `Indexed` state for the corpus |
| Indexation.Index.GetTfsForDoc | 1-text/indexation.py:170-189 | an unknown document raises KeyError |
| Indexation.Index.GetTfsForStem | 1-text/indexation.py:191-210 | an unknown stem gives `{}`; a stem whose slot was never placed raises ValueError (negative seek) |
| Indexation.Index.GetDocsLen | 1-text/indexation.py:254-258 | fails exactly when `getTfsForDoc` fails, with the same error |
| Indexation.Index.GetSuccNodes | 1-text/indexation.py:270-275 | succeeds exactly for a valid row; returns ids in `1..n` |
| Indexation.Index.GetPrevNodes | 1-text/indexation.py:277-280 | succeeds exactly for a valid column; returns ids in `1..n` |
| Indexation.Index.IndexedDocTfs | 1-text/indexation.py:170-189 | after indexation, `getTfsForDoc(title)` is the document's stem dictionary, or ValueError for a document without stems |
| Indexation.Index.IndexedDocsLen | 1-text/indexation.py:254-258 | after indexation, a document's length is the sum of its stem frequencies |
| Indexation.Index.IndexedStemTfs | 1-text/indexation.py:191-210 | after indexation, `getTfsForStem(s)` is `{int(d): f}` over exactly the documents containing `s`, and `{}` for a stem no document has |
| Indexation.Index.IndexedSucc | 1-text/indexation.py:270-275 | after indexation, the successors of the one document numbered `t` are its destinations `x <= n` other than `t`, and `n` when it links to `0` |
| Indexation.Index.IndexedLinkToZero | 1-text/indexation.py:108-112 | after indexation, a document that links to `0` has the last document `n` among its successors; for document `n` itself that is a self-loop |
| Indexation.Index.IndexedPrev | 1-text/indexation.py:277-280 | after indexation, `a` is a predecessor of `b` exactly when `b` is a successor of `a` |
| Indexation.LinksOfStuck | 1-text/indexation.py:92-115 | once a document raises, pass 2 stops with that error |
| InMemory.TablesStep | 1-text/indexation.py:291-299 | one more occurrence sets exactly one entry of each table |
| InMemory.Transposed | 1-text/indexation.py:291-299 | `stems[s][d]` exists exactly when `docs[d][s]` does, and both hold the same frequency |
| InMemory.DocTableLast | 1-text/indexation.py:296-299 | the frequency stored for a pair is the one of its last occurrence |
| InMemory.DocTableAbsent | 1-text/indexation.py:296-299 | a pair that never occurs has no entry |
| InMemory.DocTableKeys | 1-text/indexation.py:296-299 | `docs` has an entry for every title that occurs, and for nothing else |
| InMemory.StemTableKeys | 1-text/indexation.py:292-295 | `stems` has an entry for every stem that occurs, and for nothing else |
| InMemory.OccHasDoc | 1-text/indexation.py:287-291 | every occurrence comes from a document with a stem |
| InMemory.DocHasOcc | 1-text/indexation.py:287-291 | every document with a stem gives an occurrence |
| InMemory.OccTitles | 1-text/indexation.py:287-300 | the titles that occur are those of the documents with at least one stem |
| InMemory.OccOfTerm | 1-text/indexation.py:291 | stem `j` of a document is the corresponding occurrence of the corpus |
| InMemory.InMemoryIndex.constructor | 1-text/indexation.py:284-300 | `__init__` leaves `docs` and `stems` equal to the two tables of the corpus's occurrences |
| InMemory.InMemoryIndex.AddDocument | 1-text/indexation.py:289-299 | one document's loop advances both tables over its occurrences |
| InMemory.InMemoryIndex.AddTerm | 1-text/indexation.py:291-299 | one loop step advances both tables by one occurrence |
| InMemory.InMemoryIndex.AddOccurrence | 1-text/indexation.py:292-299 | sets `stems[stem][docId]` and `docs[docId][stem]`, creating the inner dictionary when the outer key is new |
| InMemory.InMemoryIndex.GetTfsForDoc | 1-text/indexation.py:302-306 | `[]` exactly for an unknown document; otherwise exactly the stems stored for it, with their frequencies |
| InMemory.InMemoryIndex.GetTfsForStem | 1-text/indexation.py:308-312 | `[]` exactly for an unknown stem; otherwise exactly the documents stored for it, with their frequencies |
| InMemory.InMemoryIndex.BuiltDocUnknown | 1-text/indexation.py:302-306 | after construction, a document is unknown exactly when no document with that id has a stem |
| InMemory.InMemoryIndex.BuiltStemUnknown | 1-text/indexation.py:308-312 | after construction, a stem is unknown exactly when no document has it |
| InMemory.InMemoryIndex.BuiltSymmetric | 1-text/indexation.py:288-312 | after construction, `d` is under `s` exactly when `s` is under `d`, with the same frequency |
| InMemory.InMemoryIndex.BuiltLast | 1-text/indexation.py:288-312 | after construction, both lookups report the frequency of the last occurrence of the pair |
| InMemory.InMemoryIndex.BuiltAbsent | 1-text/indexation.py:288-312 | after construction, a pair that never occurs is reported by neither lookup |
| Graphs.Contribution | 1-text/graphes.py:26-33 | a turn raises only IndexError or ValueError; when it gets through it brings in its seed and every successor of the seed |
| Graphs.Gather | 1-text/graphes.py:25-33 | the seed loop never drops a node it already has |
| Graphs.GatherFails | 1-text/graphes.py:25-33 | the seed loop raises exactly when one of its turns does, with the error of the first one |
| Graphs.GatherExactly | 1-text/graphes.py:19-33 | when the loop gets through, `nodes` holds the seeds and what each turn brought in, and nothing else |
| Graphs.GatherStep | 1-text/graphes.py:26-33 | one more turn adds its nodes or raises its error |
| Graphs.GatherStaysFailed | 1-text/graphes.py:25-33 | once a turn raised, the loop's result is that error |
| Graphs.DistinctBound | 1-text/graphes.py:32-33 | `n` draws give at most `n` distinct nodes |
| Graphs.ContributionNodes | 1-text/graphes.py:26-33 | a turn brings in its seed and all its successors; the other nodes it brings are parents; none are sampled without parents; at most `prevNeighbours` are sampled |
| Graphs.ContributionFails | 1-text/graphes.py:28-33 | a turn raises exactly when the seed is outside the matrix (IndexError) or has parents with a negative size (ValueError) |
| Graphs.ContributionClosed | 1-text/graphes.py:26-33 | every node a turn brings in is accepted by `getSuccNodes` |
| Graphs.SubgraphNodes | 1-text/graphes.py:19-33 | when the seed loop gets through, every seed is a node |
| Graphs.SubgraphClosed | 1-text/graphes.py:19-46 | after the seed loop, the adjacency loop's `getSuccNodes` calls cannot raise |
| Graphs.SubgraphFails | 1-text/graphes.py:19-33 | the seed loop raises exactly when some seed is outside the matrix, or has parents while `prevNeighbours` is negative |
| Graphs.SubgraphMembers | 1-text/graphes.py:19-33 | every seed and every successor of a seed is a node; every node is a seed, a successor or a parent of a seed |
| Graphs.DenseGrows | 1-text/graphes.py:36-39 | giving the next index to one more node keeps the numbering dense |
| Graphs.DenseBijection | 1-text/graphes.py:35-39 | a dense numbering is a bijection from the nodes onto `0..N-1`, with `nodeList` listing each node once |
| Graphs.InRow | 1-text/graphes.py:46-47 | `childrenIdx` holds exactly the indices of listed nodes that are successors |
| Graphs.RowAdded | 1-text/graphes.py:43-48 | filling one more node's row keeps the rows done so far exact |
| Graphs.LocalEdgeIsPrev | 1-text/graphes.py:42-48 | a local edge `i -> j` is the same as `nodeList[i]` being a predecessor of `nodeList[j]` |
| Graphs.RandomWalker.Create | 1-text/graphes.py:11-48 | `__init__` either raises the seed loop's error, or builds a walker whose `nodes` is the seed loop's node set, densely numbered, with the local adjacency |
| Graphs.RandomWalker.constructor | 1-text/graphes.py:34-48 | over a node set `getSuccNodes` accepts, the walker is numbered densely and has the local adjacency |
| Graphs.RandomWalker.GatherNodes | 1-text/graphes.py:19-33 | the seed loop computes the node set of `SubgraphNodes`, or its first error |
| Graphs.RandomWalker.Visit | 1-text/graphes.py:26-33 | one turn grows `nodes` by the seed's contribution, or raises the turn's error |
| Graphs.RandomWalker.Enumerate | 1-text/graphes.py:35-39 | the numbering loop gives a dense numbering: `idxMap[nodeList[j]] == j`, `nodeList[idxMap[x]] == x`, `len(nodeList) == len(nodes)` |
| Graphs.RandomWalker.Adjacency | 1-text/graphes.py:42-48 | `graph[i, j] == 1` exactly when `nodeList[j]` is a successor of `nodeList[i]`; every other cell is 0 |

## Definitions

These functions render source expressions and have no contract of their own beyond what their bodies say. The lemma named with each one gives them their meaning.
- `PyText.PySlice`, Python's `s[i:j]` (1-text/indexation.py:185, 205): `Records.BodyFound` and `Records.PostingRecordRoundTrip`.
- `Records.Entries`, the `key:freq` entries (1-text/indexation.py:74, 137): `Records.EntriesRoundTrip`.
- `Records.NumericKeys`, `int(docId)` of each posting (1-text/indexation.py:209): `Records.PostingRecordRoundTrip`.
- `Links.DestFields`, the destination of each non-empty token, or IndexError (1-text/indexation.py:104-106): `Links.DestFieldsOfLinkText`.
- `Links.Values`, `int(dest)` of each key (1-text/indexation.py:109): `Corpus.CellOfTitle` and `Links.RowOfFields`.
- `Links.StoredCellAsWritten`, the guard and the store of one link (1-text/indexation.py:110-112): `Links.StoredCellLands` and `Links.DestinationZeroWraps`.
- `Corpus.DocOccs`, one document's occurrences (1-text/indexation.py:71-72): `Corpus.CorpusOccsAppend` and `Corpus.OccsLayout`.
- `Corpus.RowsOf`, the title number and destination fields of each document (1-text/indexation.py:104-108): `Corpus.LinksOfRows`.
- `InMemory.Put`, one nested dictionary assignment (1-text/indexation.py:293-300): `InMemory.TablesStep`.
- `Graphs.SeedSet`, `set(seeds)` (1-text/graphes.py:19), and `Graphs.Contributions`, one turn per seed (1-text/graphes.py:25-33): `Graphs.SubgraphMembers` and `Graphs.GatherFails`.

## Left out

- File handles, paths and the index name. Each file is a `string`, one character per position: the formats are ASCII and there is no newline translation. Opening a file with `w`/`w+` starts it empty.
- The verbose and progress prints, the "Error with the representation." print in `getTfsForStem`, and the node-count print of `RandomWalker`. They have no effect on state.
- `docFrom` and `getStrDoc`: they only re-read a source file through a path the parser supplies.
- `computeIdf`, `probIdf`, `getMeanDocLen`, `PageRank.getScores`, `HITS.getScores` and 1-text/evaluation.py. They are floating-point computations (logarithms, divisions, power iteration).
- 2-media/src/upmc/ri/struct/instantiation/RankingInstanciation.java is not part of this model: it calls vector code that is not available.
- The `Parser` and the `TextRepresenter`.
  - The corpus is an input: a sequence of documents, each with its id, the items of its stem dictionary in order, and its `links` attribute.
  - Both passes see the same sequence, as resetting the parser gives.
  - Every document has a `links` attribute. `doc.others['links']` at 1-text/indexation.py:104 raises KeyError for a document without one, and that case is not modelled.
- `Indexation.Index.Indexation` requires an index that has not indexed anything. Running `indexation` twice on one object accumulates `stems` across runs, and that is not modelled.
- `Indexation.Index.SecondPass`: when pass 2 raises, only the error and the unchanged forward index are stated. The partly written inverted file and network are not described.
- `int(...)`: only non-empty strings of ASCII decimal digits are read as numbers. Signs, surrounding whitespace, `_` separators and non-ASCII digits, which Python also accepts, are not modelled. The model raises ValueError for them.
- `Indexation.Index.constructor`: before `indexation`, the source's `network` is the dict `{}`. The model starts from an empty 0×0 matrix instead.
- `Indexation.Index.GetSuccNodes`: before `indexation`, the source looks a `(row, slice)` key up in the dict `{}` and raises TypeError (KeyError from Python 3.12 on). The model's empty 0×0 matrix raises IndexError. After `indexation` both agree.
- `Indexation.Index.GetPrevNodes`: the same as `GetSuccNodes` before `indexation`.
- `scipy.sparse.dok_matrix` is a map of the assigned cells; an absent cell reads as 0.
- `Links.SuccNodes` and `Links.PrevNodes` return a set of ids where the source returns a numpy array of them. Its callers apply `set()`, `len()` and `np.random.choice` to it (1-text/graphes.py:28, 31-32, 46). The draw is the input `samples`, so the array's order is not modelled.
- `Indexation.Index.GetTfsForDoc`: its own contract only states the KeyError case. What it returns after indexation is stated by `Indexation.Index.IndexedDocTfs`. It takes the id as a string; the `str(docId)` conversion of an int argument is not modelled.
- `Indexation.Index.GetDocsLen` is a ghost function, because the sum over a dictionary's values is defined by picking keys.
- `InMemoryIndex` is modelled on its own. The attributes it inherits from `Index.__init__` (paths, an empty `network`, `idf`) and the inherited methods it does not override are not part of the model.
- `RandomWalker`: seeds and node ids are natural numbers.
  - The docstring says the seeds are title strings, while `getSuccNodes` returns ints. A seed `"3"` and a successor `3` would then be two different nodes. The model does not reproduce this mix.
  - Negative seed ids are not modelled.
- `np.random.choice` is the input `samples`. `samples[k]` is the draw for `seeds[k]`, and `Graphs.Drawn` states what the draw promises: `prevNeighbours` values, each a parent of the seed.
- `RandomWalker.__init__` is split into `Create`, which runs the seed loop and returns its exception as an `Err`, and the constructor, which runs the numbering and adjacency loops.
  - The iteration order of the node set is left open: `Enumerate` picks any remaining node at each step, and its contract holds for every order.

## Findings

| source | as written | input that shows it | evidently intended | confidence | as-written member | corrected member |
|---|---|---|---|---|---|---|
| 1-text/indexation.py:110-112 | the guard `titleId != destId and destId < len(self.docs)` lets `destId == -1` through, and `network[titleId, -1]` wraps to the last column | a corpus of 2 documents in which document 1 has the link token `0\t1\t2`: the cell `(0, 1)` is set, a link to document 2; from document 2 the same token sets the self-loop `(1, 1)` | store a link only when `0 <= destId < len(self.docs)` and `titleId != destId` | not executed | Links.DestinationZeroWraps | Links.StoredCell |
