/** The citation network of the index (1-text/indexation.py): the links
    attribute of each document is split into tokens, the first field of each
    token is a destination id, and the number of tokens per destination is stored
    in a square matrix indexed by `id - 1`; `getSuccNodes` and `getPrevNodes`
    read a row or a column of it back. */
module Links {
  import opened Wrappers
  import opened PyText

  /** `self.network`: a sparse matrix of shape (n, n); `cells` holds the cells
      that were assigned, every other cell reads as 0. */
  datatype Network = Network(n: nat, cells: map<(nat, nat), nat>)

  /** Every assigned cell lies inside the matrix. */
  ghost predicate WellShaped(net: Network) {
    forall c :: c in net.cells ==> c.0 < net.n && c.1 < net.n
  }

  /** `int` indices into an axis of length `n`, as numpy and scipy take them:
      a negative index counts from the end, anything outside raises IndexError. */
  function Wrap(i: int, n: nat): (r: Result<nat>)
    ensures r.Ok? <==> -(n as int) <= i < n
    ensures r.Ok? ==> r.value < n && (r.value == i || r.value == i + n)
    ensures r.Ok? && i >= 0 ==> r.value == i
    ensures !r.Ok? ==> r == Err(IndexError)
  {
    if -(n as int) <= i < n then Ok(if i < 0 then i + n else i) else Err(IndexError)
  }

  // ---------------------------------------------------------------------------
  // Parsing the links attribute

  /** The characters `str.split()` splits on. */
  predicate IsSpace(c: char) {
    || c == ' ' || '\t' <= c <= '\r' || '\U{1C}' <= c <= '\U{1F}'
    || c == '\U{85}' || c == '\U{A0}' || c == '\U{1680}'
    || '\U{2000}' <= c <= '\U{200A}' || c == '\U{2028}' || c == '\U{2029}'
    || c == '\U{202F}' || c == '\U{205F}' || c == '\U{3000}'
  }

  function DropSpaces(s: string): (t: string)
    ensures |t| <= |s| && t == s[|s| - |t|..]
    ensures t != [] ==> !IsSpace(t[0])
    ensures forall i :: 0 <= i < |s| - |t| ==> IsSpace(s[i])
  {
    if s != [] && IsSpace(s[0]) then DropSpaces(s[1..]) else s
  }

  function TakeField(t: string): (f: string)
    ensures |f| <= |t| && f == t[..|f|]
    ensures forall i :: 0 <= i < |f| ==> !IsSpace(f[i])
    ensures |f| < |t| ==> IsSpace(t[|f|])
  {
    if t != [] && !IsSpace(t[0]) then [t[0]] + TakeField(t[1..]) else []
  }

  /** `s.split()[0]`: the first run of non-whitespace characters of `s`;
      IndexError when `s` is only whitespace. */
  function FirstField(s: string): (r: Result<string>)
    ensures r.Ok? <==> exists i :: 0 <= i < |s| && !IsSpace(s[i])
    ensures r.Err? ==> r.error == IndexError
    ensures r.Ok? ==> |r.value| > 0 && forall i :: 0 <= i < |r.value| ==> !IsSpace(r.value[i])
  {
    var t := DropSpaces(s);
    if t == [] then Err(IndexError) else Ok(TakeField(t))
  }

  /** The first field of `spaces + field + rest` is `field` when `rest` is empty
      or starts with whitespace. */
  lemma FirstFieldOf(pre: string, f: string, post: string)
    requires forall i :: 0 <= i < |pre| ==> IsSpace(pre[i])
    requires |f| > 0 && forall i :: 0 <= i < |f| ==> !IsSpace(f[i])
    requires post != [] ==> IsSpace(post[0])
    ensures FirstField(pre + f + post) == Ok(f)
  {
    var t := f + post;
    assert pre + f + post == pre + t;
    DropPrefix(pre, t);
    TakeWhole(f, post);
    assert FirstField(pre + t) == Ok(TakeField(t));
  }

  lemma {:induction false} DropPrefix(pre: string, t: string)
    requires forall i :: 0 <= i < |pre| ==> IsSpace(pre[i])
    requires t != [] && !IsSpace(t[0])
    ensures DropSpaces(pre + t) == t
  {
    if pre != [] {
      assert (pre + t)[1..] == pre[1..] + t;
      DropPrefix(pre[1..], t);
    } else {
      assert pre + t == t;
    }
  }

  lemma {:induction false} TakeWhole(f: string, post: string)
    requires forall i :: 0 <= i < |f| ==> !IsSpace(f[i])
    requires post != [] ==> IsSpace(post[0])
    ensures TakeField(f + post) == f
  {
    if f != [] {
      assert (f + post)[1..] == f[1..] + post;
      TakeWhole(f[1..], post);
      assert [f[0]] + f[1..] == f;
    } else {
      assert f + post == post;
    }
  }

  /** `[s for s in parts if len(s) > 0]`. */
  function NonEmpty(parts: seq<string>): (r: seq<string>)
    ensures forall i :: 0 <= i < |r| ==> r[i] != [] && r[i] in parts
    ensures forall p :: p in parts && p != [] ==> p in r
  {
    if parts == [] then []
    else if parts[0] == [] then NonEmpty(parts[1..])
    else [parts[0]] + NonEmpty(parts[1..])
  }

  /** The filter keeps every non-empty token as many times as it occurs: the
      link counts `multiset(fields)[key]` rest on this. */
  lemma {:induction false} NonEmptyCounts(parts: seq<string>)
    ensures multiset(NonEmpty(parts)) == multiset(parts)[[] := 0]
  {
    if parts != [] {
      assert parts == [parts[0]] + parts[1..];
      NonEmptyCounts(parts[1..]);
    }
  }

  /** `[s.split()[0] for s in links.split(';') if len(s) > 0]`: the destination
      field of every non-empty token, in order; IndexError for a token that is
      only whitespace. */
  function DestFields(links: string): (r: Result<seq<string>>)
    ensures var tokens := NonEmpty(Split(links, ';'));
            && (r.Ok? <==> forall i :: 0 <= i < |tokens| ==> FirstField(tokens[i]).Ok?)
            && (r.Ok? ==> (|r.value| == |tokens|
                             && forall i :: 0 <= i < |tokens| ==> Ok(r.value[i]) == FirstField(tokens[i])))
    ensures r.Err? ==> r.error == IndexError
  {
    var tokens := NonEmpty(Split(links, ';'));
    if forall i :: 0 <= i < |tokens| ==> FirstField(tokens[i]).Ok? then
      Ok(seq(|tokens|, i requires 0 <= i < |tokens| => FirstField(tokens[i]).value))
    else Err(IndexError)
  }

  /** The documented form of a links attribute: one `dest<TAB>...;` token per
      link. */
  function LinkText(dests: seq<string>, tails: seq<string>): string
    requires |tails| == |dests|
  {
    if dests == [] then "" else dests[0] + "\t" + tails[0] + ";" + LinkText(dests[1..], tails[1..])
  }

  /** Reading the destinations back from a links attribute in the documented
      form gives the destinations written, in order. */
  lemma {:induction false} DestFieldsOfLinkText(dests: seq<string>, tails: seq<string>)
    requires |tails| == |dests|
    requires forall i :: 0 <= i < |dests| ==> (|dests[i]| > 0 && ';' !in dests[i]
                                               && forall k :: 0 <= k < |dests[i]| ==> !IsSpace(dests[i][k]))
    requires forall i :: 0 <= i < |tails| ==> ';' !in tails[i]
    ensures NonEmpty(Split(LinkText(dests, tails), ';')) == TokensOf(dests, tails)
    ensures DestFields(LinkText(dests, tails)) == Ok(dests)
  {
    var links := LinkText(dests, tails);
    var tokens := TokensOf(dests, tails);
    assert NonEmpty(Split(links, ';')) == tokens by {
      TokensSplit(dests, tails);
    }
    TokensFields(dests, tails);
    DestFieldsOfTokens(links, tokens, dests);
  }

  /** The first field of each token in the documented form is its destination. */
  lemma TokensFields(dests: seq<string>, tails: seq<string>)
    requires |tails| == |dests|
    requires forall i :: 0 <= i < |dests| ==> (|dests[i]| > 0 && forall k :: 0 <= k < |dests[i]| ==> !IsSpace(dests[i][k]))
    ensures forall i :: 0 <= i < |dests| ==> FirstField(TokensOf(dests, tails)[i]) == Ok(dests[i])
  {
    var tokens := TokensOf(dests, tails);
    forall i | 0 <= i < |tokens| ensures FirstField(tokens[i]) == Ok(dests[i]) {
      TokenField(dests[i], tails[i]);
    }
  }

  lemma TokenField(dest: string, tail: string)
    requires |dest| > 0 && forall k :: 0 <= k < |dest| ==> !IsSpace(dest[k])
    ensures FirstField(dest + "\t" + tail) == Ok(dest)
  {
    FirstFieldOf("", dest, "\t" + tail);
    assert "" + dest + ("\t" + tail) == dest + "\t" + tail;
  }

  /** The destination fields of `links` when its tokens have the first fields
      `fields`. */
  lemma DestFieldsOfTokens(links: string, tokens: seq<string>, fields: seq<string>)
    requires NonEmpty(Split(links, ';')) == tokens && |fields| == |tokens|
    requires forall i :: 0 <= i < |tokens| ==> FirstField(tokens[i]) == Ok(fields[i])
    ensures DestFields(links) == Ok(fields)
  {
    var r := DestFields(links);
    assert r.Ok?;
    var v := r.value;
    assert |v| == |tokens| == |fields|;
    forall i | 0 <= i < |fields| ensures v[i] == fields[i] {
      assert Ok(v[i]) == FirstField(tokens[i]);
    }
    assert v == fields;
  }

  /** The tokens of a links attribute in the documented form. */
  function TokensOf(dests: seq<string>, tails: seq<string>): (r: seq<string>)
    requires |tails| == |dests|
    ensures |r| == |dests|
    ensures forall i :: 0 <= i < |r| ==> r[i] == dests[i] + "\t" + tails[i]
  {
    seq(|dests|, i requires 0 <= i < |dests| => dests[i] + "\t" + tails[i])
  }

  lemma {:induction false} TokensSplit(dests: seq<string>, tails: seq<string>)
    requires |tails| == |dests|
    requires forall i :: 0 <= i < |dests| ==> |dests[i]| > 0 && ';' !in dests[i]
    requires forall i :: 0 <= i < |tails| ==> ';' !in tails[i]
    ensures NonEmpty(Split(LinkText(dests, tails), ';')) == TokensOf(dests, tails)
  {
    if dests == [] {
      assert Split("", ';') == [""];
      assert NonEmpty([""]) == NonEmpty([]);
    } else {
      var tok := dests[0] + "\t" + tails[0];
      var rest := LinkText(dests[1..], tails[1..]);
      TokensSplit(dests[1..], tails[1..]);
      assert ';' !in tok by {
        assert forall k :: 0 <= k < |tok| ==> tok[k] == (if k < |dests[0]| then dests[0][k]
          else if k == |dests[0]| then '\t' else tails[0][k - |dests[0]| - 1]);
      }
      assert LinkText(dests, tails) == tok + [';'] + rest;
      SplitCons(tok, ';', rest);
      assert tok != [];
      var parts := [tok] + Split(rest, ';');
      assert parts[1..] == Split(rest, ';');
      assert TokensOf(dests, tails) == [tok] + TokensOf(dests[1..], tails[1..]);
    }
  }

  /** `int(dest)` of every field, when all of them are decimal. */
  function Values(fields: seq<string>): (vs: seq<nat>)
    requires forall i :: 0 <= i < |fields| ==> IsDecimal(fields[i])
    ensures |vs| == |fields|
    ensures forall i :: 0 <= i < |fields| ==> PyInt(fields[i]) == Ok(vs[i])
  {
    seq(|fields|, i requires 0 <= i < |fields| && IsDecimal(fields[i]) => DecimalValue(fields[i]))
  }

  // ---------------------------------------------------------------------------
  // The keys of `neighbours`

  /** Python's order on strings: code point by code point, a proper prefix
      first. */
  predicate Below(a: string, b: string)
  {
    if a == [] then b != []
    else if b == [] then false
    else a[0] < b[0] || (a[0] == b[0] && Below(a[1..], b[1..]))
  }

  lemma {:induction false} BelowIrreflexive(a: string)
    ensures !Below(a, a)
  {
    if a != [] {
      BelowIrreflexive(a[1..]);
    }
  }

  lemma {:induction false} BelowTotal(a: string, b: string)
    requires a != b
    ensures Below(a, b) || Below(b, a)
  {
    if a != [] && b != [] && a[0] == b[0] {
      assert a[1..] != b[1..] by {
        assert a == [a[0]] + a[1..] && b == [b[0]] + b[1..];
      }
      BelowTotal(a[1..], b[1..]);
    }
  }

  lemma {:induction false} BelowTransitive(a: string, b: string, c: string)
    requires Below(a, b) && Below(b, c)
    ensures Below(a, c)
  {
    if a != [] && a[0] == b[0] && b[0] == c[0] {
      BelowTransitive(a[1..], b[1..], c[1..]);
    }
  }

  /** Strictly ascending in Python's order: sorted, and each string once. */
  ghost predicate Ascending(keys: seq<string>) {
    forall i, j :: 0 <= i < j < |keys| ==> Below(keys[i], keys[j])
  }

  /** `x` put in its place among ascending keys. */
  function InsertKey(x: string, keys: seq<string>): seq<string>
  {
    if keys == [] || Below(x, keys[0]) then [x] + keys
    else [keys[0]] + InsertKey(x, keys[1..])
  }

  lemma {:induction false} InsertKeyAscending(x: string, keys: seq<string>)
    requires x !in keys && Ascending(keys)
    ensures Ascending(InsertKey(x, keys))
    ensures forall k :: k in InsertKey(x, keys) <==> k in keys || k == x
  {
    var r := InsertKey(x, keys);
    if keys == [] || Below(x, keys[0]) {
      forall j | 0 <= j < |keys| ensures Below(x, keys[j]) {
        if j > 0 {
          BelowTransitive(x, keys[0], keys[j]);
        }
      }
      assert forall j :: 0 < j < |r| ==> r[j] == keys[j - 1];
    } else {
      var rest := keys[1..];
      assert forall i :: 0 <= i < |rest| ==> rest[i] == keys[i + 1];
      InsertKeyAscending(x, rest);
      BelowTotal(x, keys[0]);
      var s := InsertKey(x, rest);
      forall j | 0 <= j < |s| ensures Below(keys[0], s[j]) {
        assert s[j] in s;
        if s[j] != x {
          var m :| 0 <= m < |rest| && rest[m] == s[j];
          assert keys[m + 1] == s[j];
        }
      }
      assert forall j :: 0 < j < |r| ==> r[j] == s[j - 1];
      assert forall k :: k in keys <==> k == keys[0] || k in rest;
    }
  }

  /** `np.unique(fields)`: each field once, in ascending order. */
  function Unique(fields: seq<string>): (keys: seq<string>)
    ensures Ascending(keys)
    ensures forall k :: k in keys <==> k in fields
  {
    if fields == [] then []
    else
      var keys := Unique(fields[..|fields| - 1]);
      var x := fields[|fields| - 1];
      assert forall k :: k in fields <==> k in fields[..|fields| - 1] || k == x;
      if x in keys then keys
      else
        InsertKeyAscending(x, keys);
        InsertKey(x, keys)
  }

  /** The keys of `neighbours` are distinct. */
  lemma UniqueDistinct(fields: seq<string>)
    ensures var keys := Unique(fields);
            forall i, j :: 0 <= i < j < |keys| ==> keys[i] != keys[j]
  {
    var keys := Unique(fields);
    forall i, j | 0 <= i < j < |keys| ensures keys[i] != keys[j] {
      BelowIrreflexive(keys[i]);
    }
  }

  // ---------------------------------------------------------------------------
  // Storing the links of a document

  /** The guard and the assignment of the loop over `neighbours` as written:
      `titleId != destId and destId < len(self.docs)`, then
      `network[titleId, destId] = linkNbr` with numpy index wrapping. Returns the
      cell assigned, None when the guard skips the link. */
  function StoredCellAsWritten(n: nat, t: nat, d: nat): Result<Option<(nat, nat)>>
  {
    var titleId, destId := t - 1, d - 1;
    if titleId != destId && destId < n then
      match (Wrap(titleId, n), Wrap(destId, n))
      case (Ok(row), Ok(col)) => Ok(Some((row, col)))
      case _ => Err(IndexError)
    else Ok(None)
  }

  /** As written, a link from document `t` to destination `d` passes the guard
      when `d` is not `t` and at most `n`. */
  predicate Lands(n: nat, t: nat, d: nat) {
    t != d && d <= n
  }

  /** The document whose column receives a link to `d`: `d` itself, and the
      last document `n` for `d == 0`, whose `destId` of -1 wraps. */
  function Target(n: nat, d: nat): nat {
    if d == 0 then n else d
  }

  /** For a document of the matrix the guard as written never raises: a link
      that lands goes to row `t - 1` and the column of its target. */
  lemma StoredCellLands(n: nat, t: nat, d: nat)
    requires 1 <= t <= n
    ensures StoredCellAsWritten(n, t, d)
            == if Lands(n, t, d) then Ok(Some((t - 1, Target(n, d) - 1))) else Ok(None)
  {
  }

  /** As written, a link to destination `0` passes the guard with `destId == -1`
      and is stored in the last column, as a link to document `n`; from document
      `n` itself it becomes a self-loop. The intended guard skips it. */
  lemma DestinationZeroWraps()
    ensures forall n: nat, t: nat :: 1 <= t <= n ==> StoredCellAsWritten(n, t, 0) == Ok(Some((t - 1, n - 1)))
    ensures forall n: nat, t: nat :: 1 <= t <= n ==> StoredCell(n, t, 0) == Ok(None)
  {
  }

  /** The evidently intended guard: a link is stored only when its destination
      is a document of the matrix (`1 <= d <= n`) other than the source. */
  function StoredCell(n: nat, t: nat, d: nat): (r: Result<Option<(nat, nat)>>)
    ensures r.Ok? && r.value.Some? ==> r.value.value.1 + 1 == d && r.value.value.0 < n && r.value.value.1 < n
    ensures 1 <= t <= n ==> r.Ok?
    ensures 1 <= t <= n ==> (r.value.Some? <==> t != d && 1 <= d <= n)
    ensures 1 <= t <= n && r.value.Some? ==> r.value.value.0 + 1 == t
    ensures !(t != d && 1 <= d <= n) ==> r == Ok(None)
  {
    if t != d && 1 <= d <= n then
      match Wrap(t - 1, n)
      case Ok(row) => Ok(Some((row, d - 1)))
      case Err(e) => Err(e)
    else Ok(None)
  }

  /** The intended guard never stores a self-loop for a document of the matrix. */
  lemma StoredCellNoSelfLoop(n: nat, t: nat, d: nat)
    requires 1 <= t <= n
    ensures StoredCell(n, t, d).value.Some? ==>
              StoredCell(n, t, d).value.value.0 != StoredCell(n, t, d).value.value.1
  {
  }

  /** Only destination `0` tells the two guards apart. */
  lemma GuardsAgree(n: nat, t: nat, d: nat)
    requires 1 <= t <= n && d != 0
    ensures StoredCellAsWritten(n, t, d) == StoredCell(n, t, d)
  {
  }

  /** One pass of the loop over `neighbours` as written: `int(dest)`
      (ValueError), the guard, and the assignment of the number of fields
      equal to the key (IndexError outside the matrix). */
  function StoreKey(cells: map<(nat, nat), nat>, n: nat, t: nat, key: string, fields: seq<string>)
    : (r: Result<map<(nat, nat), nat>>)
    ensures !IsDecimal(key) ==> r == Err(ValueError)
    ensures r.Ok? ==> forall c :: c in cells ==> c in r.value
    ensures r.Ok? ==> forall c :: c in r.value ==> c in cells || (c.0 < n && c.1 < n)
  {
    match PyInt(key)
    case Err(e) => Err(e)
    case Ok(d) =>
      match StoredCellAsWritten(n, t, d)
      case Err(e) => Err(e)
      case Ok(None) => Ok(cells)
      case Ok(Some(cell)) => Ok(cells[cell := multiset(fields)[key]])
  }

  /** The loop over `neighbours`: every key in order, until one raises. Cells
      are only ever added or overwritten, and only inside the matrix. */
  function StoreLinks(cells: map<(nat, nat), nat>, n: nat, t: nat, keys: seq<string>, fields: seq<string>)
    : (r: Result<map<(nat, nat), nat>>)
    ensures r.Ok? ==> forall c :: c in cells ==> c in r.value
    ensures r.Ok? ==> forall c :: c in r.value ==> c in cells || (c.0 < n && c.1 < n)
  {
    if keys == [] then Ok(cells)
    else
      match StoreLinks(cells, n, t, keys[..|keys| - 1], fields)
      case Err(e) => Err(e)
      case Ok(c) => StoreKey(c, n, t, keys[|keys| - 1], fields)
  }

  /** The loop over `neighbours` for one more key. */
  lemma StoreLinksNext(cells: map<(nat, nat), nat>, n: nat, t: nat, keys: seq<string>, fields: seq<string>,
                       k: nat, c: map<(nat, nat), nat>)
    requires k < |keys| && StoreLinks(cells, n, t, keys[..k], fields) == Ok(c)
    ensures StoreLinks(cells, n, t, keys[..k + 1], fields) == StoreKey(c, n, t, keys[k], fields)
  {
    assert keys[..k + 1][..k] == keys[..k];
    assert keys[..k + 1][k] == keys[k];
  }

  /** Once a key raises, the rest of the loop does not change the error. */
  lemma {:induction false} StoreLinksStuck(cells: map<(nat, nat), nat>, n: nat, t: nat, keys: seq<string>,
                                           fields: seq<string>, k: nat)
    requires k <= |keys| && StoreLinks(cells, n, t, keys[..k], fields).Err?
    ensures StoreLinks(cells, n, t, keys, fields) == StoreLinks(cells, n, t, keys[..k], fields)
    decreases |keys|
  {
    if k == |keys| {
      assert keys[..k] == keys;
    } else {
      var p := keys[..|keys| - 1];
      assert p[..k] == keys[..k];
      StoreLinksStuck(cells, n, t, p, fields, k);
    }
  }

  /** The links of one document in pass 2, stored over the cells so far:
      IndexError for a token with no field, then ValueError for a title that
      is not a number, then the loop over the keys of `neighbours`. */
  function LinkCells(cells: map<(nat, nat), nat>, n: nat, title: string, links: string)
    : (r: Result<map<(nat, nat), nat>>)
    ensures DestFields(links).Err? ==> r == Err(IndexError)
    ensures DestFields(links).Ok? && !IsDecimal(title) ==> r == Err(ValueError)
    ensures r.Ok? ==> forall c :: c in cells ==> c in r.value
    ensures r.Ok? ==> forall c :: c in r.value ==> c in cells || (c.0 < n && c.1 < n)
  {
    match DestFields(links)
    case Err(e) => Err(e)
    case Ok(fields) =>
      match PyInt(title)
      case Err(e) => Err(e)
      case Ok(t) => StoreLinks(cells, n, t, Unique(fields), fields)
  }

  /** A key that, as written, stores its count in column `x - 1` of row
      `t - 1`. */
  ghost predicate Hits(n: nat, t: nat, key: string, x: nat) {
    IsDecimal(key) && Lands(n, t, DecimalValue(key)) && Target(n, DecimalValue(key)) == x
  }

  /** The cells the loop adds to row `t - 1` of the matrix for decimal keys, a
      later key over an earlier one. */
  function RowCells(n: nat, t: nat, keys: seq<string>, fields: seq<string>): (r: map<(nat, nat), nat>)
    requires 1 <= t <= n
    requires forall k :: k in keys ==> IsDecimal(k)
    ensures forall c :: c in r ==> c.0 + 1 == t && c.1 < n
  {
    if keys == [] then map[]
    else
      var m := |keys| - 1;
      assert keys[m] in keys && IsDecimal(keys[m]);
      var d := DecimalValue(keys[m]);
      var row := RowCells(n, t, keys[..m], fields);
      if Lands(n, t, d) then row[(t - 1, Target(n, d) - 1) := multiset(fields)[keys[m]]] else row
  }

  /** The cell in column `x - 1` of the row: present exactly when some key
      lands there, and holding the count of the last key in order that does. */
  lemma {:induction false} RowCellsAt(n: nat, t: nat, keys: seq<string>, fields: seq<string>, x: nat)
    requires 1 <= t <= n && 1 <= x
    requires forall k :: k in keys ==> IsDecimal(k)
    ensures (t - 1, x - 1) in RowCells(n, t, keys, fields) <==> exists i :: 0 <= i < |keys| && Hits(n, t, keys[i], x)
    ensures (t - 1, x - 1) in RowCells(n, t, keys, fields) ==>
              exists i :: 0 <= i < |keys| && Hits(n, t, keys[i], x)
                          && RowCells(n, t, keys, fields)[(t - 1, x - 1)] == multiset(fields)[keys[i]]
                          && forall j :: i < j < |keys| ==> !Hits(n, t, keys[j], x)
  {
    if keys != [] {
      var m := |keys| - 1;
      var p := keys[..m];
      assert forall i :: 0 <= i < m ==> p[i] == keys[i];
      RowCellsAt(n, t, p, fields, x);
      if !Hits(n, t, keys[m], x) {
        var row := RowCells(n, t, p, fields);
        assert (t - 1, x - 1) in RowCells(n, t, keys, fields) <==> (t - 1, x - 1) in row;
        if (t - 1, x - 1) in row {
          var i :| 0 <= i < m && Hits(n, t, p[i], x) && row[(t - 1, x - 1)] == multiset(fields)[p[i]]
                   && forall j :: i < j < m ==> !Hits(n, t, p[j], x);
          assert RowCells(n, t, keys, fields)[(t - 1, x - 1)] == row[(t - 1, x - 1)];
          assert forall j :: i < j < |keys| ==> !Hits(n, t, keys[j], x);
        }
      }
    }
  }

  /** The row of document `t` has no cell in any other row. */
  lemma RowCellsOutside(n: nat, t: nat, keys: seq<string>, fields: seq<string>, c: (nat, nat))
    requires 1 <= t <= n && c.0 + 1 != t
    requires forall k :: k in keys ==> IsDecimal(k)
    ensures c !in RowCells(n, t, keys, fields)
  {
  }

  lemma MergeUpdate<K, V>(a: map<K, V>, b: map<K, V>, k: K, v: V)
    ensures (a + b)[k := v] == a + b[k := v]
  {
  }

  /** Storing the links of a document whose title is a row of the matrix, with
      keys that are all numbers, never fails, and adds exactly its row cells. */
  lemma {:induction false} StoreLinksRow(cells: map<(nat, nat), nat>, n: nat, t: nat, keys: seq<string>, fields: seq<string>)
    requires 1 <= t <= n
    requires forall k :: k in keys ==> IsDecimal(k)
    ensures StoreLinks(cells, n, t, keys, fields) == Ok(cells + RowCells(n, t, keys, fields))
  {
    if keys == [] {
      assert cells + map[] == cells;
    } else {
      var m := |keys| - 1;
      var p := keys[..m];
      assert keys[m] in keys;
      var d := DecimalValue(keys[m]);
      var row := RowCells(n, t, p, fields);
      assert StoreLinks(cells, n, t, p, fields) == Ok(cells + row) by {
        StoreLinksRow(cells, n, t, p, fields);
      }
      assert PyInt(keys[m]) == Ok(d);
      StoredCellLands(n, t, d);
      if Lands(n, t, d) {
        MergeUpdate(cells, row, (t - 1, Target(n, d) - 1), multiset(fields)[keys[m]]);
      }
    }
  }

  /** The links of a document whose title is a row of the matrix and whose
      destinations are all numbers: its row receives the cells of the keys of
      `neighbours` in ascending order; no other cell changes. */
  lemma LinkCellsRow(cells: map<(nat, nat), nat>, n: nat, title: string, links: string, fields: seq<string>)
    requires DestFields(links) == Ok(fields)
    requires IsDecimal(title) && 1 <= DecimalValue(title) <= n
    requires forall i :: 0 <= i < |fields| ==> IsDecimal(fields[i])
    ensures LinkCells(cells, n, title, links)
            == Ok(cells + RowCells(n, DecimalValue(title), Unique(fields), fields))
  {
    StoreLinksRow(cells, n, DecimalValue(title), Unique(fields), fields);
  }

  /** The row of a document whose destinations are the numbers `fields`: the
      cell in column `x - 1` is set, and nonzero, exactly when `x` is a
      destination inside the matrix other than `t`, or `x` is the last document
      `n` and some destination is `0`. */
  lemma RowOfFields(n: nat, t: nat, fields: seq<string>, x: nat)
    requires 1 <= t <= n && 1 <= x
    requires forall i :: 0 <= i < |fields| ==> IsDecimal(fields[i])
    ensures (t - 1, x - 1) in RowCells(n, t, Unique(fields), fields)
            <==> x <= n && ((x in Values(fields) && x != t) || (x == n && 0 in Values(fields)))
    ensures (t - 1, x - 1) in RowCells(n, t, Unique(fields), fields) ==>
              RowCells(n, t, Unique(fields), fields)[(t - 1, x - 1)] != 0
  {
    var keys := Unique(fields);
    var vs := Values(fields);
    var row := RowCells(n, t, keys, fields);
    RowCellsAt(n, t, keys, fields, x);
    var reached := x <= n && ((x in vs && x != t) || (x == n && 0 in vs));
    if (t - 1, x - 1) in row {
      var i :| 0 <= i < |keys| && Hits(n, t, keys[i], x) && row[(t - 1, x - 1)] == multiset(fields)[keys[i]];
      assert keys[i] in fields;
      var j :| 0 <= j < |fields| && fields[j] == keys[i];
      assert vs[j] == DecimalValue(keys[i]);
      assert keys[i] in multiset(fields);
    }
    if reached {
      var v := if x in vs && x != t then x else 0;
      var j :| 0 <= j < |vs| && vs[j] == v;
      assert fields[j] in keys;
      var i :| 0 <= i < |keys| && keys[i] == fields[j];
      assert Hits(n, t, keys[i], x);
    }
  }

  /** For a document numbered past the matrix, the first key in ascending
      order that is a number at most `n` raises IndexError, whatever follows
      it. */
  lemma {:induction false} StoreLinksOutside(cells: map<(nat, nat), nat>, n: nat, t: nat, keys: seq<string>,
                                             fields: seq<string>, k: nat)
    requires n < t
    requires k < |keys| && IsDecimal(keys[k]) && DecimalValue(keys[k]) <= n
    requires forall i :: 0 <= i < k ==> IsDecimal(keys[i]) && n < DecimalValue(keys[i])
    ensures StoreLinks(cells, n, t, keys, fields) == Err(IndexError)
  {
    StoreLinksSkipped(cells, n, t, keys[..k], fields);
    StoreLinksNext(cells, n, t, keys, fields, k, cells);
    StoreLinksStuck(cells, n, t, keys, fields, k + 1);
  }

  /** Keys past the matrix are all skipped. */
  lemma {:induction false} StoreLinksSkipped(cells: map<(nat, nat), nat>, n: nat, t: nat, keys: seq<string>,
                                             fields: seq<string>)
    requires forall i :: 0 <= i < |keys| ==> IsDecimal(keys[i]) && n < DecimalValue(keys[i])
    ensures StoreLinks(cells, n, t, keys, fields) == Ok(cells)
  {
    if keys != [] {
      StoreLinksSkipped(cells, n, t, keys[..|keys| - 1], fields);
    }
  }

  /** For a document of the matrix, the first key in ascending order that is
      not a number raises ValueError, whatever follows it. */
  lemma StoreLinksNotNumber(cells: map<(nat, nat), nat>, n: nat, t: nat, keys: seq<string>,
                            fields: seq<string>, k: nat)
    requires 1 <= t <= n
    requires k < |keys| && !IsDecimal(keys[k])
    requires forall i :: 0 <= i < k ==> IsDecimal(keys[i])
    ensures StoreLinks(cells, n, t, keys, fields) == Err(ValueError)
  {
    var p := keys[..k];
    assert forall key :: key in p ==> IsDecimal(key);
    StoreLinksRow(cells, n, t, p, fields);
    StoreLinksNext(cells, n, t, keys, fields, k, cells + RowCells(n, t, p, fields));
    StoreLinksStuck(cells, n, t, keys, fields, k + 1);
  }

  // ---------------------------------------------------------------------------
  // Reading the network

  /** `getSuccNodes(doc_id)`: the ids (column + 1) of the nonzero cells in row
      `int(doc_id) - 1`, negative rows counting from the end; IndexError
      outside the matrix. */
  function SuccNodes(net: Network, docId: int): (r: Result<set<nat>>)
    ensures r.Ok? <==> -(net.n as int) <= docId - 1 < net.n
    ensures r.Ok? ==> forall j :: j in r.value ==> 1 <= j <= net.n
  {
    match Wrap(docId - 1, net.n)
    case Err(e) => Err(e)
    case Ok(row) =>
      Ok(set j: nat | j < net.n && (row, j) in net.cells && net.cells[(row, j)] != 0 :: j + 1)
  }

  /** `getPrevNodes(doc_id)`: the ids (row + 1) of the nonzero cells in column
      `int(doc_id) - 1`. */
  function PrevNodes(net: Network, docId: int): (r: Result<set<nat>>)
    ensures r.Ok? <==> -(net.n as int) <= docId - 1 < net.n
    ensures r.Ok? ==> forall i :: i in r.value ==> 1 <= i <= net.n
  {
    match Wrap(docId - 1, net.n)
    case Err(e) => Err(e)
    case Ok(col) =>
      Ok(set i: nat | i < net.n && (i, col) in net.cells && net.cells[(i, col)] != 0 :: i + 1)
  }

  /** Successors and predecessors are two views of the same links: `b` is a
      successor of `a` exactly when `a` is a predecessor of `b`. */
  lemma SuccPrevDual(net: Network, a: nat, b: nat)
    requires 1 <= a <= net.n && 1 <= b <= net.n
    ensures b in SuccNodes(net, a).value <==> a in PrevNodes(net, b).value
  {
    var cell := (a - 1, b - 1);
    if b in SuccNodes(net, a).value {
      assert cell in net.cells && net.cells[cell] != 0;
    }
    if a in PrevNodes(net, b).value {
      assert cell in net.cells && net.cells[cell] != 0;
    }
  }
}
