/** The Python string and file primitives the index is built from: `str(n)` and
    `int(s)` on decimal numbers, `split`, `join`, `find`, slicing with negative
    bounds, `strip`, and reading or writing a text file at a position. A file is a
    `string`: one character occupies one file position (the index writes ASCII
    only, without newline translation). */
module PyText {
  import opened Wrappers

  predicate IsDigit(c: char) { '0' <= c <= '9' }

  /** A non-empty string of decimal digits, the only form of `int(s)` modelled. */
  predicate IsDecimal(s: string) {
    |s| > 0 && forall i :: 0 <= i < |s| ==> IsDigit(s[i])
  }

  /** None of the characters of `cs` occurs in `s`. */
  predicate NoneOf(s: string, cs: string) {
    forall i :: 0 <= i < |s| ==> s[i] !in cs
  }

  function DigitChar(d: nat): (c: char)
    requires d < 10
    ensures IsDigit(c)
  {
    (48 + d) as char
  }

  /** `str(n)` for a non-negative integer. */
  function Show(n: nat): (s: string)
    ensures IsDecimal(s)
  {
    if n < 10 then [DigitChar(n)] else Show(n / 10) + [DigitChar(n % 10)]
  }

  function DigitValue(c: char): (d: nat)
    requires IsDigit(c)
    ensures d < 10
  {
    c as int - '0' as int
  }

  function DecimalValue(s: string): nat
    requires forall i :: 0 <= i < |s| ==> IsDigit(s[i])
  {
    if s == [] then 0 else DecimalValue(s[..|s| - 1]) * 10 + DigitValue(s[|s| - 1])
  }

  /** `int(s)`: a string of decimal digits gives its value, anything else raises
      ValueError. */
  function PyInt(s: string): (r: Result<nat>)
    ensures r.Ok? <==> IsDecimal(s)
    ensures r.Err? ==> r.error == ValueError
  {
    if IsDecimal(s) then Ok(DecimalValue(s)) else Err(ValueError)
  }

  /** `int(str(n)) == n`. */
  lemma {:induction false} ShowRoundTrip(n: nat)
    ensures PyInt(Show(n)) == Ok(n)
  {
    var s := Show(n);
    if n < 10 {
      assert s == [DigitChar(n)];
      assert s[..0] == [];
      assert DigitValue(s[0]) == n;
      assert DecimalValue(s) == n;
    } else {
      ShowRoundTrip(n / 10);
      assert s[..|s| - 1] == Show(n / 10);
      assert DigitValue(DigitChar(n % 10)) == n % 10;
    }
  }

  /** `sep.join(parts)`. */
  function Join(parts: seq<string>, sep: char): string
  {
    if |parts| == 0 then ""
    else if |parts| == 1 then parts[0]
    else parts[0] + [sep] + Join(parts[1..], sep)
  }

  /** `s.split(sep)` for a one-character separator: the pieces between the
      separators, empty pieces included. Joining them back gives `s`. */
  function Split(s: string, sep: char): (parts: seq<string>)
    ensures |parts| >= 1
    ensures Join(parts, sep) == s
    ensures forall i :: 0 <= i < |parts| ==> sep !in parts[i]
  {
    if s == [] then [""]
    else
      var rest := Split(s[1..], sep);
      if s[0] == sep then [""] + rest
      else [[s[0]] + rest[0]] + rest[1..]
  }

  lemma {:induction false} SplitNoSeparator(x: string, sep: char)
    requires sep !in x
    ensures Split(x, sep) == [x]
  {
    if x != [] {
      SplitNoSeparator(x[1..], sep);
      assert [x[0]] + x[1..] == x;
    }
  }

  lemma {:induction false} SplitCons(x: string, sep: char, t: string)
    requires sep !in x
    ensures Split(x + [sep] + t, sep) == [x] + Split(t, sep)
  {
    if x == [] {
      assert (x + [sep] + t)[1..] == t;
    } else {
      var s := x + [sep] + t;
      assert s[0] == x[0] != sep && s[1..] == x[1..] + [sep] + t;
      var rest := Split(s[1..], sep);
      assert rest == [x[1..]] + Split(t, sep) by {
        SplitCons(x[1..], sep, t);
      }
      assert Split(s, sep) == [[x[0]] + rest[0]] + rest[1..];
      assert [x[0]] + x[1..] == x;
    }
  }

  /** Splitting a join of separator-free pieces gives the pieces back. */
  lemma {:induction false} SplitJoin(parts: seq<string>, sep: char)
    requires |parts| >= 1
    requires forall i :: 0 <= i < |parts| ==> sep !in parts[i]
    ensures Split(Join(parts, sep), sep) == parts
  {
    if |parts| == 1 {
      SplitNoSeparator(parts[0], sep);
    } else {
      SplitJoin(parts[1..], sep);
      SplitCons(parts[0], sep, Join(parts[1..], sep));
      assert [parts[0]] + parts[1..] == parts;
    }
  }

  /** Every character of a join is a separator or a character of a piece. */
  lemma {:induction false} JoinChars(parts: seq<string>, sep: char, cs: string)
    requires sep !in cs
    requires forall i :: 0 <= i < |parts| ==> NoneOf(parts[i], cs)
    ensures NoneOf(Join(parts, sep), cs)
  {
    if |parts| > 1 {
      JoinChars(parts[1..], sep, cs);
      var j := Join(parts, sep);
      assert j == parts[0] + [sep] + Join(parts[1..], sep);
      forall k | 0 <= k < |j| ensures j[k] !in cs {
        if k < |parts[0]| {
          assert j[k] == parts[0][k];
        } else if k > |parts[0]| {
          assert j[k] == Join(parts[1..], sep)[k - |parts[0]| - 1];
        }
      }
    }
  }

  /** `s.find(c)`: the first index of `c` in `s`, or -1. */
  function FindChar(s: string, c: char): (r: int)
    ensures -1 <= r < |s|
    ensures r == -1 <==> c !in s
    ensures r >= 0 ==> s[r] == c && c !in s[..r]
  {
    if s == [] then -1
    else if s[0] == c then 0
    else
      var k := FindChar(s[1..], c);
      assert s[1..][..k + 1] == s[1..k + 2] by { }
      if k < 0 then -1 else k + 1
  }

  predicate CommaPairAt(s: string, i: int)
    requires 0 <= i < |s| - 1
  {
    s[i] == ',' && s[i + 1] == ','
  }

  /** No two adjacent commas in `s`. */
  predicate NoCommaPair(s: string) {
    forall i :: 0 <= i < |s| - 1 ==> !CommaPairAt(s, i)
  }

  /** `s.find(",,")`: the first index of a pair of adjacent commas, or -1. */
  function FindCommaPair(s: string): (r: int)
    ensures -1 <= r < |s| - 1 || r == -1
    ensures r == -1 <==> NoCommaPair(s)
    ensures r >= 0 ==> CommaPairAt(s, r) && forall i :: 0 <= i < r ==> !CommaPairAt(s, i)
  {
    if |s| < 2 then -1
    else if CommaPairAt(s, 0) then 0
    else
      var k := FindCommaPair(s[1..]);
      assert forall i :: 0 <= i < |s| - 2 ==> (CommaPairAt(s[1..], i) <==> CommaPairAt(s, i + 1));
      assert forall i :: 0 <= i < |s| - 1 ==> (CommaPairAt(s, i) <==> i > 0 && CommaPairAt(s[1..], i - 1));
      if k < 0 then -1 else k + 1
  }

  /** `n` commas. */
  function Commas(n: nat): (s: string)
    ensures |s| == n && forall i :: 0 <= i < n ==> s[i] == ','
  {
    seq(n, _ => ',')
  }

  /** The first pair of adjacent commas in `x + Commas(r) + tail` starts right after
      `x`, when `x` has no pair of its own and does not end in a comma. */
  lemma FindAfterPrefix(x: string, r: nat, tail: string)
    requires |x| > 0 && x[|x| - 1] != ',' && NoCommaPair(x)
    requires r >= 2
    ensures FindCommaPair(x + Commas(r) + tail) == |x|
  {
    var s := x + Commas(r) + tail;
    assert CommaPairAt(s, |x|);
    forall i | 0 <= i < |x| ensures !CommaPairAt(s, i) {
      if i < |x| - 1 {
        assert !CommaPairAt(x, i);
      }
    }
  }

  /** Python's normalisation of a slice bound against a length. */
  function SliceBound(i: int, n: nat): (b: nat)
    ensures b <= n
  {
    if i < 0 then (if i + n < 0 then 0 else i + n) else if i > n then n else i
  }

  /** `s[i:j]` with Python's rules for negative and out-of-range bounds. */
  function PySlice(s: string, i: int, j: int): (r: string)
    ensures |r| <= |s|
    ensures SliceBound(i, |s|) <= SliceBound(j, |s|) ==>
              r == s[SliceBound(i, |s|)..SliceBound(j, |s|)]
    ensures SliceBound(i, |s|) >= SliceBound(j, |s|) ==> r == ""
  {
    var lo, hi := SliceBound(i, |s|), SliceBound(j, |s|);
    if lo < hi then s[lo..hi] else ""
  }

  function StripLeft(s: string, cs: string): string
  {
    if |s| > 0 && s[0] in cs then StripLeft(s[1..], cs) else s
  }

  function StripRight(s: string, cs: string): string
  {
    if |s| > 0 && s[|s| - 1] in cs then StripRight(s[..|s| - 1], cs) else s
  }

  /** `s.strip(cs)`: drops every leading and trailing character that occurs in
      `cs` (a set of characters, not a prefix). */
  function Strip(s: string, cs: string): string
  {
    StripRight(StripLeft(s, cs), cs)
  }

  lemma {:induction false} StripLeftPrefix(p: string, t: string, cs: string)
    requires forall i :: 0 <= i < |p| ==> p[i] in cs
    ensures StripLeft(p + t, cs) == StripLeft(t, cs)
  {
    if p == [] {
      assert p + t == t;
    } else {
      assert (p + t)[0] == p[0] && p[0] in cs;
      assert (p + t)[1..] == p[1..] + t;
      StripLeftPrefix(p[1..], t, cs);
      assert StripLeft(p + t, cs) == StripLeft(p[1..] + t, cs);
    }
  }

  /** Stripping the characters of `key` from `key + t` gives back `t` when `t`
      begins and ends with characters outside `key`. */
  lemma StripKey(key: string, t: string)
    requires |t| > 0 && t[0] !in key && t[|t| - 1] !in key
    ensures Strip(key + t, key) == t
  {
    StripLeftPrefix(key, t, key);
  }

  /** `f.seek(p); f.read(n)`: at most `n` characters from position `p`. */
  function Read(f: string, p: nat, n: nat): (r: string)
    ensures p + n <= |f| ==> r == f[p..p + n]
  {
    var lo := if p <= |f| then p else |f|;
    var hi := if p + n <= |f| then p + n else |f|;
    f[lo..hi]
  }

  /** `f.seek(p); f.write(w)` on a text file: overwrites from `p` and extends
      the file when the write runs past its end. */
  function Overwrite(f: string, p: nat, w: string): (r: string)
    requires p <= |f|
    ensures |r| == if p + |w| <= |f| then |f| else p + |w|
    ensures r[p..p + |w|] == w
    ensures forall k :: 0 <= k < |f| && (k < p || p + |w| <= k) ==> r[k] == f[k]
  {
    f[..p] + w + (if p + |w| <= |f| then f[p + |w|..] else "")
  }
}
