/** Strings, optional values and ordering helpers shared by the Python worker
    and the TypeScript application: the two runtimes' notions of whitespace,
    strip/trim, first-occurrence search, split-at-first, join, decimal
    rendering of integers and a stable sort by an integer key. */
module Text {

  datatype Option<T> = None | Some(value: T) {
    function GetOr(default: T): T {
      match this
      case Some(v) => v
      case None => default
    }
  }

  // ---------------------------------------------------------------------
  // Whitespace
  // ---------------------------------------------------------------------

  /** Python's `str.isspace` on one character. */
  predicate IsPySpace(c: char) {
    c == ' ' || ('\t' <= c <= '\r') || ('\U{1c}' <= c <= '\U{1f}') || c == '\U{85}'
    || c == '\U{a0}' || c == '\U{1680}' || ('\U{2000}' <= c <= '\U{200a}')
    || c == '\U{2028}' || c == '\U{2029}' || c == '\U{202f}' || c == '\U{205f}'
    || c == '\U{3000}'
  }

  /** ECMAScript WhiteSpace and LineTerminator: what `trim()` removes and
      what the regular-expression class `\s` matches. */
  predicate IsJsSpace(c: char) {
    c == ' ' || ('\t' <= c <= '\r') || c == '\U{a0}' || c == '\U{1680}'
    || ('\U{2000}' <= c <= '\U{200a}') || c == '\U{2028}' || c == '\U{2029}'
    || c == '\U{202f}' || c == '\U{205f}' || c == '\U{3000}' || c == '\U{feff}'
  }

  /** Every character of `s` satisfies `ws`. */
  predicate AllOf(s: string, ws: char -> bool) {
    forall i :: 0 <= i < |s| ==> ws(s[i])
  }

  function TrimStart(s: string, ws: char -> bool): (r: string)
    ensures |r| <= |s| && r == s[|s| - |r|..]
    ensures r != [] ==> !ws(r[0])
    ensures AllOf(s[..|s| - |r|], ws)
  {
    if s != [] && ws(s[0]) then TrimStart(s[1..], ws) else s
  }

  function TrimEnd(s: string, ws: char -> bool): (r: string)
    ensures |r| <= |s| && r == s[..|r|]
    ensures r != [] ==> !ws(r[|r| - 1])
    ensures AllOf(s[|r|..], ws)
  {
    if s != [] && ws(s[|s| - 1]) then TrimEnd(s[..|s| - 1], ws) else s
  }

  /** Remove the longest prefix and suffix made of `ws` characters. */
  function Trim(s: string, ws: char -> bool): (r: string)
    ensures |r| <= |s|
    ensures r != [] ==> !ws(r[0]) && !ws(r[|r| - 1])
    ensures r == [] <==> AllOf(s, ws)
  {
    TrimFacts(s, ws);
    TrimEnd(TrimStart(s, ws), ws)
  }

  lemma TrimFacts(s: string, ws: char -> bool)
    ensures TrimEnd(TrimStart(s, ws), ws) == [] <==> AllOf(s, ws)
  {
    var a := TrimStart(s, ws);
    var k := |s| - |a|;
    if a == [] {
      assert s[..k] == s;
      assert TrimEnd(a, ws) == [];
    } else {
      assert a[0] == s[k] && !ws(s[k]);
      assert !AllOf(s, ws);
    }
  }

  /** A text that starts and ends outside `ws` is its own trim. */
  lemma TrimNoop(s: string, ws: char -> bool)
    requires s != [] && !ws(s[0]) && !ws(s[|s| - 1])
    ensures Trim(s, ws) == s
  {
    assert TrimStart(s, ws) == s;
    assert TrimEnd(s, ws) == s;
  }

  /** Python `s.strip()`. */
  function PyStrip(s: string): string { Trim(s, IsPySpace) }

  /** JavaScript `s.trim()`. */
  function JsTrim(s: string): string { Trim(s, IsJsSpace) }

  lemma {:induction false} TrimStartIdempotent(s: string, ws: char -> bool)
    ensures TrimStart(TrimStart(s, ws), ws) == TrimStart(s, ws)
  {
    var a := TrimStart(s, ws);
    if a != [] { assert !ws(a[0]); }
  }

  lemma {:induction false} TrimEndIdempotent(s: string, ws: char -> bool)
    ensures TrimEnd(TrimEnd(s, ws), ws) == TrimEnd(s, ws)
  {
    var a := TrimEnd(s, ws);
    if a != [] { assert !ws(a[|a| - 1]); }
  }

  /** Trimming twice is trimming once. */
  lemma TrimIdempotent(s: string, ws: char -> bool)
    ensures Trim(Trim(s, ws), ws) == Trim(s, ws)
  {
    var r := Trim(s, ws);
    if r != [] {
      assert !ws(r[0]);
      assert TrimStart(r, ws) == r;
      assert !ws(r[|r| - 1]);
      assert TrimEnd(r, ws) == r;
    }
  }

  /** A string made of `ws` characters trims to nothing from the left. */
  lemma {:induction false} AllOfTrimStart(s: string, ws: char -> bool)
    requires AllOf(s, ws)
    ensures TrimStart(s, ws) == []
  {
    if s != [] {
      AllOfTrimStart(s[1..], ws);
    }
  }

  /** Leading `ws` characters make no difference to `TrimStart`. */
  lemma {:induction false} TrimStartPad(a: string, y: string, ws: char -> bool)
    requires AllOf(a, ws)
    ensures TrimStart(a + y, ws) == TrimStart(y, ws)
  {
    if a != [] {
      assert (a + y)[0] == a[0] && (a + y)[1..] == a[1..] + y;
      TrimStartPad(a[1..], y, ws);
    } else {
      assert a + y == y;
    }
  }

  /** Trailing `ws` characters make no difference to `TrimEnd`. */
  lemma {:induction false} TrimEndPad(y: string, b: string, ws: char -> bool)
    requires AllOf(b, ws)
    ensures TrimEnd(y + b, ws) == TrimEnd(y, ws)
  {
    if b != [] {
      var yb := y + b;
      assert yb[|yb| - 1] == b[|b| - 1];
      assert yb[..|yb| - 1] == y + b[..|b| - 1];
      TrimEndPad(y, b[..|b| - 1], ws);
    } else {
      assert y + b == y;
    }
  }

  /** `TrimStart` of a concatenation stops inside the first part unless
      that part is all `ws`. */
  lemma {:induction false} TrimStartAppend(x: string, b: string, ws: char -> bool)
    ensures TrimStart(x + b, ws) == if TrimStart(x, ws) == [] then TrimStart(b, ws) else TrimStart(x, ws) + b
  {
    if x == [] {
      assert x + b == b;
    } else {
      assert (x + b)[0] == x[0] && (x + b)[1..] == x[1..] + b;
      if ws(x[0]) {
        TrimStartAppend(x[1..], b, ws);
      }
    }
  }

  /** A string is its trim with `ws` padding on both sides. */
  lemma TrimParts(s: string, ws: char -> bool) returns (a: string, b: string)
    ensures AllOf(a, ws) && AllOf(b, ws) && s == a + Trim(s, ws) + b
  {
    var t := TrimStart(s, ws);
    var u := TrimEnd(t, ws);
    a, b := s[..|s| - |t|], t[|u|..];
    SplitAround(s, a, t);
    SplitAround(t, u, b);
    assert a + (u + b) == a + u + b;
  }

  lemma SplitAround(s: string, x: string, y: string)
    requires |x| <= |s| && x == s[..|x|] && y == s[|x|..]
    ensures s == x + y
  {
  }

  /** Padding a string on both sides with `ws` characters does not change
      its trim. */
  lemma TrimPadding(a: string, x: string, b: string, ws: char -> bool)
    requires AllOf(a, ws) && AllOf(b, ws)
    ensures Trim(a + x + b, ws) == Trim(x, ws)
  {
    assert a + x + b == a + (x + b);
    TrimStartPad(a, x + b, ws);
    TrimStartAppend(x, b, ws);
    if TrimStart(x, ws) == [] {
      AllOfTrimStart(b, ws);
    } else {
      TrimEndPad(TrimStart(x, ws), b, ws);
    }
  }

  // ---------------------------------------------------------------------
  // Search, split, replace, join
  // ---------------------------------------------------------------------

  predicate OccursAt(s: string, pat: string, i: int) {
    0 <= i && i + |pat| <= |s| && s[i..i + |pat|] == pat
  }

  function IndexFrom(s: string, pat: string, from: nat): (r: Option<nat>)
    requires from <= |s|
    decreases |s| - from
    ensures r.Some? ==> from <= r.value && OccursAt(s, pat, r.value)
    ensures r.Some? ==> forall j :: from <= j < r.value ==> !OccursAt(s, pat, j)
    ensures r.None? ==> forall j :: from <= j <= |s| ==> !OccursAt(s, pat, j)
  {
    if OccursAt(s, pat, from) then Some(from)
    else if from == |s| then None
    else IndexFrom(s, pat, from + 1)
  }

  /** Index of the first occurrence of `pat` in `s` (Python `str.index`,
      JavaScript `indexOf` when not -1). */
  function IndexOf(s: string, pat: string): (r: Option<nat>)
    ensures r.Some? ==> OccursAt(s, pat, r.value)
    ensures r.Some? ==> forall j :: 0 <= j < r.value ==> !OccursAt(s, pat, j)
    ensures r.None? ==> forall j :: 0 <= j <= |s| ==> !OccursAt(s, pat, j)
  {
    IndexFrom(s, pat, 0)
  }

  /** Python `pat in s`, JavaScript `s.includes(pat)`. */
  predicate Contains(s: string, pat: string) {
    IndexOf(s, pat).Some?
  }

  lemma ContainsChar(s: string, c: char)
    ensures Contains(s, [c]) <==> c in s
  {
    if c in s {
      var i :| 0 <= i < |s| && s[i] == c;
      assert OccursAt(s, [c], i);
    }
    if Contains(s, [c]) {
      assert s[IndexOf(s, [c]).value] == c;
    }
  }

  /** A text with no occurrence of `pat` has none in any of its slices. */
  lemma NotContainsSlice(s: string, pat: string, a: nat, b: nat)
    requires a <= b <= |s| && !Contains(s, pat)
    ensures !Contains(s[a..b], pat)
  {
    if Contains(s[a..b], pat) {
      OccursInSlice(s, pat, a, b, IndexOf(s[a..b], pat).value);
    }
  }

  /** An occurrence in a slice is an occurrence in the whole text. */
  lemma OccursInSlice(s: string, pat: string, a: nat, b: nat, j: nat)
    requires a <= b <= |s| && OccursAt(s[a..b], pat, j)
    ensures OccursAt(s, pat, a + j)
  {
    var t := s[a..b];
    assert |t| == b - a && j + |pat| <= |t|;
    var u := s[a + j..a + j + |pat|];
    forall k | 0 <= k < |pat|
      ensures u[k] == pat[k]
    {
      assert u[k] == s[a + j + k] == t[j + k] == t[j..j + |pat|][k];
    }
    assert u == pat;
  }

  /** Trimming takes a slice, so it creates no occurrence of `pat`. */
  lemma NotContainsTrim(s: string, ws: char -> bool, pat: string)
    requires !Contains(s, pat)
    ensures !Contains(Trim(s, ws), pat)
  {
    var t := TrimStart(s, ws);
    NotContainsSlice(s, pat, |s| - |t|, |s|);
    assert t == s[|s| - |t|..|s|];
    var e := TrimEnd(t, ws);
    NotContainsSlice(t, pat, 0, |e|);
  }

  /** The part before the first occurrence of `sep` and the part after it
      (Python `s.split(sep, 1)` when `sep` occurs). */
  function SplitOnce(s: string, sep: string): (r: (string, string))
    requires Contains(s, sep)
    ensures r.0 + sep + r.1 == s
    ensures forall j :: 0 <= j < |r.0| ==> !OccursAt(s, sep, j)
  {
    var i := IndexOf(s, sep).value;
    assert s == s[..i] + s[i..i + |sep|] + s[i + |sep|..];
    (s[..i], s[i + |sep|..])
  }

  /** The part before the first occurrence of `sep` does not contain it. */
  lemma SplitOnceHead(s: string, sep: string)
    requires sep != [] && Contains(s, sep)
    ensures !Contains(SplitOnce(s, sep).0, sep)
  {
    var i := IndexOf(s, sep).value;
    var p := s[..i];
    assert SplitOnce(s, sep).0 == p;
    if Contains(p, sep) {
      OccursInSlice(s, sep, 0, i, IndexOf(p, sep).value);
    }
  }

  /** JavaScript `s.replace(pat, rep)` with a string pattern: only the first
      occurrence is replaced. */
  function ReplaceFirst(s: string, pat: string, rep: string): (r: string)
  {
    match IndexOf(s, pat)
    case None => s
    case Some(i) => s[..i] + rep + s[i + |pat|..]
  }

  /** `parts.join(sep)` in both languages. */
  function Join(parts: seq<string>, sep: string): string
  {
    if parts == [] then ""
    else if |parts| == 1 then parts[0]
    else parts[0] + sep + Join(parts[1..], sep)
  }

  lemma JoinAppend(parts: seq<string>, x: string, sep: string)
    ensures Join(parts + [x], sep) == if parts == [] then x else Join(parts, sep) + sep + x
  {
    if |parts| > 1 {
      assert (parts + [x])[1..] == parts[1..] + [x];
      JoinAppend(parts[1..], x, sep);
    } else if |parts| == 1 {
      assert (parts + [x])[1..] == [x];
    }
  }

  /** Splitting on one character, as `s.split(c)`. */
  function SplitChar(s: string, c: char): (r: seq<string>)
    ensures |r| >= 1
  {
    if s == [] then [""]
    else
      var rest := SplitChar(s[1..], c);
      if s[0] == c then [""] + rest else [[s[0]] + rest[0]] + rest[1..]
  }

  lemma {:induction false} SplitCharNone(a: string, c: char)
    requires c !in a
    ensures SplitChar(a, c) == [a]
  {
    if a != [] {
      SplitCharNone(a[1..], c);
      assert [a[0]] + a[1..] == a;
    }
  }

  lemma {:induction false} SplitCharAt(a: string, b: string, c: char)
    requires c !in a
    ensures SplitChar(a + [c] + b, c) == [a] + SplitChar(b, c)
  {
    if a == [] {
      assert a + [c] + b == [c] + b;
      assert ([c] + b)[1..] == b;
    } else {
      assert (a + [c] + b)[1..] == a[1..] + [c] + b;
      SplitCharAt(a[1..], b, c);
      assert [a[0]] + a[1..] == a;
    }
  }

  /** Splitting a join on a separator that occurs in no part gives the
      parts back. */
  lemma {:induction false} JoinSplit(ids: seq<string>, c: char)
    requires ids != []
    requires forall i :: 0 <= i < |ids| ==> c !in ids[i]
    ensures SplitChar(Join(ids, [c]), c) == ids
  {
    if |ids| == 1 {
      SplitCharNone(ids[0], c);
    } else {
      JoinSplit(ids[1..], c);
      assert Join(ids, [c]) == ids[0] + [c] + Join(ids[1..], [c]);
      SplitCharAt(ids[0], Join(ids[1..], [c]), c);
      assert [ids[0]] + ids[1..] == ids;
    }
  }

  /** Map each element to an optional value and keep the present ones, in
      order (a list comprehension with a filter). */
  function FilterMap<A, B>(s: seq<A>, f: A -> Option<B>): (r: seq<B>)
    ensures |r| <= |s|
  {
    if s == [] then []
    else match f(s[0])
      case Some(y) => [y] + FilterMap(s[1..], f)
      case None => FilterMap(s[1..], f)
  }

  /** Each element is treated on its own, so the result keeps the order of
      the input. */
  lemma {:induction false} FilterMapAppend<A, B>(a: seq<A>, b: seq<A>, f: A -> Option<B>)
    ensures FilterMap(a + b, f) == FilterMap(a, f) + FilterMap(b, f)
  {
    if a == [] {
      assert a + b == b;
    } else {
      assert (a + b)[1..] == a[1..] + b;
      FilterMapAppend(a[1..], b, f);
    }
  }

  /** Every kept value satisfies what `f` promises of its present results. */
  lemma {:induction false} FilterMapAll<A, B>(s: seq<A>, f: A -> Option<B>, p: B -> bool)
    requires forall i :: 0 <= i < |s| && f(s[i]).Some? ==> p(f(s[i]).value)
    ensures forall y :: y in FilterMap(s, f) ==> p(y)
  {
    if s != [] {
      FilterMapAll(s[1..], f, p);
    }
  }

  /** `s[:n]` in Python, `s.slice(0, n)` in JavaScript, for `n >= 0`. */
  function Take<T>(s: seq<T>, n: nat): (r: seq<T>)
    ensures |r| <= n && |r| <= |s| && r == s[..|r|]
    ensures |s| <= n ==> r == s
    ensures n <= |s| ==> |r| == n
  {
    if n < |s| then s[..n] else s
  }

  /** The elements satisfying `p`, in order. */
  function Filter<T>(s: seq<T>, p: T -> bool): (r: seq<T>)
    ensures |r| <= |s|
    ensures forall x :: x in r ==> p(x) && x in s
  {
    if s == [] then []
    else if p(s[0]) then [s[0]] + Filter(s[1..], p)
    else Filter(s[1..], p)
  }

  /** The first element kept by a filter is the first element satisfying
      the predicate. */
  lemma {:induction false} FilterHead<T>(s: seq<T>, p: T -> bool)
    ensures Filter(s, p) == [] <==> forall i :: 0 <= i < |s| ==> !p(s[i])
    ensures Filter(s, p) != [] ==> exists i :: (0 <= i < |s| && p(s[i]) && Filter(s, p)[0] == s[i]
              && forall j :: 0 <= j < i ==> !p(s[j]))
  {
    if s != [] {
      FilterHead(s[1..], p);
      assert forall i :: 1 <= i < |s| ==> s[i] == s[1..][i - 1];
      if !p(s[0]) && Filter(s, p) != [] {
        var i :| 0 <= i < |s[1..]| && p(s[1..][i]) && Filter(s[1..], p)[0] == s[1..][i]
                  && forall j :: 0 <= j < i ==> !p(s[1..][j]);
        assert p(s[i + 1]) && Filter(s, p)[0] == s[i + 1];
      }
    }
  }

  /** Two elements satisfying the predicate are both kept. */
  lemma {:induction false} FilterKeepsTwo<T>(s: seq<T>, p: T -> bool, i: nat, j: nat)
    requires i < j < |s| && p(s[i]) && p(s[j])
    ensures |Filter(s, p)| >= 2
  {
    assert s[j] == s[1..][j - 1];
    if i == 0 {
      FilterHead(s[1..], p);
    } else {
      assert s[i] == s[1..][i - 1];
      FilterKeepsTwo(s[1..], p, i - 1, j - 1);
    }
  }

  /** Filtering one more element at the end. */
  lemma {:induction false} FilterSnoc<T>(s: seq<T>, x: T, p: T -> bool)
    ensures Filter(s + [x], p) == Filter(s, p) + (if p(x) then [x] else [])
  {
    if s == [] {
      assert s + [x] == [x];
    } else {
      assert (s + [x])[1..] == s[1..] + [x];
      FilterSnoc(s[1..], x, p);
    }
  }

  /** Every element satisfying `p` is kept. */
  lemma {:induction false} FilterKeeps<T>(s: seq<T>, p: T -> bool)
    ensures forall x :: x in s && p(x) ==> x in Filter(s, p)
  {
    if s != [] {
      FilterKeeps(s[1..], p);
      assert forall x :: x in s ==> x == s[0] || x in s[1..];
    }
  }

  /** Filtering a sorted sequence leaves it sorted. */
  lemma {:induction false} FilterSorted<T>(s: seq<T>, p: T -> bool, key: T -> int)
    requires SortedBy(s, key)
    ensures SortedBy(Filter(s, p), key)
  {
    if s != [] {
      var tail := s[1..];
      assert SortedBy(tail, key);
      FilterSorted(tail, p, key);
      if p(s[0]) {
        var r := Filter(tail, p);
        forall j | 0 <= j < |r|
          ensures key(s[0]) <= key(r[j])
        {
          assert r[j] in tail;
        }
      }
    }
  }

  /** Every present image of an element is kept. */
  lemma {:induction false} FilterMapKeeps<A, B>(s: seq<A>, f: A -> Option<B>)
    ensures forall i :: 0 <= i < |s| && f(s[i]).Some? ==> f(s[i]).value in FilterMap(s, f)
  {
    if s != [] {
      FilterMapKeeps(s[1..], f);
      assert forall i :: 1 <= i < |s| ==> s[i] == s[1..][i - 1];
    }
  }

  /** Every kept value is the image of some element. */
  lemma {:induction false} FilterMapFrom<A, B>(s: seq<A>, f: A -> Option<B>)
    ensures forall y :: y in FilterMap(s, f) ==> exists i :: 0 <= i < |s| && f(s[i]) == Some(y)
  {
    if s != [] {
      FilterMapFrom(s[1..], f);
      forall y | y in FilterMap(s[1..], f)
        ensures exists i :: 0 <= i < |s| && f(s[i]) == Some(y)
      {
        var i :| 0 <= i < |s[1..]| && f(s[1..][i]) == Some(y);
        assert s[i + 1] == s[1..][i];
      }
    }
  }

  predicate Increasing(s: seq<int>) {
    forall a, b :: 0 <= a < b < |s| ==> s[a] < s[b]
  }

  /** The indices from `i` on whose element has an image, increasing. */
  function KeptFrom<A, B>(s: seq<A>, f: A -> Option<B>, i: nat): (r: seq<nat>)
    requires i <= |s|
    decreases |s| - i
    ensures forall k :: 0 <= k < |r| ==> i <= r[k] < |s| && f(s[r[k]]).Some?
  {
    if i == |s| then [] else (if f(s[i]).Some? then [i] else []) + KeptFrom(s, f, i + 1)
  }

  lemma {:induction false} KeptFromIncreasing<A, B>(s: seq<A>, f: A -> Option<B>, i: nat)
    requires i <= |s|
    decreases |s| - i
    ensures Increasing(KeptFrom(s, f, i))
  {
    if i < |s| {
      KeptFromIncreasing(s, f, i + 1);
    }
  }

  lemma {:induction false} KeptFromComplete<A, B>(s: seq<A>, f: A -> Option<B>, i: nat, m: nat)
    requires i <= m < |s| && f(s[m]).Some?
    decreases |s| - i
    ensures m in KeptFrom(s, f, i)
  {
    if m > i {
      KeptFromComplete(s, f, i + 1, m);
    }
  }

  lemma {:induction false} KeptFromImages<A, B>(s: seq<A>, f: A -> Option<B>, i: nat)
    requires i <= |s|
    decreases |s| - i
    ensures |KeptFrom(s, f, i)| == |FilterMap(s[i..], f)|
    ensures forall k :: 0 <= k < |KeptFrom(s, f, i)| ==> f(s[KeptFrom(s, f, i)[k]]) == Some(FilterMap(s[i..], f)[k])
  {
    if i < |s| {
      KeptFromImages(s, f, i + 1);
      assert s[i..][1..] == s[i + 1..];
    }
  }

  /** The kept values, in order, are the images of the elements with an
      image: `idx` lists those elements' indices, increasing. */
  lemma FilterMapIndices<A, B>(s: seq<A>, f: A -> Option<B>) returns (idx: seq<nat>)
    ensures |idx| == |FilterMap(s, f)| && Increasing(idx)
    ensures forall k :: 0 <= k < |idx| ==> idx[k] < |s| && f(s[idx[k]]) == Some(FilterMap(s, f)[k])
    ensures forall m :: 0 <= m < |s| && f(s[m]).Some? ==> m in idx
  {
    idx := KeptFrom(s, f, 0);
    KeptFromIncreasing(s, f, 0);
    KeptFromImages(s, f, 0);
    assert s[0..] == s;
    forall m | 0 <= m < |s| && f(s[m]).Some?
      ensures m in idx
    {
      KeptFromComplete(s, f, 0, m);
    }
  }

  /** A mapping that carries the key over keeps a sorted sequence sorted. */
  lemma {:induction false} FilterMapSorted<A, B>(s: seq<A>, f: A -> Option<B>, k1: A -> int, k2: B -> int)
    requires SortedBy(s, k1)
    requires forall x :: f(x).Some? ==> k2(f(x).value) == k1(x)
    ensures SortedBy(FilterMap(s, f), k2)
  {
    if s != [] {
      var tail := s[1..];
      assert SortedBy(tail, k1);
      FilterMapSorted(tail, f, k1, k2);
      if f(s[0]).Some? {
        var r := FilterMap(tail, f);
        FilterMapFrom(tail, f);
        forall j | 0 <= j < |r|
          ensures k2(f(s[0]).value) <= k2(r[j])
        {
          assert r[j] in r;
          var i :| 0 <= i < |tail| && f(tail[i]) == Some(r[j]);
          assert tail[i] == s[i + 1];
        }
      }
    }
  }

  // ---------------------------------------------------------------------
  // Case and numbers
  // ---------------------------------------------------------------------

  function AsciiLower(c: char): char {
    if 'A' <= c <= 'Z' then (c as int + 32) as char else c
  }

  /** Lower-casing, restricted to the ASCII letters. */
  function Lower(s: string): (r: string)
    ensures |r| == |s|
  {
    seq(|s|, i requires 0 <= i < |s| => AsciiLower(s[i]))
  }

  /** Lower-casing twice is lower-casing once. */
  lemma LowerIdempotent(s: string)
    ensures Lower(Lower(s)) == Lower(s)
  {
    assert forall i :: 0 <= i < |s| ==> AsciiLower(AsciiLower(s[i])) == AsciiLower(s[i]);
  }

  /** Lower-casing works character by character. */
  lemma LowerAppend(a: string, b: string)
    ensures Lower(a + b) == Lower(a) + Lower(b)
  {
    assert forall i :: 0 <= i < |a + b| ==> Lower(a + b)[i] == (Lower(a) + Lower(b))[i];
  }

  /** Lower-casing leaves JavaScript white space as it is. */
  lemma LowerSpace(s: string)
    requires AllOf(s, IsJsSpace)
    ensures Lower(s) == s
  {
    assert forall i :: 0 <= i < |s| ==> Lower(s)[i] == s[i];
  }

  predicate IsDigit(c: char) { '0' <= c <= '9' }

  function DigitChar(d: nat): char
    requires d < 10
  {
    ('0' as int + d) as char
  }

  /** Decimal rendering of a natural number, without leading zeros. */
  function NatToString(n: nat): (r: string)
    ensures r != [] && forall i :: 0 <= i < |r| ==> IsDigit(r[i])
    ensures |r| > 1 ==> r[0] != '0'
  {
    if n < 10 then [DigitChar(n)] else NatToString(n / 10) + [DigitChar(n % 10)]
  }

  /** Decimal rendering of an integer (`str(i)`, `String(i)`). */
  function IntToString(i: int): (r: string)
    ensures r != [] && forall k :: 0 <= k < |r| ==> IsDigit(r[k]) || r[k] == '-'
  {
    if i < 0 then "-" + NatToString(-i) else NatToString(i)
  }

  /** One digit exactly for the numbers below ten. */
  lemma NatToStringLength(n: nat)
    ensures |NatToString(n)| == 1 <==> n < 10
  {
    if n >= 10 {
      assert |NatToString(n / 10)| >= 1;
    }
  }

  /** Different numbers are written differently. */
  lemma {:induction false} NatToStringInjective(n: nat, m: nat)
    requires NatToString(n) == NatToString(m)
    ensures n == m
  {
    var s := NatToString(n);
    NatToStringLength(n);
    NatToStringLength(m);
    if n >= 10 {
      assert NatToString(n / 10) == s[..|s| - 1] == NatToString(m / 10);
      NatToStringInjective(n / 10, m / 10);
      assert DigitChar(n % 10) == s[|s| - 1] == DigitChar(m % 10);
    }
  }

  /** The sign shows in the first character. */
  lemma IntToStringSign(i: int)
    ensures IntToString(i)[0] == '-' <==> i < 0
  {
    if i >= 0 {
      assert IsDigit(NatToString(i)[0]);
    }
  }

  /** Different integers are written differently. */
  lemma IntToStringInjective(i: int, j: int)
    requires IntToString(i) == IntToString(j)
    ensures i == j
  {
    IntToStringSign(i);
    IntToStringSign(j);
    if i < 0 {
      assert NatToString(-i) == IntToString(i)[1..] == NatToString(-j);
      NatToStringInjective(-i, -j);
    } else {
      NatToStringInjective(i, j);
    }
  }

  // ---------------------------------------------------------------------
  // Stable sort by an integer key
  // ---------------------------------------------------------------------

  predicate SortedBy<T>(s: seq<T>, key: T -> int) {
    forall i, j :: 0 <= i < j < |s| ==> key(s[i]) <= key(s[j])
  }

  function InsertBy<T>(x: T, s: seq<T>, key: T -> int): (r: seq<T>)
    ensures |r| == |s| + 1
  {
    if s == [] || key(x) <= key(s[0]) then [x] + s else [s[0]] + InsertBy(x, s[1..], key)
  }

  /** Insertion sort; an element never overtakes an earlier element with an
      equal key, like the stable `Array.prototype.sort`. */
  function SortBy<T>(s: seq<T>, key: T -> int): (r: seq<T>)
    ensures |r| == |s|
  {
    if s == [] then [] else InsertBy(s[0], SortBy(s[1..], key), key)
  }

  lemma {:induction false} InsertByLowerBound<T>(x: T, s: seq<T>, key: T -> int, lo: int)
    requires lo <= key(x) && forall i :: 0 <= i < |s| ==> lo <= key(s[i])
    ensures forall i :: 0 <= i < |InsertBy(x, s, key)| ==> lo <= key(InsertBy(x, s, key)[i])
  {
    if s != [] && key(s[0]) < key(x) {
      InsertByLowerBound(x, s[1..], key, lo);
    }
  }

  lemma {:induction false} InsertByPermutes<T>(x: T, s: seq<T>, key: T -> int)
    ensures multiset(InsertBy(x, s, key)) == multiset(s) + multiset{x}
  {
    if s != [] && key(s[0]) < key(x) {
      InsertByPermutes(x, s[1..], key);
      assert s == [s[0]] + s[1..];
    }
  }

  lemma {:induction false} InsertBySorted<T>(x: T, s: seq<T>, key: T -> int)
    requires SortedBy(s, key)
    ensures SortedBy(InsertBy(x, s, key), key)
  {
    if s != [] && key(s[0]) < key(x) {
      InsertBySorted(x, s[1..], key);
      InsertByLowerBound(x, s[1..], key, key(s[0]));
    }
  }

  lemma {:induction false} SortByPermutes<T>(s: seq<T>, key: T -> int)
    ensures multiset(SortBy(s, key)) == multiset(s)
  {
    if s != [] {
      SortByPermutes(s[1..], key);
      InsertByPermutes(s[0], SortBy(s[1..], key), key);
      assert s == [s[0]] + s[1..];
    }
  }

  lemma {:induction false} SortBySorted<T>(s: seq<T>, key: T -> int)
    ensures SortedBy(SortBy(s, key), key)
  {
    if s != [] {
      SortBySorted(s[1..], key);
      InsertBySorted(s[0], SortBy(s[1..], key), key);
    }
  }

  /** `SortBy` orders by the key and returns a permutation of its input. */
  lemma SortByFacts<T>(s: seq<T>, key: T -> int)
    ensures SortedBy(SortBy(s, key), key)
    ensures multiset(SortBy(s, key)) == multiset(s)
  {
    SortBySorted(s, key);
    SortByPermutes(s, key);
  }
}
