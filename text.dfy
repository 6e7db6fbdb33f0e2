/**
 * String operations with the semantics of the JavaScript built-ins that the
 * downloader relies on: `includes`, `startsWith`, `endsWith`, `split`, `join`,
 * `trim`, `lastIndexOf`, and case-insensitive regular-expression tests against
 * ASCII patterns.  Strings are `seq<char>`.
 */
module Text {

  datatype Option<T> = None | Some(value: T)

  /** `\w` of a JavaScript regular expression without the `u` flag. */
  predicate IsWordChar(c: char) {
    ('a' <= c <= 'z') || ('A' <= c <= 'Z') || ('0' <= c <= '9') || c == '_'
  }

  /** The class `[a-zA-Z0-9]`. */
  predicate IsAsciiAlnum(c: char) {
    ('a' <= c <= 'z') || ('A' <= c <= 'Z') || ('0' <= c <= '9')
  }

  predicate IsDigit(c: char) {
    '0' <= c <= '9'
  }

  /** The characters String.prototype.trim removes: ECMAScript WhiteSpace and LineTerminator. */
  predicate IsJsSpace(c: char) {
    c == '\t' || c == '\n' || c == '\U{B}' || c == '\U{C}' || c == '\r' || c == ' '
    || c == '\U{A0}' || c == '\U{1680}' || ('\U{2000}' <= c <= '\U{200A}')
    || c == '\U{2028}' || c == '\U{2029}' || c == '\U{202F}' || c == '\U{205F}'
    || c == '\U{3000}' || c == '\U{FEFF}'
  }

  /** ASCII case folding, which is what the `i` flag does for the ASCII patterns used here. */
  function LowerChar(c: char): char {
    if 'A' <= c <= 'Z' then (c as int + 32) as char else c
  }

  function Lower(s: string): string {
    seq(|s|, i requires 0 <= i < |s| => LowerChar(s[i]))
  }

  // ---------------------------------------------------------------- searching

  predicate OccursAt(s: string, pat: string, k: int) {
    0 <= k && k + |pat| <= |s| && forall i :: 0 <= i < |pat| ==> s[k + i] == pat[i]
  }

  /** `s.indexOf(pat)`: the first position where `pat` occurs, or -1. */
  function IndexOf(s: string, pat: string): (r: int)
    ensures -1 <= r <= |s|
    ensures r >= 0 ==> OccursAt(s, pat, r) && forall j :: 0 <= j < r ==> !OccursAt(s, pat, j)
    ensures r < 0 ==> forall j :: !OccursAt(s, pat, j)
    decreases |s|
  {
    if |pat| > |s| then -1
    else if OccursAt(s, pat, 0) then 0
    else
      var r := IndexOf(s[1..], pat);
      assert forall j :: 0 < j ==> (OccursAt(s, pat, j) <==> OccursAt(s[1..], pat, j - 1));
      if r < 0 then -1 else r + 1
  }

  /** `s.includes(pat)`. */
  predicate Contains(s: string, pat: string) {
    IndexOf(s, pat) >= 0
  }

  lemma OccursAtContains(s: string, pat: string, k: int)
    requires OccursAt(s, pat, k)
    ensures Contains(s, pat)
  {
  }

  /** A pattern with a character that `s` lacks does not occur in `s`. */
  lemma MissingChar(s: string, pat: string, i: int)
    requires 0 <= i < |pat| && pat[i] !in s
    ensures !Contains(s, pat)
  {
    if Contains(s, pat) {
      var k := IndexOf(s, pat);
    }
  }

  /** The pattern occurs inside `s[a..b]`, so it occurs in `s`. */
  lemma ContainsSlice(s: string, pat: string, a: int, b: int)
    requires 0 <= a <= b <= |s| && Contains(s[a..b], pat)
    ensures Contains(s, pat)
  {
    var k := IndexOf(s[a..b], pat);
    assert OccursAt(s, pat, a + k);
  }

  lemma ContainsConcat(a: string, b: string, pat: string)
    requires Contains(a, pat) || Contains(b, pat)
    ensures Contains(a + b, pat)
  {
    var s := a + b;
    if Contains(a, pat) {
      assert s[0..|a|] == a;
      ContainsSlice(s, pat, 0, |a|);
    } else {
      assert s[|a|..|s|] == b;
      ContainsSlice(s, pat, |a|, |s|);
    }
  }

  /** A one-character pattern occurs exactly where that character is. */
  lemma ContainsChar(s: string, c: char)
    ensures Contains(s, [c]) <==> c in s
  {
    if c in s {
      var k :| 0 <= k < |s| && s[k] == c;
      assert OccursAt(s, [c], k);
    }
    if Contains(s, [c]) {
      var k := IndexOf(s, [c]);
      assert s[k + 0] == [c][0];
    }
  }

  predicate StartsWith(s: string, p: string) {
    |p| <= |s| && s[..|p|] == p
  }

  predicate EndsWith(s: string, p: string) {
    |p| <= |s| && s[|s| - |p|..] == p
  }

  /** `/pat/i.test(s)` for a lower-case ASCII pattern. */
  predicate ContainsCI(s: string, pat: string) {
    Contains(Lower(s), pat)
  }

  /** `/pat$/i.test(s)` for a lower-case ASCII pattern. */
  predicate EndsWithCI(s: string, pat: string) {
    EndsWith(Lower(s), pat)
  }

  /** `s.lastIndexOf(c)` for a single character. */
  function LastIndexOf(s: string, c: char): (r: int)
    ensures -1 <= r < |s|
    ensures r >= 0 ==> s[r] == c && forall k :: r < k < |s| ==> s[k] != c
    ensures r < 0 ==> c !in s
    decreases |s|
  {
    if |s| == 0 then -1
    else if s[|s| - 1] == c then |s| - 1
    else LastIndexOf(s[..|s| - 1], c)
  }

  // ---------------------------------------------------------------- split and join

  /** `s.split(sep)` for a non-empty separator string. */
  function Split(s: string, sep: string): (parts: seq<string>)
    requires |sep| > 0
    ensures |parts| >= 1
    decreases |s|
  {
    var k := IndexOf(s, sep);
    if k < 0 then [s] else [s[..k]] + Split(s[k + |sep|..], sep)
  }

  /** `parts.join(sep)`. */
  function Join(parts: seq<string>, sep: string): string
    decreases |parts|
  {
    if |parts| == 0 then ""
    else if |parts| == 1 then parts[0]
    else parts[0] + sep + Join(parts[1..], sep)
  }

  function Last<T>(xs: seq<T>): T
    requires |xs| > 0
  {
    xs[|xs| - 1]
  }

  /** Joining the pieces of a split gives back the string. */
  lemma {:induction false} JoinSplit(s: string, sep: string)
    requires |sep| > 0
    ensures Join(Split(s, sep), sep) == s
    decreases |s|
  {
    var k := IndexOf(s, sep);
    if k >= 0 {
      var rest := s[k + |sep|..];
      JoinSplit(rest, sep);
      assert Split(s, sep) == [s[..k]] + Split(rest, sep);
      assert s == s[..k] + sep + rest;
    }
  }

  /** No piece of a split contains the separator. */
  lemma {:induction false} SplitPiecesFree(s: string, sep: string)
    requires |sep| > 0
    ensures forall p :: p in Split(s, sep) ==> !Contains(p, sep)
    decreases |s|
  {
    var k := IndexOf(s, sep);
    if k >= 0 {
      SplitPiecesFree(s[k + |sep|..], sep);
      assert !Contains(s[..k], sep) by {
        if Contains(s[..k], sep) {
          var j := IndexOf(s[..k], sep);
          assert OccursAt(s, sep, j);
        }
      }
    }
  }

  /** A separator with no border: no proper prefix of it is also a suffix. */
  predicate Unbordered(sep: string) {
    forall k :: 0 < k < |sep| ==> sep[..k] != sep[|sep| - k..]
  }

  /** A first occurrence determines `indexOf`. */
  lemma IndexOfIs(s: string, pat: string, k: int)
    requires OccursAt(s, pat, k)
    requires forall j :: 0 <= j < k ==> !OccursAt(s, pat, j)
    ensures IndexOf(s, pat) == k
  {
  }

  /** The first occurrence of `pat` in `a` is also its first occurrence in `a + b`. */
  lemma IndexOfExtend(a: string, b: string, pat: string)
    requires Contains(a, pat)
    ensures IndexOf(a + b, pat) == IndexOf(a, pat)
  {
    var k := IndexOf(a, pat);
    PrefixOccurrence(a, b, pat, k);
    forall j | 0 <= j < k ensures !OccursAt(a + b, pat, j) {
      PrefixOccurrence(a, b, pat, j);
    }
    IndexOfIs(a + b, pat, k);
  }

  /** An occurrence of `sep` that straddles the end of `a` in `a + sep + b` exhibits a border of `sep`. */
  lemma Straddle(a: string, sep: string, b: string, j: int)
    requires 0 <= j < |a| < j + |sep| && OccursAt(a + sep + b, sep, j)
    ensures 0 < j + |sep| - |a| < |sep|
    ensures sep[..j + |sep| - |a|] == sep[|a| - j..]
  {
    var s := a + sep + b;
    var k := j + |sep| - |a|;
    forall t | 0 <= t < k ensures sep[..k][t] == sep[|sep| - k..][t] {
      assert s[j + (|sep| - k + t)] == sep[|sep| - k + t];
      assert s[|a| + t] == sep[t];
    }
  }

  /** With an unbordered separator, the first separator after a separator-free prefix is the one appended. */
  lemma IndexOfAfterFree(a: string, sep: string, b: string)
    requires |sep| > 0 && Unbordered(sep) && !Contains(a, sep)
    ensures IndexOf(a + sep + b, sep) == |a|
  {
    var s := a + sep + b;
    assert OccursAt(s, sep, |a|);
    forall j | 0 <= j < |a| ensures !OccursAt(s, sep, j) {
      if j + |sep| <= |a| {
        PrefixOccurrence(a, sep + b, sep, j);
        assert a + (sep + b) == s;
      } else if OccursAt(s, sep, j) {
        Straddle(a, sep, b, j);
      }
    }
    IndexOfIs(s, sep, |a|);
  }

  /** An occurrence that ends within `a` is one in `a + c` and back. */
  lemma PrefixOccurrence(a: string, c: string, pat: string, j: int)
    requires 0 <= j && j + |pat| <= |a|
    ensures OccursAt(a + c, pat, j) <==> OccursAt(a, pat, j)
  {
    forall i | 0 <= i < |a| ensures (a + c)[i] == a[i] {
    }
  }

  /** Splitting distributes over a separator that joins two strings. */
  lemma {:induction false} SplitAppend(a: string, sep: string, b: string)
    requires |sep| > 0 && Unbordered(sep)
    ensures Split(a + sep + b, sep) == Split(a, sep) + Split(b, sep)
    decreases |a|
  {
    if Contains(a, sep) {
      var head, rest := SplitAppendHead(a, sep, b);
      SplitAppend(rest, sep, b);
      ConsAssoc(head, Split(rest, sep), Split(b, sep));
    } else {
      SplitAppendFree(a, sep, b);
    }
  }

  /** When `a` holds the separator, both splits start with the piece before its first occurrence. */
  lemma SplitAppendHead(a: string, sep: string, b: string) returns (head: string, rest: string)
    requires |sep| > 0 && Contains(a, sep)
    ensures |rest| < |a|
    ensures Split(a + sep + b, sep) == [head] + Split(rest + sep + b, sep)
    ensures Split(a, sep) == [head] + Split(rest, sep)
  {
    var s := a + sep + b;
    var k := IndexOf(a, sep);
    head, rest := a[..k], a[k + |sep|..];
    Slices(a, sep, b, k, k + |sep|);
    IndexOfExtend(a, sep + b, sep);
    SplitFirst(s, sep, k);
    SplitFirst(a, sep, k);
  }

  /** When `a` is free of an unbordered separator, the appended separator is the first. */
  lemma SplitAppendFree(a: string, sep: string, b: string)
    requires |sep| > 0 && Unbordered(sep) && !Contains(a, sep)
    ensures Split(a + sep + b, sep) == Split(a, sep) + Split(b, sep)
  {
    var s := a + sep + b;
    IndexOfAfterFree(a, sep, b);
    assert s[..|a|] == a;
    assert s[|a| + |sep|..] == b;
    SplitFirst(s, sep, |a|);
    SplitNone(a, sep);
  }

  /** `split` at the first occurrence, position `k`. */
  lemma SplitFirst(s: string, sep: string, k: int)
    requires |sep| > 0 && k >= 0 && IndexOf(s, sep) == k
    ensures k + |sep| <= |s| && Split(s, sep) == [s[..k]] + Split(s[k + |sep|..], sep)
  {
    var parts := Split(s, sep);
    assert parts == if IndexOf(s, sep) < 0 then [s] else [s[..IndexOf(s, sep)]] + Split(s[IndexOf(s, sep) + |sep|..], sep);
  }

  lemma SplitNone(s: string, sep: string)
    requires |sep| > 0 && !Contains(s, sep)
    ensures Split(s, sep) == [s]
  {
  }

  /** Splitting a join of separator-free pieces gives back the pieces. */
  lemma {:induction false} SplitJoin(xs: seq<string>, sep: string)
    requires |sep| > 0 && Unbordered(sep) && |xs| > 0
    requires forall x :: x in xs ==> !Contains(x, sep)
    ensures Split(Join(xs, sep), sep) == xs
    decreases |xs|
  {
    assert xs[0] in xs;
    SplitNone(xs[0], sep);
    if |xs| > 1 {
      var rest := Join(xs[1..], sep);
      TailIn(xs);
      SplitJoin(xs[1..], sep);
      SplitAppendFree(xs[0], sep, rest);
      ConsTail(xs);
    }
  }

  /** A non-empty sequence is its head followed by its tail. */
  lemma ConsTail<T>(xs: seq<T>)
    requires |xs| > 0
    ensures [xs[0]] + xs[1..] == xs
  {
  }

  lemma TailIn<T>(xs: seq<T>)
    requires |xs| > 0
    ensures forall x :: x in xs[1..] ==> x in xs
  {
  }

  /** Slicing `a + m + b` inside `a`. */
  lemma Slices<T>(a: seq<T>, m: seq<T>, b: seq<T>, i: nat, j: nat)
    requires i <= j <= |a|
    ensures a + m + b == a + (m + b)
    ensures (a + m + b)[..i] == a[..i]
    ensures (a + m + b)[j..] == a[j..] + m + b
  {
  }

  lemma LastIn<T>(xs: seq<T>)
    requires |xs| > 0
    ensures Last(xs) in xs
  {
  }

  /** The last one-element slice of a sequence. */
  lemma LastSlice<T>(xs: seq<T>)
    requires |xs| > 0
    ensures xs[|xs| - 1..] == [Last(xs)]
  {
  }

  /** What a sequence adds past a prefix of it, split at a longer prefix. */
  lemma DropSplit<T>(x: seq<T>, y: seq<T>, z: seq<T>)
    requires x <= y && y <= z
    ensures z[|x|..] == y[|x|..] + z[|y|..]
    ensures forall u :: u in z[|x|..] ==> u in y[|x|..] || u in z[|y|..]
  {
  }

  lemma Assoc<T>(a: seq<T>, b: seq<T>, c: seq<T>)
    ensures a + b + c == a + (b + c)
  {
  }

  lemma Regroup2<T>(a: seq<T>, b: seq<T>, c: seq<T>, bc: seq<T>)
    requires b + c == bc
    ensures a + b + c == a + bc
  {
  }

  /** Re-bracketing a concatenation around a middle part given as one piece. */
  lemma Regroup3<T>(a: seq<T>, b: seq<T>, c: seq<T>, d: seq<T>, bcd: seq<T>)
    requires b + c + d == bcd
    ensures a + b + c + d == a + bcd
  {
    assert a + b + c + d == a + (b + c + d);
  }

  /** An element of a non-empty sequence is in its front or is its last element. */
  lemma SnocMember<T>(xs: seq<T>, y: T)
    requires |xs| > 0
    ensures y in xs <==> y in xs[..|xs| - 1] || y == xs[|xs| - 1]
  {
    assert xs == xs[..|xs| - 1] + [xs[|xs| - 1]];
  }

  lemma ConsAssoc<T>(h: T, x: seq<T>, y: seq<T>)
    ensures [h] + (x + y) == ([h] + x) + y
  {
  }

  lemma {:induction false} JoinConcat(xs: seq<string>, ys: seq<string>, sep: string)
    requires |xs| > 0 && |ys| > 0
    ensures Join(xs + ys, sep) == Join(xs, sep) + sep + Join(ys, sep)
    decreases |xs|
  {
    if |xs| > 1 {
      assert (xs + ys)[1..] == xs[1..] + ys;
      JoinConcat(xs[1..], ys, sep);
    }
  }

  // ---------------------------------------------------------------- trim

  function TrimStart(s: string): string
    decreases |s|
  {
    if |s| > 0 && IsJsSpace(s[0]) then TrimStart(s[1..]) else s
  }

  function TrimEnd(s: string): string
    decreases |s|
  {
    if |s| > 0 && IsJsSpace(s[|s| - 1]) then TrimEnd(s[..|s| - 1]) else s
  }

  /** `s.trim()`. */
  function Trim(s: string): string {
    TrimEnd(TrimStart(s))
  }

  /** Neither end of `s` is a space character. */
  predicate Trimmed(s: string) {
    |s| == 0 || (!IsJsSpace(s[0]) && !IsJsSpace(s[|s| - 1]))
  }

  lemma {:induction false} TrimStartShape(s: string)
    ensures |TrimStart(s)| <= |s| && TrimStart(s) == s[|s| - |TrimStart(s)|..]
    ensures |TrimStart(s)| > 0 ==> !IsJsSpace(TrimStart(s)[0])
    ensures forall i :: 0 <= i < |s| - |TrimStart(s)| ==> IsJsSpace(s[i])
    decreases |s|
  {
    if |s| > 0 && IsJsSpace(s[0]) {
      TrimStartShape(s[1..]);
    }
  }

  lemma {:induction false} TrimEndShape(s: string)
    ensures |TrimEnd(s)| <= |s| && TrimEnd(s) == s[..|TrimEnd(s)|]
    ensures |TrimEnd(s)| > 0 ==> !IsJsSpace(TrimEnd(s)[|TrimEnd(s)| - 1])
    ensures forall i :: |TrimEnd(s)| <= i < |s| ==> IsJsSpace(s[i])
    decreases |s|
  {
    if |s| > 0 && IsJsSpace(s[|s| - 1]) {
      TrimEndShape(s[..|s| - 1]);
    }
  }

  /** The result of `trim` has no space at either end, and trimming it again changes nothing. */
  lemma TrimIsTrimmed(s: string)
    ensures Trimmed(Trim(s))
    ensures Trim(Trim(s)) == Trim(s)
  {
    TrimStartShape(s);
    var t := TrimStart(s);
    TrimEndShape(t);
    var u := TrimEnd(t);
    if |u| > 0 {
      assert u[0] == t[0];
    }
    TrimOfTrimmed(u);
  }

  /** A string with no space at either end is its own trim. */
  lemma TrimOfTrimmed(s: string)
    requires Trimmed(s)
    ensures Trim(s) == s
  {
  }

  // ---------------------------------------------------------------- query strip

  /** `u.split('?')[0]`: the longest prefix of `u` without a `?`. */
  function BeforeQuery(u: string): (r: string)
    ensures |r| <= |u| && r == u[..|r|]
    ensures '?' !in r
    ensures |r| < |u| ==> u[|r|] == '?'
  {
    var k := IndexOf(u, "?");
    assert forall j :: 0 <= j < |u| ==> (OccursAt(u, "?", j) <==> u[j] == '?') by {
      forall j | 0 <= j < |u| ensures OccursAt(u, "?", j) <==> u[j] == '?' {
        assert "?"[0] == '?';
      }
    }
    Split(u, "?")[0]
  }

  lemma BeforeQueryNoQuery(u: string)
    requires '?' !in u
    ensures BeforeQuery(u) == u
  {
  }

  /** Stripping the query of `a + b` strips it inside `a` when `a` already has one. */
  lemma BeforeQueryPrefix(a: string, b: string)
    requires '?' !in a
    ensures BeforeQuery(a + b) == a + BeforeQuery(b)
  {
    var r := BeforeQuery(a + b);
    var q := BeforeQuery(b);
    assert (a + b)[|a|..] == b;
    if |r| >= |a| {
      var t := r[|a|..];
      assert r == a + t;
      assert t == b[..|t|];
      assert '?' !in t by {
        forall i | 0 <= i < |t| ensures t[i] != '?' {
          assert t[i] == r[|a| + i];
        }
      }
      if |t| < |b| {
        assert b[|t|] == (a + b)[|r|];
      }
      BeforeQueryUnique(b, t);
    }
  }

  /** Any prefix without `?` that is followed by `?` or the end is the result of `BeforeQuery`. */
  lemma BeforeQueryUnique(u: string, t: string)
    requires |t| <= |u| && t == u[..|t|] && '?' !in t
    requires |t| < |u| ==> u[|t|] == '?'
    ensures BeforeQuery(u) == t
  {
  }

  // ---------------------------------------------------------------- sequences

  predicate NoDup<T(==)>(xs: seq<T>) {
    forall i, j :: 0 <= i < j < |xs| ==> xs[i] != xs[j]
  }

  /** `xs.filter(p)`. */
  function Filter<T>(xs: seq<T>, p: T -> bool): (r: seq<T>)
    ensures |r| <= |xs|
    ensures forall i :: 0 <= i < |r| ==> r[i] in xs && p(r[i])
    ensures forall i :: 0 <= i < |xs| && p(xs[i]) ==> xs[i] in r
    decreases |xs|
  {
    if |xs| == 0 then []
    else
      var rest := Filter(xs[..|xs| - 1], p);
      assert xs == xs[..|xs| - 1] + [xs[|xs| - 1]];
      if p(xs[|xs| - 1]) then rest + [xs[|xs| - 1]] else rest
  }

  lemma {:induction false} FilterAppend<T>(xs: seq<T>, ys: seq<T>, p: T -> bool)
    ensures Filter(xs + ys, p) == Filter(xs, p) + Filter(ys, p)
    decreases |ys|
  {
    if |ys| > 0 {
      var zs := xs + ys;
      assert zs[..|zs| - 1] == xs + ys[..|ys| - 1];
      FilterAppend(xs, ys[..|ys| - 1], p);
    } else {
      assert xs + ys == xs;
    }
  }

  /** `xs.map(f)`. */
  function Map<T, U>(xs: seq<T>, f: T -> U): (r: seq<U>)
    ensures |r| == |xs|
    ensures forall i :: 0 <= i < |xs| ==> r[i] == f(xs[i])
  {
    seq(|xs|, i requires 0 <= i < |xs| => f(xs[i]))
  }

  lemma MapMember<T, U>(xs: seq<T>, f: T -> U, y: U)
    ensures y in Map(xs, f) <==> exists x :: x in xs && f(x) == y
  {
    if y in Map(xs, f) {
      var i :| 0 <= i < |xs| && Map(xs, f)[i] == y;
      assert xs[i] in xs;
    }
  }

  lemma MapAppend<T, U>(xs: seq<T>, ys: seq<T>, f: T -> U)
    ensures Map(xs + ys, f) == Map(xs, f) + Map(ys, f)
  {
  }

  /** The blocks one after another: `[].concat(...bs)`. */
  function Concat<T>(bs: seq<seq<T>>): seq<T> {
    if |bs| == 0 then [] else Concat(bs[..|bs| - 1]) + bs[|bs| - 1]
  }

  lemma {:induction false} ConcatAppend<T>(bs: seq<seq<T>>, cs: seq<seq<T>>)
    ensures Concat(bs + cs) == Concat(bs) + Concat(cs)
    decreases |cs|
  {
    if |cs| > 0 {
      var all := bs + cs;
      assert all[..|all| - 1] == bs + cs[..|cs| - 1];
      ConcatAppend(bs, cs[..|cs| - 1]);
    } else {
      assert bs + cs == bs;
    }
  }

  /** One more block appended after what the first `i` blocks gave, itself after `start`. */
  lemma ConcatStep<T>(start: seq<T>, bs: seq<seq<T>>, i: nat)
    requires i < |bs|
    ensures start + Concat(bs[..i + 1]) == (start + Concat(bs[..i])) + bs[i]
  {
    assert bs[..i + 1][..i] == bs[..i];
  }

  /** Block `i` sits right after the blocks before it. */
  lemma ConcatBlock<T>(bs: seq<seq<T>>, i: nat)
    requires i < |bs|
    ensures |Concat(bs[..i])| + |bs[i]| <= |Concat(bs)|
    ensures Concat(bs)[|Concat(bs[..i])|..|Concat(bs[..i])| + |bs[i]|] == bs[i]
  {
    assert bs == bs[..i] + ([bs[i]] + bs[i + 1..]);
    ConcatAppend(bs[..i], [bs[i]] + bs[i + 1..]);
    ConcatAppend([bs[i]], bs[i + 1..]);
    assert Concat([bs[i]]) == bs[i] by {
      assert [bs[i]][..0] == [];
    }
  }

  /** A block of one element sits right after the blocks before it. */
  lemma ConcatSingle<T>(bs: seq<seq<T>>, i: nat, x: T)
    requires i < |bs| && bs[i] == [x]
    ensures |Concat(bs[..i + 1])| == |Concat(bs[..i])| + 1
    ensures |Concat(bs[..i])| < |Concat(bs[..|bs|])|
    ensures Concat(bs[..|bs|])[|Concat(bs[..i])|] == x
  {
    assert bs[..|bs|] == bs;
    assert bs[..i + 1][..i] == bs[..i];
    ConcatBlock(bs, i);
    var n := |Concat(bs[..i])|;
    assert Concat(bs)[n..n + 1][0] == x;
  }

  /** The index of the first occurrence of `x` in `xs`. */
  function FirstIndex<T(==)>(xs: seq<T>, x: T): (k: nat)
    requires x in xs
    ensures k < |xs| && xs[k] == x && x !in xs[..k]
  {
    if xs[0] == x then 0
    else
      var k := FirstIndex(xs[1..], x);
      assert xs[..k + 1] == [xs[0]] + xs[1..][..k];
      k + 1
  }

  /** `[...new Set(xs)]`: each value once, at the place where it first occurs. */
  lemma DedupMember<T>(xs: seq<T>, y: T)
    ensures y in Dedup(xs) <==> y in xs
  {
  }

  function Dedup<T(==)>(xs: seq<T>): (r: seq<T>)
    ensures |r| <= |xs|
    ensures NoDup(r)
    ensures forall i :: 0 <= i < |r| ==> r[i] in xs
    ensures forall i :: 0 <= i < |xs| ==> xs[i] in r
    decreases |xs|
  {
    if |xs| == 0 then []
    else
      var d := Dedup(xs[..|xs| - 1]);
      var x := xs[|xs| - 1];
      assert xs == xs[..|xs| - 1] + [x];
      if x in d then d else d + [x]
  }

  lemma FirstIndexPrefix<T>(xs: seq<T>, y: T, x: T)
    requires x in xs
    ensures FirstIndex(xs + [y], x) == FirstIndex(xs, x)
  {
    var k := FirstIndex(xs, x);
    var zs := xs + [y];
    assert zs[..k] == xs[..k];
    FirstIndexIs(zs, x, k);
  }

  lemma FirstIndexIs<T>(xs: seq<T>, x: T, k: nat)
    requires k < |xs| && xs[k] == x && x !in xs[..k]
    ensures FirstIndex(xs, x) == k
  {
  }

  /** `Dedup` lists the values in the order of their first occurrences. */
  lemma {:induction false} DedupOrder<T>(xs: seq<T>)
    ensures forall i, j :: 0 <= i < j < |Dedup(xs)| ==>
      FirstIndex(xs, Dedup(xs)[i]) < FirstIndex(xs, Dedup(xs)[j])
    decreases |xs|
  {
    if |xs| > 0 {
      var init := xs[..|xs| - 1];
      var x := xs[|xs| - 1];
      var d := Dedup(init);
      DedupOrder(init);
      assert xs == init + [x];
      forall v | v in d ensures FirstIndex(xs, v) == FirstIndex(init, v) {
        FirstIndexPrefix(init, x, v);
      }
      if x !in d {
        assert x !in init;
        assert x !in xs[..|xs| - 1];
        FirstIndexIs(xs, x, |xs| - 1);
        forall i | 0 <= i < |d| ensures FirstIndex(xs, d[i]) < |xs| - 1 {
          assert d[i] in init;
          FirstIndexPrefix(init, x, d[i]);
        }
      }
    }
  }

  /** A list without duplicates is its own deduplication. */
  lemma {:induction false} DedupNoDup<T>(xs: seq<T>)
    requires NoDup(xs)
    ensures Dedup(xs) == xs
    decreases |xs|
  {
    if |xs| > 0 {
      var init := xs[..|xs| - 1];
      var x := xs[|xs| - 1];
      DedupNoDup(init);
      assert x !in init;
      assert Dedup(xs) == if x in Dedup(init) then Dedup(init) else Dedup(init) + [x];
      assert xs == init + [x];
    }
  }
}
