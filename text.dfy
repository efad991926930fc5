/** Go's string and path helpers (`strings.HasPrefix`, `strings.Index`,
    `strings.ReplaceAll`, `strings.TrimSpace`, `filepath.Ext`, ...) as the core
    uses them, over `seq<char>`. Lower-casing covers the ASCII capitals and
    the two other runes Go lower-cases into ASCII. */
module Text {
  import opened Wrappers

  predicate HasPrefix(s: string, p: string) {
    |p| <= |s| && s[..|p|] == p
  }

  predicate HasSuffix(s: string, p: string) {
    |p| <= |s| && s[|s| - |p|..] == p
  }

  /** `p` occurs in `s` starting at index `i`. */
  predicate OccursAt(s: string, p: string, i: nat) {
    i + |p| <= |s| && s[i..i + |p|] == p
  }

  lemma OccursAtChars(s: string, p: string, i: nat, j: nat)
    requires OccursAt(s, p, i) && j < |p|
    ensures s[i + j] == p[j]
  {
    assert s[i..i + |p|][j] == s[i + j];
  }

  lemma OccursAtTail(s: string, p: string, j: nat)
    requires |s| > 0
    ensures OccursAt(s[1..], p, j) <==> OccursAt(s, p, j + 1)
  {
    if j + 1 + |p| <= |s| {
      assert s[1..][j..j + |p|] == s[j + 1..j + 1 + |p|];
    }
  }

  /** `strings.Index`: the first index at which `p` occurs, if any. */
  function IndexOf(s: string, p: string): (r: Option<nat>)
    ensures r.Some? ==> OccursAt(s, p, r.value)
    ensures r.Some? ==> forall j: nat :: j < r.value ==> !OccursAt(s, p, j)
    ensures r.None? ==> forall j: nat :: !OccursAt(s, p, j)
    decreases |s|
  {
    if HasPrefix(s, p) then
      assert s[0..|p|] == s[..|p|];
      Some(0)
    else if |s| == 0 then
      None
    else
      var rest := IndexOf(s[1..], p);
      forall j: nat | 1 <= j ensures OccursAt(s, p, j) <==> OccursAt(s[1..], p, j - 1) {
        OccursAtTail(s, p, j - 1);
      }
      assert !OccursAt(s, p, 0) by { if |p| <= |s| { assert s[0..|p|] == s[..|p|]; } }
      match rest
      case None => None
      case Some(i) => Some(i + 1)
  }

  /** `strings.Contains`. */
  predicate Contains(s: string, p: string) {
    IndexOf(s, p).Some?
  }

  lemma ContainsIff(s: string, p: string)
    ensures Contains(s, p) <==> exists j: nat :: OccursAt(s, p, j)
  {
  }

  lemma ContainsAt(s: string, p: string, j: nat)
    requires OccursAt(s, p, j)
    ensures Contains(s, p)
  {
  }

  /** The first occurrence of a single character is found where it is. */
  lemma IndexOfFirstChar(s: string, c: char, at: nat)
    requires at < |s| && s[at] == c
    requires forall k :: 0 <= k < at ==> s[k] != c
    ensures IndexOf(s, [c]) == Some(at)
  {
    assert s[at..at + 1] == [c];
    assert OccursAt(s, [c], at);
    var r := IndexOf(s, [c]);
    assert r.Some?;
    var i := r.value;
    assert s[i..i + 1][0] == s[i] == c;
  }

  /** A search for a single character finds its first occurrence. */
  lemma IndexOfSingle(s: string, c: char)
    ensures IndexOf(s, [c]).Some? ==>
      var i := IndexOf(s, [c]).value; i < |s| && s[i] == c && c !in s[..i]
    ensures IndexOf(s, [c]).None? ==> c !in s
  {
    var r := IndexOf(s, [c]);
    if r.Some? {
      var i := r.value;
      assert s[i..i + 1][0] == s[i];
      forall k | 0 <= k < i ensures s[k] != c {
        assert !OccursAt(s, [c], k);
        assert s[k..k + 1] == [s[k]];
      }
    } else {
      forall k | 0 <= k < |s| ensures s[k] != c {
        assert !OccursAt(s, [c], k);
        assert s[k..k + 1] == [s[k]];
      }
    }
  }

  /** A string occurs where it is placed between two others. */
  lemma OccursBetween(a: string, p: string, b: string)
    ensures OccursAt(a + p + b, p, |a|)
    ensures Contains(a + p + b, p)
  {
    assert (a + p + b)[|a|..|a| + |p|] == p;
    ContainsAt(a + p + b, p, |a|);
  }

  /** `strings.TrimPrefix`. */
  function TrimPrefix(s: string, p: string): (r: string)
    ensures HasPrefix(s, p) ==> p + r == s
    ensures !HasPrefix(s, p) ==> r == s
  {
    if HasPrefix(s, p) then s[|p|..] else s
  }

  /** `strings.TrimSuffix`. */
  function TrimSuffix(s: string, p: string): (r: string)
    ensures HasSuffix(s, p) ==> r + p == s
    ensures !HasSuffix(s, p) ==> r == s
  {
    if HasSuffix(s, p) then s[..|s| - |p|] else s
  }

  /** `strings.ReplaceAll`: every non-overlapping occurrence of `pat`, found
      left to right, is replaced by `rep`; an empty `pat` inserts `rep` before
      every character and at the end. */
  function ReplaceAll(s: string, pat: string, rep: string): string
    decreases |s|
  {
    if pat == [] then
      if s == [] then rep else rep + [s[0]] + ReplaceAll(s[1..], pat, rep)
    else
      match IndexOf(s, pat)
      case None => s
      case Some(i) => s[..i] + rep + ReplaceAll(s[i + |pat|..], pat, rep)
  }

  /** A copy of `r` placed in any text cannot take part in an occurrence of
      `q`: `r[b]` is a character `q` lacks, no occurrence of `q` can end
      inside `r[..b]` and none can start inside `r[b + 1..]`. */
  predicate Isolated(q: string, r: string, b: nat) {
    2 <= |q| && b < |r| && r[b] !in q
    && (forall e :: 0 <= e < b && r[e] == q[|q| - 1] ==> 1 <= e && r[e - 1] != q[|q| - 2])
    && (forall j :: b < j < |r| && r[j] == q[0] ==> j + 1 < |r| && r[j + 1] != q[1])
  }

  lemma OccursInSlice(s: string, q: string, lo: nat, hi: nat, k: nat)
    requires lo <= hi <= |s|
    ensures OccursAt(s[lo..hi], q, k) <==> (k + |q| <= hi - lo && OccursAt(s, q, lo + k))
  {
    if k + |q| <= hi - lo {
      var u, v := s[lo..hi][k..k + |q|], s[lo + k..lo + k + |q|];
      assert |u| == |v|;
      forall m | 0 <= m < |q| ensures u[m] == v[m] {
        assert u[m] == s[lo..hi][k + m];
      }
      assert u == v;
    }
  }

  lemma OccursInConcat(x: string, y: string, q: string, k: nat)
    ensures k + |q| <= |x| ==> (OccursAt(x + y, q, k) <==> OccursAt(x, q, k))
    ensures |x| <= k ==> (OccursAt(x + y, q, k) <==> OccursAt(y, q, k - |x|))
  {
    var t := x + y;
    assert x == t[..|x|] && y == t[|x|..];
    OccursInSlice(t, q, 0, |x|, k);
    if |x| <= k {
      OccursInSlice(t, q, |x|, |t|, k - |x|);
    }
  }

  lemma IsolatedStraddle(x: string, q: string, r: string, b: nat, y: string, k: nat)
    requires Isolated(q, r, b)
    requires |x| < k + |q| && k < |x| + |r|
    ensures !OccursAt(x + r + y, q, k)
  {
    var t := x + r + y;
    if OccursAt(t, q, k) {
      if k <= |x| + b < k + |q| {
        OccursAtChars(t, q, k, |x| + b - k);
        assert false;
      } else if k + |q| <= |x| + b {
        OccursAtChars(t, q, k, |q| - 1);
        OccursAtChars(t, q, k, |q| - 2);
        assert false;
      } else {
        OccursAtChars(t, q, k, 0);
        OccursAtChars(t, q, k, 1);
        assert false;
      }
    }
  }

  /** `q` occurs nowhere in `s`. */
  ghost predicate Absent(s: string, q: string) {
    forall j: nat :: !OccursAt(s, q, j)
  }

  /** Replacing `p` by an isolated `r` leaves no occurrence of `q` behind when
      `q` is `p` itself or did not occur to begin with. */
  lemma ReplaceAllLeavesNoOccurrence(s: string, p: string, r: string, q: string, b: nat)
    requires p != []
    requires Isolated(q, r, b)
    requires q == p || !Contains(s, q)
    ensures !Contains(ReplaceAll(s, p, r), q)
  {
    ReplaceAllLeavesAbsent(s, p, r, q, b);
  }

  lemma {:induction false} ReplaceAllLeavesAbsent(s: string, p: string, r: string, q: string, b: nat)
    requires p != []
    requires Isolated(q, r, b)
    requires q == p || Absent(s, q)
    ensures Absent(ReplaceAll(s, p, r), q)
    decreases |s|
  {
    var idx := IndexOf(s, p);
    if idx.Some? {
      var i := idx.value;
      var rest := s[i + |p|..];
      if q != p {
        AbsentInSuffix(s, q, i + |p|);
      }
      ReplaceAllLeavesAbsent(rest, p, r, q, b);
      AbsentAround(s, i, r, b, ReplaceAll(rest, p, r), p, q);
    }
  }

  lemma AbsentInSuffix(s: string, q: string, n: nat)
    requires n <= |s| && Absent(s, q)
    ensures Absent(s[n..], q)
  {
    forall k: nat ensures !OccursAt(s[n..], q, k) {
      OccursInSlice(s, q, n, |s|, k);
    }
  }

  lemma AbsentAround(s: string, i: nat, r: string, b: nat, y: string, p: string, q: string)
    requires i <= |s| && Isolated(q, r, b)
    requires q == p ==> |p| > 0 && forall j: nat :: j < i ==> !OccursAt(s, p, j)
    requires q != p ==> Absent(s, q)
    requires Absent(y, q)
    ensures Absent(s[..i] + r + y, q)
  {
    forall k: nat ensures !OccursAt(s[..i] + r + y, q, k) {
      NoOccurrenceAround(s, i, r, b, y, p, q, k);
    }
  }

  lemma NoOccurrenceAround(s: string, i: nat, r: string, b: nat, y: string, p: string, q: string, k: nat)
    requires i <= |s| && Isolated(q, r, b)
    requires q == p ==> |p| > 0 && forall j: nat :: j < i ==> !OccursAt(s, p, j)
    requires q != p ==> forall j: nat :: !OccursAt(s, q, j)
    requires forall j: nat :: !OccursAt(y, q, j)
    ensures !OccursAt(s[..i] + r + y, q, k)
  {
    var x := s[..i];
    if k + |q| <= |x| {
      OccursInConcat(x, r + y, q, k);
      assert x + r + y == x + (r + y);
      OccursInSlice(s, q, 0, i, k);
    } else if |x| + |r| <= k {
      OccursInConcat(x + r, y, q, k);
    } else {
      IsolatedStraddle(x, q, r, b, y, k);
    }
  }

  /** Replacing a pattern that does not occur changes nothing. */
  lemma ReplaceAllAbsent(s: string, p: string, r: string)
    requires p != [] && !Contains(s, p)
    ensures ReplaceAll(s, p, r) == s
  {
  }

  /** `strings.Count` for a single-character separator. */
  function CountChar(s: string, c: char): (n: nat)
    ensures n <= |s|
    ensures n == 0 <==> c !in s
  {
    if s == [] then 0 else (if s[0] == c then 1 else 0) + CountChar(s[1..], c)
  }

  /** `unicode.IsSpace`. */
  predicate IsSpace(c: char) {
    c in {'\t', '\n', '\U{000B}', '\U{000C}', '\r', ' ', '\U{0085}', '\U{00A0}', '\U{1680}',
          '\U{2028}', '\U{2029}', '\U{202F}', '\U{205F}', '\U{3000}'}
    || ('\U{2000}' <= c <= '\U{200A}')
  }

  function TrimLeftSpace(s: string): (r: string)
    ensures |r| <= |s| && r == s[|s| - |r|..]
    ensures r == [] || !IsSpace(r[0])
    ensures forall i :: 0 <= i < |s| - |r| ==> IsSpace(s[i])
  {
    if s != [] && IsSpace(s[0]) then TrimLeftSpace(s[1..]) else s
  }

  function TrimRightSpace(s: string): (r: string)
    ensures |r| <= |s| && r == s[..|r|]
    ensures r == [] || !IsSpace(r[|r| - 1])
    ensures forall i :: |r| <= i < |s| ==> IsSpace(s[i])
  {
    if s != [] && IsSpace(s[|s| - 1]) then TrimRightSpace(s[..|s| - 1]) else s
  }

  /** `strings.TrimSpace`. */
  function TrimSpace(s: string): (r: string)
  {
    TrimRightSpace(TrimLeftSpace(s))
  }

  /** Trimming a string that neither starts nor ends with white space,
      followed by one blank, gives the string back. */
  lemma TrimSpaceOneBlank(x: string)
    requires x == [] || (!IsSpace(x[0]) && !IsSpace(x[|x| - 1]))
    ensures TrimSpace(x + " ") == x
  {
    var left := TrimLeftSpace(x + " ");
    if x == [] {
      assert left == [];
    } else {
      assert left == x + " ";
      var right := TrimRightSpace(left);
      assert right == left[..|x|] == x;
    }
  }

  /** `unicode.ToLower` on every rune whose lower case is ASCII: the ASCII
      capitals, U+0130 (capital I with dot above) and U+212A (Kelvin sign).
      Every other rune is kept. */
  function LowerChar(c: char): (d: char)
    ensures d < '\U{0080}' <==> c < '\U{0080}' || c == '\U{0130}' || c == '\U{212A}'
  {
    if 'A' <= c <= 'Z' then (c as int + 32) as char
    else if c == '\U{0130}' then 'i'
    else if c == '\U{212A}' then 'k'
    else c
  }

  /** `strings.ToLower`, rune by rune; it agrees with Go on every rune that
      lower-cases to ASCII. */
  function ToLower(s: string): (r: string)
    ensures |r| == |s|
    ensures forall i :: 0 <= i < |s| ==> r[i] == LowerChar(s[i])
  {
    seq(|s|, i requires 0 <= i < |s| => LowerChar(s[i]))
  }

  /** `filepath.Ext`: the suffix from the last '.' of the final path element,
      or "" when that element has no '.'. */
  function Ext(path: string): (r: string)
    ensures HasSuffix(path, r)
    ensures r != [] ==> r[0] == '.'
    ensures forall i :: 0 < i < |r| ==> r[i] != '.' && r[i] != '/'
    decreases |path|
  {
    if path == [] || path[|path| - 1] == '/' then []
    else if path[|path| - 1] == '.' then ['.']
    else
      var e := Ext(path[..|path| - 1]);
      if e == [] then [] else e + [path[|path| - 1]]
  }

  function StripTrailingSlashes(path: string): (r: string)
    ensures |r| <= |path| && r == path[..|r|]
    ensures r == [] || r[|r| - 1] != '/'
  {
    if path != [] && path[|path| - 1] == '/' then StripTrailingSlashes(path[..|path| - 1]) else path
  }

  /** The part of `s` after its last '/', or all of `s`. */
  function AfterLastSlash(s: string): (r: string)
    ensures HasSuffix(s, r)
    ensures '/' !in r
    ensures |r| < |s| ==> s[|s| - |r| - 1] == '/'
  {
    if s == [] then []
    else if s[|s| - 1] == '/' then []
    else AfterLastSlash(s[..|s| - 1]) + [s[|s| - 1]]
  }

  /** A suffix made of one '.' and then neither '.' nor '/' is the
      extension. */
  lemma {:induction false} ExtOfSuffix(s: string, e: string)
    requires HasSuffix(s, e) && |e| >= 1 && e[0] == '.'
    requires forall i :: 1 <= i < |e| ==> e[i] != '.' && e[i] != '/'
    ensures Ext(s) == e
    decreases |e|
  {
    var n := |s| - 1;
    var m := |e| - 1;
    assert s[n] == s[|s| - |e|..][m] == e[m];
    if m > 0 {
      assert s[..n][|s[..n]| - m..] == s[|s| - |e|..][..m] == e[..m];
      ExtOfSuffix(s[..n], e[..m]);
      assert e == e[..m] + [e[m]];
    }
  }

  /** `filepath.Base` for '/'-separated paths. */
  function Base(path: string): (r: string)
    ensures r != []
    ensures r != "/" ==> '/' !in r
  {
    if path == [] then "."
    else
      var trimmed := StripTrailingSlashes(path);
      if trimmed == [] then "/" else AfterLastSlash(trimmed)
  }

  /** A non-empty name without '/' is its own base. */
  lemma BaseOfPlain(s: string)
    requires s != [] && '/' !in s
    ensures Base(s) == s
  {
    assert StripTrailingSlashes(s) == s;
    var r := AfterLastSlash(s);
    assert |r| == |s|;
  }

  /** A pattern longer than the text does not occur in it. */
  lemma ContainsShorter(s: string, p: string)
    requires |s| < |p|
    ensures !Contains(s, p)
  {
    ContainsIff(s, p);
  }

  /** `strings.Repeat`. */
  function Repeat(s: string, n: nat): (r: string)
    ensures |r| == n * |s|
  {
    if n == 0 then [] else s + Repeat(s, n - 1)
  }

  /** Appending `n` copies is appending one and then `n - 1`. */
  lemma RepeatShift(a: string, s: string, n: nat)
    ensures n == 0 ==> a + Repeat(s, n) == a
    ensures n > 0 ==> a + Repeat(s, n) == (a + s) + Repeat(s, n - 1)
  {
    if n == 0 {
      assert a + [] == a;
    }
  }
}
