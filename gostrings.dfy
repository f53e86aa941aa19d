/**
 * The parts of Go's `strings` package that the BibTeX pipeline relies on, over
 * `seq<char>`: `Index`, `Split`, `Join`, `Count`, `Fields`, `TrimSpace` and an
 * ASCII `ToLower`.
 */
module GoStrings {

  /** Go's `unicode.IsSpace`, the whitespace test of `strings.Fields` and `strings.TrimSpace`. */
  predicate IsSpace(c: char)
  {
    c == ' ' || c == '\t' || c == '\n' || c == '\r' || c == '\U{0B}' || c == '\U{0C}'
    || c == '\U{85}' || c == '\U{A0}' || c == '\U{1680}'
    || ('\U{2000}' <= c <= '\U{200A}')
    || c == '\U{2028}' || c == '\U{2029}' || c == '\U{202F}' || c == '\U{205F}' || c == '\U{3000}'
  }

  predicate AllSpace(s: string)
  {
    forall i :: 0 <= i < |s| ==> IsSpace(s[i])
  }

  predicate NoSpace(s: string)
  {
    forall i :: 0 <= i < |s| ==> !IsSpace(s[i])
  }

  /** `sep` occurs in `s` starting at position `i`. */
  predicate OccursAt(s: string, sep: string, i: int)
  {
    0 <= i && i + |sep| <= |s| && s[i..i + |sep|] == sep
  }

  lemma OccursShift(s: string, sep: string, j: int)
    requires |s| > 0 && 0 <= j
    ensures OccursAt(s[1..], sep, j) <==> OccursAt(s, sep, j + 1)
  {
    if j + 1 + |sep| <= |s| {
      assert s[1..][j..j + |sep|] == s[j + 1..j + 1 + |sep|];
    }
  }

  /** Go's `strings.Index`: the first position at which `sep` occurs in `s`, or -1. */
  function IndexOf(s: string, sep: string): (r: int)
    ensures -1 <= r && (r >= 0 ==> r + |sep| <= |s|)
    decreases |s|
  {
    if |s| < |sep| then -1
    else if s[..|sep|] == sep then 0
    else
      var r := IndexOf(s[1..], sep);
      if r < 0 then -1 else r + 1
  }

  /** `IndexOf` reports an occurrence, and none occurs before it (anywhere, when it reports -1). */
  lemma {:induction false} IndexOfSpec(s: string, sep: string)
    ensures IndexOf(s, sep) >= 0 ==> OccursAt(s, sep, IndexOf(s, sep))
    ensures forall j :: 0 <= j && (IndexOf(s, sep) < 0 || j < IndexOf(s, sep)) ==> !OccursAt(s, sep, j)
    decreases |s|
  {
    if |s| >= |sep| && s[..|sep|] != sep {
      IndexOfSpec(s[1..], sep);
      forall j | 1 <= j ensures OccursAt(s, sep, j) <==> OccursAt(s[1..], sep, j - 1) {
        OccursShift(s, sep, j - 1);
      }
      assert !OccursAt(s, sep, 0);
    }
  }

  /** The first occurrence is the one `IndexOf` reports. */
  lemma IndexOfUnique(s: string, sep: string, i: int)
    requires OccursAt(s, sep, i)
    requires forall j :: 0 <= j < i ==> !OccursAt(s, sep, j)
    ensures IndexOf(s, sep) == i
  {
    IndexOfSpec(s, sep);
  }

  /** Go's `strings.Join`. */
  function Join(parts: seq<string>, sep: string): string
  {
    if |parts| == 0 then ""
    else if |parts| == 1 then parts[0]
    else parts[0] + sep + Join(parts[1..], sep)
  }

  /**
   * What `strings.Split` guarantees of its pieces: there is at least one, the
   * separator first occurs in every piece but the last exactly where the piece
   * ends, and never in the last.
   */
  predicate Pieces(parts: seq<string>, sep: string)
  {
    |parts| > 0
    && (forall k :: 0 <= k < |parts| - 1 ==> IndexOf(parts[k] + sep, sep) == |parts[k]|)
    && IndexOf(parts[|parts| - 1], sep) < 0
  }

  lemma {:induction false} IndexOfPrefix(s: string, sep: string, i: int)
    requires 0 <= i && i + |sep| <= |s| && IndexOf(s, sep) == i
    ensures IndexOf(s[..i + |sep|], sep) == i
  {
    IndexOfSpec(s, sep);
    var t := s[..i + |sep|];
    assert t[i..i + |sep|] == s[i..i + |sep|];
    forall j | 0 <= j < i ensures !OccursAt(t, sep, j) {
      assert !OccursAt(s, sep, j);
      if j + |sep| <= |t| {
        assert t[j..j + |sep|] == s[j..j + |sep|];
      }
    }
    IndexOfUnique(t, sep, i);
  }

  lemma {:induction false} IndexOfExtend(s: string, t: string, sep: string)
    requires 0 <= IndexOf(s, sep) && IndexOf(s, sep) + |sep| <= |s|
    ensures IndexOf(s + t, sep) == IndexOf(s, sep)
  {
    IndexOfSpec(s, sep);
    var i := IndexOf(s, sep);
    assert (s + t)[i..i + |sep|] == s[i..i + |sep|];
    forall j | 0 <= j < i ensures !OccursAt(s + t, sep, j) {
      assert !OccursAt(s, sep, j);
      assert (s + t)[j..j + |sep|] == s[j..j + |sep|];
    }
    IndexOfUnique(s + t, sep, i);
  }

  /** Go's `strings.Split` for a non-empty separator: the pieces between non-overlapping, leftmost occurrences. */
  function Split(s: string, sep: string): (parts: seq<string>)
    requires |sep| > 0
    ensures |parts| >= 1
    decreases |s|
  {
    var i := IndexOf(s, sep);
    if i < 0 then [s]
    else [s[..i]] + Split(s[i + |sep|..], sep)
  }

  /** The pieces of `Split` are `Pieces`, and joining them again gives the text back. */
  lemma {:induction false} SplitPieces(s: string, sep: string)
    requires |sep| > 0
    ensures Pieces(Split(s, sep), sep)
    ensures Join(Split(s, sep), sep) == s
    decreases |s|
  {
    var parts := Split(s, sep);
    var i := IndexOf(s, sep);
    if i >= 0 {
      var rest := Split(s[i + |sep|..], sep);
      SplitPieces(s[i + |sep|..], sep);
      assert parts == [s[..i]] + rest;
      assert parts[1..] == rest;
      IndexOfSpec(s, sep);
      Around(s, sep, i);
      IndexOfPrefix(s, sep, i);
      forall k | 0 <= k < |parts| - 1 ensures IndexOf(parts[k] + sep, sep) == |parts[k]| {
        if k > 0 {
          assert parts[k] == rest[k - 1];
        }
      }
    }
  }

  /** Text around an occurrence of the separator. */
  lemma Around(s: string, sep: string, i: int)
    requires OccursAt(s, sep, i)
    ensures s == s[..i] + sep + s[i + |sep|..]
    ensures s[..i] + sep == s[..i + |sep|]
  {
  }

  /** A non-empty sequence is its head followed by its tail. */
  lemma HeadTail<T>(xs: seq<T>)
    requires |xs| > 0
    ensures xs == [xs[0]] + xs[1..]
  {
  }

  /** Where the separator occurs, the first piece ends at its first occurrence. */
  lemma SplitAt(s: string, sep: string)
    requires |sep| > 0 && IndexOf(s, sep) >= 0
    ensures Split(s, sep) == [s[..IndexOf(s, sep)]] + Split(s[IndexOf(s, sep) + |sep|..], sep)
  {
  }

  /** Splitting the joined pieces gives the pieces back: `Split` is the inverse of `Join` on `Pieces`. */
  lemma {:induction false} SplitJoin(parts: seq<string>, sep: string)
    requires |sep| > 0 && Pieces(parts, sep)
    ensures Split(Join(parts, sep), sep) == parts
    decreases |parts|
  {
    if |parts| == 1 {
      SplitNone(parts[0], sep);
    } else {
      var p0, rest := parts[0], parts[1..];
      assert Pieces(rest, sep) by {
        forall k | 0 <= k < |rest| - 1 ensures IndexOf(rest[k] + sep, sep) == |rest[k]| {
          assert rest[k] == parts[k + 1];
        }
      }
      SplitJoin(rest, sep);
      var t := Join(rest, sep);
      var s := (p0 + sep) + t;
      assert Join(parts, sep) == s;
      IndexOfExtend(p0 + sep, t, sep);
      SplitAt(s, sep);
      assert s[..|p0|] == p0 && s[|p0| + |sep|..] == t;
      HeadTail(parts);
    }
  }

  /** Go's `strings.Count`: the number of non-overlapping occurrences of `sep`, scanning left to right. */
  function Count(s: string, sep: string): nat
    requires |sep| > 0
    decreases |s|
  {
    if |s| < |sep| then 0
    else if s[..|sep|] == sep then 1 + Count(s[|sep|..], sep)
    else Count(s[1..], sep)
  }

  /** Where the separator does not start the text, the search goes on one character later. */
  lemma IndexOfTail(s: string, sep: string)
    requires |s| >= |sep| && s[..|sep|] != sep
    ensures IndexOf(s, sep) == if IndexOf(s[1..], sep) < 0 then -1 else IndexOf(s[1..], sep) + 1
  {
  }

  /** Where the separator does not start the text, counting goes on one character later. */
  lemma CountTail(s: string, sep: string)
    requires |sep| > 0 && |s| >= |sep| && s[..|sep|] != sep
    ensures Count(s, sep) == Count(s[1..], sep)
  {
  }

  /** `Count` follows the occurrences `IndexOf` finds. */
  lemma {:induction false} CountFrom(s: string, sep: string)
    requires |sep| > 0
    ensures IndexOf(s, sep) < 0 ==> Count(s, sep) == 0
    ensures IndexOf(s, sep) >= 0 ==> Count(s, sep) == 1 + Count(s[IndexOf(s, sep) + |sep|..], sep)
    decreases |s|
  {
    if |s| < |sep| {
      assert IndexOf(s, sep) == -1 && Count(s, sep) == 0;
    } else if s[..|sep|] == sep {
      assert IndexOf(s, sep) == 0 && Count(s, sep) == 1 + Count(s[|sep|..], sep);
    } else {
      var t := s[1..];
      IndexOfTail(s, sep);
      CountTail(s, sep);
      CountFrom(t, sep);
      var r := IndexOf(t, sep);
      if r >= 0 {
        assert t[r + |sep|..] == s[r + 1 + |sep|..];
      }
    }
  }

  /** `strings.Split` yields one piece more than `strings.Count` counts separators. */
  lemma {:induction false} SplitCount(s: string, sep: string)
    requires |sep| > 0
    ensures |Split(s, sep)| == Count(s, sep) + 1
    decreases |s|
  {
    CountFrom(s, sep);
    var i := IndexOf(s, sep);
    if i < 0 {
      SplitNone(s, sep);
      assert |Split(s, sep)| == 1 && Count(s, sep) == 0;
    } else {
      var rest := s[i + |sep|..];
      SplitAt(s, sep);
      SplitCount(rest, sep);
      assert |Split(s, sep)| == 1 + |Split(rest, sep)|;
      assert Count(s, sep) == 1 + Count(rest, sep);
    }
  }

  /** A separator without a non-trivial border (a proper prefix that is also a suffix) can be appended to any piece free of it. */
  lemma {:induction false} PieceWithSep(a: string, sep: string)
    requires |sep| > 0 && IndexOf(a, sep) < 0
    requires forall n :: 0 < n < |sep| ==> sep[..n] != sep[|sep| - n..]
    ensures IndexOf(a + sep, sep) == |a|
  {
    IndexOfSpec(a, sep);
    var t := a + sep;
    assert t[|a|..|a| + |sep|] == sep;
    forall j | 0 <= j < |a| ensures !OccursAt(t, sep, j) {
      if j + |sep| <= |a| {
        assert !OccursAt(a, sep, j);
        assert t[j..j + |sep|] == a[j..j + |sep|];
      } else {
        var d := |a| - j;
        var n := |sep| - d;
        assert sep[..n] != sep[|sep| - n..];
        var m :| 0 <= m < n && sep[..n][m] != sep[|sep| - n..][m];
        assert t[j + d + m] == sep[m];
        assert t[j..j + |sep|][d + m] != sep[d + m];
      }
    }
    IndexOfUnique(t, sep, |a|);
  }

  /** Parts free of a separator without a non-trivial border are the pieces of their join. */
  lemma PiecesOf(parts: seq<string>, sep: string)
    requires |sep| > 0 && |parts| > 0
    requires forall n :: 0 < n < |sep| ==> sep[..n] != sep[|sep| - n..]
    requires forall k :: 0 <= k < |parts| ==> IndexOf(parts[k], sep) < 0
    ensures Pieces(parts, sep)
  {
    forall k | 0 <= k < |parts| - 1 ensures IndexOf(parts[k] + sep, sep) == |parts[k]| {
      PieceWithSep(parts[k], sep);
    }
  }

  /** A one-character separator occurs exactly where that character does. */
  lemma IndexOfChar(s: string, c: char)
    ensures IndexOf(s, [c]) < 0 <==> c !in s
  {
    IndexOfSpec(s, [c]);
    if c in s {
      var j :| 0 <= j < |s| && s[j] == c;
      assert s[j..j + 1] == [c];
      assert OccursAt(s, [c], j);
    } else {
      forall j | 0 <= j ensures !OccursAt(s, [c], j) {
        if j + 1 <= |s| { assert s[j..j + 1][0] == s[j]; }
      }
    }
  }

  /** Text without the separator is a single piece. */
  lemma SplitNone(s: string, sep: string)
    requires |sep| > 0 && IndexOf(s, sep) < 0
    ensures Split(s, sep) == [s]
  {
  }

  /** At least two pieces exactly when the separator occurs. */
  lemma SplitSome(s: string, sep: string)
    requires |sep| > 0
    ensures |Split(s, sep)| >= 2 <==> IndexOf(s, sep) >= 0
  {
  }

  /** The text up to the first occurrence of a one-character separator is the first piece. */
  lemma SplitOnChar(a: string, c: char, rest: string)
    requires c !in a
    ensures Split(a + [c] + rest, [c]) == [a] + Split(rest, [c])
  {
    IndexOfChar(a, c);
    PieceWithSep(a, [c]);
    IndexOfExtend(a + [c], rest, [c]);
    var s := a + [c] + rest;
    assert s[..|a|] == a && s[|a| + 1..] == rest;
  }

  /** Length of the run of non-space characters that starts `s`. */
  function TokenLength(s: string): (n: nat)
    ensures n <= |s| && NoSpace(s[..n]) && (n == |s| || IsSpace(s[n]))
    decreases |s|
  {
    if s == [] || IsSpace(s[0]) then 0
    else
      var n := TokenLength(s[1..]);
      assert s[..n + 1] == [s[0]] + s[1..][..n];
      n + 1
  }

  /** The characters of `s` that are not whitespace, in order. */
  function NonSpace(s: string): string
  {
    if s == [] then []
    else if IsSpace(s[0]) then NonSpace(s[1..])
    else [s[0]] + NonSpace(s[1..])
  }

  function Concat(parts: seq<string>): string
  {
    if parts == [] then [] else parts[0] + Concat(parts[1..])
  }

  lemma {:induction false} NonSpaceToken(t: string, rest: string)
    requires NoSpace(t)
    ensures NonSpace(t + rest) == t + NonSpace(rest)
    decreases |t|
  {
    if t != [] {
      assert (t + rest)[0] == t[0] && !IsSpace(t[0]);
      assert (t + rest)[1..] == t[1..] + rest;
      NonSpaceToken(t[1..], rest);
      calc {
        NonSpace(t + rest);
        [t[0]] + NonSpace(t[1..] + rest);
        [t[0]] + (t[1..] + NonSpace(rest));
        { assert t == [t[0]] + t[1..]; }
        t + NonSpace(rest);
      }
    } else {
      assert t + rest == rest;
    }
  }

  /** Go's `strings.Fields`: the maximal runs of non-space characters, each non-empty. */
  function Fields(s: string): (fs: seq<string>)
    ensures forall k :: 0 <= k < |fs| ==> fs[k] != []
    decreases |s|
  {
    if s == [] then []
    else if IsSpace(s[0]) then Fields(s[1..])
    else
      var n := TokenLength(s);
      [s[..n]] + Fields(s[n..])
  }

  /** No field holds a space, and together the fields are exactly the non-space characters of `s`. */
  lemma {:induction false} FieldsSpec(s: string)
    ensures forall k :: 0 <= k < |Fields(s)| ==> NoSpace(Fields(s)[k])
    ensures Concat(Fields(s)) == NonSpace(s)
    decreases |s|
  {
    if s != [] {
      if IsSpace(s[0]) {
        FieldsSpec(s[1..]);
      } else {
        var n := TokenLength(s);
        var fs := Fields(s);
        FieldsSpec(s[n..]);
        assert fs == [s[..n]] + Fields(s[n..]);
        assert fs[1..] == Fields(s[n..]);
        forall k | 0 <= k < |fs| ensures NoSpace(fs[k]) {
          if k > 0 {
            assert fs[k] == Fields(s[n..])[k - 1];
          }
        }
        assert s == s[..n] + s[n..];
        NonSpaceToken(s[..n], s[n..]);
      }
    }
  }

  lemma {:induction false} FieldsOfSpace(w: string, rest: string)
    requires AllSpace(w)
    ensures Fields(w + rest) == Fields(rest)
    decreases |w|
  {
    if w != [] {
      assert (w + rest)[0] == w[0] && IsSpace(w[0]);
      assert (w + rest)[1..] == w[1..] + rest;
      FieldsOfSpace(w[1..], rest);
      assert Fields(w + rest) == Fields((w + rest)[1..]);
    } else {
      assert w + rest == rest;
    }
  }

  lemma {:induction false} TokenLengthOf(t: string, rest: string)
    requires NoSpace(t) && (rest == [] || IsSpace(rest[0]))
    ensures TokenLength(t + rest) == |t|
    decreases |t|
  {
    if t != [] {
      assert (t + rest)[1..] == t[1..] + rest;
      TokenLengthOf(t[1..], rest);
    } else if rest != [] {
      assert (t + rest)[0] == rest[0];
    }
  }

  /** Leading whitespace is skipped and a token ends at the next space: `Fields` reads one token off the front. */
  lemma {:induction false} FieldsCons(w: string, t: string, rest: string)
    requires AllSpace(w) && t != [] && NoSpace(t) && (rest == [] || IsSpace(rest[0]))
    ensures Fields(w + t + rest) == [t] + Fields(rest)
  {
    assert w + t + rest == w + (t + rest);
    FieldsOfSpace(w, t + rest);
    TokenLengthOf(t, rest);
    assert (t + rest)[0] == t[0];
    assert (t + rest)[..|t|] == t && (t + rest)[|t|..] == rest;
  }

  /** Go's `strings.TrimLeft` with the whitespace set: drops the leading run of spaces. */
  function TrimLeft(s: string): string
    decreases |s|
  {
    if s != [] && IsSpace(s[0]) then TrimLeft(s[1..]) else s
  }

  /** Drops the trailing run of spaces. */
  function TrimRight(s: string): string
    decreases |s|
  {
    if s != [] && IsSpace(s[|s| - 1]) then TrimRight(s[..|s| - 1]) else s
  }

  /** Go's `strings.TrimSpace`. */
  function TrimSpace(s: string): string
  {
    TrimRight(TrimLeft(s))
  }

  /** `TrimLeft` keeps a suffix, drops only spaces, and what it keeps does not start with one. */
  lemma {:induction false} TrimLeftSpec(s: string)
    ensures |TrimLeft(s)| <= |s| && TrimLeft(s) == s[|s| - |TrimLeft(s)|..]
    ensures AllSpace(s[..|s| - |TrimLeft(s)|])
    ensures TrimLeft(s) == [] || !IsSpace(TrimLeft(s)[0])
    decreases |s|
  {
    if s != [] && IsSpace(s[0]) {
      TrimLeftSpec(s[1..]);
      var r := TrimLeft(s[1..]);
      assert s[1..][|s[1..]| - |r|..] == s[|s| - |r|..];
      assert s[..|s| - |r|] == [s[0]] + s[1..][..|s[1..]| - |r|];
    }
  }

  /** `TrimRight` keeps a prefix, drops only spaces, and what it keeps does not end with one. */
  lemma {:induction false} TrimRightSpec(s: string)
    ensures |TrimRight(s)| <= |s| && TrimRight(s) == s[..|TrimRight(s)|]
    ensures AllSpace(s[|TrimRight(s)|..])
    ensures TrimRight(s) == [] || !IsSpace(TrimRight(s)[|TrimRight(s)| - 1])
    decreases |s|
  {
    if s != [] && IsSpace(s[|s| - 1]) {
      var t := s[..|s| - 1];
      TrimRightSpec(t);
      var r := TrimRight(t);
      assert t[..|r|] == s[..|r|];
      assert s[|r|..] == t[|r|..] + [s[|s| - 1]];
    }
  }

  /**
   * The trimmed text is a slice of the input with only whitespace before and
   * after it, and it starts and ends with a non-space character, or is empty.
   */
  lemma TrimSpaceSpec(s: string)
    ensures exists i, j :: 0 <= i <= j <= |s| && TrimSpace(s) == s[i..j] && AllSpace(s[..i]) && AllSpace(s[j..])
    ensures TrimSpace(s) == [] || (!IsSpace(TrimSpace(s)[0]) && !IsSpace(TrimSpace(s)[|TrimSpace(s)| - 1]))
  {
    var l := TrimLeft(s);
    TrimLeftSpec(s);
    TrimRightSpec(l);
    var r := TrimRight(l);
    if r != [] {
      assert r[0] == l[0];
    }
    var i := |s| - |l|;
    var j := i + |r|;
    assert r == s[i..j];
    assert s[j..] == l[|r|..];
  }

  lemma {:induction false} TrimLeftOf(w: string, u: string)
    requires AllSpace(w) && (u == [] || !IsSpace(u[0]))
    ensures TrimLeft(w + u) == u
    decreases |w|
  {
    if w != [] {
      assert (w + u)[0] == w[0];
      assert (w + u)[1..] == w[1..] + u;
      TrimLeftOf(w[1..], u);
    } else {
      assert w + u == u;
    }
  }

  lemma {:induction false} TrimRightOf(u: string, w: string)
    requires AllSpace(w) && (u == [] || !IsSpace(u[|u| - 1]))
    ensures TrimRight(u + w) == u
    decreases |w|
  {
    if w != [] {
      assert (u + w)[|u + w| - 1] == w[|w| - 1];
      assert (u + w)[..|u + w| - 1] == u + w[..|w| - 1];
      TrimRightOf(u, w[..|w| - 1]);
    } else {
      assert u + w == u;
    }
  }

  /** Trimming removes exactly the surrounding whitespace and keeps the text between. */
  lemma TrimSpaceOf(w0: string, t: string, w1: string)
    requires AllSpace(w0) && AllSpace(w1)
    requires t == [] || (!IsSpace(t[0]) && !IsSpace(t[|t| - 1]))
    ensures TrimSpace(w0 + t + w1) == t
  {
    if t == [] {
      assert w0 + t + w1 == (w0 + w1) + [];
      TrimLeftOf(w0 + w1, []);
    } else {
      assert w0 + t + w1 == w0 + (t + w1);
      TrimLeftOf(w0, t + w1);
      TrimRightOf(t, w1);
    }
  }

  /** ASCII lower-casing of one character. */
  function LowerChar(c: char): (d: char)
    ensures ('A' <= c <= 'Z') ==> 'a' <= d <= 'z' && d as int - 'a' as int == c as int - 'A' as int
    ensures !('A' <= c <= 'Z') ==> d == c
  {
    if 'A' <= c <= 'Z' then (c as int - 'A' as int + 'a' as int) as char else c
  }

  /** `strings.ToLower` restricted to ASCII letters. */
  function ToLower(s: string): (r: string)
    ensures |r| == |s| && forall i :: 0 <= i < |s| ==> r[i] == LowerChar(s[i])
  {
    seq(|s|, i requires 0 <= i < |s| => LowerChar(s[i]))
  }
}
