/** The two .NET string operations the loader relies on: String.Split with a
    single separator character and String.Trim with no arguments. Characters
    are Unicode scalar values, as .NET chars are for the text a CSV holds. */
module Strings {

  /** Char.IsWhiteSpace: the Unicode space, line and paragraph separators
      (categories Zs, Zl, Zp) together with U+0009..U+000D and U+0085. */
  predicate IsWhiteSpace(c: char) {
    var n := c as int;
    (0x09 <= n <= 0x0D) || n == 0x20 || n == 0x85 || n == 0xA0 || n == 0x1680
    || (0x2000 <= n <= 0x200A) || n == 0x2028 || n == 0x2029 || n == 0x202F
    || n == 0x205F || n == 0x3000
  }

  /** A string that neither starts nor ends with white space. */
  predicate IsTrimmed(s: string) {
    s == [] || (!IsWhiteSpace(s[0]) && !IsWhiteSpace(s[|s| - 1]))
  }

  predicate AllWhiteSpace(s: string) {
    forall k :: 0 <= k < |s| ==> IsWhiteSpace(s[k])
  }

  /** Number of occurrences of c in s. */
  function Count(s: string, c: char): nat {
    if s == [] then 0 else (if s[0] == c then 1 else 0) + Count(s[1..], c)
  }

  /** Counting distributes over concatenation. */
  lemma {:induction false} CountConcat(a: string, b: string, c: char)
    ensures Count(a + b, c) == Count(a, c) + Count(b, c)
  {
    if a != [] {
      var ab := a + b;
      assert ab[0] == a[0] && ab[1..] == a[1..] + b;
      CountConcat(a[1..], b, c);
    } else {
      assert a + b == b;
    }
  }

  /** A string without c holds no c. */
  lemma {:induction false} CountAbsent(s: string, c: char)
    requires c !in s
    ensures Count(s, c) == 0
  {
    if s != [] {
      assert c !in s[1..] by {
        forall x | x in s[1..] ensures x != c { }
      }
      CountAbsent(s[1..], c);
    }
  }

  /** Index of the first occurrence of c in s, or |s| when there is none. */
  function IndexOf(s: string, c: char): (i: nat)
    ensures i <= |s|
    ensures i < |s| ==> s[i] == c
    ensures forall k :: 0 <= k < i ==> s[k] != c
  {
    if s == [] || s[0] == c then 0 else 1 + IndexOf(s[1..], c)
  }

  /** String.Split(sep): cut s at every occurrence of sep. Empty pieces are
      kept, so "" gives [""] and "a," gives ["a", ""]. */
  function Split(s: string, sep: char): (pieces: seq<string>)
    ensures |pieces| >= 1
    ensures forall k :: 0 <= k < |pieces| ==> sep !in pieces[k]
    decreases |s|
  {
    var i := IndexOf(s, sep);
    if i == |s| then [s] else [s[..i]] + Split(s[i + 1..], sep)
  }

  /** A string with n separators splits into n + 1 pieces. */
  lemma {:induction false} SplitCount(s: string, sep: char)
    ensures |Split(s, sep)| == Count(s, sep) + 1
    decreases |s|
  {
    var i := IndexOf(s, sep);
    if i == |s| {
      CountAbsent(s, sep);
    } else {
      var rest := s[i + 1..];
      assert s == s[..i] + [sep] + rest;
      CountAbsent(s[..i], sep);
      CountConcat(s[..i] + [sep], rest, sep);
      CountConcat(s[..i], [sep], sep);
      SplitCount(rest, sep);
    }
  }

  /** String.Join(sep, pieces): the inverse of Split. */
  function Join(pieces: seq<string>, sep: char): string {
    if |pieces| == 0 then []
    else if |pieces| == 1 then pieces[0]
    else pieces[0] + [sep] + Join(pieces[1..], sep)
  }

  /** Joining the pieces with the separator gives back the split string. */
  lemma {:induction false} JoinSplit(s: string, sep: char)
    ensures Join(Split(s, sep), sep) == s
    decreases |s|
  {
    var i := IndexOf(s, sep);
    if i < |s| {
      var rest := s[i + 1..];
      var ps := Split(rest, sep);
      var all := [s[..i]] + ps;
      assert Split(s, sep) == all;
      JoinSplit(rest, sep);
      assert all[0] == s[..i] && all[1..] == ps;
      assert Join(all, sep) == s[..i] + [sep] + rest;
      assert s == s[..i] + [sep] + rest;
    } else {
      assert Split(s, sep) == [s];
    }
  }

  /** Past a prefix free of c, the search continues in what follows. */
  lemma {:induction false} IndexOfConcat(a: string, b: string, c: char)
    requires c !in a
    ensures IndexOf(a + b, c) == |a| + IndexOf(b, c)
  {
    if a != [] {
      var ab := a + b;
      assert ab[0] == a[0] && ab[1..] == a[1..] + b;
      assert c !in a[1..] by {
        forall x | x in a[1..] ensures x != c { }
      }
      IndexOfConcat(a[1..], b, c);
    } else {
      assert a + b == b;
    }
  }

  /** Splitting a join of separator-free pieces gives back the pieces. */
  lemma {:induction false} SplitJoin(pieces: seq<string>, sep: char)
    requires |pieces| > 0
    requires forall k :: 0 <= k < |pieces| ==> sep !in pieces[k]
    ensures Split(Join(pieces, sep), sep) == pieces
  {
    var p := pieces[0];
    if |pieces| == 1 {
      IndexOfConcat(p, [], sep);
      assert p + [] == p;
    } else {
      var rest := Join(pieces[1..], sep);
      var s := p + [sep] + rest;
      assert s == p + ([sep] + rest);
      IndexOfConcat(p, [sep] + rest, sep);
      assert IndexOf(s, sep) == |p|;
      assert s[..|p|] == p;
      assert s[|p| + 1..] == rest;
      SplitJoin(pieces[1..], sep);
    }
  }

  /** Splitting a + [sep] + b gives the pieces of a, then the pieces of b. */
  lemma {:induction false} SplitAtSeparator(a: string, b: string, sep: char)
    ensures Split(a + [sep] + b, sep) == Split(a, sep) + Split(b, sep)
    decreases |a|
  {
    var c := [sep] + b;
    var s := a + c;
    assert s == a + [sep] + b;
    assert c[0] == sep && c[1..] == b;
    var i := IndexOf(a, sep);
    IndexOfPrefix(a, c, sep);
    if i == |a| {
      assert IndexOf(s, sep) == |a|;
      assert s[..i] == a && s[i + 1..] == b;
      assert Split(s, sep) == [a] + Split(b, sep);
      assert Split(a, sep) == [a];
    } else {
      var rest := a[i + 1..];
      assert IndexOf(s, sep) == i;
      assert s[..i] == a[..i] && s[i + 1..] == rest + [sep] + b;
      assert Split(s, sep) == [a[..i]] + Split(rest + [sep] + b, sep);
      assert Split(a, sep) == [a[..i]] + Split(rest, sep);
      SplitAtSeparator(rest, b, sep);
    }
  }

  /** The first c of a + b is the first c of a, if a has one. */
  lemma IndexOfPrefix(a: string, b: string, c: char)
    ensures IndexOf(a, c) < |a| ==> IndexOf(a + b, c) == IndexOf(a, c)
    ensures IndexOf(a, c) == |a| ==> IndexOf(a + b, c) == |a| + IndexOf(b, c)
  {
    var i := IndexOf(a, c);
    if i == |a| {
      IndexOfConcat(a, b, c);
    } else {
      assert a == a[..i] + a[i..];
      assert a + b == a[..i] + (a[i..] + b);
      assert c !in a[..i];
      IndexOfConcat(a[..i], a[i..] + b, c);
    }
  }

  /** String.TrimStart(): drop the leading white space. */
  function TrimStart(s: string): (r: string)
    ensures |r| <= |s|
    ensures r != [] ==> !IsWhiteSpace(r[0]) && r[|r| - 1] == s[|s| - 1]
  {
    if |s| > 0 && IsWhiteSpace(s[0]) then TrimStart(s[1..]) else s
  }

  /** String.TrimEnd(): drop the trailing white space. */
  function TrimEnd(s: string): (r: string)
    ensures |r| <= |s|
    ensures r != [] ==> !IsWhiteSpace(r[|r| - 1]) && r[0] == s[0]
  {
    if |s| > 0 && IsWhiteSpace(s[|s| - 1]) then TrimEnd(s[..|s| - 1]) else s
  }

  /** String.Trim(): drop the leading and the trailing white space. */
  function Trim(s: string): (r: string)
    ensures IsTrimmed(r)
  {
    TrimEnd(TrimStart(s))
  }

  /** TrimStart keeps a suffix of s and drops only white space. */
  lemma {:induction false} TrimStartDrops(s: string)
    ensures var r := TrimStart(s);
      r == s[|s| - |r|..] && AllWhiteSpace(s[..|s| - |r|])
  {
    if |s| > 0 && IsWhiteSpace(s[0]) {
      TrimStartDrops(s[1..]);
      var r := TrimStart(s);
      assert s[1..][|s| - 1 - |r|..] == s[|s| - |r|..];
      assert s[..|s| - |r|] == [s[0]] + s[1..][..|s| - 1 - |r|];
    }
  }

  /** TrimEnd keeps a prefix of s and drops only white space. */
  lemma {:induction false} TrimEndDrops(s: string)
    ensures var r := TrimEnd(s);
      r == s[..|r|] && AllWhiteSpace(s[|r|..])
  {
    if |s| > 0 && IsWhiteSpace(s[|s| - 1]) {
      var s' := s[..|s| - 1];
      TrimEndDrops(s');
      var r := TrimEnd(s);
      assert s'[..|r|] == s[..|r|];
      assert s[|r|..] == s'[|r|..] + [s[|s| - 1]];
    }
  }

  /** Trim keeps a contiguous part of s and drops only white space: s is a
      white-space prefix, then Trim(s), then a white-space suffix. */
  lemma TrimDecomposes(s: string)
    ensures var a := |s| - |TrimStart(s)|;
      a + |Trim(s)| <= |s| && s == s[..a] + Trim(s) + s[a + |Trim(s)|..]
      && AllWhiteSpace(s[..a]) && AllWhiteSpace(s[a + |Trim(s)|..])
  {
    var t := TrimStart(s);
    TrimStartDrops(s);
    TrimEndDrops(t);
    Slices(s, |s| - |t|, |TrimEnd(t)|);
  }

  /** Cutting s at a and at a + n. */
  lemma Slices(s: string, a: nat, n: nat)
    requires a + n <= |s|
    ensures s == s[..a] + s[a..][..n] + s[a + n..]
    ensures s[a..][n..] == s[a + n..]
  {
    assert s == s[..a] + s[a..a + n] + s[a + n..];
  }

  /** TrimStart drops a white-space prefix and stops at the first other character. */
  lemma {:induction false} TrimStartPast(w: string, r: string)
    requires AllWhiteSpace(w) && (r == [] || !IsWhiteSpace(r[0]))
    ensures TrimStart(w + r) == r
  {
    if w == [] {
      assert w + r == r;
    } else {
      assert (w + r)[0] == w[0] && (w + r)[1..] == w[1..] + r;
      TrimStartPast(w[1..], r);
    }
  }

  /** TrimEnd drops a white-space suffix and stops at the last other character. */
  lemma {:induction false} TrimEndBefore(r: string, w: string)
    requires AllWhiteSpace(w) && (r == [] || !IsWhiteSpace(r[|r| - 1]))
    ensures TrimEnd(r + w) == r
  {
    if w == [] {
      assert r + w == r;
    } else {
      var s := r + w;
      assert s[|s| - 1] == w[|w| - 1] && s[..|s| - 1] == r + w[..|w| - 1];
      TrimEndBefore(r, w[..|w| - 1]);
    }
  }

  /** Trim removes exactly the white space around a trimmed core: whatever
      white space surrounds a trimmed string, Trim gives that string back. */
  lemma TrimSurrounded(w1: string, r: string, w2: string)
    requires AllWhiteSpace(w1) && AllWhiteSpace(w2) && IsTrimmed(r)
    ensures Trim(w1 + r + w2) == r
  {
    if r == [] {
      assert w1 + r + w2 == (w1 + w2) + [];
      TrimStartPast(w1 + w2, []);
    } else {
      assert w1 + r + w2 == w1 + (r + w2);
      TrimStartPast(w1, r + w2);
      TrimEndBefore(r, w2);
    }
  }

  /** Trimming a trimmed string changes nothing. */
  lemma TrimOfTrimmed(s: string)
    requires IsTrimmed(s)
    ensures Trim(s) == s
  {
    TrimSurrounded([], s, []);
    assert [] + s + [] == s;
  }

  /** Trim is idempotent. */
  lemma TrimIdempotent(s: string)
    ensures Trim(Trim(s)) == Trim(s)
  {
    TrimOfTrimmed(Trim(s));
  }
}
