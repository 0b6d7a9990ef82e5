/**
  The few operations of Go's `strings` and `bytes` packages that the catalog and its front ends use,
  with Go's semantics (Go strings are byte strings; here a string is a sequence of characters, and the
  order on characters agrees with the order of their UTF-8 encodings).
 */
module Text {
  import opened Wrappers

  /** strings.HasPrefix */
  predicate HasPrefix(s: string, p: string) {
    |p| <= |s| && s[..|p|] == p
  }

  /** strings.HasSuffix */
  predicate HasSuffix(s: string, p: string) {
    |p| <= |s| && s[|s| - |p|..] == p
  }

  /** strings.TrimPrefix: drops p once if s starts with it. */
  function TrimPrefix(s: string, p: string): (r: string)
    ensures HasPrefix(s, p) ==> s == p + r
    ensures !HasPrefix(s, p) ==> r == s
  {
    if HasPrefix(s, p) then s[|p|..] else s
  }

  /** Drops every leading c. */
  function TrimLeft(s: string, c: char): (r: string)
    ensures |r| <= |s| && r == s[|s| - |r|..]
    ensures r == [] || r[0] != c
    ensures forall i :: 0 <= i < |s| - |r| ==> s[i] == c
    decreases |s|
  {
    if s != [] && s[0] == c then TrimLeft(s[1..], c) else s
  }

  /** Drops every trailing c. */
  function TrimRight(s: string, c: char): (r: string)
    ensures |r| <= |s| && r == s[..|r|]
    ensures r == [] || r[|r| - 1] != c
    ensures forall i :: |r| <= i < |s| ==> s[i] == c
    decreases |s|
  {
    if s != [] && s[|s| - 1] == c then TrimRight(s[..|s| - 1], c) else s
  }

  /** strings.Trim(s, cutset) for a one-character cutset: drops every leading and trailing c. */
  function Trim(s: string, c: char): string {
    TrimRight(TrimLeft(s, c), c)
  }

  /** A string that neither starts nor ends with c is its own trimming. */
  lemma TrimIdentity(s: string, c: char)
    requires s == [] || (s[0] != c && s[|s| - 1] != c)
    ensures Trim(s, c) == s
  {
  }

  /** Leading and trailing copies of c around a trimmed core are all that Trim removes. */
  lemma TrimPadded(pad1: string, s: string, pad2: string, c: char)
    requires forall i :: 0 <= i < |pad1| ==> pad1[i] == c
    requires forall i :: 0 <= i < |pad2| ==> pad2[i] == c
    requires s != [] && s[0] != c && s[|s| - 1] != c
    ensures Trim(pad1 + s + pad2, c) == s
  {
    assert pad1 + s + pad2 == pad1 + (s + pad2);
    TrimLeftPadded(pad1, s + pad2, c);
    TrimRightPadded(s, pad2, c);
  }

  lemma TrimLeftPadded(pad: string, s: string, c: char)
    requires forall i :: 0 <= i < |pad| ==> pad[i] == c
    requires s != [] && s[0] != c
    ensures TrimLeft(pad + s, c) == s
    decreases |pad|
  {
    if pad != [] {
      assert (pad + s)[1..] == pad[1..] + s;
      TrimLeftPadded(pad[1..], s, c);
    } else {
      assert pad + s == s;
    }
  }

  lemma TrimRightPadded(s: string, pad: string, c: char)
    requires forall i :: 0 <= i < |pad| ==> pad[i] == c
    requires s != [] && s[|s| - 1] != c
    ensures TrimRight(s + pad, c) == s
    decreases |pad|
  {
    if pad != [] {
      assert (s + pad)[..|s + pad| - 1] == s + pad[..|pad| - 1];
      TrimRightPadded(s, pad[..|pad| - 1], c);
    } else {
      assert s + pad == s;
    }
  }

  /** Position of the first c in s. */
  function Find(s: string, c: char): (i: nat)
    requires c in s
    ensures i < |s| && s[i] == c && c !in s[..i]
  {
    if s[0] == c then 0 else 1 + Find(s[1..], c)
  }

  /** The text of s before the first c, all of s without one. */
  function Before(s: string, c: char): (r: string)
    ensures HasPrefix(s, r) && c !in r
    ensures c in s ==> |r| < |s| && s[|r|] == c
  {
    if c in s then s[..Find(s, c)] else s
  }

  /** Splitting on c gives more than one piece exactly when c occurs, and the first piece is the text before it. */
  lemma SplitHead(s: string, c: char)
    ensures |Split(s, c)| > 1 <==> c in s
    ensures Split(s, c)[0] == Before(s, c)
  {
  }

  /** strings.Join with a one-character separator. */
  function Join(parts: seq<string>, sep: char): string {
    if |parts| == 0 then ""
    else if |parts| == 1 then parts[0]
    else parts[0] + [sep] + Join(parts[1..], sep)
  }

  /**
    strings.Split with a one-character separator: the pieces between the separators, one more piece than
    there are separators (so the empty string splits into one empty piece).
   */
  function Split(s: string, sep: char): (r: seq<string>)
    ensures |r| >= 1
    ensures forall i :: 0 <= i < |r| ==> sep !in r[i]
    decreases |s|
  {
    if sep !in s then [s]
    else
      var i := Find(s, sep);
      [s[..i]] + Split(s[i + 1..], sep)
  }

  /** Joining the pieces with the separator gives back the string. */
  lemma {:induction false} JoinSplit(s: string, sep: char)
    ensures Join(Split(s, sep), sep) == s
    decreases |s|
  {
    if sep in s {
      var i := Find(s, sep);
      var rest := Split(s[i + 1..], sep);
      JoinSplit(s[i + 1..], sep);
      assert s == s[..i] + [sep] + s[i + 1..];
      assert ([s[..i]] + rest)[1..] == rest;
    }
  }

  /** A string with no separator is one piece. */
  lemma SplitNone(s: string, sep: char)
    requires sep !in s
    ensures Split(s, sep) == [s]
  {
  }

  /** Splitting at the first separator: the text before it is the first piece. */
  lemma SplitFirst(a: string, b: string, sep: char)
    requires sep !in a
    ensures Split(a + [sep] + b, sep) == [a] + Split(b, sep)
  {
    var s := a + [sep] + b;
    assert s[|a|] == sep;
    assert s[..|a|] == a;
    FindFirst(s, |a|, sep);
    assert s[|a| + 1..] == b;
  }

  lemma FindFirst(s: string, i: nat, c: char)
    requires i < |s| && s[i] == c && c !in s[..i]
    ensures Find(s, c) == i
    decreases i
  {
    if i > 0 {
      assert s[..i][0] == s[0];
      assert s[1..][..i - 1] == s[..i][1..];
      FindFirst(s[1..], i - 1, c);
    }
  }

  /** Split undoes Join when no part holds the separator. */
  lemma {:induction false} SplitJoin(parts: seq<string>, sep: char)
    requires |parts| >= 1
    requires forall i :: 0 <= i < |parts| ==> sep !in parts[i]
    ensures Split(Join(parts, sep), sep) == parts
    decreases |parts|
  {
    if |parts| == 1 {
      SplitNone(parts[0], sep);
    } else {
      SplitFirst(parts[0], Join(parts[1..], sep), sep);
      SplitJoin(parts[1..], sep);
      assert parts == [parts[0]] + parts[1..];
    }
  }

  /** There is an occurrence of pat in s at position j. */
  predicate OccursAt(s: string, pat: string, j: nat) {
    j + |pat| <= |s| && s[j..j + |pat|] == pat
  }

  /** Position of the first occurrence of pat in s (strings.Index, with None for -1). */
  function Index(s: string, pat: string): (r: Option<nat>)
    ensures r.Some? ==> OccursAt(s, pat, r.value)
    ensures r.Some? ==> forall j: nat :: j < r.value ==> !OccursAt(s, pat, j)
    ensures r.None? ==> forall j: nat :: !OccursAt(s, pat, j)
    decreases |s|
  {
    if |s| < |pat| then None
    else if s[..|pat|] == pat then Some(0)
    else
      var r := Index(s[1..], pat);
      assert forall j: nat :: OccursAt(s, pat, j + 1) <==> OccursAt(s[1..], pat, j) by {
        forall j: nat ensures OccursAt(s, pat, j + 1) <==> OccursAt(s[1..], pat, j) {
          if j + 1 + |pat| <= |s| {
            assert s[1..][j..j + |pat|] == s[j + 1..j + 1 + |pat|];
          }
        }
      }
      assert !OccursAt(s, pat, 0);
      match r
      case None =>
        assert forall j: nat :: !OccursAt(s, pat, j) by {
          forall j: nat ensures !OccursAt(s, pat, j) {
            if j > 0 { assert OccursAt(s, pat, (j - 1) + 1) <==> OccursAt(s[1..], pat, j - 1); }
          }
        }
        None
      case Some(i) =>
        assert OccursAt(s, pat, i + 1);
        assert forall j: nat :: j < i + 1 ==> !OccursAt(s, pat, j) by {
          forall j: nat | j < i + 1 ensures !OccursAt(s, pat, j) {
            if j > 0 { assert OccursAt(s, pat, (j - 1) + 1) <==> OccursAt(s[1..], pat, j - 1); }
          }
        }
        Some(i + 1)
  }

  /** strings.Replace(s, from, to, 1): the first occurrence of from replaced by to. */
  function Replace1(s: string, from: string, to: string): (r: string)
    ensures Index(s, from).None? ==> r == s
    ensures Index(s, from).Some? ==>
      var i := Index(s, from).value; r == s[..i] + to + s[i + |from|..]
  {
    match Index(s, from)
    case None => s
    case Some(i) => s[..i] + to + s[i + |from|..]
  }

  /** The decimal digit for d. */
  function Digit(d: nat): (c: char)
    requires d < 10
    ensures '0' <= c <= '9'
  {
    "0123456789"[d]
  }

  /** fmt.Sprint of a non-negative integer: its decimal digits, without leading zeros. */
  function Decimal(n: nat): (r: string)
    ensures |r| >= 1
    ensures forall i :: 0 <= i < |r| ==> '0' <= r[i] <= '9'
  {
    if n < 10 then [Digit(n)] else Decimal(n / 10) + [Digit(n % 10)]
  }

  /** bytes.Compare(a, b) <= 0: the order of bolt's keys. */
  predicate LexLe(a: string, b: string)
    decreases |a|
  {
    a == [] || (b != [] && (a[0] < b[0] || (a[0] == b[0] && LexLe(a[1..], b[1..]))))
  }

  lemma LexLeRefl(a: string)
    ensures LexLe(a, a)
  {
  }

  lemma LexLeTotal(a: string, b: string)
    ensures LexLe(a, b) || LexLe(b, a)
  {
  }

  lemma LexLeAntisymmetric(a: string, b: string)
    requires LexLe(a, b) && LexLe(b, a)
    ensures a == b
  {
    if a != [] && b != [] {
      LexLeAntisymmetric(a[1..], b[1..]);
      assert a == [a[0]] + a[1..] && b == [b[0]] + b[1..];
    }
  }

  lemma LexLeTransitive(a: string, b: string, c: string)
    requires LexLe(a, b) && LexLe(b, c)
    ensures LexLe(a, c)
  {
    if a != [] && b != [] && c != [] && a[0] == b[0] == c[0] {
      LexLeTransitive(a[1..], b[1..], c[1..]);
    }
  }

  /** Every finite non-empty set of keys has a least one, where a bolt cursor starts. */
  lemma LeastExists(S: set<string>)
    requires S != {}
    ensures exists m :: m in S && forall x :: x in S ==> LexLe(m, x)
  {
    var y :| y in S;
    if S == {y} {
      LexLeRefl(y);
      assert y in S && forall x :: x in S ==> LexLe(y, x);
    } else {
      LeastExists(S - {y});
      var m :| m in S - {y} && forall x :: x in S - {y} ==> LexLe(m, x);
      LexLeTotal(m, y);
      if LexLe(m, y) {
        forall x | x in S ensures LexLe(m, x) {
          if x != y { assert x in S - {y}; }
        }
        assert m in S;
      } else {
        forall x | x in S ensures LexLe(y, x) {
          if x != y { assert x in S - {y}; LexLeTransitive(y, m, x); } else { LexLeRefl(y); }
        }
      }
    }
  }
}
