/** The few Python `str` operations the crawler relies on, over `seq<char>`:
    `sub in s`, `s.replace(pat, rep)`, `s.lower()`, `s.strip()`,
    `s.split(sep)`, `s.endswith(suffix)` and `s.count(c)`.
 */
module Strings {

  predicate IsPrefix(p: string, s: string) {
    |p| <= |s| && s[..|p|] == p
  }

  predicate IsSuffix(p: string, s: string) {
    |p| <= |s| && s[|s| - |p|..] == p
  }

  /** Python's `sub in s`; the empty string occurs in every string. */
  predicate Contains(s: string, sub: string)
    decreases |s|
  {
    IsPrefix(sub, s) || (|s| > 0 && Contains(s[1..], sub))
  }

  /** `Contains` with a one-character needle is plain membership. */
  lemma {:induction false} ContainsChar(s: string, c: char)
    ensures Contains(s, [c]) <==> c in s
    decreases |s|
  {
    if |s| > 0 {
      ContainsChar(s[1..], c);
      assert s == [s[0]] + s[1..];
    }
  }

  /** A needle found in a suffix of `s` is found in `s`. */
  lemma {:induction false} ContainsInSuffix(s: string, k: nat, sub: string)
    requires k <= |s|
    requires Contains(s[k..], sub)
    ensures Contains(s, sub)
    decreases k
  {
    if k > 0 {
      assert s[1..][k - 1..] == s[k..];
      ContainsInSuffix(s[1..], k - 1, sub);
    }
  }

  /** `sub` sits at position `i` of `s`. */
  predicate OccursAt(s: string, sub: string, i: int) {
    0 <= i <= |s| - |sub| && s[i..i + |sub|] == sub
  }

  /** A needle found by `Contains` sits at some position. */
  lemma {:induction false} ContainsWitness(s: string, sub: string) returns (i: int)
    requires Contains(s, sub)
    ensures OccursAt(s, sub, i)
    decreases |s|
  {
    if IsPrefix(sub, s) {
      i := 0;
    } else {
      var j := ContainsWitness(s[1..], sub);
      assert s[1..][j..j + |sub|] == s[j + 1..j + 1 + |sub|];
      i := j + 1;
    }
  }

  /** A needle sitting at some position is found by `Contains`. */
  lemma {:induction false} OccursContains(s: string, sub: string, i: int)
    requires OccursAt(s, sub, i)
    ensures Contains(s, sub)
    decreases i
  {
    if i > 0 {
      assert s[1..][i - 1..i - 1 + |sub|] == s[i..i + |sub|];
      OccursContains(s[1..], sub, i - 1);
    } else {
      assert IsPrefix(sub, s);
    }
  }

  /** `sub in s` holds exactly when `sub` sits at some position of `s`. */
  lemma ContainsAt(s: string, sub: string)
    ensures Contains(s, sub) <==> exists i :: OccursAt(s, sub, i)
  {
    if Contains(s, sub) {
      var i := ContainsWitness(s, sub);
    }
    if exists i :: OccursAt(s, sub, i) {
      var i :| OccursAt(s, sub, i);
      OccursContains(s, sub, i);
    }
  }

  /** A needle of a needle is a needle. */
  lemma ContainsTransitive(s: string, mid: string, sub: string)
    requires Contains(s, mid) && Contains(mid, sub)
    ensures Contains(s, sub)
  {
    var i := ContainsWitness(s, mid);
    var j := ContainsWitness(mid, sub);
    forall k | 0 <= k < |sub| ensures s[i + j + k] == sub[k] {
      assert mid[j + k] == sub[k];
      assert s[i..i + |mid|][j + k] == s[i + j + k];
    }
    assert OccursAt(s, sub, i + j);
    OccursContains(s, sub, i + j);
  }

  lemma PrefixTransitive(a: string, b: string, c: string)
    requires IsPrefix(a, b) && IsPrefix(b, c)
    ensures IsPrefix(a, c)
  {
    assert c[..|a|] == c[..|b|][..|a|];
  }

  predicate IsUpper(c: char) {
    'A' <= c <= 'Z'
  }

  function LowerChar(c: char): char {
    if IsUpper(c) then (c as int + 32) as char else c
  }

  /** `s.lower()` restricted to the ASCII letters. */
  function Lower(s: string): (r: string)
    ensures |r| == |s|
    ensures forall i :: 0 <= i < |r| ==> !IsUpper(r[i])
    ensures forall i :: 0 <= i < |r| ==>
              r[i] == s[i] || (IsUpper(s[i]) && r[i] as int == s[i] as int + 32)
  {
    seq(|s|, i requires 0 <= i < |s| => LowerChar(s[i]))
  }

  /** `s.replace(pat, rep)`: every non-overlapping occurrence, scanned left
      to right, is replaced. */
  function ReplaceAll(s: string, pat: string, rep: string): (r: string)
    requires |pat| > 0
    ensures forall c :: c in r ==> c in s || c in rep
    ensures !Contains(s, pat) ==> r == s
    ensures |pat| == 1 && pat[0] !in rep ==> pat[0] !in r
    decreases |s|
  {
    if |s| < |pat| then s
    else if s[..|pat|] == pat then rep + ReplaceAll(s[|pat|..], pat, rep)
    else [s[0]] + ReplaceAll(s[1..], pat, rep)
  }

  /** The characters Python's `str.isspace` accepts. */
  predicate IsSpace(c: char) {
    var n := c as int;
    (9 <= n <= 13) || (28 <= n <= 32) || n == 0x85 || n == 0xA0 || n == 0x1680
    || (0x2000 <= n <= 0x200A) || n == 0x2028 || n == 0x2029 || n == 0x202F
    || n == 0x205F || n == 0x3000
  }

  function StripLeft(s: string): (r: string)
    ensures IsSuffix(r, s)
    ensures forall i :: 0 <= i < |s| - |r| ==> IsSpace(s[i])
    ensures |r| > 0 ==> !IsSpace(r[0])
    decreases |s|
  {
    if |s| > 0 && IsSpace(s[0]) then StripLeft(s[1..]) else s
  }

  function StripRight(s: string): (r: string)
    ensures IsPrefix(r, s)
    ensures forall i :: |r| <= i < |s| ==> IsSpace(s[i])
    ensures |r| > 0 ==> !IsSpace(r[|r| - 1])
    decreases |s|
  {
    if |s| > 0 && IsSpace(s[|s| - 1]) then StripRight(s[..|s| - 1]) else s
  }

  lemma SuffixChars(r: string, s: string)
    requires IsSuffix(r, s)
    ensures forall c :: c in r ==> c in s
  {
    forall c | c in r ensures c in s {
      var k :| 0 <= k < |r| && r[k] == c;
      assert s[|s| - |r| + k] == c;
    }
  }

  lemma PrefixChars(r: string, s: string)
    requires IsPrefix(r, s)
    ensures forall c :: c in r ==> c in s
  {
    forall c | c in r ensures c in s {
      var k :| 0 <= k < |r| && r[k] == c;
      assert s[k] == c;
    }
  }

  /** `s.strip()` with no argument: the slice of `s` left once the leading
      and trailing whitespace is cut off, inner characters untouched. */
  function Strip(s: string): (r: string)
    ensures exists i, j :: StripsTo(s, i, j) && r == s[i..j]
    ensures forall c :: c in r ==> c in s
    ensures |r| > 0 ==> !IsSpace(r[0]) && !IsSpace(r[|r| - 1])
    ensures (|s| == 0 || (!IsSpace(s[0]) && !IsSpace(s[|s| - 1]))) ==> r == s
  {
    var l := StripLeft(s);
    SuffixChars(l, s);
    var r := StripRight(l);
    PrefixChars(r, l);
    assert |r| > 0 ==> r[0] == l[0];
    StripCutsSpace(s);
    r
  }

  lemma StripCutsSpace(s: string)
    ensures exists i, j :: StripsTo(s, i, j) && StripRight(StripLeft(s)) == s[i..j]
  {
    var i, j := StripBounds(s);
  }

  /** The bounds of the slice `Strip` keeps. */
  lemma StripBounds(s: string) returns (i: int, j: int)
    ensures StripsTo(s, i, j) && StripRight(StripLeft(s)) == s[i..j]
  {
    var l := StripLeft(s);
    var r := StripRight(l);
    i := |s| - |l|;
    j := i + |r|;
    PrefixOfSuffix(s, l, r);
    SpacesOfSuffix(s, l, |r|);
  }

  /** A prefix of a suffix is a slice. */
  lemma PrefixOfSuffix(s: string, l: string, r: string)
    requires IsSuffix(l, s) && IsPrefix(r, l)
    ensures r == s[|s| - |l|..|s| - |l| + |r|]
  {
    assert l == s[|s| - |l|..];
  }

  /** Whitespace at the end of a suffix is whitespace at the end of the whole. */
  lemma SpacesOfSuffix(s: string, l: string, n: nat)
    requires IsSuffix(l, s) && n <= |l|
    requires forall k :: n <= k < |l| ==> IsSpace(l[k])
    ensures forall k :: |s| - |l| + n <= k < |s| ==> IsSpace(s[k])
  {
    forall k | |s| - |l| + n <= k < |s| ensures IsSpace(s[k]) {
      assert s[k] == l[k - (|s| - |l|)];
    }
  }

  /** `s[i..j]` is what is left of `s` after cutting whitespace only. */
  predicate StripsTo(s: string, i: int, j: int) {
    && 0 <= i <= j <= |s|
    && (forall k :: 0 <= k < i ==> IsSpace(s[k]))
    && (forall k :: j <= k < |s| ==> IsSpace(s[k]))
  }

  /** `sep.join(pieces)`. */
  function Join(pieces: seq<string>, sep: string): string
    decreases |pieces|
  {
    if |pieces| == 0 then ""
    else if |pieces| == 1 then pieces[0]
    else pieces[0] + sep + Join(pieces[1..], sep)
  }

  /** `s.split(sep)` for a non-empty separator: the pieces between
      non-overlapping occurrences found left to right, empty pieces kept. */
  function Split(s: string, sep: string): (pieces: seq<string>)
    requires |sep| > 0
    ensures |pieces| >= 1
    ensures IsPrefix(pieces[0], s)
    ensures forall p :: p in pieces ==> !Contains(p, sep)
    decreases |s|
  {
    if |s| < |sep| then
      TooShortToContain(s, sep);
      [s]
    else if s[..|sep|] == sep then
      assert !Contains("", sep);
      [""] + Split(s[|sep|..], sep)
    else
      var rest := Split(s[1..], sep);
      assert rest[0] in rest;
      ConsWithoutSep(s, rest[0], sep);
      var pieces := [[s[0]] + rest[0]] + rest[1..];
      assert forall p :: p in pieces ==> p == pieces[0] || p in rest;
      pieces
  }

  /** A string shorter than the needle does not contain it. */
  lemma {:induction false} TooShortToContain(s: string, sub: string)
    requires |s| < |sub|
    ensures !Contains(s, sub)
    decreases |s|
  {
    if |s| > 0 {
      TooShortToContain(s[1..], sub);
    }
  }

  /** A prefix of `s` that starts with `s[0]` and continues with a piece free
      of `sep` is free of `sep`, provided `s` itself does not start with it. */
  lemma ConsWithoutSep(s: string, piece: string, sep: string)
    requires |s| > 0 && IsPrefix(piece, s[1..]) && !IsPrefix(sep, s)
    requires !Contains(piece, sep)
    ensures IsPrefix([s[0]] + piece, s)
    ensures !Contains([s[0]] + piece, sep)
  {
    var q := [s[0]] + piece;
    assert q[1..] == piece;
    assert q == s[..|q|];
  }

  /** Every piece of a split occurs in the split string. */
  lemma {:induction false} SplitPiecesOccur(s: string, sep: string)
    requires |sep| > 0
    ensures forall p :: p in Split(s, sep) ==> Contains(s, p)
    decreases |s|
  {
    if |s| < |sep| {
      assert IsPrefix(s, s);
    } else if s[..|sep|] == sep {
      SplitPiecesOccur(s[|sep|..], sep);
      forall p | p in Split(s[|sep|..], sep) ensures Contains(s, p) {
        ContainsInSuffix(s, |sep|, p);
      }
      assert IsPrefix("", s);
    } else {
      SplitPiecesOccur(s[1..], sep);
      var rest := Split(s[1..], sep);
      forall p | p in rest ensures Contains(s, p) {
        ContainsInSuffix(s, 1, p);
      }
      assert IsPrefix([s[0]] + rest[0], s) by {
        assert s[1..][..|rest[0]|] == rest[0];
      }
      assert Split(s, sep) == [[s[0]] + rest[0]] + rest[1..];
    }
  }

  /** Splitting on `sep` and joining with `rep` is replacing `sep` by `rep`;
      with `rep == sep` it is the round trip `sep.join(s.split(sep)) == s`. */
  lemma {:induction false} JoinSplitIsReplace(s: string, sep: string, rep: string)
    requires |sep| > 0
    ensures Join(Split(s, sep), rep) == ReplaceAll(s, sep, rep)
    decreases |s|
  {
    if |s| < |sep| {
    } else if s[..|sep|] == sep {
      JoinSplitIsReplace(s[|sep|..], sep, rep);
      var rest := Split(s[|sep|..], sep);
      assert Split(s, sep) == [""] + rest;
      assert ReplaceAll(s, sep, rep) == rep + ReplaceAll(s[|sep|..], sep, rep);
      JoinEmptyFirst(rest, rep);
    } else {
      JoinSplitIsReplace(s[1..], sep, rep);
      var rest := Split(s[1..], sep);
      assert Split(s, sep) == [[s[0]] + rest[0]] + rest[1..];
      assert ReplaceAll(s, sep, rep) == [s[0]] + ReplaceAll(s[1..], sep, rep);
      JoinCons(s[0], rest, rep);
    }
  }

  /** An empty first piece contributes only its separator to the join. */
  lemma JoinEmptyFirst(pieces: seq<string>, sep: string)
    requires |pieces| >= 1
    ensures Join([""] + pieces, sep) == sep + Join(pieces, sep)
  {
    assert ([""] + pieces)[1..] == pieces;
  }

  /** Prepending a character to the first piece prepends it to the join. */
  lemma JoinCons(c: char, pieces: seq<string>, sep: string)
    requires |pieces| >= 1
    ensures Join([[c] + pieces[0]] + pieces[1..], sep) == [c] + Join(pieces, sep)
  {
    var ps := [[c] + pieces[0]] + pieces[1..];
    if |pieces| > 1 {
      assert ps[1..] == pieces[1..];
    }
  }

  lemma SplitJoinRoundTrip(s: string, sep: string)
    requires |sep| > 0
    ensures Join(Split(s, sep), sep) == s
  {
    JoinSplitIsReplace(s, sep, sep);
    ReplaceSelfIsIdentity(s, sep);
  }

  lemma {:induction false} ReplaceSelfIsIdentity(s: string, pat: string)
    requires |pat| > 0
    ensures ReplaceAll(s, pat, pat) == s
    decreases |s|
  {
    if |s| < |pat| {
    } else if s[..|pat|] == pat {
      ReplaceSelfIsIdentity(s[|pat|..], pat);
      assert s == s[..|pat|] + s[|pat|..];
    } else {
      ReplaceSelfIsIdentity(s[1..], pat);
      assert s == [s[0]] + s[1..];
    }
  }

  /** Replacing a one-character needle works character by character, so it
      distributes over concatenation. */
  lemma {:induction false} ReplaceCharConcat(a: string, b: string, c: char, rep: string)
    ensures ReplaceAll(a + b, [c], rep) == ReplaceAll(a, [c], rep) + ReplaceAll(b, [c], rep)
    decreases |a|
  {
    if |a| == 0 {
      assert a + b == b;
    } else {
      assert (a + b)[..1] == a[..1];
      assert (a + b)[1..] == a[1..] + b;
      ReplaceCharConcat(a[1..], b, c, rep);
    }
  }

  /** `s.endswith(suffix)`. */
  predicate EndsWith(s: string, suffix: string) {
    IsSuffix(suffix, s)
  }

  /** `s.count(c)` for a one-character needle. */
  function CountChar(s: string, c: char): (n: nat)
    ensures n <= |s|
    ensures n == 0 <==> c !in s
    decreases |s|
  {
    if |s| == 0 then 0
    else (if s[|s| - 1] == c then 1 else 0) + CountChar(s[..|s| - 1], c)
  }

  /** Counting distributes over concatenation. */
  lemma {:induction false} CountCharConcat(a: string, b: string, c: char)
    ensures CountChar(a + b, c) == CountChar(a, c) + CountChar(b, c)
    decreases |b|
  {
    if |b| > 0 {
      assert (a + b)[..|a + b| - 1] == a + b[..|b| - 1];
      CountCharConcat(a, b[..|b| - 1], c);
    } else {
      assert a + b == a;
    }
  }
}
