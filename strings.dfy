/** The JavaScript string operations the client relies on: toLowerCase (on
    ASCII letters), includes, startsWith, trim and split on one separator. */
module Strings {

  /** JavaScript white space and line terminators: the characters that the
      regular-expression class \s matches and that String.prototype.trim
      removes. */
  predicate IsJsSpace(c: char) {
    var n := c as int;
    if n < 0x80 then n == 0x20 || 0x09 <= n <= 0x0D
    else
      || n == 0xA0 || n == 0x1680 || 0x2000 <= n <= 0x200A
      || n == 0x2028 || n == 0x2029 || n == 0x202F || n == 0x205F
      || n == 0x3000 || n == 0xFEFF
  }

  predicate IsUpperAscii(c: char) {
    'A' <= c <= 'Z'
  }

  function LowerChar(c: char): (d: char)
    ensures !IsUpperAscii(d)
    ensures IsUpperAscii(c) ==> d as int == c as int + 32
    ensures !IsUpperAscii(c) ==> d == c
  {
    if IsUpperAscii(c) then (c as int + 32) as char else c
  }

  /** String.prototype.toLowerCase, restricted to the ASCII letters. */
  function Lower(s: string): (r: string)
    ensures |r| == |s|
    ensures forall i :: 0 <= i < |s| ==> r[i] == LowerChar(s[i])
  {
    if s == [] then [] else [LowerChar(s[0])] + Lower(s[1..])
  }

  /** Lower-casing twice is lower-casing once. */
  lemma LowerIdempotent(s: string)
    ensures Lower(Lower(s)) == Lower(s)
  {
  }

  /** sub occurs in s starting at position k. */
  predicate OccursAt(s: string, sub: string, k: int) {
    0 <= k && k + |sub| <= |s| && s[k..k + |sub|] == sub
  }

  /** String.prototype.includes: sub occurs somewhere in s. */
  predicate Contains(s: string, sub: string) {
    exists k | 0 <= k <= |s| - |sub| :: OccursAt(s, sub, k)
  }

  /** String.prototype.startsWith. */
  predicate StartsWith(s: string, prefix: string) {
    |prefix| <= |s| && s[..|prefix|] == prefix
  }

  /** An occurrence of an occurrence is an occurrence. */
  lemma ContainsTransitive(s: string, mid: string, sub: string)
    requires Contains(s, mid) && Contains(mid, sub)
    ensures Contains(s, sub)
  {
    var k1 :| 0 <= k1 <= |s| - |mid| && OccursAt(s, mid, k1);
    var k2 :| 0 <= k2 <= |mid| - |sub| && OccursAt(mid, sub, k2);
    assert forall j :: 0 <= j < |mid| ==> s[k1 + j] == mid[j];
    assert s[k1 + k2..k1 + k2 + |sub|] == sub;
    assert OccursAt(s, sub, k1 + k2);
  }

  /** Matching after lower-casing is case-insensitive: an occurrence of w in
      any mix of cases is an occurrence of lower(w) in lower(s). */
  lemma ContainsAnyCase(s: string, w: string)
    requires Contains(s, w)
    ensures Contains(Lower(s), Lower(w))
  {
    var k :| 0 <= k <= |s| - |w| && OccursAt(s, w, k);
    var ls, lw := Lower(s), Lower(w);
    forall j | 0 <= j < |w| ensures ls[k + j] == lw[j] {
      assert s[k + j] == w[j];
    }
    assert ls[k..k + |w|] == lw;
    assert OccursAt(ls, lw, k);
  }

  /** The first position at or after `from` that does not hold white space. */
  function SkipSpace(s: string, from: nat): (i: nat)
    requires from <= |s|
    ensures from <= i <= |s|
    ensures forall k :: from <= k < i ==> IsJsSpace(s[k])
    ensures i < |s| ==> !IsJsSpace(s[i])
    decreases |s| - from
  {
    if from < |s| && IsJsSpace(s[from]) then SkipSpace(s, from + 1) else from
  }

  /** The end of s[lo..hi] once its trailing white space is dropped. */
  function SkipSpaceBack(s: string, lo: nat, hi: nat): (j: nat)
    requires lo <= hi <= |s|
    ensures lo <= j <= hi
    ensures forall k :: j <= k < hi ==> IsJsSpace(s[k])
    ensures lo < j ==> !IsJsSpace(s[j - 1])
    decreases hi
  {
    if lo < hi && IsJsSpace(s[hi - 1]) then SkipSpaceBack(s, lo, hi - 1) else hi
  }

  /** r is the piece of s that starts at position i, and only white space
      surrounds it. */
  predicate TrimmedAt(s: string, r: string, i: int) {
    && 0 <= i && i + |r| <= |s|
    && r == s[i..i + |r|]
    && (forall k :: 0 <= k < i ==> IsJsSpace(s[k]))
    && (forall k :: i + |r| <= k < |s| ==> IsJsSpace(s[k]))
  }

  /** String.prototype.trim: the result neither starts nor ends with white
      space, and it is a piece of s around which there is only white space. */
  function Trim(s: string): (r: string)
    ensures r != [] ==> !IsJsSpace(r[0]) && !IsJsSpace(r[|r| - 1])
    ensures exists i :: TrimmedAt(s, r, i)
  {
    var i := SkipSpace(s, 0);
    var j := SkipSpaceBack(s, i, |s|);
    assert TrimmedAt(s, s[i..j], i);
    s[i..j]
  }

  /** Trimming a trimmed string changes nothing. */
  lemma TrimIdempotent(s: string)
    ensures Trim(Trim(s)) == Trim(s)
  {
    var t := Trim(s);
    assert SkipSpace(t, 0) == 0;
    assert SkipSpaceBack(t, 0, |t|) == |t|;
    assert t[0..|t|] == t;
  }

  /** Position of the first occurrence of c in s. */
  function IndexOf(s: string, c: char): (i: nat)
    requires c in s
    ensures i < |s| && s[i] == c && c !in s[..i]
  {
    if s[0] == c then 0 else 1 + IndexOf(s[1..], c)
  }

  /** String.prototype.split with a one-character separator: the pieces
      between consecutive separators, at least one piece. */
  function Split(s: string, sep: char): (parts: seq<string>)
    ensures |parts| >= 1
    ensures forall i :: 0 <= i < |parts| ==> sep !in parts[i]
    decreases |s|
  {
    if sep !in s then [s]
    else
      var i := IndexOf(s, sep);
      [s[..i]] + Split(s[i + 1..], sep)
  }

  /** Array.prototype.join with a one-character separator. */
  function Join(parts: seq<string>, sep: char): string {
    if parts == [] then ""
    else if |parts| == 1 then parts[0]
    else parts[0] + [sep] + Join(parts[1..], sep)
  }

  lemma JoinCons(head: string, tail: seq<string>, sep: char)
    requires |tail| >= 1
    ensures Join([head] + tail, sep) == head + [sep] + Join(tail, sep)
  {
    assert ([head] + tail)[1..] == tail;
  }

  lemma SplitAround(s: string, i: nat)
    requires i < |s|
    ensures s[..i] + [s[i]] + s[i + 1..] == s
  {
  }

  /** Splitting loses nothing: joining the pieces gives the string back. */
  lemma {:induction false} JoinSplit(s: string, sep: char)
    ensures Join(Split(s, sep), sep) == s
    decreases |s|
  {
    if sep !in s {
      assert Split(s, sep) == [s];
    } else {
      var i := IndexOf(s, sep);
      var head, rest := s[..i], s[i + 1..];
      var tail := Split(rest, sep);
      assert Split(s, sep) == [head] + tail;
      JoinSplit(rest, sep);
      JoinCons(head, tail, sep);
      SplitAround(s, i);
    }
  }

  /** Joining pieces that contain no separator and splitting again gives the
      same pieces. */
  lemma {:induction false} SplitJoin(parts: seq<string>, sep: char)
    requires |parts| >= 1
    requires forall i :: 0 <= i < |parts| ==> sep !in parts[i]
    ensures Split(Join(parts, sep), sep) == parts
  {
    if |parts| > 1 {
      var s := Join(parts, sep);
      var head := parts[0];
      assert s == head + [sep] + Join(parts[1..], sep);
      assert s[|head|] == sep;
      assert s[..|head|] == head;
      assert IndexOf(s, sep) == |head|;
      assert s[|head| + 1..] == Join(parts[1..], sep);
      SplitJoin(parts[1..], sep);
    }
  }
}
