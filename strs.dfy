/**
 * The parts of Go's `strings` package that the package manager relies on:
 * prefix and suffix tests, substring search, ASCII lower-casing, `Split` on
 * one separator and the last piece of `SplitAfter(s, "/")`.
 */
module Strs {

  predicate HasPrefix(s: string, p: string)
  {
    |p| <= |s| && s[..|p|] == p
  }

  predicate HasSuffix(s: string, t: string)
  {
    |t| <= |s| && s[|s| - |t|..] == t
  }

  /** `sub` occurs in `s` starting at offset `i`. */
  predicate OccursAt(s: string, sub: string, i: int)
  {
    0 <= i && i + |sub| <= |s| && s[i..i + |sub|] == sub
  }

  /** strings.Contains: a left-to-right scan over the offsets of `s`. */
  function Contains(s: string, sub: string): (r: bool)
    ensures r <==> exists i :: OccursAt(s, sub, i)
    decreases |s|
  {
    if |sub| > |s| then
      assert forall i :: !OccursAt(s, sub, i);
      false
    else if s[..|sub|] == sub then
      assert OccursAt(s, sub, 0);
      true
    else
      var r := Contains(s[1..], sub);
      OccursShift(s, sub);
      r
  }

  /** Offsets of `s[1..]` are the offsets of `s` shifted by one, and 0 is not among them. */
  lemma OccursShift(s: string, sub: string)
    requires |sub| <= |s| && s[..|sub|] != sub
    ensures (exists i :: OccursAt(s[1..], sub, i)) <==> (exists i :: OccursAt(s, sub, i))
  {
    if i :| OccursAt(s[1..], sub, i) {
      assert s[1..][i..i + |sub|] == s[i + 1..i + 1 + |sub|];
      assert OccursAt(s, sub, i + 1);
    }
    if i :| OccursAt(s, sub, i) {
      assert i != 0;
      assert s[1..][i - 1..i - 1 + |sub|] == s[i..i + |sub|];
      assert OccursAt(s[1..], sub, i - 1);
    }
  }

  /** An occurrence inside a piece is an occurrence inside any text around it. */
  lemma {:induction false} ContainsInside(p: string, n: string, q: string, sub: string)
    requires Contains(n, sub)
    ensures Contains(p + n + q, sub)
  {
    var i :| OccursAt(n, sub, i);
    var s := p + n + q;
    assert s[|p| + i..|p| + i + |sub|] == n[i..i + |sub|];
    assert OccursAt(s, sub, |p| + i);
  }

  /** A text that lacks some character of `sub` cannot contain `sub`. */
  lemma {:induction false} NotContainsWithoutChar(s: string, sub: string, c: char)
    requires c in sub && c !in s
    ensures !Contains(s, sub)
  {
  }

  /** If `s` contains `w`, it contains every prefix of `w`. */
  lemma {:induction false} ContainsPrefixOf(s: string, w: string, v: string)
    requires Contains(s, w) && HasPrefix(w, v)
    ensures Contains(s, v)
  {
    var i :| OccursAt(s, w, i);
    assert s[i..i + |v|] == w[..|v|];
    assert OccursAt(s, v, i);
  }

  /** strings.ToLower, restricted to ASCII letters. */
  function LowerChar(c: char): char
  {
    if 'A' <= c <= 'Z' then (c as int + 32) as char else c
  }

  function Lower(s: string): (r: string)
    ensures |r| == |s|
  {
    seq(|s|, i requires 0 <= i < |s| => LowerChar(s[i]))
  }

  /** Lower-casing works character by character, so it distributes over concatenation. */
  lemma LowerAppend(p: string, q: string)
    ensures Lower(p + q) == Lower(p) + Lower(q)
  {
    assert forall i :: 0 <= i < |p + q| ==> Lower(p + q)[i] == (Lower(p) + Lower(q))[i];
  }

  /** A text without capital letters is its own lower-case form. */
  lemma LowerOfLower(s: string)
    requires forall i :: 0 <= i < |s| ==> !('A' <= s[i] <= 'Z')
    ensures Lower(s) == s
  {
  }

  /** Lower-casing keeps every occurrence: a case-sensitive match is also a match of the lower-cased texts. */
  lemma {:induction false} ContainsLower(s: string, w: string)
    requires Contains(s, w)
    ensures Contains(Lower(s), Lower(w))
  {
    var i :| OccursAt(s, w, i);
    assert Lower(s)[i..i + |w|] == Lower(w);
    assert OccursAt(Lower(s), Lower(w), i);
  }

  /** A character that is not a lower-case letter appears in `Lower(s)` only where it appears in `s`. */
  lemma {:induction false} LowerKeepsAbsence(s: string, c: char)
    requires !('a' <= c <= 'z') && c !in s
    ensures c !in Lower(s)
  {
  }

  /** `r` is the text after the last '/' of `s`, or the whole of `s` when it has none. */
  predicate IsLastSegment(s: string, r: string)
  {
    HasSuffix(s, r) && '/' !in r && (|r| < |s| ==> s[|s| - |r| - 1] == '/')
  }

  /** Where the last element of strings.SplitAfter(s, "/") starts: just after the last '/', or 0. */
  function SegmentStart(s: string): (start: nat)
    ensures start <= |s|
  {
    if |s| == 0 then 0
    else if s[|s| - 1] == '/' then |s|
    else SegmentStart(s[..|s| - 1])
  }

  /** The last element of strings.SplitAfter(s, "/"). */
  function LastSegment(s: string): string
  {
    s[SegmentStart(s)..]
  }

  /** LastSegment yields the text after the last '/', or all of `s` when it has none. */
  lemma {:induction false} LastSegmentSpec(s: string)
    ensures IsLastSegment(s, LastSegment(s))
  {
    if |s| > 0 && s[|s| - 1] != '/' {
      var p := s[..|s| - 1];
      LastSegmentSpec(p);
      assert SegmentStart(s) == SegmentStart(p);
      assert LastSegment(s) == LastSegment(p) + [s[|s| - 1]];
    }
  }

  /** There is only one last segment. */
  lemma {:induction false} LastSegmentUnique(s: string, r1: string, r2: string)
    requires IsLastSegment(s, r1) && IsLastSegment(s, r2)
    ensures r1 == r2
  {
  }

  /** After a '/' that ends the directory part, the last segment is the rest. */
  lemma LastSegmentOfJoin(dir: string, name: string)
    requires |dir| > 0 && dir[|dir| - 1] == '/' && '/' !in name
    ensures LastSegment(dir + name) == name
  {
    var s := dir + name;
    assert s[|s| - |name|..] == name;
    assert IsLastSegment(s, name);
    LastSegmentSpec(s);
    LastSegmentUnique(s, LastSegment(s), name);
  }

  /** The final path segment has no '.', the test that HasNoExtension and extractPackage perform. */
  predicate NoExtension(s: string)
  {
    !Contains(LastSegment(s), ".")
  }

  /** A one-character text occurs exactly where that character does. */
  lemma ContainsChar(s: string, c: char)
    ensures Contains(s, [c]) <==> c in s
  {
    if c in s {
      var i :| 0 <= i < |s| && s[i] == c;
      assert s[i..i + 1] == [c];
      assert OccursAt(s, [c], i);
    }
    forall i | OccursAt(s, [c], i) ensures s[i] == c {
      assert s[i..i + 1][0] == s[i];
    }
  }

  /** `s` has a '.' at offset `i`. */
  predicate DotAt(s: string, i: int)
  {
    0 <= i < |s| && s[i] == '.'
  }

  /** Some '/' of `s` comes after offset `i`. */
  ghost predicate SlashAfter(s: string, i: int)
  {
    exists j :: 0 <= i < j < |s| && s[j] == '/'
  }

  /** Every '.' lies before some '/'. */
  ghost predicate DotsBeforeSlash(s: string)
  {
    forall i :: DotAt(s, i) ==> SlashAfter(s, i)
  }

  /** With no '.' in the last segment, every '.' of the text lies before its last '/'. */
  lemma {:induction false} DotsBeforeLastSegment(s: string, r: string)
    requires IsLastSegment(s, r) && '.' !in r
    ensures DotsBeforeSlash(s)
  {
    var base := |s| - |r|;
    assert forall k :: base <= k < |s| ==> s[k] == r[k - base];
    forall i | DotAt(s, i)
      ensures SlashAfter(s, i)
    {
      assert i < base - 1 && s[base - 1] == '/';
    }
  }

  /** A '.' in the last segment has no '/' after it. */
  lemma {:induction false} DotInLastSegment(s: string, r: string)
    requires IsLastSegment(s, r) && '.' in r
    ensures !DotsBeforeSlash(s)
  {
    var base := |s| - |r|;
    var m :| 0 <= m < |r| && r[m] == '.';
    assert s[base + m] == r[m];
    assert DotAt(s, base + m);
    forall j | base + m < j < |s|
      ensures s[j] != '/'
    {
      assert s[j] == r[j - base];
    }
    assert !SlashAfter(s, base + m);
  }

  /** The last segment has no '.' exactly when every '.' is followed by a '/'. */
  lemma NoExtensionDots(s: string)
    ensures NoExtension(s) <==> DotsBeforeSlash(s)
  {
    var r := LastSegment(s);
    LastSegmentSpec(s);
    ContainsChar(r, '.');
    if '.' in r {
      DotInLastSegment(s, r);
    } else {
      DotsBeforeLastSegment(s, r);
    }
  }

  /**
   * A suffix that starts with '.' and holds no '/' lies inside the last
   * segment, so a text ending with it always has an extension.
   */
  lemma {:induction false} DotSuffixIsExtension(s: string, w: string)
    requires HasSuffix(s, w) && |w| > 0 && w[0] == '.' && '/' !in w
    ensures !NoExtension(s)
  {
    var i := |s| - |w|;
    NoExtensionDots(s);
    assert DotAt(s, i);
    assert forall j :: i < j < |s| ==> s[j] == w[j - i];
  }

  /** strings.Split(s, string(c)): the pieces of `s` between occurrences of `c`. */
  function Split(s: string, c: char): (parts: seq<string>)
    ensures |parts| >= 1
    ensures forall k :: 0 <= k < |parts| ==> c !in parts[k]
  {
    if |s| == 0 then [""]
    else
      var rest := Split(s[1..], c);
      if s[0] == c then [""] + rest
      else [[s[0]] + rest[0]] + rest[1..]
  }

  /** strings.Join(parts, string(c)). */
  function Join(parts: seq<string>, c: char): string
    requires |parts| >= 1
  {
    if |parts| == 1 then parts[0] else parts[0] + [c] + Join(parts[1..], c)
  }

  /** Joining the pieces of a split with the same separator gives back the text. */
  lemma {:induction false} JoinSplit(s: string, c: char)
    ensures Join(Split(s, c), c) == s
  {
    if |s| > 0 {
      var rest := Split(s[1..], c);
      JoinSplit(s[1..], c);
      if s[0] == c {
        assert Split(s, c)[1..] == rest;
      } else if |rest| > 1 {
        var parts := Split(s, c);
        assert parts[1..] == rest[1..];
        assert Join(rest, c) == rest[0] + [c] + Join(rest[1..], c);
      }
    }
  }

  /** Split yields more than one piece exactly when the separator occurs. */
  lemma {:induction false} SplitMany(s: string, c: char)
    ensures |Split(s, c)| > 1 <==> c in s
  {
    if |s| > 0 {
      SplitMany(s[1..], c);
      assert s == [s[0]] + s[1..];
      assert c in s <==> s[0] == c || c in s[1..];
    }
  }

  /** A text without the separator splits into itself. */
  lemma {:induction false} SplitWithout(s: string, c: char)
    requires c !in s
    ensures Split(s, c) == [s]
  {
    if |s| > 0 {
      assert c !in s[1..];
      SplitWithout(s[1..], c);
      assert [s[0]] + s[1..] == s;
    }
  }

  /** Two separator-free texts joined by one separator split back into the two. */
  lemma {:induction false} SplitAround(a: string, b: string, c: char)
    requires c !in a && c !in b
    ensures Split(a + [c] + b, c) == [a, b]
  {
    var s := a + [c] + b;
    if |a| == 0 {
      assert s[1..] == b;
      SplitWithout(b, c);
    } else {
      assert s[1..] == a[1..] + [c] + b;
      assert c !in a[1..];
      SplitAround(a[1..], b, c);
      assert [a[0]] + a[1..] == a;
    }
  }
}
