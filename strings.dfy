/** Small option type shared by the modules below. */
module Optional {
  datatype Option<+T> = None | Some(value: T)
}

/**
 * The string operations the game relies on: JavaScript's `split`/`join`/`trim`
 * and regular-expression replacements in the frontend, Python's `strip`,
 * `split` and `join` in the backend. Character classes are passed as
 * predicates so that JavaScript's `\s` and Python's `str.isspace` share one
 * definition of each operation.
 */
module Strings {

  /** JavaScript's `\s` class, which is also the set `String.prototype.trim` removes. */
  predicate IsJsSpace(c: char) {
    var n := c as int;
    (9 <= n <= 13) || n == 32 || n == 0xA0 || n == 0x1680 || (0x2000 <= n <= 0x200A)
    || n == 0x2028 || n == 0x2029 || n == 0x202F || n == 0x205F || n == 0x3000 || n == 0xFEFF
  }

  /** Python's `str.isspace`, used by `str.strip()` and `str.split()` without arguments. */
  predicate IsPySpace(c: char) {
    var n := c as int;
    (9 <= n <= 13) || (0x1C <= n <= 0x20) || n == 0x85 || n == 0xA0 || n == 0x1680
    || (0x2000 <= n <= 0x200A) || n == 0x2028 || n == 0x2029 || n == 0x202F || n == 0x205F || n == 0x3000
  }

  /** Drops the leading characters that satisfy `sp`. */
  function TrimStart(s: string, sp: char -> bool): (r: string)
    ensures |r| <= |s| && r == s[|s| - |r|..]
    ensures r == [] || !sp(r[0])
    decreases |s|
  {
    if s != [] && sp(s[0]) then TrimStart(s[1..], sp) else s
  }

  /** Only characters satisfying `sp` are dropped from the front. */
  lemma {:induction false} TrimStartDropsSpaces(s: string, sp: char -> bool)
    ensures forall i :: 0 <= i < |s| - |TrimStart(s, sp)| ==> sp(s[i])
    decreases |s|
  {
    if s != [] && sp(s[0]) {
      TrimStartDropsSpaces(s[1..], sp);
      forall i | 0 < i < |s| - |TrimStart(s, sp)|
        ensures sp(s[i])
      {
        assert s[i] == s[1..][i - 1];
      }
    }
  }

  /** Drops the trailing characters that satisfy `sp`. */
  function TrimEnd(s: string, sp: char -> bool): (r: string)
    ensures |r| <= |s| && r == s[..|r|]
    ensures r == [] || !sp(r[|r| - 1])
    decreases |s|
  {
    if s != [] && sp(s[|s| - 1]) then TrimEnd(s[..|s| - 1], sp) else s
  }

  /** Only characters satisfying `sp` are dropped from the back. */
  lemma {:induction false} TrimEndDropsSpaces(s: string, sp: char -> bool)
    ensures forall i :: |TrimEnd(s, sp)| <= i < |s| ==> sp(s[i])
    decreases |s|
  {
    if s != [] && sp(s[|s| - 1]) {
      TrimEndDropsSpaces(s[..|s| - 1], sp);
      forall i | |TrimEnd(s, sp)| <= i < |s| - 1
        ensures sp(s[i])
      {
        assert s[i] == s[..|s| - 1][i];
      }
    }
  }

  /** `s.trim()` (with `IsJsSpace`) or `s.strip()` (with `IsPySpace`). */
  function Trim(s: string, sp: char -> bool): (r: string)
    ensures |r| <= |s|
    ensures r == [] || (!sp(r[0]) && !sp(r[|r| - 1]))
  {
    TrimEnd(TrimStart(s, sp), sp)
  }

  /** `r` is the slice of `s` at `k`, and every character of `s` outside that slice satisfies `sp`. */
  predicate TrimmedMiddle(s: string, r: string, k: int, sp: char -> bool) {
    && 0 <= k && k + |r| <= |s| && r == s[k..k + |r|]
    && (forall i :: 0 <= i < k ==> sp(s[i]))
    && (forall i :: k + |r| <= i < |s| ==> sp(s[i]))
  }

  /**
   * Trimming keeps a contiguous middle of the string: everything before it
   * and everything after it satisfies `sp`.
   */
  lemma TrimKeepsMiddle(s: string, sp: char -> bool)
    ensures TrimmedMiddle(s, Trim(s, sp), |s| - |TrimStart(s, sp)|, sp)
  {
    var t := TrimStart(s, sp);
    assert Trim(s, sp) == TrimEnd(t, sp);
    TrimStartDropsSpaces(s, sp);
    TrimEndDropsSpaces(t, sp);
    MiddleOfSuffixPrefix(s, t, TrimEnd(t, sp), sp);
  }

  /**
   * A prefix `r` of a suffix `t` of `s` is the slice of `s` after the
   * characters `t` dropped; if both dropped parts satisfy `sp`, `r` is the
   * trimmed middle of `s`.
   */
  lemma MiddleOfSuffixPrefix(s: string, t: string, r: string, sp: char -> bool)
    requires |t| <= |s| && t == s[|s| - |t|..]
    requires |r| <= |t| && r == t[..|r|]
    requires forall i :: 0 <= i < |s| - |t| ==> sp(s[i])
    requires forall i :: |r| <= i < |t| ==> sp(t[i])
    ensures TrimmedMiddle(s, r, |s| - |t|, sp)
  {
    var k := |s| - |t|;
    forall i | k + |r| <= i < |s|
      ensures sp(s[i])
    {
      assert s[i] == t[i - k];
    }
  }

  /** `s.replace(/p/g, '')`: every character satisfying `p` deleted. */
  function Remove(s: string, p: char -> bool): (r: string)
    ensures |r| <= |s|
    decreases |s|
  {
    if s == [] then []
    else if p(s[0]) then Remove(s[1..], p)
    else [s[0]] + Remove(s[1..], p)
  }

  /** A character is left by `Remove` exactly when the string has it and it is not deleted. */
  lemma {:induction false} RemoveKeepsOthers(s: string, p: char -> bool)
    ensures forall c :: c in Remove(s, p) <==> c in s && !p(c)
    decreases |s|
  {
    if s != [] {
      RemoveKeepsOthers(s[1..], p);
      assert s == [s[0]] + s[1..];
    }
  }

  /** `s.replace(/\s+/g, ' ')`: each maximal run of `sp` characters becomes one space. */
  function Collapse(s: string, sp: char -> bool): (r: string)
    ensures |r| <= |s|
    ensures r == [] <==> s == []
    decreases |s|
  {
    if s == [] then []
    else if sp(s[0]) then
      var rest := TrimStart(s, sp);
      " " + Collapse(rest, sp)
    else [s[0]] + Collapse(s[1..], sp)
  }

  /** Every `sp` character of `r` is `' '`, and no two `sp` characters are adjacent. */
  predicate SingleSpaces(r: string, sp: char -> bool) {
    && (forall i :: 0 <= i < |r| && sp(r[i]) ==> r[i] == ' ')
    && (forall i :: 0 <= i < |r| - 1 ==> !(sp(r[i]) && sp(r[i + 1])))
  }

  /** One character in front of a string with single spaces keeps them single. */
  lemma SingleSpacesCons(x: char, t: string, sp: char -> bool)
    requires sp(x) ==> x == ' '
    requires SingleSpaces(t, sp)
    requires t != [] && sp(x) ==> !sp(t[0])
    ensures SingleSpaces([x] + t, sp)
  {
    var r := [x] + t;
    forall i | 0 < i < |r|
      ensures r[i] == t[i - 1]
    {
    }
  }

  /**
   * In the result every `sp` character is `' '` and no two of them are
   * adjacent, and a string that starts with another character still starts
   * with it. That each run becomes exactly one space, and nothing else
   * changes, is `CollapseAppend` with `CollapseRun` and `CollapseWord`.
   */
  lemma {:induction false} CollapseSpaces(s: string, sp: char -> bool)
    requires sp(' ')
    ensures SingleSpaces(Collapse(s, sp), sp)
    ensures s != [] && !sp(s[0]) ==> Collapse(s, sp)[0] == s[0]
    decreases |s|
  {
    if s == [] {
    } else if sp(s[0]) {
      var rest := TrimStart(s, sp);
      assert rest == TrimStart(s[1..], sp);
      CollapseSpaces(rest, sp);
      SingleSpacesCons(' ', Collapse(rest, sp), sp);
    } else {
      CollapseSpaces(s[1..], sp);
      SingleSpacesCons(s[0], Collapse(s[1..], sp), sp);
    }
  }

  /** Trimming the front of `a + b` runs on into `b` only when all of `a` is dropped. */
  lemma {:induction false} TrimStartAppend(a: string, b: string, sp: char -> bool)
    ensures TrimStart(a + b, sp) == if TrimStart(a, sp) == [] then TrimStart(b, sp) else TrimStart(a, sp) + b
    decreases |a|
  {
    if a == [] {
      assert a + b == b;
    } else if sp(a[0]) {
      assert (a + b)[1..] == a[1..] + b;
      TrimStartAppend(a[1..], b, sp);
    }
  }

  /**
   * Collapsing distributes over a concatenation whose seam does not fall
   * inside a run of `sp` characters.
   */
  lemma {:induction false} CollapseAppend(a: string, b: string, sp: char -> bool)
    requires a == [] || b == [] || !sp(a[|a| - 1]) || !sp(b[0])
    ensures Collapse(a + b, sp) == Collapse(a, sp) + Collapse(b, sp)
    decreases |a|
  {
    if a == [] {
      assert a + b == b;
    } else if !sp(a[0]) {
      CollapseAppend(a[1..], b, sp);
      CollapseCharAppend(a, b, sp);
      PrependConcat([a[0]], Collapse(a[1..], sp), Collapse(b, sp), Collapse(a[1..] + b, sp));
    } else if TrimStart(a, sp) == [] {
      CollapseRunAppend(a, b, sp);
    } else {
      var t := TrimStart(a, sp);
      CollapseSpaceAppend(a, b, sp);
      assert |t| < |a| by {
        assert t == TrimStart(a[1..], sp);
      }
      assert t[|t| - 1] == a[|a| - 1];
      CollapseAppend(t, b, sp);
      PrependConcat(" ", Collapse(t, sp), Collapse(b, sp), Collapse(t + b, sp));
    }
  }

  /** `CollapseAppend` when all of `a` is one run of `sp` characters. */
  lemma CollapseRunAppend(a: string, b: string, sp: char -> bool)
    requires a != [] && sp(a[0]) && TrimStart(a, sp) == []
    requires b == [] || !sp(a[|a| - 1]) || !sp(b[0])
    ensures Collapse(a + b, sp) == Collapse(a, sp) + Collapse(b, sp)
  {
    assert sp(a[|a| - 1]) by {
      TrimStartDropsSpaces(a, sp);
    }
    assert TrimStart(b, sp) == b;
    CollapseSpaceAppend(a, b, sp);
    assert Collapse(a, sp) == " ";
  }

  /** One unfolding of `Collapse` on `a` and on `a + b` when they start with a character outside `sp`. */
  lemma CollapseCharAppend(a: string, b: string, sp: char -> bool)
    requires a != [] && !sp(a[0])
    ensures Collapse(a, sp) == [a[0]] + Collapse(a[1..], sp)
    ensures Collapse(a + b, sp) == [a[0]] + Collapse(a[1..] + b, sp)
  {
    assert (a + b)[0] == a[0] && (a + b)[1..] == a[1..] + b;
  }

  /** One unfolding of `Collapse` on `a` and on `a + b` when they start with an `sp` character. */
  lemma CollapseSpaceAppend(a: string, b: string, sp: char -> bool)
    requires a != [] && sp(a[0])
    ensures Collapse(a, sp) == " " + Collapse(TrimStart(a, sp), sp)
    ensures TrimStart(a, sp) == [] ==> Collapse(a + b, sp) == " " + Collapse(TrimStart(b, sp), sp)
    ensures TrimStart(a, sp) != [] ==> Collapse(a + b, sp) == " " + Collapse(TrimStart(a, sp) + b, sp)
  {
    TrimStartAppend(a, b, sp);
    assert (a + b)[0] == a[0];
  }

  /** Concatenation is associative, stated for the pieces `CollapseAppend` combines. */
  lemma PrependConcat(p: string, x: string, y: string, xy: string)
    requires xy == x + y
    ensures p + xy == (p + x) + y
  {
  }

  /** A non-empty run made only of `sp` characters collapses to exactly one space. */
  lemma CollapseRun(s: string, sp: char -> bool)
    requires s != []
    requires forall i :: 0 <= i < |s| ==> sp(s[i])
    ensures Collapse(s, sp) == " "
  {
  }

  /** A string with no `sp` character is left unchanged. */
  lemma {:induction false} CollapseWord(s: string, sp: char -> bool)
    requires forall i :: 0 <= i < |s| ==> !sp(s[i])
    ensures Collapse(s, sp) == s
    decreases |s|
  {
    if s != [] {
      CollapseWord(s[1..], sp);
      assert [s[0]] + s[1..] == s;
    }
  }

  /** JavaScript's `toLowerCase` on one character, for the ASCII letters. */
  function LowerChar(c: char): char {
    if 'A' <= c <= 'Z' then (c as int + 32) as char else c
  }

  function ToLower(s: string): (r: string)
    ensures |r| == |s|
    ensures forall i :: 0 <= i < |s| ==> r[i] == LowerChar(s[i])
  {
    seq(|s|, i requires 0 <= i < |s| => LowerChar(s[i]))
  }

  /** `parts.join(sep)` (JavaScript) or `sep.join(parts)` (Python). */
  function Join(parts: seq<string>, sep: string): (r: string)
    ensures |parts| >= 1 ==> |parts[0]| <= |r| && r[..|parts[0]|] == parts[0]
    decreases |parts|
  {
    if |parts| == 0 then ""
    else if |parts| == 1 then parts[0]
    else parts[0] + sep + Join(parts[1..], sep)
  }

  /**
   * `s.split(sep)` for a non-empty separator: scanning left to right, every
   * occurrence of `sep` that does not overlap an earlier one ends a part.
   */
  function Split(s: string, sep: string): (parts: seq<string>)
    requires sep != []
    ensures |parts| >= 1
    decreases |s|
  {
    if |s| < |sep| then [s]
    else if s[..|sep|] == sep then [""] + Split(s[|sep|..], sep)
    else
      var rest := Split(s[1..], sep);
      [[s[0]] + rest[0]] + rest[1..]
  }

  /** The number of matches of the global regular expression `/sep/g` (non-overlapping, left to right). */
  function Occurrences(s: string, sep: string): nat
    requires sep != []
    decreases |s|
  {
    if |s| < |sep| then 0
    else if s[..|sep|] == sep then 1 + Occurrences(s[|sep|..], sep)
    else Occurrences(s[1..], sep)
  }

  // ---------------------------------------------------------------------------
  // Split and join

  /** Splitting yields one more part than there are separators. */
  lemma {:induction false} SplitCount(s: string, sep: string)
    requires sep != []
    ensures |Split(s, sep)| == Occurrences(s, sep) + 1
    decreases |s|
  {
    if |s| < |sep| {
    } else if s[..|sep|] == sep {
      SplitCount(s[|sep|..], sep);
    } else {
      SplitCount(s[1..], sep);
    }
  }

  /** Joining the parts with the separator gives back the original string. */
  lemma {:induction false} JoinSplit(s: string, sep: string)
    requires sep != []
    ensures Join(Split(s, sep), sep) == s
    decreases |s|
  {
    if |s| < |sep| {
    } else if s[..|sep|] == sep {
      var rest := Split(s[|sep|..], sep);
      JoinSplit(s[|sep|..], sep);
      assert Split(s, sep) == [""] + rest;
      assert ([""] + rest)[1..] == rest;
      calc {
        Join(Split(s, sep), sep);
        "" + sep + Join(rest, sep);
        s[..|sep|] + s[|sep|..];
        s;
      }
    } else {
      var rest := Split(s[1..], sep);
      JoinSplit(s[1..], sep);
      var parts := [[s[0]] + rest[0]] + rest[1..];
      assert Split(s, sep) == parts;
      if |rest| == 1 {
        assert Join(parts, sep) == [s[0]] + rest[0];
        assert [s[0]] + s[1..] == s;
      } else {
        assert parts[1..] == rest[1..];
        assert Join(rest, sep) == rest[0] + sep + Join(rest[1..], sep);
        assert Join(parts, sep) == [s[0]] + Join(rest, sep);
        assert [s[0]] + s[1..] == s;
      }
    }
  }

  /** `sep` occurs in `s` starting at index `j`. */
  predicate OccursAt(s: string, sep: string, j: int) {
    0 <= j && j + |sep| <= |s| && s[j..j + |sep|] == sep
  }

  /** `sep` occurs somewhere in `s`. */
  ghost predicate Contains(s: string, sep: string) {
    exists j :: OccursAt(s, sep, j)
  }

  /**
   * No part of a split contains the separator: each cut is made at the
   * first occurrence after the previous cut, so a part ends before any
   * occurrence of the separator could be completed in it.
   */
  lemma {:induction false} SplitPartsAvoidSeparator(s: string, sep: string)
    requires sep != []
    ensures forall i :: 0 <= i < |Split(s, sep)| ==> !Contains(Split(s, sep)[i], sep)
    decreases |s|
  {
    var parts := Split(s, sep);
    if |s| < |sep| {
    } else if s[..|sep|] == sep {
      var rest := Split(s[|sep|..], sep);
      SplitPartsAvoidSeparator(s[|sep|..], sep);
      assert parts == [""] + rest;
      forall i | 0 < i < |parts|
        ensures !Contains(parts[i], sep)
      {
        assert parts[i] == rest[i - 1];
      }
    } else {
      var rest := Split(s[1..], sep);
      SplitPartsAvoidSeparator(s[1..], sep);
      JoinSplit(s[1..], sep);
      assert rest[0] == s[1..1 + |rest[0]|];
      ConsAvoids(s, rest[0], sep);
      assert parts == [[s[0]] + rest[0]] + rest[1..];
      forall i | 0 < i < |parts|
        ensures !Contains(parts[i], sep)
      {
        assert parts[i] == rest[i];
      }
    }
  }

  /**
   * Where `Split` cuts: the first part ends at an occurrence of `sep`, the
   * leftmost one (`SplitNoEarlierMatch` says there is none before it), and
   * `SplitRestAfterCut` says the remaining parts are the split of what
   * follows it. With `JoinSplit` this fixes every cut.
   */
  lemma {:induction false} SplitCutsAtFirstMatch(s: string, sep: string)
    requires sep != []
    ensures |Split(s, sep)| > 1 ==> OccursAt(s, sep, |Split(s, sep)[0]|)
    decreases |s|
  {
    if |s| < |sep| {
    } else if s[..|sep|] == sep {
      SplitSepStep(s, sep);
      assert OccursAt(s, sep, 0);
    } else {
      var n := |Split(s[1..], sep)[0]|;
      SplitStep(s, sep);
      SplitCutsAtFirstMatch(s[1..], sep);
      if |Split(s[1..], sep)| > 1 {
        OccursAtShift(s, sep, n + 1);
      }
    }
  }

  /** After the first cut, the remaining parts are the split of the text that follows the separator. */
  lemma {:induction false} SplitRestAfterCut(s: string, sep: string)
    requires sep != []
    ensures |Split(s, sep)| > 1 ==>
      |Split(s, sep)[0]| + |sep| <= |s| &&
      Split(s, sep)[1..] == Split(s[|Split(s, sep)[0]| + |sep|..], sep)
    decreases |s|
  {
    var parts := Split(s, sep);
    if |s| < |sep| {
      assert |parts| == 1;
    } else if s[..|sep|] == sep {
      SplitSepStep(s, sep);
      assert parts[1..] == Split(s[|parts[0]| + |sep|..], sep);
    } else {
      var rest := Split(s[1..], sep);
      var n := |rest[0]|;
      SplitStep(s, sep);
      SplitRestAfterCut(s[1..], sep);
      if |rest| > 1 {
        SplitOfTailSuffix(s, sep, n + |sep|);
        assert parts[1..] == rest[1..];
      }
    }
  }

  /** Splitting what is left after dropping one character and then `k` more is splitting `s[k + 1..]`. */
  lemma SplitOfTailSuffix(s: string, sep: string, k: int)
    requires sep != [] && 0 <= k < |s|
    ensures Split(s[1..][k..], sep) == Split(s[k + 1..], sep)
  {
    assert s[1..][k..] == s[k + 1..];
  }

  /** No occurrence of `sep` starts inside the first part of a split. */
  lemma {:induction false} SplitNoEarlierMatch(s: string, sep: string)
    requires sep != []
    ensures forall j :: 0 <= j < |Split(s, sep)[0]| ==> !OccursAt(s, sep, j)
    decreases |s|
  {
    if |s| >= |sep| && s[..|sep|] != sep {
      var n := |Split(s[1..], sep)[0]|;
      SplitStep(s, sep);
      SplitNoEarlierMatch(s[1..], sep);
      forall j | 0 < j < n + 1
        ensures !OccursAt(s, sep, j)
      {
        OccursAtShift(s, sep, j);
      }
    }
  }

  /** One unfolding of `Split` when `s` starts with `sep`: an empty first part. */
  lemma SplitSepStep(s: string, sep: string)
    requires sep != [] && |s| >= |sep| && s[..|sep|] == sep
    ensures |Split(s, sep)| > 1 && Split(s, sep)[0] == ""
    ensures Split(s, sep)[1..] == Split(s[|sep|..], sep)
  {
    assert Split(s, sep) == [""] + Split(s[|sep|..], sep);
  }

  /** One unfolding of `Split` when `s` does not start with `sep`: the first character joins the first part. */
  lemma SplitStep(s: string, sep: string)
    requires sep != [] && |s| >= |sep| && s[..|sep|] != sep
    ensures |Split(s, sep)| == |Split(s[1..], sep)|
    ensures Split(s, sep)[0] == [s[0]] + Split(s[1..], sep)[0]
    ensures Split(s, sep)[1..] == Split(s[1..], sep)[1..]
  {
  }

  /** An occurrence at `j >= 1` is an occurrence at `j - 1` once the first character is dropped. */
  lemma OccursAtShift(s: string, sep: string, j: int)
    requires s != [] && 1 <= j
    ensures OccursAt(s, sep, j) <==> OccursAt(s[1..], sep, j - 1)
  {
    if j + |sep| <= |s| {
      assert s[1..][j - 1..j - 1 + |sep|] == s[j..j + |sep|];
    }
  }

  /**
   * A string that does not start with `sep`, cut after its first character
   * plus a piece without `sep`, does not contain `sep`.
   */
  lemma ConsAvoids(s: string, p: string, sep: string)
    requires sep != [] && |s| >= |sep| && s[..|sep|] != sep
    requires 1 + |p| <= |s| && p == s[1..1 + |p|]
    requires !Contains(p, sep)
    ensures !Contains([s[0]] + p, sep)
  {
    var first := [s[0]] + p;
    assert first == s[..|first|];
    forall j | 0 <= j && j + |sep| <= |first|
      ensures !OccursAt(first, sep, j)
    {
      if j == 0 {
        assert first[..|sep|] == s[..|sep|];
      } else {
        assert first[j..j + |sep|] == p[j - 1..j - 1 + |sep|];
        assert !OccursAt(p, sep, j - 1);
      }
    }
  }

  /** For a one-character separator: no part of the split holds that character. */
  lemma SplitPartsAvoidChar(s: string, c: char)
    ensures forall i :: 0 <= i < |Split(s, [c])| ==> c !in Split(s, [c])[i]
  {
    SplitPartsAvoidSeparator(s, [c]);
    forall i | 0 <= i < |Split(s, [c])|
      ensures c !in Split(s, [c])[i]
    {
      var part := Split(s, [c])[i];
      if c in part {
        var j :| 0 <= j < |part| && part[j] == c;
        assert OccursAt(part, [c], j);
      }
    }
  }

  /** Trimming only removes characters, so a character absent before is absent after. */
  lemma TrimKeepsAbsent(s: string, sp: char -> bool, c: char)
    requires c !in s
    ensures c !in Trim(s, sp)
  {
    TrimKeepsMiddle(s, sp);
  }

  /** A string without the separator character is one part. */
  lemma {:induction false} SplitWithoutSeparator(x: string, c: char)
    requires c !in x
    ensures Split(x, [c]) == [x]
    decreases |x|
  {
    if |x| >= 1 {
      assert x[..1] == [x[0]];
      SplitWithoutSeparator(x[1..], c);
      assert [x[0]] + x[1..] == x;
    }
  }

  /** The first separator character ends the first part. */
  lemma {:induction false} SplitAtFirst(x: string, c: char, y: string)
    requires c !in x
    ensures Split(x + [c] + y, [c]) == [x] + Split(y, [c])
    decreases |x|
  {
    var s := x + [c] + y;
    if x == [] {
      assert s[..1] == [c];
      assert s[1..] == y;
    } else {
      assert s[..1] == [x[0]];
      assert s[1..] == x[1..] + [c] + y;
      SplitAtFirst(x[1..], c, y);
      assert [x[0]] + x[1..] == x;
    }
  }


  /** Appending to a join appends to its last part. */
  lemma {:induction false} JoinAppend(parts: seq<string>, sep: string, t: string)
    requires |parts| >= 1
    ensures Join(parts, sep) + t == Join(parts[..|parts| - 1] + [parts[|parts| - 1] + t], sep)
    decreases |parts|
  {
    var n := |parts|;
    var q := parts[..n - 1] + [parts[n - 1] + t];
    if n > 1 {
      JoinAppend(parts[1..], sep, t);
      assert q[0] == parts[0];
      assert q[1..] == parts[1..][..n - 2] + [parts[1..][n - 2] + t];
    }
  }

  // ---------------------------------------------------------------------------
  // Trimming, collapsing and deleting characters

  lemma {:induction false} RemoveAppend(a: string, b: string, p: char -> bool)
    ensures Remove(a + b, p) == Remove(a, p) + Remove(b, p)
    decreases |a|
  {
    if a == [] {
      assert a + b == b;
    } else {
      assert (a + b)[1..] == a[1..] + b;
      RemoveAppend(a[1..], b, p);
    }
  }

  /** Trimming the start deletes only characters that `Remove` deletes too. */
  lemma {:induction false} RemoveTrimStart(s: string, sp: char -> bool)
    ensures Remove(TrimStart(s, sp), sp) == Remove(s, sp)
    decreases |s|
  {
    if s != [] && sp(s[0]) {
      RemoveTrimStart(s[1..], sp);
    }
  }

  lemma {:induction false} RemoveTrimEnd(s: string, sp: char -> bool)
    ensures Remove(TrimEnd(s, sp), sp) == Remove(s, sp)
    decreases |s|
  {
    if s != [] && sp(s[|s| - 1]) {
      var init := s[..|s| - 1];
      RemoveTrimEnd(init, sp);
      assert s == init + [s[|s| - 1]];
      RemoveAppend(init, [s[|s| - 1]], sp);
    }
  }

  /** Trimming never changes which non-space characters a string has, nor their order. */
  lemma RemoveTrim(s: string, sp: char -> bool)
    ensures Remove(Trim(s, sp), sp) == Remove(s, sp)
  {
    RemoveTrimStart(s, sp);
    RemoveTrimEnd(TrimStart(s, sp), sp);
  }

  /** Collapsing runs of spaces never changes the non-space characters. */
  lemma {:induction false} RemoveCollapse(s: string, sp: char -> bool)
    requires sp(' ')
    ensures Remove(Collapse(s, sp), sp) == Remove(s, sp)
    decreases |s|
  {
    if s == [] {
    } else if sp(s[0]) {
      var rest := TrimStart(s, sp);
      RemoveCollapse(rest, sp);
      RemoveAppend(" ", Collapse(rest, sp), sp);
      RemoveTrimStart(s, sp);
    } else {
      RemoveAppend([s[0]], Collapse(s[1..], sp), sp);
      RemoveCollapse(s[1..], sp);
    }
  }

  /** A leading space does not survive trimming. */
  lemma TrimLeadingSpace(c: char, s: string, sp: char -> bool)
    requires sp(c)
    ensures Trim([c] + s, sp) == Trim(s, sp)
  {
    assert ([c] + s)[1..] == s;
  }

  /** Lower-casing commutes with deleting a class of characters that lower-casing maps onto itself. */
  lemma {:induction false} LowerRemove(s: string, p: char -> bool)
    requires forall c :: p(LowerChar(c)) == p(c)
    ensures ToLower(Remove(s, p)) == Remove(ToLower(s), p)
    decreases |s|
  {
    if s != [] {
      LowerRemove(s[1..], p);
      assert ToLower(s)[1..] == ToLower(s[1..]);
      assert p(ToLower(s)[0]) == p(s[0]);
      if !p(s[0]) {
        assert ToLower([s[0]] + Remove(s[1..], p)) == [LowerChar(s[0])] + ToLower(Remove(s[1..], p));
      }
    }
  }

  lemma LowerTwice(s: string)
    ensures ToLower(ToLower(s)) == ToLower(s)
  {
  }
}
