/**
 * The JavaScript string operations the gallery relies on, over `string`
 * (= `seq<char>`): `split` and `join` with a one-character separator,
 * `lastIndexOf`, `indexOf`, `replace` with a string pattern (first
 * occurrence only) and `toLowerCase` restricted to ASCII letters.
 */
module Text {

  /** `parts` joined with `sep` between neighbours, as Array.prototype.join does. */
  function Join(parts: seq<string>, sep: char): string
  {
    if |parts| == 0 then ""
    else if |parts| == 1 then parts[0]
    else Join(parts[..|parts| - 1], sep) + [sep] + parts[|parts| - 1]
  }

  /**
   * `s` cut at every occurrence of `sep`, as String.prototype.split does with
   * a one-character separator; there is always at least one part, the whole
   * string when `sep` does not occur. `SplitJoin`, `SplitPartsClean` and
   * `SplitCount` state what the parts are.
   */
  function Split(s: string, sep: char): (parts: seq<string>)
    ensures |parts| >= 1
    decreases |s|
  {
    if |s| == 0 then [""]
    else
      var init := Split(s[..|s| - 1], sep);
      var c := s[|s| - 1];
      if c == sep then init + [""]
      else init[..|init| - 1] + [init[|init| - 1] + [c]]
  }

  /** Joining the parts back with the separator gives the string. */
  lemma {:induction false} SplitJoin(s: string, sep: char)
    ensures Join(Split(s, sep), sep) == s
    decreases |s|
  {
    if |s| > 0 {
      var t := s[..|s| - 1];
      var c := s[|s| - 1];
      assert s == t + [c];
      var init := Split(t, sep);
      SplitJoin(t, sep);
      var parts := Split(s, sep);
      var k := |init| - 1;
      if c == sep {
        assert parts == init + [""];
        assert parts[..|parts| - 1] == init;
      } else {
        assert parts == init[..k] + [init[k] + [c]];
        assert parts[..k] == init[..k];
        if k > 0 {
          assert init == init[..k] + [init[k]];
          assert Join(init, sep) == Join(init[..k], sep) + [sep] + init[k];
          assert Join(parts, sep) == Join(init[..k], sep) + [sep] + (init[k] + [c]);
        }
      }
    }
  }

  /** No part holds the separator. */
  lemma {:induction false} SplitPartsClean(s: string, sep: char)
    ensures forall i :: 0 <= i < |Split(s, sep)| ==> sep !in Split(s, sep)[i]
    decreases |s|
  {
    if |s| > 0 {
      var t := s[..|s| - 1];
      var c := s[|s| - 1];
      var init := Split(t, sep);
      SplitPartsClean(t, sep);
      var parts := Split(s, sep);
      var k := |init| - 1;
      if c == sep {
        assert parts == init + [""];
      } else {
        assert parts == init[..k] + [init[k] + [c]];
        assert forall i :: 0 <= i < k ==> parts[i] == init[i];
      }
    }
  }

  /** There are two parts or more exactly when the separator occurs. */
  lemma {:induction false} SplitCount(s: string, sep: char)
    ensures sep in s <==> |Split(s, sep)| >= 2
    decreases |s|
  {
    if |s| > 0 {
      var t := s[..|s| - 1];
      var c := s[|s| - 1];
      assert s == t + [c];
      SplitCount(t, sep);
      var init := Split(t, sep);
      var parts := Split(s, sep);
      if c == sep {
        assert |parts| == |init| + 1;
      } else {
        assert |parts| == |init|;
        assert sep in s <==> sep in t;
      }
    }
  }

  /** A string without the separator splits into itself alone. */
  lemma SplitWithoutSeparator(s: string, sep: char)
    requires sep !in s
    ensures Split(s, sep) == [s]
  {
    var parts := Split(s, sep);
    SplitCount(s, sep);
    SplitJoin(s, sep);
    assert |parts| == 1 && Join(parts, sep) == parts[0];
  }

  /** The first part of a split is the text before the first separator. */
  lemma {:induction false} SplitFirstPart(x: string, y: string, sep: char)
    requires sep !in x
    ensures Split(x + [sep] + y, sep)[0] == x
    decreases |y|
  {
    var s := x + [sep] + y;
    if |y| == 0 {
      assert s[..|s| - 1] == x;
      SplitWithoutSeparator(x, sep);
    } else {
      var y' := y[..|y| - 1];
      assert s[..|s| - 1] == x + [sep] + y';
      SplitFirstPart(x, y', sep);
      assert sep in s[..|s| - 1] by { assert (x + [sep] + y')[|x|] == sep; }
      SplitCount(s[..|s| - 1], sep);
    }
  }

  /** The index of the last `c` in `s`, or -1 when there is none. */
  function LastIndexOf(s: string, c: char): (r: int)
    ensures -1 <= r < |s|
  {
    LastIndexBefore(s, c, |s|)
  }

  /** The index of the last `c` among the first `n` characters of `s`, or -1. */
  function LastIndexBefore(s: string, c: char, n: nat): (r: int)
    requires n <= |s|
    ensures -1 <= r < n
  {
    if n == 0 then -1
    else if s[n - 1] == c then n - 1
    else LastIndexBefore(s, c, n - 1)
  }

  /**
   * `LastIndexOf` finds `c` exactly when `s` holds one, and what it finds is
   * a `c` with none after it.
   */
  lemma LastIndexOfSpec(s: string, c: char)
    ensures var r := LastIndexOf(s, c);
      && (r == -1 <==> c !in s)
      && (r >= 0 ==> s[r] == c)
      && (forall j :: r < j < |s| ==> s[j] != c)
  {
    LastIndexBeforeSpec(s, c, |s|);
  }

  lemma {:induction false} LastIndexBeforeSpec(s: string, c: char, n: nat)
    requires n <= |s|
    ensures var r := LastIndexBefore(s, c, n);
      && (r == -1 <==> forall j :: 0 <= j < n ==> s[j] != c)
      && (r >= 0 ==> s[r] == c)
      && (forall j :: r < j < n ==> s[j] != c)
  {
    if n > 0 && s[n - 1] != c {
      LastIndexBeforeSpec(s, c, n - 1);
    }
  }

  /** `p` occurs in `s` starting at position `k`. */
  predicate OccursAt(s: string, p: string, k: int)
  {
    0 <= k && k + |p| <= |s| && s[k..k + |p|] == p
  }

  /**
   * The first position at or after `from` where `p` occurs in `s`, or -1, as
   * String.prototype.indexOf does.
   */
  function IndexOf(s: string, p: string, from: nat): (r: int)
    ensures r == -1 || (from <= r && OccursAt(s, p, r))
    ensures forall k :: from <= k && OccursAt(s, p, k) ==> 0 <= r <= k
    decreases |s| - from
  {
    if from + |p| > |s| then -1
    else if s[from..from + |p|] == p then from
    else IndexOf(s, p, from + 1)
  }

  /**
   * String.prototype.replace with a string pattern: only the first
   * occurrence of `p` is replaced by `rep`; without one, `s` is unchanged.
   */
  function ReplaceFirst(s: string, p: string, rep: string): string
  {
    var k := IndexOf(s, p, 0);
    if k < 0 then s else s[..k] + rep + s[k + |p|..]
  }

  /** Replacing a pattern that `s` starts with rewrites exactly that prefix. */
  lemma ReplaceLeadingPattern(p: string, rest: string, rep: string)
    ensures ReplaceFirst(p + rest, p, rep) == rep + rest
  {
    var s := p + rest;
    assert OccursAt(s, p, 0) by { assert s[0..|p|] == p; }
    assert IndexOf(s, p, 0) == 0;
    assert s[|p|..] == rest;
  }

  predicate IsAsciiUpper(c: char)
  {
    'A' <= c <= 'Z'
  }

  /** String.prototype.toLowerCase on one character, for the ASCII letters. */
  function LowerChar(c: char): char
  {
    if IsAsciiUpper(c) then (c as int + 32) as char else c
  }

  /** String.prototype.toLowerCase, for the ASCII letters. */
  function ToLower(s: string): (r: string)
    ensures |r| == |s|
  {
    if |s| == 0 then ""
    else [LowerChar(s[0])] + ToLower(s[1..])
  }

  /** `ToLower` lower-cases each character in place. */
  lemma {:induction false} ToLowerSpec(s: string)
    ensures forall i :: 0 <= i < |s| ==> ToLower(s)[i] == LowerChar(s[i])
  {
    if |s| > 0 {
      ToLowerSpec(s[1..]);
    }
  }
}
