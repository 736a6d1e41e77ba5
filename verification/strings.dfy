/** The handful of `java.lang.String` operations the loader relies on, restricted to
    ASCII letter case (the model does not do Unicode case mapping). */
module Strings {

  /** `String.startsWith`. */
  predicate StartsWith(s: string, prefix: string)
  {
    |prefix| <= |s| && s[..|prefix|] == prefix
  }

  /** A string that starts with `p + q` starts with `p`. */
  lemma StartsWithShorter(s: string, p: string, q: string)
    requires StartsWith(s, p + q)
    ensures StartsWith(s, p)
  {
    assert s[..|p|] == s[..|p + q|][..|p|];
  }

  /** `Character.toLowerCase` on ASCII: upper-case letters map to lower case,
      everything else is kept. */
  function LowerChar(c: char): char
  {
    if 'A' <= c <= 'Z' then (c as int + 32) as char else c
  }

  /** `Character.toUpperCase` on ASCII. */
  function UpperChar(c: char): char
  {
    if 'a' <= c <= 'z' then (c as int - 32) as char else c
  }

  /** `String.toLowerCase`, character by character. */
  function ToLower(s: string): (r: string)
    ensures |r| == |s|
    ensures forall i :: 0 <= i < |s| ==> r[i] == LowerChar(s[i])
  {
    if s == [] then [] else [LowerChar(s[0])] + ToLower(s[1..])
  }

  /** `String.equalsIgnoreCase` on ASCII. */
  predicate EqualsIgnoreCase(a: string, b: string)
  {
    |a| == |b| && forall i :: 0 <= i < |a| ==> LowerChar(a[i]) == LowerChar(b[i])
  }

  /** `target` appears in `s` starting at index `i`. */
  predicate OccursAt(s: string, target: string, i: int)
  {
    0 <= i && i + |target| <= |s| && s[i..i + |target|] == target
  }

  /** `target` appears somewhere in `s`. */
  predicate Occurs(s: string, target: string)
  {
    exists i :: 0 <= i <= |s| && OccursAt(s, target, i)
  }

  /** `String.replace(CharSequence, CharSequence)`: one left-to-right pass that
      replaces every non-overlapping occurrence of `target`. Text produced by a
      replacement is never scanned again. The loader only passes non-empty targets. */
  function Replace(s: string, target: string, replacement: string): string
    requires |target| > 0
    decreases |s|
  {
    if s == [] then []
    else if StartsWith(s, target) then replacement + Replace(s[|target|..], target, replacement)
    else [s[0]] + Replace(s[1..], target, replacement)
  }

  /** One step of `Replace` where the text does not start with the target. */
  lemma ReplaceStepMiss(s: string, target: string, replacement: string)
    requires |target| > 0 && s != [] && !StartsWith(s, target)
    ensures Replace(s, target, replacement) == [s[0]] + Replace(s[1..], target, replacement)
  {
  }

  /** One step of `Replace` where the text starts with the target. */
  lemma ReplaceStepHit(s: string, target: string, replacement: string)
    requires |target| > 0 && StartsWith(s, target)
    ensures Replace(s, target, replacement) == replacement + Replace(s[|target|..], target, replacement)
  {
  }

  /** A target whose first character is absent from `s` does not occur in it. */
  lemma AbsentFirstChar(s: string, target: string)
    requires |target| > 0 && target[0] !in s
    ensures !Occurs(s, target)
  {
    forall i | 0 <= i <= |s| ensures !OccursAt(s, target, i) {
      if i + |target| <= |s| {
        assert s[i..i + |target|][0] == s[i];
      }
    }
  }

  /** Text without any occurrence of the target comes out of `Replace` unchanged. */
  lemma {:induction false} ReplaceWithoutOccurrence(s: string, target: string, replacement: string)
    requires |target| > 0
    requires !Occurs(s, target)
    ensures Replace(s, target, replacement) == s
    decreases |s|
  {
    if s != [] {
      if StartsWith(s, target) {
        assert OccursAt(s, target, 0);
      }
      forall i | 0 <= i <= |s[1..]| && OccursAt(s[1..], target, i)
        ensures false
      {
        assert s[1..][i..i + |target|] == s[i + 1..i + 1 + |target|];
        assert OccursAt(s, target, i + 1);
      }
      ReplaceWithoutOccurrence(s[1..], target, replacement);
    }
  }

  /** Replacing one character by another keeps the length and rewrites exactly the
      positions that held the replaced character. */
  lemma {:induction false} ReplaceCharByChar(s: string, c: char, d: char)
    ensures |Replace(s, [c], [d])| == |s|
    ensures forall i :: 0 <= i < |s| ==>
              Replace(s, [c], [d])[i] == (if s[i] == c then d else s[i])
    decreases |s|
  {
    if s != [] {
      ReplaceCharByChar(s[1..], c, d);
      var r := Replace(s, [c], [d]);
      if StartsWith(s, [c]) {
        assert r == [d] + Replace(s[1..], [c], [d]);
      } else {
        assert r == [s[0]] + Replace(s[1..], [c], [d]);
      }
      forall i | 0 <= i < |s|
        ensures r[i] == (if s[i] == c then d else s[i])
      {
        if i > 0 {
          assert s[i] == s[1..][i - 1];
        }
      }
    }
  }

  /** A one-character target that does not occur in its replacement is gone
      from the result. */
  lemma {:induction false} ReplaceRemovesChar(s: string, c: char, replacement: string)
    requires c !in replacement
    ensures c !in Replace(s, [c], replacement)
    decreases |s|
  {
    if s != [] {
      ReplaceRemovesChar(s[1..], c, replacement);
    }
  }

  /** With a one-character target no occurrence can straddle a split, so `Replace`
      distributes over concatenation. */
  lemma {:induction false} ReplaceCharConcat(a: string, b: string, c: char, replacement: string)
    ensures Replace(a + b, [c], replacement) == Replace(a, [c], replacement) + Replace(b, [c], replacement)
    decreases |a|
  {
    if a != [] {
      assert (a + b)[1..] == a[1..] + b;
      ReplaceCharConcat(a[1..], b, c, replacement);
    } else {
      assert a + b == b;
    }
  }
}
