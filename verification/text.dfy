/** Java's `String.replace(CharSequence, CharSequence)`. */
module Text {

  /**
   Replaces every occurrence of `target` in `s`, scanning left to right and
   resuming after each replaced occurrence, so occurrences do not overlap and
   the inserted text is never rescanned. Replacing by a text of the same
   length keeps the length, and replacing the target by itself changes
   nothing.
   */
  function Replace(s: string, target: string, repl: string): (r: string)
    requires |target| > 0
    ensures |repl| == |target| ==> |r| == |s|
    ensures repl == target ==> r == s
    decreases |s|
  {
    if |s| < |target| then s
    else if s[..|target|] == target then
      assert target + s[|target|..] == s;
      repl + Replace(s[|target|..], target, repl)
    else
      assert [s[0]] + s[1..] == s;
      [s[0]] + Replace(s[1..], target, repl)
  }

  /** `t` occurs in `s` starting at position `i`. */
  predicate OccursAt(s: string, t: string, i: nat)
  {
    i + |t| <= |s| && s[i..i + |t|] == t
  }

  /** Occurrences in a suffix are the occurrences in the whole text, shifted. */
  lemma OccursShift(s: string, t: string, k: nat, i: nat)
    requires k <= |s|
    ensures OccursAt(s[k..], t, i) <==> OccursAt(s, t, i + k)
  {
    if i + k + |t| <= |s| {
      assert s[k..][i..i + |t|] == s[i + k..i + k + |t|];
    }
  }

  /** A text in which `target` occurs nowhere is left as it is. */
  lemma {:induction false} ReplaceNoOccurrence(s: string, target: string, repl: string)
    requires |target| > 0
    requires forall i: nat :: !OccursAt(s, target, i)
    ensures Replace(s, target, repl) == s
    decreases |s|
  {
    if |s| >= |target| {
      assert !OccursAt(s, target, 0);
      forall i: nat
        ensures !OccursAt(s[1..], target, i)
      {
        OccursShift(s, target, 1, i);
      }
      ReplaceNoOccurrence(s[1..], target, repl);
      assert [s[0]] + s[1..] == s;
    }
  }

  /** A text in which `target` occurs exactly once has that occurrence, and nothing else, replaced. */
  lemma {:induction false} ReplaceOnce(a: string, target: string, b: string, repl: string)
    requires |target| > 0
    requires forall i: nat :: OccursAt(a + target + b, target, i) ==> i == |a|
    ensures Replace(a + target + b, target, repl) == a + repl + b
    decreases |a|
  {
    var s := a + target + b;
    if |a| == 0 {
      assert s == target + b;
      ReplaceAtStart(target, b, repl);
      assert s[|target|..] == b;
      forall i: nat
        ensures !OccursAt(b, target, i)
      {
        OccursShift(s, target, |target|, i);
      }
      ReplaceNoOccurrence(b, target, repl);
    } else {
      assert !OccursAt(s, target, 0);
      assert s == [a[0]] + (a[1..] + target + b);
      ReplaceSkipPrefix(s, target, repl);
      assert s[1..] == a[1..] + target + b;
      forall i: nat
        ensures OccursAt(a[1..] + target + b, target, i) ==> i == |a[1..]|
      {
        OccursShift(s, target, 1, i);
      }
      ReplaceOnce(a[1..], target, b, repl);
      assert [a[0]] + (a[1..] + repl + b) == a + repl + b;
    }
  }

  /** A text that does not start with `target` keeps its first character. */
  lemma ReplaceSkipPrefix(s: string, target: string, repl: string)
    requires |target| > 0 && |s| > 0 && !OccursAt(s, target, 0)
    ensures Replace(s, target, repl) == [s[0]] + Replace(s[1..], target, repl)
  {
  }

  /**
   A text without the first character of `target` is left as it is: the
   special case of `ReplaceNoOccurrence` whose hypothesis is checked on
   literals cheaply, kept for the data URL proof.
   */
  lemma {:induction false} ReplaceAbsent(s: string, target: string, repl: string)
    requires |target| > 0 && target[0] !in s
    ensures Replace(s, target, repl) == s
    decreases |s|
  {
    if |s| >= |target| {
      assert s[..|target|][0] == s[0];
      ReplaceAbsent(s[1..], target, repl);
      assert [s[0]] + s[1..] == s;
    }
  }

  /** A text starting with `target` has that occurrence replaced first. */
  lemma ReplaceAtStart(target: string, rest: string, repl: string)
    requires |target| > 0
    ensures Replace(target + rest, target, repl) == repl + Replace(rest, target, repl)
  {
    var s := target + rest;
    assert s[..|target|] == target;
    assert s[|target|..] == rest;
  }

  /** A character that cannot start `target` is copied as it is. */
  lemma ReplaceSkip(c: char, rest: string, target: string, repl: string)
    requires |target| > 0 && c != target[0]
    ensures Replace([c] + rest, target, repl) == [c] + Replace(rest, target, repl)
  {
    var s := [c] + rest;
    if |s| >= |target| {
      assert s[..|target|][0] == c;
    }
    assert s[1..] == rest;
  }

  /**
   A text holding `target` once, with the first character of `target`
   nowhere else, has exactly that occurrence replaced: the special case of
   `ReplaceOnce` whose hypothesis is checked on literals cheaply, kept for
   the data URL proof.
   */
  lemma {:induction false} ReplaceSingle(a: string, target: string, b: string, repl: string)
    requires |target| > 0
    requires target[0] !in a && target[0] !in b
    ensures Replace(a + target + b, target, repl) == a + repl + b
    decreases |a|
  {
    if |a| == 0 {
      assert a + target + b == target + b;
      ReplaceAtStart(target, b, repl);
      ReplaceAbsent(b, target, repl);
    } else {
      assert a + target + b == [a[0]] + (a[1..] + target + b);
      ReplaceSkip(a[0], a[1..] + target + b, target, repl);
      ReplaceSingle(a[1..], target, b, repl);
      assert [a[0]] + (a[1..] + repl + b) == a + repl + b;
    }
  }
}
