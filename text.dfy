/**
 * The string operations the converter relies on, with Python's meaning:
 * substring test (`p in s`), `s.replace(p, r)`, `str.endswith`, `str.lower`
 * and `s.split('.')[-1]`.
 */
module Text {

  /** `p` occurs in `s` starting at index `i`. */
  predicate OccursAt(s: string, p: string, i: nat)
  {
    i + |p| <= |s| && s[i..i + |p|] == p
  }

  predicate StartsWith(s: string, p: string)
  {
    |p| <= |s| && s[..|p|] == p
  }

  predicate EndsWith(s: string, p: string)
  {
    |p| <= |s| && s[|s| - |p|..] == p
  }

  /** Python's substring test `p in s`, searching from the left. */
  function Contains(s: string, p: string): bool
    decreases |s|
  {
    if |s| < |p| then false
    else StartsWith(s, p) || Contains(s[1..], p)
  }

  lemma {:induction false} ContainsHasWitness(s: string, p: string)
    requires Contains(s, p)
    ensures exists i: nat :: OccursAt(s, p, i)
    decreases |s|
  {
    if StartsWith(s, p) {
      assert OccursAt(s, p, 0);
    } else {
      ContainsHasWitness(s[1..], p);
      var i: nat :| OccursAt(s[1..], p, i);
      assert s[1..][i..i + |p|] == s[i + 1..i + 1 + |p|];
      assert OccursAt(s, p, i + 1);
    }
  }

  lemma {:induction false} OccursAtContains(s: string, p: string, i: nat)
    requires OccursAt(s, p, i)
    ensures Contains(s, p)
    decreases i
  {
    if i > 0 {
      assert s[1..][i - 1..i - 1 + |p|] == s[i..i + |p|];
      OccursAtContains(s[1..], p, i - 1);
    }
  }

  /** The substring test agrees with the existence of an occurrence. */
  lemma ContainsIff(s: string, p: string)
    ensures Contains(s, p) <==> exists i: nat :: OccursAt(s, p, i)
  {
    if Contains(s, p) {
      ContainsHasWitness(s, p);
    }
    if exists i: nat :: OccursAt(s, p, i) {
      var i: nat :| OccursAt(s, p, i);
      OccursAtContains(s, p, i);
    }
  }

  /** `p` does not occur in `s` when its character at `k` disagrees with `s` wherever `p` could start. */
  lemma MismatchAbsent(s: string, p: string, k: nat)
    requires k < |p|
    requires forall j | k <= j <= |s| - |p| + k :: s[j] != p[k]
    ensures !Contains(s, p)
  {
    forall i: nat
      ensures !OccursAt(s, p, i)
    {
      if i + |p| <= |s| {
        var j := i + k;
        assert s[i..i + |p|][k] == s[j];
      }
    }
    ContainsIff(s, p);
  }

  /** Containment is transitive: whatever contains `p` contains every part of `p`. */
  lemma ContainsTransitive(s: string, p: string, q: string)
    requires Contains(p, q)
    ensures Contains(s, p) ==> Contains(s, q)
  {
    if Contains(s, p) {
      ContainsHasWitness(s, p);
      ContainsHasWitness(p, q);
      var i: nat :| OccursAt(s, p, i);
      var j: nat :| OccursAt(p, q, j);
      forall k | 0 <= k < |q|
        ensures s[i + j + k] == q[k]
      {
        assert q[k] == p[j + k] == s[i + j + k];
      }
      assert s[i + j..i + j + |q|] == q;
      OccursAtContains(s, q, i + j);
    }
  }

  /**
   * Python's `s.replace(p, r)` for a non-empty `p`: occurrences are found
   * from the left, do not overlap, and the text put in is not searched again.
   */
  function ReplaceAll(s: string, p: string, r: string): string
    requires p != []
    decreases |s|
  {
    if |s| < |p| then s
    else if StartsWith(s, p) then r + ReplaceAll(s[|p|..], p, r)
    else [s[0]] + ReplaceAll(s[1..], p, r)
  }

  /** Where `p` does not occur, replacing it changes nothing. */
  lemma {:induction false} ReplaceAbsent(s: string, p: string, r: string)
    requires p != [] && !Contains(s, p)
    ensures ReplaceAll(s, p, r) == s
    decreases |s|
  {
    if |s| >= |p| {
      ReplaceAbsent(s[1..], p, r);
      assert [s[0]] + s[1..] == s;
    }
  }

  /** One step of ReplaceAll at an occurrence. */
  lemma ReplaceAtStart(s: string, p: string, r: string)
    requires p != [] && StartsWith(s, p)
    ensures ReplaceAll(s, p, r) == r + ReplaceAll(s[|p|..], p, r)
  {
  }

  /** One step of ReplaceAll past a character that starts no occurrence. */
  lemma ReplaceSkipOne(s: string, p: string, r: string)
    requires p != [] && s != [] && !StartsWith(s, p)
    ensures ReplaceAll(s, p, r) == [s[0]] + ReplaceAll(s[1..], p, r)
  {
    if |s| < |p| {
      assert [s[0]] + s[1..] == s;
    }
  }

  /** Text in which no occurrence starts passes through unchanged. */
  lemma {:induction false} ReplacePrefix(a: string, b: string, p: string, r: string)
    requires p != []
    requires forall j | 0 <= j < |a| :: !StartsWith((a + b)[j..], p)
    ensures ReplaceAll(a + b, p, r) == a + ReplaceAll(b, p, r)
    decreases |a|
  {
    if a == [] {
      assert a + b == b;
    } else {
      var s := a + b;
      var t := a[1..] + b;
      var x := ReplaceAll(b, p, r);
      assert s[1..] == t;
      forall j | 0 <= j < |a[1..]|
        ensures !StartsWith(t[j..], p)
      {
        assert t[j..] == s[j + 1..];
      }
      ReplacePrefix(a[1..], b, p, r);
      assert s == s[0..];
      ReplaceSkipOne(s, p, r);
      assert [a[0]] + (a[1..] + x) == a + x;
    }
  }

  /**
   * The first occurrence of `p` is replaced by `r`, the text before it is
   * kept, and the search resumes after it in the original text: together with
   * ReplaceAbsent this determines ReplaceAll completely.
   */
  lemma ReplaceAtFirst(s: string, p: string, r: string, i: nat)
    requires p != [] && OccursAt(s, p, i)
    requires forall j: nat :: j < i ==> !OccursAt(s, p, j)
    ensures ReplaceAll(s, p, r) == s[..i] + r + ReplaceAll(s[i + |p|..], p, r)
  {
    NoOccurrenceBefore(s, p, i);
    ReplacePrefix(s[..i], s[i..], p, r);
    OccurrenceAhead(s, p, r, i);
  }

  lemma NoOccurrenceBefore(s: string, p: string, i: nat)
    requires i <= |s|
    requires forall j: nat :: j < i ==> !OccursAt(s, p, j)
    ensures s[..i] + s[i..] == s
    ensures forall j | 0 <= j < |s[..i]| :: !StartsWith((s[..i] + s[i..])[j..], p)
  {
    assert s[..i] + s[i..] == s;
    forall j | 0 <= j < i
      ensures !StartsWith(s[j..], p)
    {
      assert !OccursAt(s, p, j);
      assert |p| <= |s[j..]| ==> s[j..][..|p|] == s[j..j + |p|];
    }
  }

  lemma OccurrenceAhead(s: string, p: string, r: string, i: nat)
    requires p != [] && OccursAt(s, p, i)
    ensures ReplaceAll(s[i..], p, r) == r + ReplaceAll(s[i + |p|..], p, r)
  {
    var b := s[i..];
    assert b[..|p|] == s[i..i + |p|];
    ReplaceAtStart(b, p, r);
    assert b[|p|..] == s[i + |p|..];
  }

  function LowerChar(c: char): char
  {
    if 'A' <= c <= 'Z' then (c as int + 32) as char else c
  }

  /** `str.lower()` on the ASCII letters; every other character is kept. */
  function Lower(s: string): (r: string)
    ensures |r| == |s|
  {
    seq(|s|, i requires 0 <= i < |s| => LowerChar(s[i]))
  }

  /** Python's `s.split('.')[-1]`: the text after the last dot, or all of `s`. */
  function AfterLastDot(s: string): string
    decreases |s|
  {
    if s == [] then []
    else if s[|s| - 1] == '.' then []
    else AfterLastDot(s[..|s| - 1]) + [s[|s| - 1]]
  }

  /** The last segment is a dot-free suffix that starts the text or follows a dot. */
  lemma {:induction false} AfterLastDotIsLastSegment(s: string)
    ensures var r := AfterLastDot(s);
      EndsWith(s, r) && '.' !in r && (|r| == |s| || s[|s| - |r| - 1] == '.')
    decreases |s|
  {
    if s != [] && s[|s| - 1] != '.' {
      var s' := s[..|s| - 1];
      AfterLastDotIsLastSegment(s');
      var r' := AfterLastDot(s');
      var c := s[|s| - 1];
      assert AfterLastDot(s) == r' + [c];
      assert s == s' + [c];
      assert s[|s| - |r'| - 1..] == s'[|s'| - |r'|..] + [c];
      assert forall x | x in r' + [c] :: x in r' || x == c;
      if |r'| < |s'| {
        assert s[|s| - |r'| - 2] == s'[|s'| - |r'| - 1];
      }
    }
  }

  /** A text ending in a dot and then a dot-free `e` has `e` as its last segment. */
  lemma {:induction false} AfterLastDotOfExtension(s: string, e: string)
    requires '.' !in e && EndsWith(s, "." + e)
    ensures AfterLastDot(s) == e
    decreases |e|
  {
    if e == [] {
      assert s[|s| - 1] == ("." + e)[0];
    } else {
      var s' := s[..|s| - 1];
      assert s'[|s'| - |e[..|e| - 1]| - 1..] == s[|s| - |e| - 1..|s| - 1];
      assert ("." + e)[..|e|] == "." + e[..|e| - 1];
      assert e[|e| - 1] in e;
      AfterLastDotOfExtension(s', e[..|e| - 1]);
      assert e[..|e| - 1] + [e[|e| - 1]] == e;
    }
  }
}
