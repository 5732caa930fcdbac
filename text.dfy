/** Text comparison as the outfit manager uses it: case-insensitive equality
    (Go's strings.EqualFold) and the byte-wise order of Go strings applied to
    lower-cased text (strings.ToLower followed by < or strings.Compare).

    Case folding is modelled for ASCII letters only. Go compares strings by
    their UTF-8 bytes; that order coincides with the order of code points used
    here, so LexLess is Go's string < on the same text. */
module Text {

  /** ASCII lower-casing of one character. */
  function LowerChar(c: char): char
  {
    if 'A' <= c <= 'Z' then (c as int - 'A' as int + 'a' as int) as char else c
  }

  /** strings.ToLower, restricted to ASCII letters. */
  function Lower(s: string): (r: string)
    ensures |r| == |s|
    ensures forall i :: 0 <= i < |s| ==> r[i] == LowerChar(s[i])
    decreases |s|
  {
    if s == [] then [] else [LowerChar(s[0])] + Lower(s[1..])
  }

  /** strings.EqualFold(a, b), modelled as equality after lower-casing:
      the strings have the same length and agree character by character
      once each character is folded. */
  function EqualFold(a: string, b: string): (r: bool)
    ensures r <==> |a| == |b| && forall i :: 0 <= i < |a| ==> LowerChar(a[i]) == LowerChar(b[i])
  {
    Lower(a) == Lower(b)
  }

  /** Go's a < b on strings: the first differing character decides, and a
      proper prefix comes first. */
  predicate LexLess(a: string, b: string)
    decreases |a|
  {
    if |a| == 0 then |b| > 0
    else if |b| == 0 then false
    else if a[0] != b[0] then a[0] < b[0]
    else LexLess(a[1..], b[1..])
  }

  /** LexLess is the usual reading of Go's string order: a < b exactly when
      some position k decides it, a and b agreeing before k. */
  lemma {:induction false} LexLessDecided(a: string, b: string)
    ensures LexLess(a, b) <==> exists k :: DecidedAt(a, b, k)
    decreases |a|
  {
    if |a| == 0 || |b| == 0 || a[0] != b[0] {
      DecidedAtHead(a, b);
    } else {
      DecidedAtTail(a, b);
      LexLessDecided(a[1..], b[1..]);
    }
  }

  /** a and b agree on their first k characters, and position k puts a
      first: a ends there while b goes on, or a's character is smaller. */
  ghost predicate DecidedAt(a: string, b: string, k: int)
  {
    && 0 <= k <= |a| && k <= |b| && a[..k] == b[..k]
    && ((k == |a| && k < |b|) || (k < |a| && k < |b| && a[k] < b[k]))
  }

  /** When the first characters differ, or a string is empty, position 0
      decides. */
  lemma DecidedAtHead(a: string, b: string)
    requires |a| == 0 || |b| == 0 || a[0] != b[0]
    ensures (exists k :: DecidedAt(a, b, k)) <==>
      (if |a| == 0 then |b| > 0 else if |b| == 0 then false else a[0] < b[0])
  {
    if exists k :: DecidedAt(a, b, k) {
      var k :| DecidedAt(a, b, k);
      SamePrefixSameHead(a, b, k);
    } else {
      assert !DecidedAt(a, b, 0);
    }
  }

  lemma SamePrefixSameHead(a: string, b: string, k: int)
    ensures 0 < k <= |a| && k <= |b| && a[..k] == b[..k] ==> a[0] == b[0]
  {
    if 0 < k <= |a| && k <= |b| && a[..k] == b[..k] {
      assert a[0] == a[..k][0];
    }
  }

  /** With equal first characters, the decision moves to the tails. */
  lemma DecidedAtTail(a: string, b: string)
    requires |a| > 0 && |b| > 0 && a[0] == b[0]
    ensures (exists k :: DecidedAt(a, b, k)) <==> (exists k :: DecidedAt(a[1..], b[1..], k))
  {
    if exists k :: DecidedAt(a, b, k) {
      var k :| DecidedAt(a, b, k);
      assert k > 0;
      assert a[1..][..k - 1] == a[..k][1..] && b[1..][..k - 1] == b[..k][1..];
      assert DecidedAt(a[1..], b[1..], k - 1);
    }
    if exists k :: DecidedAt(a[1..], b[1..], k) {
      var k :| DecidedAt(a[1..], b[1..], k);
      assert a[..k + 1] == [a[0]] + a[1..][..k] && b[..k + 1] == [b[0]] + b[1..][..k];
      assert DecidedAt(a, b, k + 1);
    }
  }

  lemma {:induction false} LexLessIrreflexive(a: string)
    ensures !LexLess(a, a)
    decreases |a|
  {
    if |a| > 0 {
      LexLessIrreflexive(a[1..]);
    }
  }

  lemma {:induction false} LexLessTransitive(a: string, b: string, c: string)
    requires LexLess(a, b) && LexLess(b, c)
    ensures LexLess(a, c)
    decreases |a|
  {
    if |a| > 0 && a[0] == b[0] && b[0] == c[0] {
      LexLessTransitive(a[1..], b[1..], c[1..]);
    }
  }

  /** Any two different strings are ordered one way or the other. */
  lemma {:induction false} LexLessTotal(a: string, b: string)
    requires a != b
    ensures LexLess(a, b) || LexLess(b, a)
    decreases |a|
  {
    if |a| > 0 && |b| > 0 && a[0] == b[0] {
      assert a == [a[0]] + a[1..] && b == [b[0]] + b[1..];
      LexLessTotal(a[1..], b[1..]);
    }
  }
}
