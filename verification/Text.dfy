/** Strings as the generator, the catalog and the recogniser use them. */
module Text {

  datatype Option<+T> = None | Some(value: T)

  /** Lower-cases one ASCII letter and no other character (foldASCII). */
  function FoldChar(c: char): char {
    if 'A' <= c <= 'Z' then (c as int + 32) as char else c
  }

  /** Upper-cases one ASCII letter and no other character. */
  function UpperChar(c: char): char {
    if 'a' <= c <= 'z' then (c as int - 32) as char else c
  }

  /** The name as SQLite compares names: letter case of ASCII letters is ignored. */
  function Fold(s: string): (r: string)
    ensures |r| == |s|
  {
    seq(|s|, i requires 0 <= i < |s| => FoldChar(s[i]))
  }

  function Upper(s: string): (r: string)
    ensures |r| == |s|
  {
    seq(|s|, i requires 0 <= i < |s| => UpperChar(s[i]))
  }

  /** Folding decides exactly equality up to the case of ASCII letters. */
  lemma FoldIsUpperEquality(a: string, b: string)
    ensures Fold(a) == Fold(b) <==> Upper(a) == Upper(b)
  {
    if Fold(a) == Fold(b) {
      forall i | 0 <= i < |a| ensures UpperChar(a[i]) == UpperChar(b[i]) {
        assert Fold(a)[i] == Fold(b)[i];
      }
      assert Upper(a) == Upper(b);
    }
    if Upper(a) == Upper(b) {
      assert |a| == |Upper(a)| == |b|;
      forall i | 0 <= i < |a| ensures FoldChar(a[i]) == FoldChar(b[i]) {
        assert Upper(a)[i] == Upper(b)[i];
      }
      assert Fold(a) == Fold(b);
    }
  }

  lemma FoldConcat(a: string, b: string)
    ensures Fold(a + b) == Fold(a) + Fold(b)
    ensures Upper(a + b) == Upper(a) + Upper(b)
  {
  }

  /** strings.Join. */
  function Join(parts: seq<string>, sep: string): string {
    if |parts| == 0 then ""
    else if |parts| == 1 then parts[0]
    else parts[0] + sep + Join(parts[1..], sep)
  }

  /** Text occurs in s at position i. */
  predicate OccursAt(s: string, p: string, i: int) {
    0 <= i && i + |p| <= |s| && s[i..i + |p|] == p
  }

  /** strings.Contains. */
  predicate Contains(s: string, p: string) {
    exists i | 0 <= i <= |s| :: OccursAt(s, p, i)
  }

  lemma ContainsAt(s: string, p: string, i: int)
    requires OccursAt(s, p, i)
    ensures Contains(s, p)
  {
  }

  lemma OccurrenceHolds(s: string, p: string, i: int, k: nat)
    requires OccursAt(s, p, i) && k < |p|
    ensures s[i + k] == p[k] && p[k] in p
  {
    assert s[i..i + |p|][k] == s[i + k];
  }

  /** What occurs in a part of a text, at its start or its end, is what stands there in the text. */
  lemma OccursInFront(a: string, rest: string, p: string, i: int)
    requires 0 <= i && i + |p| <= |a|
    ensures OccursAt(a + rest, p, i) <==> OccursAt(a, p, i)
  {
    assert (a + rest)[i..i + |p|] == a[i..i + |p|];
  }

  lemma OccursBehind(front: string, b: string, p: string, i: int)
    requires 0 <= i && i + |p| <= |b|
    ensures OccursAt(front + b, p, |front| + i) <==> OccursAt(b, p, i)
  {
    assert (front + b)[|front| + i..|front| + i + |p|] == b[i..i + |p|];
  }

  /** An occurrence cannot cross a character the pattern lacks. */
  lemma NoneAcross(a: string, d: char, b: string, p: string, i: int)
    requires d !in p && OccursAt(a + [d] + b, p, i)
    ensures i + |p| <= |a| || |a| < i
  {
    if i <= |a| < i + |p| { OccurrenceHolds(a + [d] + b, p, i, |a| - i); }
  }

  lemma ContainsSplit(a: string, d: char, b: string, p: string)
    requires d !in p && p != ""
    ensures Contains(a + [d] + b, p) <==> Contains(a, p) || Contains(b, p)
  {
    var s := a + [d] + b;
    assert s == a + ([d] + b) && |a + [d]| == |a| + 1;
    if Contains(s, p) {
      var i :| 0 <= i <= |s| && OccursAt(s, p, i);
      NoneAcross(a, d, b, p, i);
      if i + |p| <= |a| {
        OccursInFront(a, [d] + b, p, i);
        ContainsAt(a, p, i);
      } else {
        OccursBehind(a + [d], b, p, i - |a| - 1);
        ContainsAt(b, p, i - |a| - 1);
      }
    }
    if Contains(a, p) || Contains(b, p) {
      if Contains(a, p) { ContainsMonotone(a, [d] + b, p); } else { ContainsMonotone(a + [d], b, p); }
    }
  }

  lemma ShortLacks(s: string, p: string)
    requires |s| < |p|
    ensures !Contains(s, p)
  {
  }

  lemma MissingCharLacks(s: string, p: string, c: char)
    requires c in p && c !in s
    ensures !Contains(s, p)
  {
    var k :| 0 <= k < |p| && p[k] == c;
    forall i | 0 <= i <= |s| ensures !OccursAt(s, p, i) {
      if OccursAt(s, p, i) {
        OccurrenceHolds(s, p, i, k);
      }
    }
  }

  /** A suffix of a text without an occurrence has none either; a prefix likewise. */
  lemma ContainsMonotone(a: string, b: string, p: string)
    requires Contains(a, p) || Contains(b, p)
    ensures Contains(a + b, p)
  {
    if Contains(a, p) {
      var i :| 0 <= i <= |a| && OccursAt(a, p, i);
      OccursInFront(a, b, p, i);
      ContainsAt(a + b, p, i);
    } else {
      var k :| 0 <= k <= |b| && OccursAt(b, p, k);
      OccursBehind(a, b, p, k);
      ContainsAt(a + b, p, |a| + k);
    }
  }
}
