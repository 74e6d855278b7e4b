/** Ordering the columns of a primary key by their position. */
module KeyOrder {
  datatype PkEntry = PkEntry(colName: string, pkOrder: int)

  /** x after every entry whose order is not greater. */
  function Insert(s: seq<PkEntry>, x: PkEntry): seq<PkEntry> {
    if s == [] || s[|s| - 1].pkOrder <= x.pkOrder then s + [x]
    else Insert(s[..|s| - 1], x) + [s[|s| - 1]]
  }

  function SortByOrder(s: seq<PkEntry>): seq<PkEntry> {
    if s == [] then [] else Insert(SortByOrder(s[..|s| - 1]), s[|s| - 1])
  }

  predicate Ascending(s: seq<PkEntry>) {
    forall i, j | 0 <= i < j < |s| :: s[i].pkOrder <= s[j].pkOrder
  }

  /** Inserting adds the entry and nothing else. */
  lemma {:induction false} InsertAdds(s: seq<PkEntry>, x: PkEntry)
    ensures multiset(Insert(s, x)) == multiset(s) + multiset{x}
    decreases |s|
  {
    if s != [] && s[|s| - 1].pkOrder > x.pkOrder {
      InsertAdds(s[..|s| - 1], x);
      assert s == s[..|s| - 1] + [s[|s| - 1]];
    }
  }

  lemma InsertedFrom(s: seq<PkEntry>, x: PkEntry, e: PkEntry)
    requires e in Insert(s, x)
    ensures e in s || e == x
  {
    InsertAdds(s, x);
    assert e in multiset(Insert(s, x));
    assert e in multiset(s) || e == x;
  }

  lemma AscendingThen(s: seq<PkEntry>, last: PkEntry)
    requires Ascending(s) && forall e | e in s :: e.pkOrder <= last.pkOrder
    ensures Ascending(s + [last])
  {
    forall i, j | 0 <= i < j < |s| + 1 ensures (s + [last])[i].pkOrder <= (s + [last])[j].pkOrder {
      assert s[i] in s;
    }
  }

  lemma LastIsGreatest(s: seq<PkEntry>, e: PkEntry)
    requires Ascending(s) && e in s
    ensures e.pkOrder <= s[|s| - 1].pkOrder
  {
    var i :| 0 <= i < |s| && s[i] == e;
  }

  lemma {:induction false} InsertLaws(s: seq<PkEntry>, x: PkEntry)
    requires Ascending(s)
    ensures Ascending(Insert(s, x)) && multiset(Insert(s, x)) == multiset(s) + multiset{x}
    decreases |s|
  {
    InsertAdds(s, x);
    if s == [] || s[|s| - 1].pkOrder <= x.pkOrder {
      forall e | e in s ensures e.pkOrder <= x.pkOrder { LastIsGreatest(s, e); }
      AscendingThen(s, x);
    } else {
      var init, last := s[..|s| - 1], s[|s| - 1];
      InsertLaws(init, x);
      forall e | e in Insert(init, x) ensures e.pkOrder <= last.pkOrder {
        InsertedFrom(init, x, e);
        if e in init { LastIsGreatest(s, e); }
      }
      AscendingThen(Insert(init, x), last);
    }
  }

  /** Sorting gives a permutation in ascending order. */
  lemma {:induction false} SortLaws(s: seq<PkEntry>)
    ensures Ascending(SortByOrder(s)) && multiset(SortByOrder(s)) == multiset(s)
    decreases |s|
  {
    if s != [] {
      SortLaws(s[..|s| - 1]);
      InsertLaws(SortByOrder(s[..|s| - 1]), s[|s| - 1]);
      assert s == s[..|s| - 1] + [s[|s| - 1]];
    }
  }

  lemma SortMembers(s: seq<PkEntry>)
    ensures |SortByOrder(s)| == |s|
    ensures forall e :: e in SortByOrder(s) <==> e in s
  {
    SortLaws(s);
    assert |SortByOrder(s)| == |multiset(SortByOrder(s))| == |multiset(s)| == |s|;
    forall e ensures e in SortByOrder(s) <==> e in s {
      assert e in SortByOrder(s) <==> e in multiset(SortByOrder(s));
      assert e in s <==> e in multiset(s);
    }
  }

  predicate HasOrder(s: seq<PkEntry>, p: int) {
    exists i :: 0 <= i < |s| && s[i].pkOrder == p
  }

  /** The positions are exactly 1..n, each once. */
  predicate Numbered(s: seq<PkEntry>, n: nat) {
    && (forall i | 0 <= i < |s| :: 1 <= s[i].pkOrder <= n)
    && (forall i, j | 0 <= i < j < |s| :: s[i].pkOrder != s[j].pkOrder)
    && (forall p | 1 <= p <= n :: HasOrder(s, p))
  }

  lemma Twice(r: seq<PkEntry>, i: nat, j: nat)
    requires i < j < |r| && r[i] == r[j]
    ensures multiset(r)[r[i]] >= 2
  {
    assert r == r[..j] + [r[j]] + r[j + 1..];
    assert r[..j][i] == r[i];
    assert r[i] in multiset(r[..j]);
  }

  lemma SameEntry(s: seq<PkEntry>, x: PkEntry, y: PkEntry)
    requires x in s && y in s && x.pkOrder == y.pkOrder && forall i, j | 0 <= i < j < |s| ::
               s[i].pkOrder != s[j].pkOrder
    ensures x == y && multiset(s)[x] == 1
  {
    var a :| 0 <= a < |s| && s[a] == x;
    var b :| 0 <= b < |s| && s[b] == y;
    assert a == b;
    OnceOnly(s, a);
  }

  lemma StrictlyAscending(s: seq<PkEntry>, n: nat)
    requires Numbered(s, n)
    ensures var r := SortByOrder(s); forall i, j | 0 <= i < j < |r| :: r[i].pkOrder < r[j].pkOrder
  {
    var r := SortByOrder(s);
    SortLaws(s);
    SortMembers(s);
    forall i, j | 0 <= i < j < |r| ensures r[i].pkOrder < r[j].pkOrder {
      assert r[i] in r && r[j] in r;
      if r[i].pkOrder == r[j].pkOrder {
        SameEntry(s, r[i], r[j]);
        Twice(r, i, j);
      }
    }
  }

  lemma OnceOnly(s: seq<PkEntry>, a: nat)
    requires a < |s| && forall i, j | 0 <= i < j < |s| :: s[i].pkOrder != s[j].pkOrder
    ensures multiset(s)[s[a]] == 1
  {
    assert s == s[..a] + [s[a]] + s[a + 1..];
    assert s[a] !in s[..a] && s[a] !in s[a + 1..];
  }

  /** Entry i of the sorted key is the one at position i + 1. */
  lemma {:induction false} SortedIsNumbered(s: seq<PkEntry>, n: nat)
    requires Numbered(s, n)
    ensures |s| == n && forall i | 0 <= i < n :: |SortByOrder(s)| == n && SortByOrder(s)[i].pkOrder == i + 1
  {
    var r := SortByOrder(s);
    StrictlyAscending(s, n);
    SortMembers(s);
    forall p | 1 <= p <= n ensures HasOrder(r, p) {
      assert HasOrder(s, p);
      var i :| 0 <= i < |s| && s[i].pkOrder == p;
      assert s[i] in s;
      assert s[i] in r;
    }
    forall i | 0 <= i < |r| ensures 1 <= r[i].pkOrder <= n { assert r[i] in s; }
    CountsUp(r, n, |r|);
    if n > 0 {
      assert HasOrder(r, n);
      var k :| 0 <= k < |r| && r[k].pkOrder == n;
      assert r[|r| - 1].pkOrder == |r|;
    }
  }

  /** An entry stands at its own position. */
  lemma SortedPlace(s: seq<PkEntry>, n: nat, x: PkEntry)
    requires Numbered(s, n) && x in s
    ensures 1 <= x.pkOrder <= n == |SortByOrder(s)| && SortByOrder(s)[x.pkOrder - 1] == x
  {
    SortMembers(s);
    SortedIsNumbered(s, n);
    InPlace(SortByOrder(s), x);
  }

  lemma InPlace(r: seq<PkEntry>, x: PkEntry)
    requires x in r && forall i | 0 <= i < |r| :: r[i].pkOrder == i + 1
    ensures 1 <= x.pkOrder <= |r| && r[x.pkOrder - 1] == x
  {
  }

  lemma {:induction false} CountsUp(r: seq<PkEntry>, n: nat, m: nat)
    requires m <= |r|
    requires forall i, j | 0 <= i < j < |r| :: r[i].pkOrder < r[j].pkOrder
    requires forall i | 0 <= i < |r| :: 1 <= r[i].pkOrder <= n
    requires forall p | 1 <= p <= n :: HasOrder(r, p)
    ensures forall i | 0 <= i < m :: r[i].pkOrder == i + 1
    decreases m
  {
    if m > 0 {
      CountsUp(r, n, m - 1);
      var i := m - 1;
      assert r[i].pkOrder >= i + 1 by { if i > 0 { assert r[i - 1].pkOrder == i; } }
      assert HasOrder(r, i + 1);
      var k :| 0 <= k < |r| && r[k].pkOrder == i + 1;
    }
  }

  /** The gap belongs to x: nothing before it is greater at its edge, everything after it is. */
  predicate GapFor(sorted: seq<PkEntry>, x: PkEntry, j: nat) {
    && j <= |sorted| && (j == 0 || sorted[j - 1].pkOrder <= x.pkOrder)
    && forall k | j <= k < |sorted| :: sorted[k].pkOrder > x.pkOrder
  }

  lemma {:induction false} InsertAtGap(sorted: seq<PkEntry>, x: PkEntry, j: nat)
    requires GapFor(sorted, x, j)
    ensures Insert(sorted, x) == sorted[..j] + [x] + sorted[j..]
    decreases |sorted|
  {
    var n := |sorted|;
    if j < n {
      var init := sorted[..n - 1];
      InsertAtGap(init, x, j);
      assert init[..j] == sorted[..j] && sorted[j..] == init[j..] + [sorted[n - 1]];
    }
  }

  /** One swap moves the gap down by one. */
  method SwapDown(entries: array<PkEntry>, i: nat, j: nat, ghost sorted: seq<PkEntry>, ghost x: PkEntry)
    requires 0 < j <= i < entries.Length && |sorted| == i && entries[..i + 1] == sorted[..j] + [x] + sorted[j..]
    modifies entries
    ensures entries[..i + 1] == sorted[..j - 1] + [x] + sorted[j - 1..]
    ensures entries[i + 1..] == old(entries[i + 1..])
  {
    ghost var before := entries[..i + 1];
    AroundGap(sorted, x, j, before);
    assert entries[j - 1] == before[j - 1] && entries[j] == before[j];
    entries[j - 1], entries[j] := entries[j], entries[j - 1];
    assert entries[..i + 1] == before[j - 1 := x][j := sorted[j - 1]];
  }

  /** What stands around the gap, and the swap that moves it down by one. */
  lemma AroundGap(sorted: seq<PkEntry>, x: PkEntry, j: nat, s: seq<PkEntry>)
    requires 0 < j <= |sorted| && s == sorted[..j] + [x] + sorted[j..]
    ensures |s| == |sorted| + 1 && s[j - 1] == sorted[j - 1] && s[j] == x
    ensures s[j - 1 := x][j := sorted[j - 1]] == sorted[..j - 1] + [x] + sorted[j - 1..]
  {
  }

  lemma AtGap(entries: array<PkEntry>, i: nat, sorted: seq<PkEntry>, x: PkEntry, j: nat)
    requires j <= i < entries.Length && |sorted| == i && entries[..i + 1] == sorted[..j] + [x] + sorted[j..]
    ensures entries[j] == x && (j > 0 ==> entries[j - 1] == sorted[j - 1])
  {
    assert entries[j] == entries[..i + 1][j];
    if j > 0 { assert entries[j - 1] == entries[..i + 1][j - 1]; }
  }

  /** The inner loop: entry i sinks to its place among the sorted ones before it. */
  method SinkEntry(entries: array<PkEntry>, i: nat) returns (ghost gap: nat)
    requires i < entries.Length
    modifies entries
    ensures GapFor(old(entries[..i]), old(entries[i]), gap)
    ensures entries[..i + 1] == old(entries[..i])[..gap] + [old(entries[i])] + old(entries[..i])[gap..]
    ensures entries[i + 1..] == old(entries[i + 1..])
  {
    ghost var sorted, x := entries[..i], entries[i];
    var j := i;
    assert entries[..i + 1] == sorted[..i] + [x] + sorted[i..];
    while j > 0 && entries[j - 1].pkOrder > entries[j].pkOrder
      invariant 0 <= j <= i
      invariant entries[..i + 1] == sorted[..j] + [x] + sorted[j..]
      invariant forall k | j <= k < i :: sorted[k].pkOrder > x.pkOrder
      invariant entries[i + 1..] == old(entries[i + 1..])
    {
      AtGap(entries, i, sorted, x, j);
      SwapDown(entries, i, j, sorted, x);
      j := j - 1;
    }
    AtGap(entries, i, sorted, x, j);
    gap := j;
  }

  lemma SortStep(was: seq<PkEntry>, i: nat, gap: nat)
    requires i < |was| && GapFor(SortByOrder(was[..i]), was[i], gap)
    ensures var sorted := SortByOrder(was[..i]); SortByOrder(was[..i + 1]) == sorted[..gap] + [was[i]] + sorted[gap..]
  {
    InsertAtGap(SortByOrder(was[..i]), was[i], gap);
    assert was[..i + 1][..i] == was[..i];
  }

  /** The insertion sort, swapping in place. */
  method SortPKByOrder(entries: array<PkEntry>)
    modifies entries
    ensures entries[..] == SortByOrder(old(entries[..]))
  {
    ghost var was := entries[..];
    var i := 0;
    while i < entries.Length
      invariant 0 <= i <= entries.Length
      invariant entries[..i] == SortByOrder(was[..i])
      invariant entries[i..] == was[i..]
    {
      assert entries[i] == entries[i..][0] == was[i];
      assert entries[i + 1..] == entries[i..][1..] == was[i + 1..];
      ghost var gap := SinkEntry(entries, i);
      SortStep(was, i, gap);
      i := i + 1;
    }
    assert entries[..i] == entries[..] && was[..i] == was;
  }

  /** The same on a slice held as a sequence: copied into an array and sorted there. */
  method SortedKey(entries: seq<PkEntry>) returns (names: seq<string>)
    ensures names == KeyNames(SortByOrder(entries))
  {
    var a := new PkEntry[|entries|](i requires 0 <= i < |entries| => entries[i]);
    assert a[..] == entries;
    SortPKByOrder(a);
    ghost var sorted := a[..];
    names := [];
    var i := 0;
    while i < a.Length
      invariant 0 <= i <= a.Length && a[..] == sorted && names == KeyNames(sorted[..i])
    {
      NamesStep(sorted, i);
      names := names + [a[i].colName];
      i := i + 1;
    }
    assert sorted[..i] == sorted;
  }

  function KeyNames(s: seq<PkEntry>): (r: seq<string>)
    ensures |r| == |s|
  {
    seq(|s|, i requires 0 <= i < |s| => s[i].colName)
  }

  lemma KeyNameAt(s: seq<PkEntry>, i: nat)
    requires i < |s|
    ensures KeyNames(s)[i] == s[i].colName
  {
  }

  lemma NamesStep(s: seq<PkEntry>, i: nat)
    requires i < |s|
    ensures KeyNames(s[..i + 1]) == KeyNames(s[..i]) + [s[i].colName]
  {
  }
}
