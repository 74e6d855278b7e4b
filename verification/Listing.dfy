/** Listing the collections of a database, in alphabetical order. */
module Listing {
  import opened Text
  import opened Catalog
  import opened ConnectionPool
  import opened ForeignKeys

  const SIDECAR := "_dalgo_time_columns"

  /** The tables ListCollections names. */
  predicate Listed(cat: Catalog, name: string) {
    Fold(name) in cat.tables && cat.tables[Fold(name)].name == name && !Reserved(name) && name != SIDECAR
  }

  // ---- Alphabetical order ----

  /** The order of ORDER BY: character by character, a prefix first. */
  predicate Before(a: string, b: string) {
    b != "" && (a == "" || a[0] < b[0] || (a[0] == b[0] && Before(a[1..], b[1..])))
  }

  lemma {:induction false} BeforeTotal(a: string, b: string)
    ensures a == b || Before(a, b) || Before(b, a)
    ensures !(Before(a, b) && Before(b, a))
    decreases |a|
  {
    if a != "" && b != "" {
      BeforeTotal(a[1..], b[1..]);
      assert a == [a[0]] + a[1..] && b == [b[0]] + b[1..];
    }
  }

  lemma {:induction false} BeforeThrough(a: string, b: string, c: string)
    requires Before(a, b) && Before(b, c)
    ensures Before(a, c)
    decreases |a|
  {
    if a != "" && a[0] == b[0] == c[0] { BeforeThrough(a[1..], b[1..], c[1..]); }
  }

  predicate Alphabetical(names: seq<string>) { forall i, j | 0 <= i < j < |names| :: Before(names[i], names[j]) }

  /** Exactly the user tables, in alphabetical order. */
  ghost predicate IsListing(cat: Catalog, names: seq<string>) {
    Alphabetical(names) && forall n :: n in names <==> Listed(cat, n)
  }

  lemma AlphabeticalTail(names: seq<string>)
    requires Alphabetical(names) && names != []
    ensures Alphabetical(names[1..]) && names[0] !in names[1..]
    ensures forall n | n in names[1..] :: Before(names[0], n)
  {
    if names[0] in names[1..] { BeforeTotal(names[0], names[0]); }
  }

  /** The first of two alphabetical lists of the same names is the same name. */
  lemma SameFirst(a: seq<string>, b: seq<string>)
    requires Alphabetical(a) && Alphabetical(b) && (forall n :: n in a <==> n in b) && a != [] && b != []
    ensures a[0] == b[0]
  {
    AlphabeticalTail(a);
    AlphabeticalTail(b);
    assert a[0] in b && b[0] in a;
    if a[0] != b[0] {
      assert a[0] in b[1..] && b[0] in a[1..];
      BeforeTotal(a[0], b[0]);
    }
  }

  /** There is only one such list. */
  lemma {:induction false} OneAlphabetical(a: seq<string>, b: seq<string>)
    requires Alphabetical(a) && Alphabetical(b) && forall n :: n in a <==> n in b
    ensures a == b
    decreases |a|
  {
    assert a != [] ==> a[0] in b;
    assert b != [] ==> b[0] in a;
    if a != [] {
      SameFirst(a, b);
      AlphabeticalTail(a);
      AlphabeticalTail(b);
      forall n ensures n in a[1..] <==> n in b[1..] {
        if n in a[1..] { assert n in b && n != b[0]; }
        if n in b[1..] { assert n in a && n != a[0]; }
      }
      OneAlphabetical(a[1..], b[1..]);
      assert a == [a[0]] + a[1..] && b == [b[0]] + b[1..];
    }
  }

  /** So the listing of a catalog is determined. */
  lemma OneListing(cat: Catalog, a: seq<string>, b: seq<string>)
    requires IsListing(cat, a) && IsListing(cat, b)
    ensures a == b
  {
    OneAlphabetical(a, b);
  }

  /** A name put in its place. */
  function Placed(names: seq<string>, n: string): seq<string> {
    if names == [] || Before(n, names[0]) then [n] + names else [names[0]] + Placed(names[1..], n)
  }

  lemma {:induction false} PlacedLaw(names: seq<string>, n: string)
    requires Alphabetical(names) && n !in names
    ensures Alphabetical(Placed(names, n)) && forall x :: x in Placed(names, n) <==> x in names || x == n
    decreases |names|
  {
    if names == [] {
    } else {
      AlphabeticalTail(names);
      BeforeTotal(n, names[0]);
      if Before(n, names[0]) {
        forall x | x in names ensures Before(n, x) {
          if x != names[0] { BeforeThrough(n, names[0], x); }
        }
        FirstPlaced(n, names);
      } else {
        PlacedLaw(names[1..], n);
        FirstPlaced(names[0], Placed(names[1..], n));
      }
    }
  }

  lemma FirstPlaced(n: string, rest: seq<string>)
    requires Alphabetical(rest) && forall x | x in rest :: Before(n, x)
    ensures Alphabetical([n] + rest)
  {
    forall i, j | 0 <= i < j < |rest| + 1 ensures Before(([n] + rest)[i], ([n] + rest)[j]) {
      if i > 0 { assert Before(rest[i - 1], rest[j - 1]); }
    }
  }

  // ---- The listing ----

  /** What the query of sqlite_master selects. */
  method UserTables(cat: Catalog) returns (data: seq<string>)
    requires KeyedByFold(cat)
    ensures IsListing(cat, data)
  {
    var all := TableNames(cat);
    data := [];
    var i := 0;
    while i < |all|
      invariant 0 <= i <= |all| && Alphabetical(data)
      invariant forall n :: n in data <==> n in all[..i] && !Reserved(n) && n != SIDECAR
    {
      assert all[..i + 1] == all[..i] + [all[i]];
      if !Reserved(all[i]) && all[i] != SIDECAR {
        PlacedLaw(data, all[i]);
        data := Placed(data, all[i]);
      }
      i := i + 1;
    }
    assert all[..i] == all;
    forall n ensures n in data <==> Listed(cat, n) {
      if Listed(cat, n) { assert TableNamed(cat, n) by { assert cat.tables[Fold(n)].name == n; } }
      if n in all {
        assert TableNamed(cat, n);
        var f :| f in cat.tables && cat.tables[f].name == n;
        assert f == Fold(n);
      }
    }
  }

  /** ListCollections: the user tables in alphabetical order. It fails only when a call on the
      database does or a table has an empty name, which no reference can hold. */
  method ListCollections(pool: Pool, cat: Catalog) returns (r: Option<seq<string>>)
    requires pool.free > 0 && KeyedByFold(cat)
    modifies pool, pool.env
    ensures pool.free == old(pool.free) && old(pool.env.asked) <= pool.env.asked
    ensures r.Some? ==> IsListing(cat, r.value)
    ensures Listed(cat, "") ==> r.None?
    ensures !Listed(cat, "") ==> (r.Some? <==> pool.env.CalmSince(old(pool.env.asked)))
  {
    var data := UserTables(cat);
    ghost var from := pool.env.asked;
    var rows := pool.Query(data);
    if rows == null { return None; }
    var out: seq<string> := [];
    var has, row := rows.Fetch(from);
    while has
      invariant rows.home == pool && rows.holds && rows.data == data && fresh(rows)
      invariant rows.Fetched(from, has, row) && out == rows.Dealt() && "" !in out
      invariant pool.free == old(pool.free) - if has then 1 else 0
      decreases |rows.data| - rows.read, has
    {
      if row.None? { rows.Close(); return None; }
      if row.value == "" {
        assert data[rows.read - 1] in data;
        rows.Close();
        return None;
      }
      out := out + [row.value];
      has, row := rows.Fetch(from);
    }
    rows.Close();
    if rows.failed { return None; }
    return Some(out);
  }
}
