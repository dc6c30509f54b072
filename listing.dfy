/** Choosing and ordering the archives of the source directory (lines 40-41 of
    extract_fulltext.py): keep the names ending in `.json.xz`, then sort them by
    the first number embedded in each name. */
module Listing {
  import opened Outcomes
  import opened Decimal

  const ArchiveSuffix: string := ".json.xz"

  /** `str.endswith`, case-sensitive. */
  predicate EndsWith(s: string, suffix: string) {
    |suffix| <= |s| && s[|s| - |suffix|..] == suffix
  }

  predicate IsArchiveName(name: string) {
    EndsWith(name, ArchiveSuffix)
  }

  /** The listing entries that name archives, in listing order. */
  function ArchiveNames(listing: seq<string>): seq<string> {
    if listing == [] then []
    else
      var last := listing[|listing| - 1];
      var names := ArchiveNames(listing[..|listing| - 1]);
      if IsArchiveName(last) then names + [last] else names
  }

  /** Each name occurs among the archive names as often as in the listing
      when it ends in `.json.xz`, and not at all otherwise. */
  lemma {:induction false} ArchiveNamesSpec(listing: seq<string>)
    ensures forall x :: multiset(ArchiveNames(listing))[x] == if IsArchiveName(x) then multiset(listing)[x] else 0
  {
    if listing != [] {
      var init := listing[..|listing| - 1];
      ArchiveNamesSpec(init);
      assert listing == init + [listing[|listing| - 1]];
    }
  }

  /** The filter keeps listing order: it distributes over concatenation. */
  lemma {:induction false} ArchiveNamesAppend(a: seq<string>, b: seq<string>)
    ensures ArchiveNames(a + b) == ArchiveNames(a) + ArchiveNames(b)
  {
    if b == [] {
      assert a + b == a;
    } else {
      assert (a + b)[..|a + b| - 1] == a + b[..|b| - 1];
      ArchiveNamesAppend(a, b[..|b| - 1]);
    }
  }

  /** The sort key of a name; 0 stands in for a name without digits, which
      never reaches the sort. */
  function KeyOf(name: string): nat {
    match FirstNumber(name)
    case Some(n) => n
    case None => 0
  }

  predicate SortedByKey(s: seq<string>) {
    forall i, j :: 0 <= i < j < |s| ==> KeyOf(s[i]) <= KeyOf(s[j])
  }

  /** Insert `x` in front of the first element whose key is not smaller. */
  function Insert(x: string, s: seq<string>): seq<string> {
    if s == [] || KeyOf(x) <= KeyOf(s[0]) then [x] + s else [s[0]] + Insert(x, s[1..])
  }

  lemma {:induction false} InsertSpec(x: string, s: seq<string>)
    ensures multiset(Insert(x, s)) == multiset(s) + multiset{x}
    ensures |Insert(x, s)| == |s| + 1
    ensures Insert(x, s)[0] == x || (s != [] && Insert(x, s)[0] == s[0])
  {
    if s != [] && KeyOf(x) > KeyOf(s[0]) {
      InsertSpec(x, s[1..]);
      assert s == [s[0]] + s[1..];
    }
  }

  lemma {:induction false} InsertSorted(x: string, s: seq<string>)
    requires SortedByKey(s)
    ensures SortedByKey(Insert(x, s))
  {
    var r := Insert(x, s);
    InsertSpec(x, s);
    if s == [] || KeyOf(x) <= KeyOf(s[0]) {
      forall i, j | 0 <= i < j < |r| ensures KeyOf(r[i]) <= KeyOf(r[j]) {
        assert r[j] == s[j - 1];
        if i > 0 {
          assert r[i] == s[i - 1];
        }
      }
    } else {
      var t := Insert(x, s[1..]);
      InsertSpec(x, s[1..]);
      InsertSorted(x, s[1..]);
      assert r == [s[0]] + t;
      assert KeyOf(s[0]) <= KeyOf(t[0]) by {
        if t[0] != x {
          assert t[0] == s[1];
        }
      }
      forall i, j | 0 <= i < j < |r| ensures KeyOf(r[i]) <= KeyOf(r[j]) {
        assert r[j] == t[j - 1];
        if i > 0 {
          assert r[i] == t[i - 1];
        } else if j > 1 {
          assert KeyOf(t[0]) <= KeyOf(t[j - 1]);
        }
      }
    }
  }

  /** Python's `list.sort(key=...)`, a stable sort, as an insertion sort. */
  function SortByKey(s: seq<string>): seq<string> {
    if s == [] then [] else Insert(s[0], SortByKey(s[1..]))
  }

  /** The sort returns a permutation of its input, ordered by key. */
  lemma SortByKeySpec(s: seq<string>)
    ensures multiset(SortByKey(s)) == multiset(s)
    ensures SortedByKey(SortByKey(s))
  {
    SortByKeyPermutes(s);
    SortByKeySorted(s);
  }

  lemma {:induction false} SortByKeyPermutes(s: seq<string>)
    ensures multiset(SortByKey(s)) == multiset(s)
  {
    if s != [] {
      var t := SortByKey(s[1..]);
      assert SortByKey(s) == Insert(s[0], t);
      SortByKeyPermutes(s[1..]);
      InsertSpec(s[0], t);
      assert multiset(s) == multiset{s[0]} + multiset(s[1..]) by {
        assert s == [s[0]] + s[1..];
      }
    }
  }

  lemma {:induction false} SortByKeySorted(s: seq<string>)
    ensures SortedByKey(SortByKey(s))
  {
    if s != [] {
      var t := SortByKey(s[1..]);
      assert SortByKey(s) == Insert(s[0], t);
      SortByKeySorted(s[1..]);
      InsertSorted(s[0], t);
    }
  }

  /** The names of `s` whose key is `k`, in order. */
  function WithKey(s: seq<string>, k: nat): seq<string> {
    if s == [] then []
    else (if KeyOf(s[0]) == k then [s[0]] else []) + WithKey(s[1..], k)
  }

  lemma {:induction false} WithKeyInsert(x: string, s: seq<string>, k: nat)
    ensures WithKey(Insert(x, s), k) == (if KeyOf(x) == k then [x] else []) + WithKey(s, k)
  {
    if s == [] || KeyOf(x) <= KeyOf(s[0]) {
      var r := [x] + s;
      assert r[0] == x && r[1..] == s;
    } else {
      var r := [s[0]] + Insert(x, s[1..]);
      assert Insert(x, s) == r;
      assert r[0] == s[0] && r[1..] == Insert(x, s[1..]);
      WithKeyInsert(x, s[1..], k);
      var head := if KeyOf(s[0]) == k then [s[0]] else [];
      var rest := WithKey(s[1..], k);
      assert WithKey(s, k) == head + rest;
      if KeyOf(x) == k {
        assert head == [];
        assert WithKey(r, k) == [x] + rest;
      } else {
        assert WithKey(r, k) == head + rest;
      }
    }
  }

  /** The sort is stable: names with equal keys keep their listing order. */
  lemma {:induction false} SortIsStable(s: seq<string>, k: nat)
    ensures WithKey(SortByKey(s), k) == WithKey(s, k)
  {
    if s != [] {
      SortIsStable(s[1..], k);
      WithKeyInsert(s[0], SortByKey(s[1..]), k);
    }
  }

  /** The first name without digits, whose sort key would raise. */
  function FirstUnnumbered(names: seq<string>): (r: Option<string>)
    ensures r.None? <==> forall i :: 0 <= i < |names| ==> FirstNumber(names[i]).Some?
    ensures r.Some? ==> r.value in names && FirstNumber(r.value).None?
  {
    if names == [] then None
    else if FirstNumber(names[0]).None? then Some(names[0])
    else
      assert forall i :: 1 <= i < |names| ==> names[i] == names[1..][i - 1];
      FirstUnnumbered(names[1..])
  }

  /** The archive names of the directory in the order they are processed, or
      the fault raised when one of them has no number to sort by. */
  function OrderFiles(listing: seq<string>): Result<seq<string>> {
    var names := ArchiveNames(listing);
    match FirstUnnumbered(names)
    case Some(bad) => Err(NameWithoutNumber(bad))
    case None => Ok(SortByKey(names))
  }

  /** The order is a permutation of the archive entries sorted by their
      numbers; it fails exactly when an archive entry has no number. */
  lemma OrderFilesSpec(listing: seq<string>)
    ensures var r := OrderFiles(listing);
      && (r.Err? <==> exists i :: 0 <= i < |ArchiveNames(listing)| && FirstNumber(ArchiveNames(listing)[i]).None?)
      && (r.Err? ==> r.fault.NameWithoutNumber? && r.fault.name in listing && IsArchiveName(r.fault.name))
      && (r.Ok? ==> multiset(r.value) == multiset(ArchiveNames(listing)) && SortedByKey(r.value))
  {
    var names := ArchiveNames(listing);
    ArchiveNamesSpec(listing);
    SortByKeySpec(names);
    if FirstUnnumbered(names).Some? {
      var bad := FirstUnnumbered(names).value;
      assert multiset(names)[bad] > 0;
      var i :| 0 <= i < |names| && names[i] == bad;
      assert FirstNumber(names[i]).None?;
    }
  }

  /** Every processed name is an archive entry of the listing, and every
      archive entry is processed. */
  lemma OrderFilesMembers(listing: seq<string>, x: string)
    requires OrderFiles(listing).Ok?
    ensures x in OrderFiles(listing).value <==> x in listing && IsArchiveName(x)
  {
    OrderFilesSpec(listing);
    ArchiveNamesSpec(listing);
    var names := ArchiveNames(listing);
    assert x in listing <==> multiset(listing)[x] > 0;
    assert x in OrderFiles(listing).value <==> multiset(names)[x] > 0;
  }
}
