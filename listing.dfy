/**
 * The listing half of `fd_command`: keep the entries of a directory snapshot that
 * pass the three filters, in scan order, then sort them by name if asked.
 */
module Listing {
  import opened Text
  import opened ByteOrder
  import opened PathExt
  import opened Flags

  /** One child of the working directory, as the directory iterator reports it. */
  datatype Entry = Entry(name: string, isDir: bool)

  /** The three tests of the gather loop; failing any one skips the entry. */
  predicate Keep(f: Flags, e: Entry) {
    && (f.showHidden || !StartsWith(e.name, "."))
    && !(f.noExtension && !e.isDir && HasExtension(e.name))
    && (f.filterExt == "" || Extension(e.name) == "." + f.filterExt)
  }

  /** The entries of `scan` that pass the filters, in scan order. */
  function Filtered(scan: seq<Entry>, f: Flags): seq<Entry>
    decreases |scan|
  {
    if scan == [] then []
    else
      var last := scan[|scan| - 1];
      Filtered(scan[..|scan| - 1], f) + (if Keep(f, last) then [last] else [])
  }

  /** `a` is `b` with some elements left out, the rest in their order. */
  predicate IsSubsequence(a: seq<Entry>, b: seq<Entry>)
    decreases |b|
  {
    if a == [] then true
    else if b == [] then false
    else if a[|a| - 1] == b[|b| - 1] && IsSubsequence(a[..|a| - 1], b[..|b| - 1]) then true
    else IsSubsequence(a, b[..|b| - 1])
  }

  predicate SortedByName(s: seq<Entry>) {
    forall i, j :: 0 <= i < j < |s| ==> !Less(s[j].name, s[i].name)
  }

  predicate DistinctNames(s: seq<Entry>) {
    forall i, j :: 0 <= i < j < |s| ==> s[i].name != s[j].name
  }

  /** The gather loop over the directory snapshot. */
  method Gather(scan: seq<Entry>, f: Flags) returns (items: seq<Entry>)
    ensures items == Filtered(scan, f)
  {
    items := [];
    for k := 0 to |scan|
      invariant items == Filtered(scan[..k], f)
    {
      var e := scan[k];
      assert scan[..k + 1][..k] == scan[..k];
      if !f.showHidden && StartsWith(e.name, ".") {
        continue;
      }
      if f.noExtension && !e.isDir && HasExtension(e.name) {
        continue;
      }
      if f.filterExt != "" && Extension(e.name) != "." + f.filterExt {
        continue;
      }
      items := items + [e];
    }
    assert scan[..|scan|] == scan;
  }

  method Swap(a: array<Entry>, i: int, j: int)
    requires 0 <= i < a.Length && 0 <= j < a.Length
    modifies a
    ensures a[i] == old(a[j]) && a[j] == old(a[i])
    ensures forall k :: 0 <= k < a.Length && k != i && k != j ==> a[k] == old(a[k])
    ensures multiset(a[..]) == old(multiset(a[..]))
  {
    a[i], a[j] := a[j], a[i];
  }

  /** `std::sort` with comparator `a.first < b.first`, as an insertion sort by swaps. */
  method SortByName(a: array<Entry>)
    modifies a
    ensures SortedByName(a[..])
    ensures multiset(a[..]) == old(multiset(a[..]))
  {
    var i := 0;
    while i < a.Length
      invariant 0 <= i <= a.Length
      invariant forall p, q :: 0 <= p < q < i ==> !Less(a[q].name, a[p].name)
      invariant multiset(a[..]) == old(multiset(a[..]))
    {
      var j := i;
      while j > 0 && Less(a[j].name, a[j - 1].name)
        invariant 0 <= j <= i
        invariant forall p, q :: 0 <= p < q <= i && p != j && q != j ==> !Less(a[q].name, a[p].name)
        invariant forall q :: j < q <= i ==> !Less(a[q].name, a[j].name)
        invariant multiset(a[..]) == old(multiset(a[..]))
      {
        LessAsymmetric(a[j].name, a[j - 1].name);
        Swap(a, j - 1, j);
        j := j - 1;
      }
      forall p | 0 <= p < j
        ensures !Less(a[j].name, a[p].name)
      {
        if p < j - 1 {
          NotLessTransitive(a[p].name, a[j - 1].name, a[j].name);
        }
      }
      i := i + 1;
    }
  }

  /**
   * The listing `fd_command` prints for `args` over the snapshot `scan`: the filtered
   * entries in scan order, or, when sorting is on, those entries in ascending name order.
   */
  method BuildListing(args: seq<string>, scan: seq<Entry>) returns (items: seq<Entry>)
    ensures var f := Parse(args, NoFlags);
      !f.sortAlpha ==> items == Filtered(scan, f)
    ensures var f := Parse(args, NoFlags);
      f.sortAlpha ==> SortedByName(items) && multiset(items) == multiset(Filtered(scan, f))
  {
    var f := ParseFlags(args);
    items := Gather(scan, f);
    if f.sortAlpha {
      var a := new Entry[|items|](k requires 0 <= k < |items| => items[k]);
      assert a[..] == items;
      SortByName(a);
      items := a[..];
    }
  }

  /** Every listed entry passes every filter; the extension filter spares no directory. */
  lemma {:induction false} FilteredSound(scan: seq<Entry>, f: Flags)
    ensures forall k :: 0 <= k < |Filtered(scan, f)| ==> Keep(f, Filtered(scan, f)[k])
    ensures forall e :: e in Filtered(scan, f) ==>
      && (!f.showHidden ==> !StartsWith(e.name, "."))
      && (f.noExtension && !e.isDir ==> !HasExtension(e.name))
      && (f.filterExt != "" ==> Extension(e.name) == "." + f.filterExt)
    decreases |scan|
  {
    if scan != [] {
      FilteredSound(scan[..|scan| - 1], f);
    }
  }

  /** Every entry of the scan that passes the filters is listed. */
  lemma {:induction false} FilteredComplete(scan: seq<Entry>, f: Flags)
    ensures forall e :: e in scan && Keep(f, e) ==> e in Filtered(scan, f)
    decreases |scan|
  {
    if scan != [] {
      var init := scan[..|scan| - 1];
      FilteredComplete(init, f);
      assert scan == init + [scan[|scan| - 1]];
    }
  }

  /** The listing keeps the scan's order. */
  lemma {:induction false} FilteredIsSubsequence(scan: seq<Entry>, f: Flags)
    ensures IsSubsequence(Filtered(scan, f), scan)
    decreases |scan|
  {
    if scan != [] {
      var init := scan[..|scan| - 1];
      var last := scan[|scan| - 1];
      FilteredIsSubsequence(init, f);
      var r := Filtered(scan, f);
      if Keep(f, last) {
        assert r[..|r| - 1] == Filtered(init, f);
      } else {
        assert r == Filtered(init, f);
        if r != [] {
          assert r[|r| - 1] != last || !IsSubsequence(r[..|r| - 1], init) || IsSubsequence(r, scan);
        }
      }
    }
  }

  /** With `--hidden` and no other filter, the whole scan is listed. */
  lemma {:induction false} ShowAllListsEverything(scan: seq<Entry>, f: Flags)
    requires f.showHidden && !f.noExtension && f.filterExt == ""
    ensures Filtered(scan, f) == scan
    decreases |scan|
  {
    if scan != [] {
      ShowAllListsEverything(scan[..|scan| - 1], f);
    }
  }

  /** A filter value with a period in it matches no extension, so nothing is listed. */
  lemma {:induction false} DottedFilterListsNothing(scan: seq<Entry>, f: Flags)
    requires exists k :: 0 <= k < |f.filterExt| && f.filterExt[k] == '.'
    ensures Filtered(scan, f) == []
    decreases |scan|
  {
    if scan != [] {
      DottedFilterListsNothing(scan[..|scan| - 1], f);
      var last := scan[|scan| - 1];
      var k :| 0 <= k < |f.filterExt| && f.filterExt[k] == '.';
      assert ("." + f.filterExt)[k + 1] == '.';
    }
  }

  lemma MultisetTail(s: seq<Entry>)
    requires s != []
    ensures multiset(s[1..]) == multiset(s) - multiset{s[0]}
  {
    assert s == [s[0]] + s[1..];
  }

  /** Two sorted arrangements of the same entries, with distinct names, start alike. */
  lemma SortedHeadsAgree(s: seq<Entry>, t: seq<Entry>)
    requires s != [] && SortedByName(s) && SortedByName(t) && DistinctNames(s)
    requires multiset(s) == multiset(t)
    ensures t != [] && s[0] == t[0]
  {
    assert s[0] in multiset(t);
    assert t != [];
    assert t[0] in multiset(s);
    var k :| 0 <= k < |t| && t[k] == s[0];
    var m :| 0 <= m < |s| && s[m] == t[0];
    LessIrreflexive(s[0].name);
    LessIrreflexive(t[0].name);
    assert !Less(s[m].name, s[0].name);
    assert !Less(t[k].name, t[0].name);
    LessTrichotomous(s[0].name, t[0].name);
    LessAsymmetric(s[0].name, t[0].name);
    assert m == 0;
  }

  /**
   * Names in a directory are distinct, so sorting them has one answer: two sorted
   * arrangements of the same entries are equal, whatever the sort's stability.
   */
  lemma {:induction false} SortedPermutationUnique(s: seq<Entry>, t: seq<Entry>)
    requires SortedByName(s) && SortedByName(t) && DistinctNames(s)
    requires multiset(s) == multiset(t)
    ensures s == t
    decreases |s|
  {
    if s == [] {
      assert |t| == 0;
    } else {
      SortedHeadsAgree(s, t);
      MultisetTail(s);
      MultisetTail(t);
      SortedPermutationUnique(s[1..], t[1..]);
      assert s == [s[0]] + s[1..] && t == [t[0]] + t[1..];
    }
  }
}
