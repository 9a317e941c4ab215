/**
 * Building the catalog from the scan result and choosing where the
 * slideshow resumes: deduplication in first-occurrence order (what
 * `[...new Set(found)]` yields), the single-file fallback, and the lookup
 * of the saved selection.
 */
module Catalog {
  import opened Wrappers
  import opened Seqs
  import Discovery

  /** The background used when the scan finds nothing. */
  const DefaultBackground: string := "fundos/fundo_1.jpg"

  /** The fallback is the `jpg` candidate of index 1. */
  lemma DefaultIsCandidate()
    ensures DefaultBackground == Discovery.FileName(Discovery.Probe(1, 2))
  {
    assert Discovery.NatToString(1) == "1";
  }

  /** The elements of `s` without repeats, each kept at its first occurrence. */
  function Dedup(s: seq<string>): (r: seq<string>)
    ensures NoDuplicates(r)
    ensures forall x :: x in r <==> x in s
    ensures |r| <= |s|
  {
    if s == [] then []
    else
      var d := Dedup(s[..|s| - 1]);
      var last := s[|s| - 1];
      assert forall x :: x in s <==> x in s[..|s| - 1] || x == last;
      if last in d then d else d + [last]
  }

  /** A sequence that already has no repeats is left as it is. */
  lemma {:induction false} DedupOfDistinct(s: seq<string>)
    requires NoDuplicates(s)
    ensures Dedup(s) == s
  {
    if s != [] {
      var init := s[..|s| - 1];
      assert NoDuplicates(init);
      DedupOfDistinct(init);
      assert s[|s| - 1] !in init;
      assert init + [s[|s| - 1]] == s;
    }
  }

  /** Deduplication keeps the first occurrences in their original order. */
  lemma {:induction false} DedupKeepsFirstOccurrences(s: seq<string>, x: string, y: string)
    requires x in s && y in s
    requires IndexOf(s, x) < IndexOf(s, y)
    ensures IndexOf(Dedup(s), x) < IndexOf(Dedup(s), y)
  {
    var init, last := s[..|s| - 1], s[|s| - 1];
    assert init[IndexOf(s, x)] == x;
    IndexOfPrefix(s, x);
    var d := Dedup(init);
    if y in init {
      IndexOfPrefix(s, y);
      DedupKeepsFirstOccurrences(init, x, y);
      IndexOfPrefix(d + [last], x);
      IndexOfPrefix(d + [last], y);
    } else {
      assert y == last && x in init && x in d;
      if last !in d {
        IndexOfPrefix(d + [last], x);
        IndexOfAppended(d, last);
      } else {
        assert false;
      }
    }
  }

  /** Position of the first occurrence of `x` in `s`, or -1 when absent (`indexOf`). */
  function IndexOf(s: seq<string>, x: string): (i: int)
    ensures -1 <= i < |s|
    ensures i == -1 <==> x !in s
    ensures 0 <= i ==> s[i] == x && x !in s[..i]
  {
    if s == [] then -1
    else if s[0] == x then 0
    else
      var j := IndexOf(s[1..], x);
      assert x in s[1..] ==> x in s;
      assert forall k :: 0 <= k < j ==> s[1..][..j][k] == s[..j + 1][k + 1];
      if j < 0 then -1 else j + 1
  }

  lemma IndexOfPrefix(s: seq<string>, x: string)
    requires |s| > 0 && x in s[..|s| - 1]
    ensures IndexOf(s, x) == IndexOf(s[..|s| - 1], x)
  {
    var i := IndexOf(s[..|s| - 1], x);
    var j := IndexOf(s, x);
    assert s[..|s| - 1][..i] == s[..i] && s[i] == x;
    assert forall k :: 0 <= k < j ==> s[..j][k] == s[k];
    assert forall k :: 0 <= k < i ==> s[..i][k] == s[k];
  }

  lemma IndexOfAppended(d: seq<string>, x: string)
    requires x !in d
    ensures IndexOf(d + [x], x) == |d|
  {
    var j := IndexOf(d + [x], x);
    assert (d + [x])[|d|] == x;
    assert forall k :: 0 <= k < |d| ==> (d + [x])[k] == d[k];
  }

  /**
   * The catalog built from a scan result: duplicate-free, never empty, the
   * scan's names when it found any and otherwise the single default file.
   */
  function BuildCatalog(found: seq<string>): (c: seq<string>)
    ensures |c| >= 1 && NoDuplicates(c)
    ensures found != [] ==> forall x :: x in c <==> x in found
    ensures found == [] ==> c == [DefaultBackground]
  {
    var d := Dedup(found);
    if |d| == 0 then [DefaultBackground] else d
  }

  /** The catalog of a scan whose names are already distinct is that scan. */
  lemma BuildCatalogOfDistinct(found: seq<string>)
    requires found != [] && NoDuplicates(found)
    ensures BuildCatalog(found) == found
  {
    DedupOfDistinct(found);
  }

  /** The saved selection's position, or -1: an empty saved value counts as none. */
  function SavedIndex(catalog: seq<string>, saved: Option<string>): (i: int)
    ensures -1 <= i < |catalog|
    ensures i >= 0 <==> saved.Some? && saved.value != "" && saved.value in catalog
    ensures i >= 0 ==> Some(catalog[i]) == saved
  {
    if saved.Some? && saved.value != "" then IndexOf(catalog, saved.value) else -1
  }

  /**
   * Where the slideshow resumes: at the saved selection when it is in the
   * catalog, otherwise at the first entry.
   */
  function StartIndex(catalog: seq<string>, saved: Option<string>): (i: nat)
    requires |catalog| > 0
    ensures i < |catalog|
    ensures saved.Some? && saved.value != "" && saved.value in catalog ==> catalog[i] == saved.value
    ensures !(saved.Some? && saved.value != "" && saved.value in catalog) ==> i == 0
  {
    var savedIndex := SavedIndex(catalog, saved);
    if savedIndex >= 0 then savedIndex else 0
  }
}
