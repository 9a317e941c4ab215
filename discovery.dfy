/**
 * Background discovery: probe `fundos/fundo_<index>.<ext>` for index 1..300
 * and the four accepted extensions, collecting the files that load, and
 * stop early after 20 consecutive indices without a hit once something has
 * been found.
 *
 * Whether an image loads is an oracle, `imageExists`; the per-index probes
 * that the page runs concurrently are evaluated here in extension order,
 * which is the order the page keeps their results in.
 */
module Discovery {
  import opened Seqs

  const Extensions: seq<string> := ["png", "gif", "jpg", "jpeg"]
  const BackgroundFolder: string := "fundos/"
  const MaxScanIndex: nat := 300
  const StopAfterMissingStreak: nat := 20

  // ---------------------------------------------------------------------
  // File names
  // ---------------------------------------------------------------------

  function DigitChar(d: nat): char
    requires d < 10
  {
    (48 + d) as char
  }

  /** The decimal spelling of `n`, as a template literal writes an index. */
  function NatToString(n: nat): (s: string)
    ensures |s| >= 1 && (|s| == 1 <==> n < 10)
    ensures forall k :: 0 <= k < |s| ==> IsDigit(s[k])
    ensures s[0] == '0' ==> n == 0
  {
    if n < 10 then [DigitChar(n)] else NatToString(n / 10) + [DigitChar(n % 10)]
  }

  /** A position in `Extensions`. */
  type ExtPos = k: nat | k < 4

  /** One probe: an index and the position of an extension in `Extensions`. */
  datatype Probe = Probe(index: nat, ext: ExtPos)

  /** The file a probe asks for: `fundos/fundo_<index>.<ext>`, which reads back as that probe. */
  function FileName(p: Probe): (name: string)
    ensures ProbeOf(name) == p
  {
    ProbeOfSpelling(p);
    BackgroundFolder + "fundo_" + NatToString(p.index) + "." + Extensions[p.ext]
  }

  /** The candidates for one index: one per extension, in extension-list order. */
  function Candidates(index: nat): (c: seq<string>)
    ensures |c| == |Extensions|
    ensures forall k :: 0 <= k < |c| ==> ProbeOf(c[k]) == Probe(index, k)
  {
    seq(|Extensions|, k requires 0 <= k < |Extensions| => FileName(Probe(index, k)))
  }

  /** The names in `s` that load, in their order in `s`. */
  function Filter(imageExists: string -> bool, s: seq<string>): (r: seq<string>)
    ensures forall x :: x in r <==> x in s && imageExists(x)
    ensures |r| <= |s|
  {
    if s == [] then []
    else (if imageExists(s[0]) then [s[0]] else []) + Filter(imageExists, s[1..])
  }

  /** The hits for one index, as the page collects them. */
  function ValidForIndex(imageExists: string -> bool, index: nat): (hits: seq<string>)
    ensures forall x :: x in hits <==> x in Candidates(index) && imageExists(x)
    ensures |hits| <= |Extensions|
  {
    Filter(imageExists, Candidates(index))
  }

  // ---------------------------------------------------------------------
  // The scan, as a recursive specification of the loop
  // ---------------------------------------------------------------------

  /**
   * The result of the scan when it is about to probe `index` having
   * collected `found`, with `streak` consecutive indices so far empty.
   */
  function Scan(hits: nat -> seq<string>, index: nat, found: seq<string>, streak: nat): (r: seq<string>)
    decreases MaxScanIndex + 1 - index
  {
    if index > MaxScanIndex then found
    else if |hits(index)| > 0 then Scan(hits, index + 1, found + hits(index), 0)
    else if streak + 1 >= StopAfterMissingStreak && |found| > 0 then found
    else Scan(hits, index + 1, found, streak + 1)
  }

  /** The hits of each index, as the page computes them. */
  function HitsOf(imageExists: string -> bool): nat -> seq<string>
  {
    (index: nat) => ValidForIndex(imageExists, index)
  }

  /** What the whole scan returns: every hit up to the last index it probes. */
  function Discover(imageExists: string -> bool): (found: seq<string>)
  {
    Scan(HitsOf(imageExists), 1, [], 0)
  }

  /** discoverBackgrounds: the scan over the page's per-index probes. */
  method DiscoverBackgrounds(imageExists: string -> bool) returns (found: seq<string>)
    ensures found == Discover(imageExists)
  {
    found := ScanLoop(HitsOf(imageExists));
  }

  /**
   * The loop of discoverBackgrounds with its two accumulators, over any
   * per-index probe `probeIndex` (the hits of one index, in order).
   */
  method ScanLoop(probeIndex: nat -> seq<string>) returns (found: seq<string>)
    ensures found == Scan(probeIndex, 1, [], 0)
  {
    found := [];
    var missingStreak: nat := 0;
    var index: nat := 1;
    while index <= MaxScanIndex
      invariant 1 <= index <= MaxScanIndex + 1
      invariant Scan(probeIndex, index, found, missingStreak) == Scan(probeIndex, 1, [], 0)
      decreases MaxScanIndex + 1 - index
    {
      var validForIndex := probeIndex(index);
      if |validForIndex| > 0 {
        found := found + validForIndex;
        missingStreak := 0;
      } else {
        missingStreak := missingStreak + 1;
        if missingStreak >= StopAfterMissingStreak && |found| > 0 {
          break;
        }
      }
      index := index + 1;
    }
  }

  // ---------------------------------------------------------------------
  // The stopping rule, stated without the streak counter
  // ---------------------------------------------------------------------

  /** Every hit for indices 1..n, index by index. */
  function FoundUpTo(hits: nat -> seq<string>, n: nat): seq<string>
  {
    if n == 0 then [] else FoundUpTo(hits, n - 1) + hits(n)
  }

  /**
   * The scan may stop at index i: the 20 indices ending at i had no hit,
   * and something has been found by then.
   */
  ghost predicate StopsAt(hits: nat -> seq<string>, i: nat)
  {
    StopAfterMissingStreak <= i
    && (forall j :: i - StopAfterMissingStreak < j <= i ==> hits(j) == [])
    && FoundUpTo(hits, i) != []
  }

  /** The first index at or after `from` where the scan may stop, or the bound. */
  ghost function FirstStopFrom(hits: nat -> seq<string>, from: nat): (r: nat)
    requires 1 <= from <= MaxScanIndex + 1
    ensures 1 <= r <= MaxScanIndex
    ensures from <= MaxScanIndex ==> from <= r
    decreases MaxScanIndex + 1 - from
  {
    if from > MaxScanIndex then MaxScanIndex
    else if StopsAt(hits, from) then from
    else FirstStopFrom(hits, from + 1)
  }

  /** The scan ends where it may stop, or at the bound. */
  lemma {:induction false} FirstStopIsStopOrBound(hits: nat -> seq<string>, from: nat)
    requires 1 <= from <= MaxScanIndex + 1
    ensures StopsAt(hits, FirstStopFrom(hits, from)) || FirstStopFrom(hits, from) == MaxScanIndex
    decreases MaxScanIndex + 1 - from
  {
    if from <= MaxScanIndex && !StopsAt(hits, from) {
      FirstStopIsStopOrBound(hits, from + 1);
    }
  }

  /** No index between `from` and the first stop allows the scan to stop. */
  lemma {:induction false} FirstStopIsFirst(hits: nat -> seq<string>, from: nat, j: nat)
    requires 1 <= from <= MaxScanIndex + 1
    requires from <= j < FirstStopFrom(hits, from)
    ensures !StopsAt(hits, j)
    decreases MaxScanIndex + 1 - from
  {
    if j > from {
      FirstStopIsFirst(hits, from + 1, j);
    }
  }

  /** The last index the scan probes. */
  ghost function LastProbed(hits: nat -> seq<string>): nat
  {
    FirstStopFrom(hits, 1)
  }

  /** How many indices ending at n had no hit. */
  ghost function MissingStreak(hits: nat -> seq<string>, n: nat): nat
  {
    if n == 0 then 0
    else if hits(n) != [] then 0
    else MissingStreak(hits, n - 1) + 1
  }

  /** The streak counter reaches k exactly when the k indices ending at n were all empty. */
  lemma {:induction false} StreakReaches(hits: nat -> seq<string>, n: nat, k: nat)
    ensures MissingStreak(hits, n) >= k
        <==> (k <= n && forall j :: n - k < j <= n ==> hits(j) == [])
  {
    if k == 0 {
    } else if n == 0 {
    } else if hits(n) != [] {
    } else {
      StreakReaches(hits, n - 1, k - 1);
    }
  }

  /** From any index, the scan in the state the loop reaches there ends at the first stop. */
  lemma {:induction false} ScanFromIndex(hits: nat -> seq<string>, index: nat)
    requires 1 <= index <= MaxScanIndex + 1
    ensures Scan(hits, index, FoundUpTo(hits, index - 1), MissingStreak(hits, index - 1))
         == FoundUpTo(hits, FirstStopFrom(hits, index))
    decreases MaxScanIndex + 1 - index
  {
    if index <= MaxScanIndex {
      if StopsAt(hits, index) {
        ScanStepStops(hits, index);
      } else {
        ScanFromIndex(hits, index + 1);
        ScanStepContinues(hits, index);
      }
    }
  }

  /** Where the scan may stop, the loop breaks with what it has found. */
  lemma ScanStepStops(hits: nat -> seq<string>, index: nat)
    requires 1 <= index <= MaxScanIndex && StopsAt(hits, index)
    ensures Scan(hits, index, FoundUpTo(hits, index - 1), MissingStreak(hits, index - 1)) == FoundUpTo(hits, index)
    ensures FirstStopFrom(hits, index) == index
  {
    StreakReaches(hits, index, StopAfterMissingStreak);
    assert hits(index) == [];
  }

  /** Elsewhere, the loop moves on in the state the next index expects. */
  lemma ScanStepContinues(hits: nat -> seq<string>, index: nat)
    requires 1 <= index <= MaxScanIndex && !StopsAt(hits, index)
    ensures Scan(hits, index, FoundUpTo(hits, index - 1), MissingStreak(hits, index - 1))
         == Scan(hits, index + 1, FoundUpTo(hits, index), MissingStreak(hits, index))
    ensures FirstStopFrom(hits, index) == FirstStopFrom(hits, index + 1)
  {
    var found, streak := FoundUpTo(hits, index - 1), MissingStreak(hits, index - 1);
    StreakReaches(hits, index, StopAfterMissingStreak);
    if |hits(index)| > 0 {
      assert FoundUpTo(hits, index) == found + hits(index) && MissingStreak(hits, index) == 0;
    } else {
      assert FoundUpTo(hits, index) == found && MissingStreak(hits, index) == streak + 1;
      assert !(streak + 1 >= StopAfterMissingStreak && |found| > 0);
    }
  }

  /** The scan returns every hit up to the first index where it may stop, and nothing else. */
  lemma ScanStopsAtFirstStop(hits: nat -> seq<string>)
    ensures Scan(hits, 1, [], 0) == FoundUpTo(hits, LastProbed(hits))
  {
    ScanFromIndex(hits, 1);
  }

  /** A name is among the hits up to n exactly when some index 1..n has it. */
  lemma {:induction false} FoundUpToMembers(hits: nat -> seq<string>, n: nat, x: string)
    ensures x in FoundUpTo(hits, n) <==> exists i :: 1 <= i <= n && x in hits(i)
  {
    if n > 0 {
      FoundUpToMembers(hits, n - 1, x);
    }
  }

  /** Indices after the last hit add nothing. */
  lemma {:induction false} FoundUpToSkipsEmpty(hits: nat -> seq<string>, m: nat, n: nat)
    requires m <= n
    requires forall j :: m < j <= n ==> hits(j) == []
    ensures FoundUpTo(hits, n) == FoundUpTo(hits, m)
    decreases n - m
  {
    if m < n {
      FoundUpToSkipsEmpty(hits, m, n - 1);
    }
  }

  /** An index with a hit keeps every later prefix of the scan non-empty. */
  lemma {:induction false} FoundUpToNonEmpty(hits: nat -> seq<string>, i: nat, n: nat)
    requires 1 <= i <= n
    requires hits(i) != []
    ensures FoundUpTo(hits, n) != []
    decreases n
  {
    if i < n {
      FoundUpToNonEmpty(hits, i, n - 1);
    }
  }

  /** A stop that no earlier index allows is the last probed index. */
  lemma {:induction false} FirstStopIsLeast(hits: nat -> seq<string>, from: nat, s: nat)
    requires 1 <= from <= s <= MaxScanIndex
    requires StopsAt(hits, s)
    requires forall j :: from <= j < s ==> !StopsAt(hits, j)
    ensures FirstStopFrom(hits, from) == s
    decreases s - from
  {
    if from < s {
      FirstStopIsLeast(hits, from + 1, s);
    }
  }

  /** If no index has a hit, all 300 indices are probed and nothing is found. */
  lemma NoHitsScansAll(hits: nat -> seq<string>)
    requires forall i :: 1 <= i <= MaxScanIndex ==> hits(i) == []
    ensures LastProbed(hits) == MaxScanIndex
    ensures Scan(hits, 1, [], 0) == []
  {
    FirstStopIsStopOrBound(hits, 1);
    ScanStopsAtFirstStop(hits);
    FoundUpToSkipsEmpty(hits, 0, MaxScanIndex);
    forall j | 1 <= j <= MaxScanIndex
      ensures FoundUpTo(hits, j) == []
    {
      FoundUpToSkipsEmpty(hits, 0, j);
    }
  }

  /**
   * Hits at every index 1..h followed by 20 empty indices: the scan stops
   * at index h + 20 and returns exactly the hits of 1..h (for example, h = 3:
   * hits at 1-3, nothing at 4-23, and the scan stops at 23).
   */
  lemma StopsTwentyAfterLastHit(hits: nat -> seq<string>, h: nat)
    requires 1 <= h && h + StopAfterMissingStreak <= MaxScanIndex
    requires forall i :: 1 <= i <= h ==> hits(i) != []
    requires forall j :: h < j <= h + StopAfterMissingStreak ==> hits(j) == []
    ensures LastProbed(hits) == h + StopAfterMissingStreak
    ensures Scan(hits, 1, [], 0) == FoundUpTo(hits, h)
    ensures Scan(hits, 1, [], 0) != []
  {
    var s := h + StopAfterMissingStreak;
    FoundUpToNonEmpty(hits, h, s);
    assert StopsAt(hits, s);
    forall j | 1 <= j < s
      ensures !StopsAt(hits, j)
    {
      if StopAfterMissingStreak <= j {
        var i := j - StopAfterMissingStreak + 1;
        assert 1 <= i <= h && hits(i) != [];
      }
    }
    FirstStopIsLeast(hits, 1, s);
    ScanStopsAtFirstStop(hits);
    FoundUpToSkipsEmpty(hits, h, s);
    FoundUpToNonEmpty(hits, h, h);
  }

  // ---------------------------------------------------------------------
  // Reading a file name back
  // ---------------------------------------------------------------------

  predicate IsDigit(c: char)
  {
    '0' <= c <= '9'
  }

  /** The decimal number a digit string spells. */
  function ParseNat(s: string): nat
  {
    if |s| == 0 then 0
    else ParseNat(s[..|s| - 1]) * 10 + (if IsDigit(s[|s| - 1]) then s[|s| - 1] as int - 48 else 0)
  }

  lemma {:induction false} ParseNatToString(n: nat)
    ensures ParseNat(NatToString(n)) == n
  {
    var s := NatToString(n);
    if n >= 10 {
      assert s[..|s| - 1] == NatToString(n / 10);
      ParseNatToString(n / 10);
    }
  }

  /** The longest prefix of `s` made of digits. */
  function DigitsPrefix(s: string): (d: string)
    ensures |d| <= |s|
  {
    if |s| > 0 && IsDigit(s[0]) then [s[0]] + DigitsPrefix(s[1..]) else []
  }

  lemma {:induction false} DigitsPrefixStopsAtDot(d: string, rest: string)
    requires forall k :: 0 <= k < |d| ==> IsDigit(d[k])
    requires |rest| > 0 && rest[0] == '.'
    ensures DigitsPrefix(d + rest) == d
  {
    if |d| > 0 {
      assert (d + rest)[1..] == d[1..] + rest;
      DigitsPrefixStopsAtDot(d[1..], rest);
    }
  }

  /** The position of an accepted extension, told apart by its first letter and length. */
  function ExtPosOf(e: string): ExtPos
  {
    if |e| > 0 && e[0] == 'p' then 0
    else if |e| > 0 && e[0] == 'g' then 1
    else if |e| == 3 then 2
    else 3
  }

  /** The probe a file name spells: the inverse of `FileName`. */
  function ProbeOf(s: string): Probe
  {
    var rest := if |s| >= 13 then s[13..] else "";
    var digits := DigitsPrefix(rest);
    var ext := if |digits| < |rest| then rest[|digits| + 1..] else "";
    Probe(ParseNat(digits), ExtPosOf(ext))
  }

  /** The spelling of a probe's file name can be read back as that probe. */
  lemma ProbeOfSpelling(p: Probe)
    ensures ProbeOf(BackgroundFolder + "fundo_" + NatToString(p.index) + "." + Extensions[p.ext]) == p
  {
    var d, e := NatToString(p.index), Extensions[p.ext];
    var s := BackgroundFolder + "fundo_" + NatToString(p.index) + "." + Extensions[p.ext];
    assert |BackgroundFolder + "fundo_"| == 13;
    assert s[13..] == d + ("." + e);
    DigitsPrefixStopsAtDot(d, "." + e);
    assert (d + ("." + e))[|d| + 1..] == e;
    ParseNatToString(p.index);
    assert Extensions[0][0] == 'p' && Extensions[1][0] == 'g';
    assert Extensions[2][0] == 'j' && Extensions[3][0] == 'j';
    assert |Extensions[2]| == 3 && |Extensions[3]| == 4;
  }

  /** Different probes ask for different files. */
  lemma FileNameInjective(p: Probe, q: Probe)
    ensures FileName(p) == FileName(q) <==> p == q
  {
  }

  // ---------------------------------------------------------------------
  // Order and distinctness, through the probes behind the names
  // ---------------------------------------------------------------------

  /** Probe order: by index, then by extension position. */
  predicate Before(p: Probe, q: Probe)
  {
    p.index < q.index || (p.index == q.index && p.ext < q.ext)
  }

  predicate Ordered(ps: seq<Probe>)
  {
    forall a, b :: 0 <= a < b < |ps| ==> Before(ps[a], ps[b])
  }

  function Names(name: Probe -> string, ps: seq<Probe>): (r: seq<string>)
    ensures |r| == |ps| && forall a :: 0 <= a < |ps| ==> r[a] == name(ps[a])
  {
    if ps == [] then [] else [name(ps[0])] + Names(name, ps[1..])
  }

  /** The probes of `ps` that `keep` accepts, in order. */
  function FilterProbes(keep: Probe -> bool, ps: seq<Probe>): (r: seq<Probe>)
    ensures forall p :: p in r <==> p in ps && keep(p)
    ensures Ordered(ps) ==> Ordered(r)
  {
    if ps == [] then []
    else
      var rest := FilterProbes(keep, ps[1..]);
      assert Ordered(ps) ==> Ordered(ps[1..]);
      assert Ordered(ps) ==> forall q :: q in rest ==> Before(ps[0], q);
      if keep(ps[0]) then [ps[0]] + rest else rest
  }

  /** Filtering names by a predicate on names equals naming the probes filtered by it. */
  lemma {:induction false} FilterOfNames(imageExists: string -> bool, name: Probe -> string, keep: Probe -> bool, ps: seq<Probe>)
    requires forall p :: keep(p) == imageExists(name(p))
    ensures Filter(imageExists, Names(name, ps)) == Names(name, FilterProbes(keep, ps))
  {
    if ps != [] {
      assert Names(name, ps)[1..] == Names(name, ps[1..]);
      FilterOfNames(imageExists, name, keep, ps[1..]);
    }
  }

  /** The four probes of one index, in extension order. */
  function ProbesAt(index: nat): (ps: seq<Probe>)
    ensures |ps| == |Extensions| && Ordered(ps)
    ensures forall a :: 0 <= a < |ps| ==> ps[a] == Probe(index, a)
  {
    seq(|Extensions|, k requires 0 <= k < |Extensions| => Probe(index, k))
  }

  /** The probes `keep` accepts, for indices 1..n, index by index. */
  function ProbesUpTo(keep: Probe -> bool, n: nat): seq<Probe>
  {
    if n == 0 then [] else ProbesUpTo(keep, n - 1) + FilterProbes(keep, ProbesAt(n))
  }

  lemma OrderedConcat(xs: seq<Probe>, ys: seq<Probe>)
    requires Ordered(xs) && Ordered(ys)
    requires forall p, q :: p in xs && q in ys ==> Before(p, q)
    ensures Ordered(xs + ys)
  {
    forall a, b | 0 <= a < b < |xs + ys| ensures Before((xs + ys)[a], (xs + ys)[b]) {
      if b < |xs| {
        assert (xs + ys)[a] == xs[a] && (xs + ys)[b] == xs[b];
      } else if a >= |xs| {
        assert (xs + ys)[a] == ys[a - |xs|] && (xs + ys)[b] == ys[b - |xs|];
      } else {
        assert (xs + ys)[a] in xs && (xs + ys)[b] in ys;
      }
    }
  }

  /** The accepted probes up to n are strictly increasing and have indices 1..n. */
  lemma {:induction false} ProbesUpToOrdered(keep: Probe -> bool, n: nat)
    ensures Ordered(ProbesUpTo(keep, n))
    ensures forall p :: p in ProbesUpTo(keep, n) ==> 1 <= p.index <= n
  {
    if n > 0 {
      ProbesUpToOrdered(keep, n - 1);
      var here := FilterProbes(keep, ProbesAt(n));
      assert forall p :: p in here ==> p.index == n;
      OrderedConcat(ProbesUpTo(keep, n - 1), here);
    }
  }

  /** When every index's hits are the names of its accepted probes, so are all hits up to n. */
  lemma {:induction false} FoundUpToNames(hits: nat -> seq<string>, name: Probe -> string, keep: Probe -> bool, n: nat)
    requires forall i :: 1 <= i <= n ==> hits(i) == Names(name, FilterProbes(keep, ProbesAt(i)))
    ensures FoundUpTo(hits, n) == Names(name, ProbesUpTo(keep, n))
  {
    if n > 0 {
      FoundUpToNames(hits, name, keep, n - 1);
      NamesConcat(name, ProbesUpTo(keep, n - 1), FilterProbes(keep, ProbesAt(n)));
    }
  }

  lemma NamesConcat(name: Probe -> string, xs: seq<Probe>, ys: seq<Probe>)
    ensures Names(name, xs + ys) == Names(name, xs) + Names(name, ys)
  {
    var l, r := Names(name, xs + ys), Names(name, xs) + Names(name, ys);
    forall a | 0 <= a < |l| ensures l[a] == r[a] {
      if a < |xs| {
        assert (xs + ys)[a] == xs[a];
      } else {
        assert (xs + ys)[a] == ys[a - |xs|];
      }
    }
  }

  /** Names of strictly ordered probes never repeat when the naming is injective. */
  lemma OrderedNamesDistinct(name: Probe -> string, ps: seq<Probe>)
    requires forall p, q :: name(p) == name(q) ==> p == q
    requires Ordered(ps)
    ensures NoDuplicates(Names(name, ps))
  {
    forall a, b | 0 <= a < b < |ps| ensures name(ps[a]) != name(ps[b]) {
      assert Before(ps[a], ps[b]);
    }
  }

  /** Whether a probe's file loads. */
  function Loads(imageExists: string -> bool): Probe -> bool
  {
    (p: Probe) => imageExists(FileName(p))
  }

  /** One index's hits are the names of its probes that load. */
  lemma ValidForIndexProbes(imageExists: string -> bool, index: nat)
    ensures HitsOf(imageExists)(index) == Names(FileName, FilterProbes(Loads(imageExists), ProbesAt(index)))
  {
    assert Candidates(index) == Names(FileName, ProbesAt(index));
    FilterOfNames(imageExists, FileName, Loads(imageExists), ProbesAt(index));
  }

  /**
   * The names come in probe order (increasing index, then extension-list
   * order) and none repeats.
   */
  lemma DiscoverInProbeOrder(imageExists: string -> bool)
    ensures var ps := ProbesUpTo(Loads(imageExists), LastProbed(HitsOf(imageExists)));
      Discover(imageExists) == Names(FileName, ps) && Ordered(ps)
    ensures NoDuplicates(Discover(imageExists))
  {
    var hits := HitsOf(imageExists);
    var last := LastProbed(hits);
    ScanStopsAtFirstStop(hits);
    forall i | 1 <= i <= last
      ensures hits(i) == Names(FileName, FilterProbes(Loads(imageExists), ProbesAt(i)))
    {
      ValidForIndexProbes(imageExists, i);
    }
    FoundUpToNames(hits, FileName, Loads(imageExists), last);
    ProbesUpToOrdered(Loads(imageExists), last);
    forall p, q ensures FileName(p) == FileName(q) ==> p == q {
      FileNameInjective(p, q);
    }
    OrderedNamesDistinct(FileName, ProbesUpTo(Loads(imageExists), last));
  }

  /** A probe is accepted up to n exactly when its index is in 1..n and `keep` accepts it. */
  lemma {:induction false} ProbesUpToMembers(keep: Probe -> bool, n: nat, p: Probe)
    ensures p in ProbesUpTo(keep, n) <==> 1 <= p.index <= n && keep(p)
  {
    if n > 0 {
      ProbesUpToMembers(keep, n - 1, p);
      assert p.index == n ==> ProbesAt(n)[p.ext] == p;
    }
  }

  lemma {:induction false} NamesMembers(name: Probe -> string, ps: seq<Probe>, x: string)
    ensures x in Names(name, ps) <==> exists p :: p in ps && name(p) == x
  {
    if ps != [] {
      NamesMembers(name, ps[1..], x);
      assert forall p :: p in ps <==> p == ps[0] || p in ps[1..];
    }
  }

  /**
   * What the scan returns: every name is `fundos/fundo_<i>.<ext>` with an
   * accepted extension and 1 <= i <= the last probed index, and loads; every
   * candidate up to the last probed index that loads is there.
   */
  lemma DiscoverMembers(imageExists: string -> bool, x: string)
    ensures x in Discover(imageExists) <==>
      exists p: Probe :: 1 <= p.index <= LastProbed(HitsOf(imageExists))
                         && FileName(p) == x && imageExists(x)
  {
    var last := LastProbed(HitsOf(imageExists));
    var ps := ProbesUpTo(Loads(imageExists), last);
    DiscoverInProbeOrder(imageExists);
    NamesMembers(FileName, ps, x);
    forall p ensures p in ps <==> 1 <= p.index <= last && imageExists(FileName(p)) {
      ProbesUpToMembers(Loads(imageExists), last, p);
    }
  }

  lemma {:induction false} FilterProbesNone(keep: Probe -> bool, ps: seq<Probe>)
    requires forall a :: 0 <= a < |ps| ==> !keep(ps[a])
    ensures FilterProbes(keep, ps) == []
  {
    if ps != [] {
      FilterProbesNone(keep, ps[1..]);
    }
  }

  /** If no candidate loads, all 300 indices are probed and the result is empty. */
  lemma NothingExistsScansAll(imageExists: string -> bool)
    requires forall p: Probe :: 1 <= p.index <= MaxScanIndex ==> !imageExists(FileName(p))
    ensures LastProbed(HitsOf(imageExists)) == MaxScanIndex
    ensures Discover(imageExists) == []
  {
    forall i | 1 <= i <= MaxScanIndex ensures HitsOf(imageExists)(i) == [] {
      ValidForIndexProbes(imageExists, i);
      FilterProbesNone(Loads(imageExists), ProbesAt(i));
    }
    NoHitsScansAll(HitsOf(imageExists));
  }
}
