/** The first pass of the core dumper: which pages of a task are dumped, and in what runs. */
module CoreRuns {
  import opened Base
  import opened Memory

  /** A table as the dumper sees it: its pages, or nothing if it is missing or the kernel's. */
  type Table = t: seq<Page> | |t| == 0 || |t| == ENTRIES witness []

  /** The tables of a task are these. */
  ghost predicate Owns(dir: PageDirectory, kernel: PageDirectory, own: seq<Table>)
    requires dir.Valid() && kernel.Valid()
    reads dir, dir.tables, dir.arrays, kernel, kernel.tables, kernel.arrays
  {
    && |own| == ENTRIES
    && forall i :: 0 <= i < ENTRIES ==>
         own[i] == if dir.tables[i] == null || kernel.tables[i] == dir.tables[i] then [] else dir.tables[i].pages[..]
  }

  // ----- runs of one table -----

  /** The number of present pages from i on without a gap. */
  function RunLength(t: seq<Page>, i: nat): (n: nat)
    requires i <= |t|
    ensures i + n <= |t|
    decreases |t| - i
  {
    if i < |t| && t[i].present then 1 + RunLength(t, i + 1) else 0
  }

  /** The pages at which runs start, from page i on. */
  function Starts(t: seq<Page>, i: nat): (r: seq<nat>)
    requires i <= |t|
    ensures forall k :: 0 <= k < |r| ==> i <= r[k] < |t|
    decreases |t| - i
  {
    if i == |t| then []
    else if t[i].present then [i] + Starts(t, i + RunLength(t, i))
    else Starts(t, i + 1)
  }

  function PresentCount(t: seq<Page>, i: nat): nat
    requires i <= |t|
    decreases |t| - i
  {
    if i == |t| then 0 else (if t[i].present then 1 else 0) + PresentCount(t, i + 1)
  }

  /** Pages s up to e are a maximal stretch of present pages. */
  ghost predicate MaximalRun(t: seq<Page>, s: nat, e: nat) {
    && s < e <= |t|
    && (forall p :: s <= p < e ==> t[p].present)
    && (s == 0 || !t[s - 1].present) && (e == |t| || !t[e].present)
  }

  lemma {:induction false} RunIsPresent(t: seq<Page>, i: nat)
    requires i <= |t|
    ensures forall p :: i <= p < i + RunLength(t, i) ==> t[p].present
    ensures i + RunLength(t, i) == |t| || !t[i + RunLength(t, i)].present
    decreases |t| - i
  {
    if i < |t| && t[i].present {
      RunIsPresent(t, i + 1);
    }
  }

  /** A run counts as many present pages as it is long. */
  lemma {:induction false} CountRun(t: seq<Page>, i: nat)
    requires i <= |t|
    ensures PresentCount(t, i) == RunLength(t, i) + PresentCount(t, i + RunLength(t, i))
    decreases |t| - i
  {
    if i < |t| && t[i].present {
      CountRun(t, i + 1);
    }
  }

  lemma StepStart(t: seq<Page>, i: nat)
    requires i < |t|
    ensures !t[i].present ==> Starts(t, i) == Starts(t, i + 1)
    ensures t[i].present ==> Starts(t, i) == [i] + Starts(t, i + RunLength(t, i))
  {
  }

  /** Maximal runs end where their length says, and start nowhere inside another. */
  lemma RunsApart(t: seq<Page>, i: nat, s: nat)
    requires i < |t| && i <= s < i + RunLength(t, i) && (i == 0 || !t[i - 1].present)
    ensures MaximalRun(t, s, s + RunLength(t, s)) <==> s == i
  {
    RunIsPresent(t, i);
    RunIsPresent(t, s);
    if s > i {
      assert t[s - 1].present;
    }
  }

  lemma NotARun(t: seq<Page>, i: nat)
    requires i < |t| && !t[i].present
    ensures !MaximalRun(t, i, i + RunLength(t, i))
  {
  }

  /** The starts are those of the maximal runs. */
  lemma {:induction false} StartsAreRuns(t: seq<Page>, i: nat)
    requires i <= |t| && (i < |t| && t[i].present ==> i == 0 || !t[i - 1].present)
    ensures forall s :: s in Starts(t, i) <==> i <= s < |t| && MaximalRun(t, s, s + RunLength(t, s))
    decreases |t| - i
  {
    hide Starts, MaximalRun;
    if i == |t| {
    } else if t[i].present {
      var n := i + RunLength(t, i);
      StepStart(t, i);
      RunIsPresent(t, i);
      StartsAreRuns(t, n);
      forall s | i <= s < n ensures MaximalRun(t, s, s + RunLength(t, s)) <==> s == i {
        RunsApart(t, i, s);
      }
    } else {
      StepStart(t, i);
      StartsAreRuns(t, i + 1);
      NotARun(t, i);
    }
  }

  /** Each start lies beyond the end of the run before it. */
  lemma {:induction false} StartsAscend(t: seq<Page>, i: nat)
    requires i <= |t|
    ensures forall a, b :: 0 <= a < b < |Starts(t, i)| ==>
              Starts(t, i)[a] + RunLength(t, Starts(t, i)[a]) <= Starts(t, i)[b]
    decreases |t| - i
  {
    if i == |t| {
    } else if t[i].present {
      var rest := Starts(t, i + RunLength(t, i));
      StartsAscend(t, i + RunLength(t, i));
      forall b | 0 <= b < |rest| ensures i + RunLength(t, i) <= rest[b] {
        assert rest[b] in rest;
      }
    } else {
      StartsAscend(t, i + 1);
    }
  }

  // ----- runs of all tables -----

  /** A run is named by its table and first page, packed into one word. */
  function Encode(table: nat, page: nat): nat {
    table * 0x1_0000 + page
  }

  function EncodeAll(table: nat, starts: seq<nat>): (r: seq<nat>)
    ensures |r| == |starts| && forall k :: 0 <= k < |r| ==> r[k] == Encode(table, starts[k])
  {
    seq(|starts|, k requires 0 <= k < |starts| => Encode(table, starts[k]))
  }

  function RunsFrom(own: seq<Table>, i: nat): seq<nat>
    requires i <= |own|
    decreases |own| - i
  {
    if i == |own| then [] else EncodeAll(i, Starts(own[i], 0)) + RunsFrom(own, i + 1)
  }

  function CountFrom(own: seq<Table>, i: nat): nat
    requires i <= |own|
    decreases |own| - i
  {
    if i == |own| then 0 else PresentCount(own[i], 0) + CountFrom(own, i + 1)
  }

  /** The word names a page of a table. */
  predicate IsPage(own: seq<Table>, run: nat) {
    run / 0x1_0000 < |own| && run % 0x1_0000 < |own[run / 0x1_0000]|
  }

  function LengthOf(own: seq<Table>, run: nat): nat
    requires IsPage(own, run)
  {
    RunLength(own[run / 0x1_0000], run % 0x1_0000)
  }

  /** The word names the start of a maximal run. */
  ghost predicate StartsRun(own: seq<Table>, run: nat) {
    IsPage(own, run) && MaximalRun(own[run / 0x1_0000], run % 0x1_0000, run % 0x1_0000 + LengthOf(own, run))
  }

  function PagesOf(own: seq<Table>, runs: seq<nat>): nat
    requires forall k :: 0 <= k < |runs| ==> IsPage(own, runs[k])
  {
    if runs == [] then 0 else LengthOf(own, runs[0]) + PagesOf(own, runs[1..])
  }

  lemma Decode(table: nat, page: nat)
    requires page <= ENTRIES
    ensures Encode(table, page) / 0x1_0000 == table && Encode(table, page) % 0x1_0000 == page
  {
  }

  /** The runs of one table. */
  lemma RunsOfTable(own: seq<Table>, i: nat)
    requires i < |own|
    ensures forall e: nat :: e in EncodeAll(i, Starts(own[i], 0)) <==> e / 0x1_0000 == i && StartsRun(own, e)
  {
    var t: seq<Page>, first := own[i], EncodeAll(i, Starts(own[i], 0));
    StartsAreRuns(t, 0);
    hide MaximalRun, Starts, RunLength;
    forall e: nat | e in first ensures e / 0x1_0000 == i && StartsRun(own, e) {
      var k :| 0 <= k < |first| && first[k] == e;
      Decode(i, Starts(t, 0)[k]);
      assert Starts(t, 0)[k] in Starts(t, 0);
    }
    forall e: nat | e / 0x1_0000 == i && StartsRun(own, e) ensures e in first {
      assert e % 0x1_0000 in Starts(t, 0);
      var k :| 0 <= k < |Starts(t, 0)| && Starts(t, 0)[k] == e % 0x1_0000;
      assert first[k] == e;
    }
  }

  /** The runs are exactly the maximal runs of present pages in the task's own tables. */
  lemma {:induction false} RunsExact(own: seq<Table>, i: nat)
    requires i <= |own|
    ensures forall e: nat :: e in RunsFrom(own, i) <==> i <= e / 0x1_0000 && StartsRun(own, e)
    decreases |own| - i
  {
    hide StartsRun, Starts;
    if i < |own| {
      RunsOfTable(own, i);
      RunsExact(own, i + 1);
    } else {
      forall e: nat | i <= e / 0x1_0000 ensures !StartsRun(own, e) {
        NoSuchTable(own, e);
      }
    }
  }

  lemma NoSuchTable(own: seq<Table>, e: nat)
    requires |own| <= e / 0x1_0000
    ensures !StartsRun(own, e)
  {
  }

  /** The word of the page after a run. */
  function EndOf(own: seq<Table>, run: nat): nat
    requires IsPage(own, run)
  {
    run + LengthOf(own, run)
  }

  lemma RunsInTable(own: seq<Table>, i: nat, first: seq<nat>)
    requires i < |own| && first == EncodeAll(i, Starts(own[i], 0))
    ensures forall k :: 0 <= k < |first| ==>
              IsPage(own, first[k]) && Encode(i, 0) <= first[k] && EndOf(own, first[k]) <= Encode(i, ENTRIES)
    ensures forall a, b :: 0 <= a < b < |first| ==> EndOf(own, first[a]) <= first[b]
  {
    var t: seq<Page> := own[i];
    StartsAscend(t, 0);
    hide Starts, RunLength;
    forall k | 0 <= k < |first|
      ensures IsPage(own, first[k])
      ensures EndOf(own, first[k]) == Encode(i, Starts(t, 0)[k] + RunLength(t, Starts(t, 0)[k]))
    {
      Decode(i, Starts(t, 0)[k]);
    }
  }

  /** Runs ascend and do not overlap. */
  lemma {:induction false} RunsAscend(own: seq<Table>, i: nat)
    requires i <= |own|
    ensures forall k :: 0 <= k < |RunsFrom(own, i)| ==>
              IsPage(own, RunsFrom(own, i)[k]) && Encode(i, 0) <= RunsFrom(own, i)[k]
    ensures forall a, b :: 0 <= a < b < |RunsFrom(own, i)| ==>
              EndOf(own, RunsFrom(own, i)[a]) <= RunsFrom(own, i)[b]
    decreases |own| - i
  {
    hide Starts, IsPage, EndOf;
    if i < |own| {
      var first, rest, all := EncodeAll(i, Starts(own[i], 0)), RunsFrom(own, i + 1), RunsFrom(own, i);
      RunsInTable(own, i, first);
      RunsAscend(own, i + 1);
      assert all == first + rest;
      forall k | 0 <= k < |all| ensures IsPage(own, all[k]) && Encode(i, 0) <= all[k] {
        if k < |first| {
          assert all[k] == first[k];
        } else {
          assert all[k] == rest[k - |first|];
        }
      }
      forall a, b | 0 <= a < b < |all| ensures EndOf(own, all[a]) <= all[b] {
        if b < |first| {
          assert all[a] == first[a] && all[b] == first[b];
        } else if a < |first| {
          assert all[a] == first[a] && all[b] == rest[b - |first|];
        } else {
          assert all[a] == rest[a - |first|] && all[b] == rest[b - |first|];
        }
      }
    }
  }

  /** The present pages are counted once, run by run. */
  lemma {:induction false} StartsCount(own: seq<Table>, i: nat, s: nat)
    requires i < |own| && s <= |own[i]|
    ensures forall k :: 0 <= k < |Starts(own[i], s)| ==> IsPage(own, EncodeAll(i, Starts(own[i], s))[k])
    ensures PagesOf(own, EncodeAll(i, Starts(own[i], s))) == PresentCount(own[i], s)
    decreases |own[i]| - s
  {
    var t: seq<Page> := own[i];
    var r := EncodeAll(i, Starts(t, s));
    forall k | 0 <= k < |r| ensures IsPage(own, r[k]) {
      Decode(i, Starts(t, s)[k]);
    }
    if s == |t| {
    } else if t[s].present {
      var n := s + RunLength(t, s);
      CountRun(t, s);
      StartsCount(own, i, n);
      Decode(i, s);
      assert r[1..] == EncodeAll(i, Starts(t, n));
    } else {
      StartsCount(own, i, s + 1);
    }
  }

  lemma {:induction false} PagesOfAppend(own: seq<Table>, x: seq<nat>, y: seq<nat>)
    requires forall k :: 0 <= k < |x| ==> IsPage(own, x[k])
    requires forall k :: 0 <= k < |y| ==> IsPage(own, y[k])
    ensures PagesOf(own, x + y) == PagesOf(own, x) + PagesOf(own, y)
  {
    if x == [] {
      assert x + y == y;
    } else {
      assert (x + y)[1..] == x[1..] + y;
      PagesOfAppend(own, x[1..], y);
    }
  }

  /** The runs hold as many pages as were counted. */
  lemma {:induction false} RunsCount(own: seq<Table>, i: nat)
    requires i <= |own|
    ensures forall k :: 0 <= k < |RunsFrom(own, i)| ==> IsPage(own, RunsFrom(own, i)[k])
    ensures PagesOf(own, RunsFrom(own, i)) == CountFrom(own, i)
    decreases |own| - i
  {
    RunsAscend(own, i);
    hide IsPage, Starts, PresentCount;
    if i < |own| {
      StartsCount(own, i, 0);
      RunsCount(own, i + 1);
      PagesOfAppend(own, EncodeAll(i, Starts(own[i], 0)), RunsFrom(own, i + 1));
    }
  }

  /** The run that a present page belongs to. */
  lemma {:induction false} RunOf(t: seq<Page>, p: nat) returns (s: nat)
    requires p < |t| && t[p].present
    ensures s <= p < s + RunLength(t, s) && MaximalRun(t, s, s + RunLength(t, s))
  {
    if p > 0 && t[p - 1].present {
      s := RunOf(t, p - 1);
    } else {
      s := p;
    }
    RunIsPresent(t, s);
  }

  // ----- the scan -----

  /** What the scan has still to find at page pi, and at the page after it. */
  lemma ScanStep(t: seq<Page>, pti: nat, pi: nat)
    requires pi < |t|
    ensures !t[pi].present ==> Starts(t, pi) == Starts(t, pi + 1) && RunLength(t, pi) == 0
    ensures t[pi].present ==> RunLength(t, pi) == 1 + RunLength(t, pi + 1)
    ensures t[pi].present ==> EncodeAll(pti, Starts(t, pi)) ==
                              [Encode(pti, pi)] + EncodeAll(pti, Starts(t, pi + RunLength(t, pi)))
    ensures PresentCount(t, pi) == (if t[pi].present then 1 else 0) + PresentCount(t, pi + 1)
  {
  }

  lemma ScanEnd(t: seq<Page>, pti: nat)
    ensures EncodeAll(pti, Starts(t, |t|)) == [] && RunLength(t, |t|) == 0 && PresentCount(t, |t|) == 0
  {
  }

  /** Walks one table, noting where runs start and counting runs and pages as the dumper does. */
  method ScanTable(pages: array<Page>, pti: nat) returns (runs: seq<nat>, runCount: nat, pageCount: nat)
    requires pages.Length == ENTRIES
    ensures runs == EncodeAll(pti, Starts(pages[..], 0)) && runCount == |runs|
    ensures pageCount == PresentCount(pages[..], 0)
  {
    hide Starts, EncodeAll, RunLength, PresentCount, Encode;
    ghost var t: seq<Page> := pages[..];
    ScanEnd(t, pti);
    var lastStart: int := -1;
    runs, runCount, pageCount := [], 0, 0;
    var pi := 0;
    while pi < ENTRIES
      invariant 0 <= pi <= ENTRIES
      invariant runs + EncodeAll(pti, Starts(t, if lastStart == -1 then pi else pi + RunLength(t, pi))) ==
                EncodeAll(pti, Starts(t, 0))
      invariant runCount + (if lastStart == -1 then 0 else 1) == |runs|
      invariant pageCount + PresentCount(t, pi) == PresentCount(t, 0)
      invariant lastStart >= -1
    {
      ScanStep(t, pti, pi);
      if lastStart != -1 && !pages[pi].present {
        runCount := runCount + 1;
        lastStart := -1;
      } else if lastStart == -1 && pages[pi].present {
        pageCount := pageCount + 1;
        lastStart := pi;
        runs := runs + [Encode(pti, pi)];
      } else if pages[pi].present {
        pageCount := pageCount + 1;
      }
      pi := pi + 1;
    }
    if lastStart != -1 {
      runCount := runCount + 1;
    }
  }

  lemma OwnTables(dir: PageDirectory, kernel: PageDirectory, own: seq<Table>)
    requires dir.Valid() && kernel.Valid() && Owns(dir, kernel, own)
    ensures dir.tables.Length == ENTRIES && kernel.tables.Length == ENTRIES && |own| == ENTRIES
  {
  }

  lemma AllScanned(own: seq<Table>)
    ensures RunsFrom(own, |own|) == [] && CountFrom(own, |own|) == 0
  {
  }

  /** What the scan of one table adds; a table that is skipped adds nothing. */
  lemma OwnTable(dir: PageDirectory, kernel: PageDirectory, own: seq<Table>, i: nat)
    requires dir.Valid() && kernel.Valid() && Owns(dir, kernel, own) && i < ENTRIES
    ensures |own| == ENTRIES
    ensures RunsFrom(own, i) ==
            (if dir.tables[i] != null && kernel.tables[i] != dir.tables[i] then
               EncodeAll(i, Starts(dir.tables[i].pages[..], 0)) else []) + RunsFrom(own, i + 1)
    ensures CountFrom(own, i) ==
            (if dir.tables[i] != null && kernel.tables[i] != dir.tables[i] then
               PresentCount(dir.tables[i].pages[..], 0) else 0) + CountFrom(own, i + 1)
  {
  }

  /** Scans the tables that are the task's own. */
  method ScanRuns(dir: PageDirectory, kernel: PageDirectory, ghost own: seq<Table>)
    returns (runs: seq<nat>, runCount: nat, pageCount: nat)
    requires dir.Valid() && kernel.Valid() && Owns(dir, kernel, own)
    ensures runs == RunsFrom(own, 0) && runCount == |runs| && pageCount == CountFrom(own, 0)
    ensures forall e: nat :: e in runs <==> StartsRun(own, e)
    ensures forall k :: 0 <= k < |runs| ==> IsPage(own, runs[k])
    ensures pageCount == PagesOf(own, runs)
  {
    hide Starts, PresentCount, StartsRun, EncodeAll, RunsFrom, CountFrom, Owns, IsPage, PagesOf;
    runs, runCount, pageCount := [], 0, 0;
    OwnTables(dir, kernel, own);
    AllScanned(own);
    var pti := 0;
    while pti < ENTRIES
      invariant 0 <= pti <= ENTRIES && runCount == |runs|
      invariant runs + RunsFrom(own, pti) == RunsFrom(own, 0)
      invariant pageCount + CountFrom(own, pti) == CountFrom(own, 0)
    {
      OwnTable(dir, kernel, own, pti);
      if dir.tables[pti] != null && kernel.tables[pti] != dir.tables[pti] {
        var found, foundRuns, foundPages := ScanTable(dir.tables[pti].pages, pti);
        runs, runCount, pageCount := runs + found, runCount + foundRuns, pageCount + foundPages;
      }
      pti := pti + 1;
    }
    RunsExact(own, 0);
    RunsCount(own, 0);
  }
}
