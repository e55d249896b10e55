// The module pass (LLVMInjectFaultPass::runOnModule): for each function in
// turn, first the snapshot of its marked calls, then one rewrite per call of
// the snapshot, in snapshot order.
module Pass {
  import opened IR
  import opened BitMask
  import opened Selection
  import opened Injection

  // ---------------------------------------------------------------------
  // What the pass computes

  /** A marked call in a function whose blocks end in terminators can be
      rewritten: it is a call, so not the last instruction of its block, and
      it names its callee, so operand 0 is known. */
  lemma TargetIsSite(fn: Func, p: Pos)
    requires Terminated(fn) && ValidPos(fn, p) && IsTarget(fn[p.b][p.i])
    ensures IsSite(fn, p)
  {
    assert fn[p.b][|fn[p.b]| - 1].kind == Terminator;
  }

  /** A call of the snapshot is in the function and can be rewritten. */
  lemma SnapshotSite(fn: Func, n: Id, x: Id)
    requires WellFormed(fn, n) && x in Targets(fn)
    ensures Find(fn, x).Some?
    ensures var p := Find(fn, x).value;
      IsSite(fn, p) && IsTarget(fn[p.b][p.i]) && fn[p.b][p.i].id == x
  {
    TargetsFrom(fn, x);
    var c, t :| 0 <= c < |fn| && 0 <= t < |fn[c]| && fn[c][t].id == x && IsTarget(fn[c][t]);
    FindUnique(fn, Pos(c, t));
    TargetIsSite(fn, Pos(c, t));
  }

  /** `insertInjectFault(M, F, CI)` for the call `x` of the snapshot, with
      bit position `k` and fresh identities from `n`. */
  ghost function SiteOf(fn: Func, x: Id, k: BitPos, n: Id): Func
    requires WellFormed(fn, n) && x in Targets(fn)
  {
    SnapshotSite(fn, n, x);
    InjectSite(fn, Find(fn, x).value, k, n)
  }

  /** The state of a function the pass may rewrite: well formed below the
      next fresh identity `n`, with `mm` a leading part of the snapshot of
      its marked calls (the part still to be rewritten). */
  ghost predicate Ready(fn: Func, mm: seq<Id>, n: Id) {
    WellFormed(fn, n) && mm <= Targets(fn)
  }

  /** Rewriting the first call still to do keeps the function well formed,
      above the five identities it takes, removes exactly that call from the
      marked calls and adds four instructions. */
  lemma FirstSiteReady(fn: Func, mm: seq<Id>, k: BitPos, n: Id)
    requires Ready(fn, mm, n) && mm != []
    ensures Ready(SiteOf(fn, mm[0], k, n), mm[1..], n + 5)
    ensures Targets(SiteOf(fn, mm[0], k, n)) == Targets(fn)[1..]
    ensures Size(SiteOf(fn, mm[0], k, n)) == Size(fn) + 4
  {
    SnapshotSite(fn, n, mm[0]);
    var p := Find(fn, mm[0]).value;
    InjectSiteWellFormed(fn, p, k, n);
    InjectSiteTargets(fn, p, k, n);
  }

  /** The function after the pass has rewritten, in order, the calls `mm`
      of the snapshot: each site takes the next five fresh identities,
      starting at `n`, and the next bit position of `ks`. */
  ghost function Steps(fn: Func, mm: seq<Id>, ks: seq<BitPos>, n: Id): Func
    requires Ready(fn, mm, n) && |ks| == |mm|
    decreases |mm|
  {
    if mm == [] then fn
    else
      FirstSiteReady(fn, mm, ks[0], n);
      Steps(SiteOf(fn, mm[0], ks[0], n), mm[1..], ks[1..], n + 5)
  }

  /** One step of `Steps`, with what makes the rest of the pass defined. */
  lemma StepsUnfold(fn: Func, mm: seq<Id>, ks: seq<BitPos>, n: Id)
    requires Ready(fn, mm, n) && |ks| == |mm| && mm != []
    ensures Ready(SiteOf(fn, mm[0], ks[0], n), mm[1..], n + 5)
    ensures Steps(fn, mm, ks, n) == Steps(SiteOf(fn, mm[0], ks[0], n), mm[1..], ks[1..], n + 5)
  {
    FirstSiteReady(fn, mm, ks[0], n);
  }

  lemma StepsEmpty(fn: Func, mm: seq<Id>, ks: seq<BitPos>, n: Id)
    requires Ready(fn, mm, n) && |ks| == |mm| && mm == []
    ensures Steps(fn, mm, ks, n) == fn
  {
  }

  /** After the calls `mm` of the snapshot are rewritten the function is well
      formed below the identities they took, the calls still marked are the
      rest of the snapshot, and every site added four instructions. */
  lemma {:induction false} StepsReady(fn: Func, mm: seq<Id>, ks: seq<BitPos>, n: Id)
    requires Ready(fn, mm, n) && |ks| == |mm|
    ensures var r := Steps(fn, mm, ks, n);
      WellFormed(r, n + 5 * |mm|) && Targets(r) == Targets(fn)[|mm|..] &&
      Size(r) == Size(fn) + 4 * |mm|
    decreases |mm|
  {
    hide Steps, SiteOf, WellFormed, Targets, TargetsIn, Size;
    if mm != [] {
      var r1 := SiteOf(fn, mm[0], ks[0], n);
      FirstSiteReady(fn, mm, ks[0], n);
      StepsUnfold(fn, mm, ks, n);
      StepsReady(r1, mm[1..], ks[1..], n + 5);
      assert Targets(fn)[1..][|mm| - 1..] == Targets(fn)[|mm|..];
    } else {
      StepsEmpty(fn, mm, ks, n);
    }
  }

  /** Of the identities in use before the pass, exactly the rewritten calls
      are gone afterwards. */
  lemma {:induction false} StepsKeeps(fn: Func, mm: seq<Id>, ks: seq<BitPos>, n: Id, y: Id)
    requires Ready(fn, mm, n) && |ks| == |mm| && y < n
    ensures y in Ids(Steps(fn, mm, ks, n)) <==> y in Ids(fn) && y !in mm
    decreases |mm|
  {
    hide Steps, Targets, TargetsIn, Ids, InjectSite;
    if mm != [] {
      var r1 := SiteOf(fn, mm[0], ks[0], n);
      StepsUnfold(fn, mm, ks, n);
      StepsKeeps(r1, mm[1..], ks[1..], n + 5, y);
      SnapshotSite(fn, n, mm[0]);
      InjectSiteKeeps(fn, Find(fn, mm[0]).value, ks[0], n, y);
      assert y in mm <==> y == mm[0] || y in mm[1..];
    } else {
      StepsEmpty(fn, mm, ks, n);
    }
  }

  /** The pass one call further: the rewrite of call `j` of the snapshot
      applied to the function as the first `j` rewrites left it. */
  lemma {:induction false} StepsSnoc(fn: Func, mm: seq<Id>, ks: seq<BitPos>, k: BitPos, n: Id, j: nat)
    requires Ready(fn, mm, n) && j < |mm| && |ks| == j
    ensures var r := Steps(fn, mm[..j], ks, n);
      WellFormed(r, n + 5 * j) && mm[j] in Targets(r)
    ensures Steps(fn, mm[..j + 1], ks + [k], n) == SiteOf(Steps(fn, mm[..j], ks, n), mm[j], k, n + 5 * j)
    decreases j
  {
    hide Steps, SiteOf, WellFormed, Targets, TargetsIn;
    StepsReady(fn, mm[..j], ks, n);
    assert mm[j] == Targets(fn)[j..][0];
    if j == 0 {
      assert ks + [k] == [k] && [k][1..] == [];
      StepsUnfold(fn, mm[..1], [k], n);
      assert mm[..1][0] == mm[0] && mm[..1][1..] == [];
      StepsEmpty(fn, mm[..0], ks, n);
      StepsEmpty(SiteOf(fn, mm[0], k, n), [], [], n + 5);
    } else {
      var r1 := SiteOf(fn, mm[0], ks[0], n);
      FirstSiteReady(fn, mm, ks[0], n);
      StepsSnoc(r1, mm[1..], ks[1..], k, n + 5, j - 1);
      StepsUnfold(fn, mm[..j + 1], ks + [k], n);
      assert mm[..j + 1][1..] == mm[1..][..j];
      assert (ks + [k])[1..] == ks[1..] + [k];
      StepsUnfold(fn, mm[..j], ks, n);
      assert mm[..j][1..] == mm[1..][..j - 1];
    }
  }

  /** The snapshot names instructions of the function, so its entries are
      below the next fresh identity. */
  lemma TargetsBelow(fn: Func, n: Id, j: nat)
    requires IdsBelow(fn, n) && j < |Targets(fn)|
    ensures Targets(fn)[j] < n
  {
    TargetsFrom(fn, Targets(fn)[j]);
    var c, t :| 0 <= c < |fn| && 0 <= t < |fn[c]| && fn[c][t].id == Targets(fn)[j] && IsTarget(fn[c][t]);
    IdsAt(fn, c, t);
  }

  /** The slots and mask stores of the sites rewritten with fresh identities
      from `n` and bit positions `ks`, the latest site first. */
  function SlotPairs(ks: seq<BitPos>, n: Id): Block {
    if ks == [] then []
    else SlotPairs(ks[1..], n + 5) + [SlotAlloca(n), MaskStore(n, ks[0])]
  }

  /** A leading run of the entry block that holds no marked call and uses no call
      of `mm`. */
  ghost predicate QuietPrefix(fn: Func, mm: seq<Id>, m: nat) {
    m == 0 ||
    (|fn| > 0 && m <= |fn[0]| &&
     forall t | 0 <= t < m :: !IsTarget(fn[0][t]) && forall j | 0 <= j < |mm| :: !Uses(fn[0][t], mm[j]))
  }

  /** A run that starts with a new slot and its mask store and goes on with
      a quiet run stays quiet for the rest of the snapshot. */
  lemma QuietStep(fn: Func, r: Func, mm: seq<Id>, rest: seq<Id>, k: BitPos, n: Id, m: nat, m2: nat)
    requires Ready(fn, mm, n) && mm != [] && QuietPrefix(fn, mm, m)
    requires rest == mm[1..] && m2 == m + 2
    requires |r| > 0 && m2 <= |r[0]| && r[0][..m2] == [SlotAlloca(n), MaskStore(n, k)] + fn[0][..m]
    ensures QuietPrefix(r, rest, m2)
  {
    var pre := [SlotAlloca(n), MaskStore(n, k)] + fn[0][..m];
    forall t | 0 <= t < m2
      ensures !IsTarget(r[0][t]) && forall j | 0 <= j < |rest| :: !Uses(r[0][t], rest[j])
    {
      assert r[0][t] == pre[t];
      if t >= 2 {
        assert pre[t] == fn[0][t - 2];
      } else {
        forall j | 0 <= j < |rest| ensures !Uses(pre[t], rest[j]) {
          TargetsBelow(fn, n, j + 1);
        }
      }
    }
  }

  lemma FirstSiteEntry(fn: Func, mm: seq<Id>, k: BitPos, n: Id, m: nat, m2: nat)
    requires Ready(fn, mm, n) && mm != [] && QuietPrefix(fn, mm, m)
    requires m2 == m + 2
    ensures |fn| > 0 && |SiteOf(fn, mm[0], k, n)| > 0 && m2 <= |SiteOf(fn, mm[0], k, n)[0]|
    ensures SiteOf(fn, mm[0], k, n)[0][..m2] == [SlotAlloca(n), MaskStore(n, k)] + fn[0][..m]
  {
    SnapshotSite(fn, n, mm[0]);
    var p := Find(fn, mm[0]).value;
    EntryPrefix(fn, p, k, n, m);
  }

  /** The entry block of `r` starts with the slots and mask stores of the
      sites rewritten with `ks` from `n`, ahead of the first `m`
      instructions of the entry block of `fn`; `e` counts them all. */
  ghost predicate EntryShape(fn: Func, r: Func, ks: seq<BitPos>, n: Id, m: nat, e: nat) {
    |fn| > 0 ==>
      m <= |fn[0]| && |r| > 0 && e <= |r[0]| && r[0][..e] == SlotPairs(ks, n) + fn[0][..m]
  }

  /** The first rewrite puts its slot and mask store ahead of a quiet run
      of the entry block, and the longer run stays quiet. */
  lemma EntryFirst(fn: Func, mm: seq<Id>, ks: seq<BitPos>, n: Id, m: nat)
    requires Ready(fn, mm, n) && |ks| == |mm| && mm != [] && QuietPrefix(fn, mm, m)
    ensures EntryShape(fn, SiteOf(fn, mm[0], ks[0], n), ks[..1], n, m, m + 2)
    ensures QuietPrefix(SiteOf(fn, mm[0], ks[0], n), mm[1..], m + 2)
  {
    hide SiteOf;
    FirstSiteEntry(fn, mm, ks[0], n, m, m + 2);
    QuietStep(fn, SiteOf(fn, mm[0], ks[0], n), mm, mm[1..], ks[0], n, m, m + 2);
    assert SlotPairs(ks[..1], n) == [SlotAlloca(n), MaskStore(n, ks[0])] by {
      assert ks[..1][1..] == [];
    }
  }

  /** The first step of the pass, as a value: the function `r1` after the
      first site's rewrite, from which the rest of the pass goes on. */
  lemma StepsFirst(fn: Func, mm: seq<Id>, ks: seq<BitPos>, n: Id, m: nat) returns (r1: Func)
    requires Ready(fn, mm, n) && |ks| == |mm| && mm != [] && QuietPrefix(fn, mm, m)
    ensures Ready(r1, mm[1..], n + 5) && QuietPrefix(r1, mm[1..], m + 2)
    ensures EntryShape(fn, r1, ks[..1], n, m, m + 2) && (|fn| > 0 ==> |r1| > 0)
    ensures Steps(fn, mm, ks, n) == Steps(r1, mm[1..], ks[1..], n + 5)
  {
    r1 := SiteOf(fn, mm[0], ks[0], n);
    FirstSiteReady(fn, mm, ks[0], n);
    EntryFirst(fn, mm, ks, n, m);
  }

  lemma StepsNil(fn: Func, mm: seq<Id>, ks: seq<BitPos>, n: Id, m: nat)
    requires Ready(fn, mm, n) && |ks| == |mm| && mm == [] && QuietPrefix(fn, mm, m)
    ensures EntryShape(fn, Steps(fn, mm, ks, n), ks, n, m, m)
  {
  }

  /** The induction step of `StepsEntry`, on plain values: `r` is what
      the rest of the pass makes of `r1`, the function after the first
      site's rewrite. */
  lemma EntryJoin(fn: Func, r1: Func, r: Func, ks: seq<BitPos>, n: Id, m: nat, e: nat)
    requires ks != [] && EntryShape(fn, r1, ks[..1], n, m, m + 2)
    requires |fn| > 0 ==> |r1| > 0
    requires EntryShape(r1, r, ks[1..], n + 5, m + 2, e)
    ensures EntryShape(fn, r, ks, n, m, e)
  {
    if |fn| > 0 {
      var pair := [SlotAlloca(n), MaskStore(n, ks[0])];
      assert ks[..1][1..] == [];
      assert SlotPairs(ks, n) == SlotPairs(ks[1..], n + 5) + pair;
      assert SlotPairs(ks[1..], n + 5) + (pair + fn[0][..m]) == SlotPairs(ks, n) + fn[0][..m];
    }
  }

  /** After the pass the entry block starts with one slot and mask store
      per rewritten site, the latest first, ahead of what led it before. */
  lemma {:induction false} StepsEntry(fn: Func, mm: seq<Id>, ks: seq<BitPos>, n: Id, m: nat, e: nat)
    requires Ready(fn, mm, n) && |ks| == |mm| && QuietPrefix(fn, mm, m) && e == m + 2 * |mm|
    ensures EntryShape(fn, Steps(fn, mm, ks, n), ks, n, m, e)
    decreases |mm|
  {
    hide Steps;
    if mm != [] {
      var r1 := StepsFirst(fn, mm, ks, n, m);
      StepsEntry(r1, mm[1..], ks[1..], n + 5, m + 2, e);
      EntryJoin(fn, r1, Steps(r1, mm[1..], ks[1..], n + 5), ks, n, m, e);
    } else {
      StepsNil(fn, mm, ks, n, m);
    }
  }

  /** Slot pair `j` (from the site rewritten `j`-th) sits `|ks| - 1 - j`
      pairs from the front: the pairs are in reverse order of rewriting. */
  lemma {:induction false} SlotPairsAt(ks: seq<BitPos>, n: Id, j: nat)
    requires j < |ks|
    ensures |SlotPairs(ks, n)| == 2 * |ks|
    ensures var at := 2 * (|ks| - 1 - j);
      SlotPairs(ks, n)[at..at + 2] == [SlotAlloca(n + 5 * j), MaskStore(n + 5 * j, ks[j])]
    decreases j
  {
    if j == 0 {
      SlotPairsLength(ks[1..], n + 5);
    } else {
      SlotPairsAt(ks[1..], n + 5, j - 1);
      var at := 2 * (|ks| - 1 - j);
      assert SlotPairs(ks, n)[at..at + 2] == SlotPairs(ks[1..], n + 5)[at..at + 2];
    }
  }

  lemma {:induction false} SlotPairsLength(ks: seq<BitPos>, n: Id)
    ensures |SlotPairs(ks, n)| == 2 * |ks|
    decreases |ks|
  {
    if ks != [] {
      SlotPairsLength(ks[1..], n + 5);
    }
  }

  // ---------------------------------------------------------------------
  // One function of the module

  /** A function of the module as the pass finds it: a declaration, which
      has no blocks, or a well-formed definition below the fresh identity
      `n`. */
  ghost predicate Loaded(fn: Func, n: Id) {
    fn == [] || WellFormed(fn, n)
  }

  /** The body of the loop over the functions of the module: the snapshot
      of the marked calls, then one rewrite per call of it, in order, with
      bit positions `ks`. */
  ghost function RunOnFunction(fn: Func, ks: seq<BitPos>, n: Id): Func
    requires Loaded(fn, n) && |ks| == |Targets(fn)|
  {
    if fn == [] then fn else Steps(fn, Targets(fn), ks, n)
  }

  /** After the loop over a function's snapshot the function is well formed
      above the `5 * |Targets(fn)|` identities it took, no marked call is
      left, every site added four instructions, a function without marked
      calls is unchanged, and of the former identities exactly the marked
      calls are gone. */
  lemma RunOnFunctionReady(fn: Func, ks: seq<BitPos>, n: Id)
    requires Loaded(fn, n) && |ks| == |Targets(fn)|
    ensures var r := RunOnFunction(fn, ks, n);
      Loaded(r, n + 5 * |Targets(fn)|) && Targets(r) == [] &&
      Size(r) == Size(fn) + 4 * |Targets(fn)| &&
      (Targets(fn) == [] ==> r == fn)
    ensures forall y: Id | y < n :: y in Ids(RunOnFunction(fn, ks, n)) <==> y in Ids(fn) && y !in Targets(fn)
  {
    if fn != [] {
      var mm := Targets(fn);
      StepsReady(fn, mm, ks, n);
      forall y: Id | y < n ensures y in Ids(Steps(fn, mm, ks, n)) <==> y in Ids(fn) && y !in mm {
        StepsKeeps(fn, mm, ks, n, y);
      }
    }
  }

  /** After the loop no instruction of the function names a call of the
      snapshot: every user of each was rewired to its XOR. */
  lemma RunOnFunctionUnused(fn: Func, ks: seq<BitPos>, n: Id, j: nat)
    requires Loaded(fn, n) && |ks| == |Targets(fn)| && j < |Targets(fn)|
    ensures var r := RunOnFunction(fn, ks, n);
      forall c, t | 0 <= c < |r| && 0 <= t < |r[c]| :: !Uses(r[c][t], Targets(fn)[j])
  {
    var r := RunOnFunction(fn, ks, n);
    var x := Targets(fn)[j];
    RunOnFunctionReady(fn, ks, n);
    TargetsBelow(fn, n, j);
  }

  /** After the loop the entry block starts with the slot and mask store of
      every site, the one rewritten last first. */
  lemma RunOnFunctionEntry(fn: Func, ks: seq<BitPos>, n: Id)
    requires Loaded(fn, n) && |ks| == |Targets(fn)| && fn != []
    ensures var r := RunOnFunction(fn, ks, n);
      |r| > 0 && 2 * |ks| <= |r[0]| && r[0][..2 * |ks|] == SlotPairs(ks, n)
  {
    var mm := Targets(fn);
    StepsEntry(fn, mm, ks, n, 0, 2 * |mm|);
    assert fn[0][..0] == [];
  }

  // ---------------------------------------------------------------------
  // The whole module

  /** Number of marked calls in the functions `fs`. */
  ghost function TargetCount(fs: seq<Func>): nat {
    if fs == [] then 0 else TargetCount(fs[..|fs| - 1]) + |Targets(fs[|fs| - 1])|
  }

  ghost predicate AllLoaded(fs: seq<Func>, n: Id) {
    forall f | 0 <= f < |fs| :: Loaded(fs[f], n)
  }

  /** `kss[f]` holds one bit position per marked call of function `f`. */
  ghost predicate Drawn(fs: seq<Func>, kss: seq<seq<BitPos>>) {
    |kss| == |fs| && forall f | 0 <= f < |fs| :: |kss[f]| == |Targets(fs[f])|
  }

  lemma LoadedMono(fn: Func, n: Id, m: Id)
    requires Loaded(fn, n) && n <= m
    ensures Loaded(fn, m)
  {
    if fn != [] {
      WellFormedMono(fn, n, m);
    }
  }

  /** `runOnModule`: the functions in module order, each through its own
      loop, the fresh identities running on from one function to the next. */
  ghost function RunSpec(fs: seq<Func>, kss: seq<seq<BitPos>>, n: Id): seq<Func>
    requires AllLoaded(fs, n) && Drawn(fs, kss)
  {
    if fs == [] then []
    else
      var last := |fs| - 1;
      var base := n + 5 * TargetCount(fs[..last]);
      LoadedMono(fs[last], n, base);
      RunSpec(fs[..last], kss[..last], n) + [RunOnFunction(fs[last], kss[last], base)]
  }

  /** Function `f` after the pass: its own loop, with the identities that
      follow those the functions before it took. */
  lemma {:induction false} RunSpecAt(fs: seq<Func>, kss: seq<seq<BitPos>>, n: Id, f: nat)
    requires AllLoaded(fs, n) && Drawn(fs, kss) && f < |fs|
    ensures |RunSpec(fs, kss, n)| == |fs|
    ensures var base := n + 5 * TargetCount(fs[..f]);
      Loaded(fs[f], base) && RunSpec(fs, kss, n)[f] == RunOnFunction(fs[f], kss[f], base)
    decreases |fs|
  {
    hide RunSpec, RunOnFunction, Loaded, Targets, TargetsIn;
    var last := |fs| - 1;
    LoadedMono(fs[f], n, n + 5 * TargetCount(fs[..f]));
    RunSpecLast(fs, kss, n);
    RunSpecLength(fs[..last], kss[..last], n);
    if f < last {
      RunSpecAt(fs[..last], kss[..last], n, f);
      assert fs[..last][..f] == fs[..f];
    } else {
      assert fs[..last] == fs[..f];
    }
  }

  lemma RunSpecLast(fs: seq<Func>, kss: seq<seq<BitPos>>, n: Id)
    requires AllLoaded(fs, n) && Drawn(fs, kss) && fs != []
    ensures var last := |fs| - 1;
      var base := n + 5 * TargetCount(fs[..last]);
      AllLoaded(fs[..last], n) && Drawn(fs[..last], kss[..last]) && Loaded(fs[last], base) &&
      RunSpec(fs, kss, n) == RunSpec(fs[..last], kss[..last], n) + [RunOnFunction(fs[last], kss[last], base)]
  {
    hide RunOnFunction, Loaded, Targets, TargetsIn, TargetCount;
    var last := |fs| - 1;
    LoadedMono(fs[last], n, n + 5 * TargetCount(fs[..last]));
  }

  lemma {:induction false} RunSpecLength(fs: seq<Func>, kss: seq<seq<BitPos>>, n: Id)
    requires AllLoaded(fs, n) && Drawn(fs, kss)
    ensures |RunSpec(fs, kss, n)| == |fs|
    decreases |fs|
  {
    if fs != [] {
      RunSpecLength(fs[..|fs| - 1], kss[..|fs| - 1], n);
    }
  }

  /** The loop over the functions one function further. */
  lemma RunStep(fs: seq<Func>, kss: seq<seq<BitPos>>, ks: seq<BitPos>, n: Id, f: nat)
    requires AllLoaded(fs, n) && f < |fs| && Drawn(fs[..f], kss) && |ks| == |Targets(fs[f])|
    ensures Drawn(fs[..f + 1], kss + [ks]) && AllLoaded(fs[..f + 1], n)
    ensures TargetCount(fs[..f + 1]) == TargetCount(fs[..f]) + |Targets(fs[f])|
    ensures var base := n + 5 * TargetCount(fs[..f]);
      Loaded(fs[f], base) &&
      RunSpec(fs[..f + 1], kss + [ks], n) == RunSpec(fs[..f], kss, n) + [RunOnFunction(fs[f], ks, base)]
  {
    hide RunSpec, RunOnFunction, Loaded, WellFormed, Targets, TargetsIn;
    var g := fs[..f + 1];
    assert g[..f] == fs[..f] && g[f] == fs[f];
    assert (kss + [ks])[..f] == kss;
    RunSpecLast(g, kss + [ks], n);
  }
}
