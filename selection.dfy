// Target selection: the scan of one function that collects, before anything
// is changed, every call of a function whose name starts with the marker
// prefix, in block order and, within a block, in instruction order.
module Selection {
  import opened IR

  const MarkerPrefix: string := "__faultinject_selected_target"

  /** `StringRef::startswith`. */
  predicate StartsWith(s: string, prefix: string) {
    |prefix| <= |s| && s[..|prefix|] == prefix
  }

  /** A call site to instrument. An indirect call has no called function and
      so no name: it is not a target. */
  predicate IsTarget(x: Inst) {
    x.kind.Call? && x.kind.callee.Some? && StartsWith(x.kind.callee.value, MarkerPrefix)
  }

  /** The targets of one block, in instruction order. */
  function TargetsIn(blk: Block): seq<Id> {
    if blk == [] then []
    else TargetsIn(blk[..|blk| - 1]) + (if IsTarget(blk[|blk| - 1]) then [blk[|blk| - 1].id] else [])
  }

  /** The snapshot `mm` the pass builds for a function. */
  ghost function Targets(fn: Func): seq<Id> {
    if fn == [] then [] else Targets(fn[..|fn| - 1]) + TargetsIn(fn[|fn| - 1])
  }

  /** The scan of `runOnModule` over one function: blocks in order, then the
      instructions of each block in order. */
  method SelectTargets(fn: Func) returns (mm: seq<Id>)
    ensures mm == Targets(fn)
  {
    mm := [];
    var b := 0;
    while b < |fn|
      invariant 0 <= b <= |fn|
      invariant mm == Targets(fn[..b])
    {
      var blk := fn[b];
      var i := 0;
      while i < |blk|
        invariant 0 <= i <= |blk|
        invariant mm == Targets(fn[..b]) + TargetsIn(blk[..i])
      {
        if IsTarget(blk[i]) {
          mm := mm + [blk[i].id];
        }
        assert blk[..i + 1][..i] == blk[..i];
        i := i + 1;
      }
      assert blk[..i] == blk;
      assert fn[..b + 1][..b] == fn[..b];
      b := b + 1;
    }
    assert fn[..b] == fn;
  }

  lemma {:induction false} TargetsInConcat(a: Block, b: Block)
    ensures TargetsIn(a + b) == TargetsIn(a) + TargetsIn(b)
    decreases |b|
  {
    if b != [] {
      assert (a + b)[..|a + b| - 1] == a + b[..|b| - 1];
      TargetsInConcat(a, b[..|b| - 1]);
    } else {
      assert a + b == a;
    }
  }

  lemma {:induction false} TargetsConcat(fs: Func, gs: Func)
    ensures Targets(fs + gs) == Targets(fs) + Targets(gs)
    decreases |gs|
  {
    if gs != [] {
      assert (fs + gs)[..|fs + gs| - 1] == fs + gs[..|gs| - 1];
      TargetsConcat(fs, gs[..|gs| - 1]);
    } else {
      assert fs + gs == fs;
    }
  }

  lemma {:induction false} TargetsInHas(blk: Block, t: nat)
    requires t < |blk| && IsTarget(blk[t])
    ensures blk[t].id in TargetsIn(blk)
  {
    var init := blk[..|blk| - 1];
    assert TargetsIn(blk) == TargetsIn(init) + TargetOf(blk[|blk| - 1]);
    if t < |init| {
      TargetsInHas(init, t);
      assert init[t] == blk[t];
    }
  }

  lemma {:induction false} TargetsInFrom(blk: Block, x: Id)
    requires x in TargetsIn(blk)
    ensures exists t | 0 <= t < |blk| :: blk[t].id == x && IsTarget(blk[t])
  {
    var init := blk[..|blk| - 1];
    assert TargetsIn(blk) == TargetsIn(init) + TargetOf(blk[|blk| - 1]);
    if x in TargetsIn(init) {
      TargetsInFrom(init, x);
      var t :| 0 <= t < |init| && init[t].id == x && IsTarget(init[t]);
      assert blk[t] == init[t];
    } else {
      assert blk[|blk| - 1].id == x && IsTarget(blk[|blk| - 1]);
    }
  }

  lemma TargetsInMember(blk: Block, x: Id)
    ensures x in TargetsIn(blk) <==> exists t | 0 <= t < |blk| :: blk[t].id == x && IsTarget(blk[t])
  {
    if x in TargetsIn(blk) {
      TargetsInFrom(blk, x);
    }
    if exists t | 0 <= t < |blk| :: blk[t].id == x && IsTarget(blk[t]) {
      var t :| 0 <= t < |blk| && blk[t].id == x && IsTarget(blk[t]);
      TargetsInHas(blk, t);
    }
  }

  /** Every selected call is in the snapshot. */
  lemma {:induction false} TargetsHas(fn: Func, c: nat, t: nat)
    requires c < |fn| && t < |fn[c]| && IsTarget(fn[c][t])
    ensures fn[c][t].id in Targets(fn)
  {
    var init := fn[..|fn| - 1];
    assert Targets(fn) == Targets(init) + TargetsIn(fn[|fn| - 1]);
    if c < |init| {
      TargetsHas(init, c, t);
      assert init[c][t] == fn[c][t];
    } else {
      TargetsInHas(fn[c], t);
    }
  }

  /** Everything in the snapshot is a selected call of the function. */
  lemma {:induction false} TargetsFrom(fn: Func, x: Id)
    requires x in Targets(fn)
    ensures exists c, t | 0 <= c < |fn| && 0 <= t < |fn[c]| :: fn[c][t].id == x && IsTarget(fn[c][t])
  {
    var init := fn[..|fn| - 1];
    var last := |fn| - 1;
    assert Targets(fn) == Targets(init) + TargetsIn(fn[last]);
    if x in Targets(init) {
      TargetsFrom(init, x);
      var c, t :| 0 <= c < |init| && 0 <= t < |init[c]| && init[c][t].id == x && IsTarget(init[c][t]);
      assert fn[c][t] == init[c][t];
    } else {
      TargetsInFrom(fn[last], x);
      var t :| 0 <= t < |fn[last]| && fn[last][t].id == x && IsTarget(fn[last][t]);
      assert fn[last][t].id == x;
    }
  }

  /** An instruction is selected exactly when it is a call of a function named
      with the marker prefix. */
  lemma TargetsMember(fn: Func, x: Id)
    ensures x in Targets(fn) <==>
      exists c, t | 0 <= c < |fn| && 0 <= t < |fn[c]| :: fn[c][t].id == x && IsTarget(fn[c][t])
  {
    if x in Targets(fn) {
      TargetsFrom(fn, x);
    }
    if exists c, t | 0 <= c < |fn| && 0 <= t < |fn[c]| :: fn[c][t].id == x && IsTarget(fn[c][t]) {
      var c, t :| 0 <= c < |fn| && 0 <= t < |fn[c]| && fn[c][t].id == x && IsTarget(fn[c][t]);
      TargetsHas(fn, c, t);
    }
  }

  /** The targets of one instruction. */
  function TargetOf(x: Inst): seq<Id> {
    if IsTarget(x) then [x.id] else []
  }

  lemma {:induction false} TargetsInAround(blk: Block, i: nat)
    requires i < |blk|
    ensures TargetsIn(blk) == TargetsIn(blk[..i]) + TargetOf(blk[i]) + TargetsIn(blk[i + 1..])
  {
    var front := blk[..i] + [blk[i]];
    assert front[..|front| - 1] == blk[..i];
    assert TargetsIn(front) == TargetsIn(blk[..i]) + TargetOf(blk[i]);
    assert blk == front + blk[i + 1..];
    TargetsInConcat(front, blk[i + 1..]);
  }

  lemma {:induction false} TargetsAround(fn: Func, c: nat)
    requires c < |fn|
    ensures Targets(fn) == Targets(fn[..c]) + TargetsIn(fn[c]) + Targets(fn[c + 1..])
  {
    var front := fn[..c] + [fn[c]];
    assert front[..|front| - 1] == fn[..c];
    assert Targets(front) == Targets(fn[..c]) + TargetsIn(fn[c]);
    assert fn == front + fn[c + 1..];
    TargetsConcat(front, fn[c + 1..]);
  }

  /** The targets of a function are those of the blocks before `p.b`, then
      those of block `p.b` before `p.i`, then that instruction if it is a
      target, then the rest. */
  lemma {:induction false} TargetsSplit(fn: Func, p: Pos)
    requires ValidPos(fn, p)
    ensures Targets(fn) ==
      Targets(fn[..p.b]) + TargetsIn(fn[p.b][..p.i]) + TargetOf(fn[p.b][p.i]) +
      TargetsIn(fn[p.b][p.i + 1..]) + Targets(fn[p.b + 1..])
  {
    hide Targets, TargetsIn, TargetOf;
    var a, e := Targets(fn[..p.b]), Targets(fn[p.b + 1..]);
    var x, y, z := TargetsIn(fn[p.b][..p.i]), TargetOf(fn[p.b][p.i]), TargetsIn(fn[p.b][p.i + 1..]);
    TargetsAround(fn, p.b);
    TargetsInAround(fn[p.b], p.i);
    assert Targets(fn) == a + (x + y + z) + e;
    assert a + (x + y + z) + e == a + x + y + z + e;
  }

  /** Selected calls keep their forward order: of two targets, the one met
      first by the scan comes first in the snapshot. */
  lemma {:induction false} TargetsForwardOrder(fn: Func, p: Pos, q: Pos)
    requires ValidPos(fn, p) && ValidPos(fn, q)
    requires IsTarget(fn[p.b][p.i]) && IsTarget(fn[q.b][q.i])
    requires p.b < q.b || (p.b == q.b && p.i < q.i)
    ensures exists s, s' | 0 <= s < s' < |Targets(fn)| ::
      Targets(fn)[s] == fn[p.b][p.i].id && Targets(fn)[s'] == fn[q.b][q.i].id
  {
    TargetsSplit(fn, q);
    var before := Targets(fn[..q.b]) + TargetsIn(fn[q.b][..q.i]);
    var x := fn[p.b][p.i].id;
    if p.b < q.b {
      assert fn[..q.b][p.b][p.i] == fn[p.b][p.i];
      TargetsHas(fn[..q.b], p.b, p.i);
    } else {
      assert fn[q.b][..q.i][p.i] == fn[p.b][p.i];
      TargetsInHas(fn[q.b][..q.i], p.i);
    }
    assert x in before;
    var s :| 0 <= s < |before| && before[s] == x;
    assert Targets(fn)[s] == x && Targets(fn)[|before|] == fn[q.b][q.i].id;
  }

  lemma {:induction false} TargetsUpdate(fn: Func, c: nat, blk: Block)
    requires c < |fn|
    ensures Targets(fn[c := blk]) == Targets(fn[..c]) + TargetsIn(blk) + Targets(fn[c + 1..])
  {
    var r := fn[c := blk];
    TargetsAround(r, c);
    assert r[..c] == fn[..c] && r[c + 1..] == fn[c + 1..];
  }

  lemma {:induction false} TargetsInInsert(blk: Block, i: nat, x: Inst)
    requires i <= |blk| && !IsTarget(x)
    ensures TargetsIn(blk[..i] + [x] + blk[i..]) == TargetsIn(blk)
  {
    var front := blk[..i] + [x];
    assert front[..|front| - 1] == blk[..i];
    assert TargetsIn(front) == TargetsIn(blk[..i]);
    TargetsInConcat(front, blk[i..]);
    TargetsInConcat(blk[..i], blk[i..]);
    assert blk[..i] + blk[i..] == blk;
  }

  /** Inserting an instruction that is not a target leaves the snapshot as it
      was. */
  lemma {:induction false} InsertKeepsTargets(fn: Func, p: Pos, x: Inst)
    requires ValidPos(fn, p) && !IsTarget(x)
    ensures Targets(InsertAt(fn, p, x)) == Targets(fn)
  {
    var blk := fn[p.b];
    TargetsUpdate(fn, p.b, blk[..p.i] + [x] + blk[p.i..]);
    TargetsAround(fn, p.b);
    TargetsInInsert(blk, p.i, x);
  }

  /** Erasing the first target of the snapshot removes exactly it from the
      snapshot. */
  lemma {:induction false} EraseFirstTarget(fn: Func, p: Pos)
    requires ValidPos(fn, p) && UniqueIds(fn) && IsTarget(fn[p.b][p.i])
    requires Targets(fn) != [] && Targets(fn)[0] == fn[p.b][p.i].id
    ensures Targets(EraseAt(fn, p)) == Targets(fn)[1..]
  {
    var blk := fn[p.b];
    var nb := blk[..p.i] + blk[p.i + 1..];
    TargetsSplit(fn, p);
    NothingBeforeFirstTarget(fn, p);
    TargetsUpdate(fn, p.b, nb);
    TargetsInConcat(blk[..p.i], blk[p.i + 1..]);
  }

  /** With distinct identities, no target comes before the one the snapshot
      names first. */
  lemma {:induction false} NothingBeforeFirstTarget(fn: Func, p: Pos)
    requires ValidPos(fn, p) && UniqueIds(fn) && IsTarget(fn[p.b][p.i])
    requires Targets(fn) != [] && Targets(fn)[0] == fn[p.b][p.i].id
    ensures Targets(fn[..p.b]) == [] && TargetsIn(fn[p.b][..p.i]) == []
  {
    var x := fn[p.b][p.i].id;
    UniquePositions(fn);
    TargetsSplit(fn, p);
    var before: Func := fn[..p.b];
    assert forall c, t | 0 <= c < |before| && 0 <= t < |before[c]| :: before[c][t].id != x by {
      forall c, t | 0 <= c < |before| && 0 <= t < |before[c]| ensures before[c][t].id != x {
        assert before[c][t] == fn[c][t];
      }
    }
    TargetsMember(before, x);
    var head: Block := fn[p.b][..p.i];
    assert forall t | 0 <= t < |head| :: head[t].id != x by {
      forall t | 0 <= t < |head| ensures head[t].id != x {
        assert head[t] == fn[p.b][t];
      }
    }
    TargetsInMember(head, x);
  }
}
