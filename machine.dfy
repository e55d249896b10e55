// The pass as the source runs it: an LLVM module whose functions the object
// model edits in place (insert-before, replaceUsesOfWith, eraseFromParent),
// FaultInjectionMachine::insertInjectFault and
// LLVMInjectFaultPass::runOnModule. Each method is proved against the
// functions of Injection and Pass.
module Machine {
  import opened IR
  import opened BitMask
  import opened Selection
  import opened Injection
  import opened Pass

  /** Replacing one function of a module keeps every function loaded when
      the identities move up to `m` and the new function is loaded at `m`. */
  lemma AllLoadedUpdate(fs: seq<Func>, n: Id, m: Id, f: nat, g: Func)
    requires AllLoaded(fs, n) && n <= m && f < |fs| && Loaded(g, m)
    ensures AllLoaded(fs[f := g], m)
  {
    forall h | 0 <= h < |fs| && h != f ensures Loaded(fs[h], m) {
      LoadedMono(fs[h], n, m);
    }
  }

  /** A function with a marked call is a definition, so it is well formed. */
  lemma LoadedWithTarget(fs: seq<Func>, n: Id, f: nat, ci: Id)
    requires AllLoaded(fs, n) && f < |fs| && ci in Targets(fs[f])
    ensures fs[f] != [] && WellFormed(fs[f], n)
  {
    assert Loaded(fs[f], n);
  }

  /** Before the loop over the functions. */
  lemma RunSpecEmpty(fs: seq<Func>, n: Id)
    ensures AllLoaded(fs[..0], n) && Drawn(fs[..0], []) && TargetCount(fs[..0]) == 0
    ensures RunSpec(fs[..0], [], n) == []
  {
    assert fs[..0] == [];
  }

  lemma LoadedAt(fs: seq<Func>, n: Id, f: nat)
    requires AllLoaded(fs, n) && f < |fs|
    ensures Loaded(fs[f], n)
  {
  }

  lemma IdBelow(fn: Func, n: Id, p: Pos)
    requires WellFormed(fn, n) && ValidPos(fn, p)
    ensures fn[p.b][p.i].id < n
  {
    IdsAt(fn, p.b, p.i);
  }

  class Module {
    /** The functions of the module, in module order. */
    var functions: seq<Func>
    /** The identity the next new instruction object gets. */
    var nextId: Id

    ghost predicate Valid()
      reads this
    {
      AllLoaded(functions, nextId)
    }

    constructor (fs: seq<Func>, n: Id)
      requires AllLoaded(fs, n)
      ensures Valid() && functions == fs && nextId == n
    {
      functions := fs;
      nextId := n;
    }

    // -------------------------------------------------------------------
    // The object-model operations the source calls

    /** A new instruction object. */
    method NewId() returns (id: Id)
      modifies this
      ensures id == old(nextId) && nextId == old(nextId) + 1 && functions == old(functions)
    {
      id := nextId;
      nextId := nextId + 1;
    }

    /** `new I(..., insertBefore)`: link `x` into function `f` just before
        the instruction at `p`. */
    method InsertBefore(f: nat, p: Pos, x: Inst)
      requires f < |functions| && ValidPos(functions[f], p)
      modifies this
      ensures functions == old(functions)[f := InsertAt(old(functions)[f], p, x)] && nextId == old(nextId)
    {
      functions := functions[f := InsertAt(functions[f], p, x)];
    }

    /** `user->replaceUsesOfWith(from, to)` on an instruction of function `f`. */
    method ReplaceUsesOfWith(f: nat, user: Id, from: Id, to: Id)
      requires f < |functions|
      modifies this
      ensures functions == old(functions)[f := ReplaceUsesIn(old(functions)[f], user, from, to)]
      ensures nextId == old(nextId)
    {
      functions := functions[f := ReplaceUsesIn(functions[f], user, from, to)];
    }

    /** `eraseFromParent` on the instruction at `p` of function `f`. */
    method EraseFromParent(f: nat, p: Pos)
      requires f < |functions| && ValidPos(functions[f], p)
      modifies this
      ensures functions == old(functions)[f := EraseAt(old(functions)[f], p)] && nextId == old(nextId)
    {
      functions := functions[f := EraseAt(functions[f], p)];
    }

    // -------------------------------------------------------------------
    // insertInjectFault

    /** The two loops over the users of `from`: first the use list is
        copied, leaving out `from` itself and `to`, then each copied user
        has its uses of `from` replaced by `to`. Together they rewire every
        user of `from` but `to`. */
    method RewireUsers(f: nat, from: Id, to: Id)
      requires f < |functions| && from != to
      modifies this
      ensures functions == old(functions)[f := RewireAll(old(functions)[f], from, to)]
      ensures nextId == old(nextId)
    {
      ghost var fn := functions[f];
      var users := UsersOf(functions[f], from);
      var instUses: seq<Id> := [];
      for i := 0 to |users|
        invariant forall u | u in instUses :: u != from && u != to
        invariant forall t | 0 <= t < i && users[t] != from && users[t] != to :: users[t] in instUses
      {
        if users[i] != from && users[i] != to {
          instUses := instUses + [users[i]];
        }
      }
      RewireSomeNone(fn, from, to);
      for i := 0 to |instUses|
        invariant f < |functions| && functions == old(functions)[f := RewireSome(fn, instUses[..i], from, to)]
        invariant nextId == old(nextId)
      {
        RewireSomeStep(fn, instUses[..i], instUses[i], from, to);
        ReplaceUsesOfWith(f, instUses[i], from, to);
        assert instUses[..i + 1] == instUses[..i] + [instUses[i]];
      }
      assert instUses[..|instUses|] == instUses;
      RewireSomeAll(fn, instUses, from, to);
    }

    /** The slot of a site and the store of its mask `1 << k`, at the front
        of the entry block of function `f`. */
    method AddMaskSlot(f: nat, k: BitPos) returns (xorMarker: Id)
      requires f < |functions| && |functions[f]| > 0 && |functions[f][0]| > 0
      modifies this
      ensures xorMarker == old(nextId) && nextId == old(nextId) + 2
      ensures functions == old(functions)[f := AddSlot(old(functions)[f], k, old(nextId))]
    {
      var loc := Mask(k);
      xorMarker := NewId();
      InsertBefore(f, Pos(0, 0), Inst(xorMarker, Alloca, []));
      var store := NewId();
      InsertBefore(f, Pos(0, 1), Inst(store, Store, [Const(loc), Ref(xorMarker)]));
    }

    /** After the call at `q`: the reset of the slot, then the load of the
        slot before it and the XOR of `arg` with the load before the reset;
        `fi` is the XOR. */
    method AddFaultChain(f: nat, q: Pos, xorMarker: Id, arg: Value) returns (fi: Id)
      requires f < |functions| && ValidPos(functions[f], q) && q.i + 1 < |functions[f][q.b]|
      requires nextId == xorMarker + 2
      modifies this
      ensures fi == xorMarker + 4 && nextId == old(nextId) + 3
      ensures functions == old(functions)[f := AddChain(old(functions)[f], q, xorMarker, arg)]
    {
      var resetter := NewId();
      InsertBefore(f, Pos(q.b, q.i + 1), Inst(resetter, Store, [Const(0), Ref(xorMarker)]));
      var val := NewId();
      InsertBefore(f, Pos(q.b, q.i + 1), Inst(val, Load, [Ref(xorMarker)]));
      fi := NewId();
      InsertBefore(f, Pos(q.b, q.i + 2), Inst(fi, Xor, [arg, Ref(val)]));
    }

    /** `insertInjectFault(M, F, CI)` for the marked call `ci` of function
        `f`: `k` is the bit position drawn for it. The function becomes the
        one-site rewrite of `ci`, and the five new objects take the next
        five identities. */
    method InsertInjectFault(f: nat, ci: Id) returns (k: BitPos)
      requires Valid() && f < |functions| && ci in Targets(functions[f])
      modifies this
      ensures old(functions)[f] != [] && WellFormed(old(functions)[f], old(nextId))
      ensures functions == old(functions)[f := SiteOf(old(functions)[f], ci, k, old(nextId))]
      ensures nextId == old(nextId) + 5 && Valid()
    {
      hide AllLoaded, Targets, TargetsIn, WellFormed, AddSlot, AddChain, RewireAll, InjectSite, Rewired;
      var fn := functions[f];
      ghost var n := nextId;
      LoadedWithTarget(functions, n, f, ci);
      SnapshotSite(fn, n, ci);
      var p := Find(fn, ci).value;
      var call := fn[p.b][p.i];
      k :| true;
      var xorMarker := AddMaskSlot(f, k);
      SiteStages(fn, p, k, n);
      var q := Shifted(p);
      var fi := AddFaultChain(f, q, xorMarker, Operand0(call));
      IdBelow(fn, n, p);
      RewireUsers(f, ci, fi);
      EraseFromParent(f, q);
      InjectSiteWellFormed(fn, p, k, n);
      AllLoadedUpdate(old(functions), n, n + 5, f, functions[f]);
    }

    // -------------------------------------------------------------------
    // runOnModule

    /** The loop over the snapshot `mm` of function `f`: one
        `insertInjectFault` per call, in snapshot order; `ks` are the bit
        positions drawn. */
    method InjectSnapshot(f: nat, mm: seq<Id>) returns (ks: seq<BitPos>)
      requires Valid() && f < |functions| && mm == Targets(functions[f])
      modifies this
      ensures |ks| == |mm| && Loaded(old(functions)[f], old(nextId))
      ensures functions == old(functions)[f := RunOnFunction(old(functions)[f], ks, old(nextId))]
      ensures nextId == old(nextId) + 5 * |mm| && Valid()
    {
      hide Steps, SiteOf, Targets, TargetsIn, WellFormed, AllLoaded;
      ghost var fn := functions[f];
      ghost var n := nextId;
      ks := [];
      LoadedAt(functions, n, f);
      if mm == [] {
        if fn != [] {
          StepsEmpty(fn, mm, ks, n);
        }
        return;
      }
      LoadedWithTarget(functions, n, f, mm[0]);
      StepsEmpty(fn, mm[..0], ks, n);
      for j := 0 to |mm|
        invariant |ks| == j && Ready(fn, mm[..j], n)
        invariant functions == old(functions)[f := Steps(fn, mm[..j], ks, n)]
        invariant nextId == n + 5 * j && Valid()
      {
        StepsReady(fn, mm[..j], ks, n);
        assert mm[j] == Targets(fn)[j..][0];
        var k := InsertInjectFault(f, mm[j]);
        StepsSnoc(fn, mm, ks, k, n, j);
        ks := ks + [k];
      }
      assert mm[..|mm|] == mm;
    }

    /** `runOnModule`: for each function in module order, the snapshot of
        its marked calls, then the loop over it. `draws[f]` are the bit
        positions drawn in function `f`. */
    method RunOnModule() returns (draws: seq<seq<BitPos>>)
      requires Valid()
      modifies this
      ensures Drawn(old(functions), draws) && AllLoaded(old(functions), old(nextId))
      ensures functions == RunSpec(old(functions), draws, old(nextId))
      ensures nextId == old(nextId) + 5 * TargetCount(old(functions)) && Valid()
    {
      hide RunSpec, RunOnFunction, Targets, TargetsIn, WellFormed, TargetCount, Loaded, AllLoaded, Drawn;
      ghost var fs := functions;
      ghost var n := nextId;
      draws := [];
      RunSpecEmpty(fs, n);
      for f := 0 to |functions|
        invariant |functions| == |fs| && Valid()
        invariant AllLoaded(fs, n) && AllLoaded(fs[..f], n) && Drawn(fs[..f], draws)
        invariant functions[..f] == RunSpec(fs[..f], draws, n)
        invariant functions[f..] == fs[f..]
        invariant nextId == n + 5 * TargetCount(fs[..f])
      {
        assert functions[f] == fs[f];
        ghost var before := functions;
        var mm := SelectTargets(functions[f]);
        var ks := InjectSnapshot(f, mm);
        RunStep(fs, draws, ks, n, f);
        draws := draws + [ks];
        assert functions[..f + 1] == before[..f] + [functions[f]];
        assert functions[f + 1..] == before[f + 1..];
      }
      assert fs[..|fs|] == fs && functions[..|fs|] == functions;
    }
  }
}
