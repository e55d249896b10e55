// The rewrite of one call site (FaultInjectionMachine::insertInjectFault):
// a mask slot and the store of the mask at the front of the entry block;
// after the call a load of the slot, the XOR of the call's first argument
// with it and a store of 0 into the slot; every user of the call rewired to
// the XOR; the call erased.
module Injection {
  import opened IR
  import opened BitMask
  import opened Selection

  // ---------------------------------------------------------------------
  // The five instructions one site adds. Their identities follow the order
  // in which the source creates them from the fresh identity `n`.

  /** `xor_marker`: the i32 slot of this site. */
  function SlotAlloca(n: Id): Inst {
    Inst(n, Alloca, [])
  }

  /** The store of the mask into the slot. */
  function MaskStore(n: Id, k: BitPos): Inst {
    Inst(n + 1, Store, [Const(Mask(k)), Ref(n)])
  }

  /** `resetter`: the store of 0 into the slot. */
  function ResetStore(n: Id): Inst {
    Inst(n + 2, Store, [Const(0), Ref(n)])
  }

  /** `xor_val`: the load of the slot. */
  function SlotLoad(n: Id): Inst {
    Inst(n + 3, Load, [Ref(n)])
  }

  /** `rfi`: the call's first argument XOR the loaded mask. */
  function FaultXor(n: Id, arg: Value): Inst {
    Inst(n + 4, Xor, [arg, Ref(n + 3)])
  }

  // ---------------------------------------------------------------------
  // Rewiring the users of the call

  /** What the rewiring does to one instruction: every user other than the
      call itself and the new XOR has its uses of `from` replaced by `to`. */
  function RewireInst(x: Inst, from: Id, to: Id): Inst {
    if x.id == from || x.id == to then x else ReplaceUses(x, from, to)
  }

  function RewireBlock(blk: Block, from: Id, to: Id): Block {
    seq(|blk|, t requires 0 <= t < |blk| => RewireInst(blk[t], from, to))
  }

  ghost function RewireAll(fn: Func, from: Id, to: Id): Func {
    seq(|fn|, c requires 0 <= c < |fn| => RewireBlock(fn[c], from, to))
  }

  // ---------------------------------------------------------------------
  // The rewrite, step by step as the source performs it

  /** Whether `CI->getOperand(0)` is a value of the model. A call's operands
      are its arguments followed by the called value, so for a call without
      arguments operand 0 is the called function; for an indirect call without
      arguments it is a function address the model does not represent. */
  predicate HasOperand0(call: Inst) {
    call.kind.Call? && (|call.operands| > 0 || call.kind.callee.Some?)
  }

  /** `CI->getOperand(0)`: the first argument, or else the called function. */
  function Operand0(call: Inst): (v: Value)
    requires HasOperand0(call)
    ensures v.Ref? ==> v in call.operands
  {
    if |call.operands| > 0 then call.operands[0] else Symbol(call.kind.callee.value)
  }

  /** A call the rewrite can be applied to: a call whose operand 0 is known,
      not the last instruction of its block (`getNextNode()`), in a function
      whose entry block is not empty (`begin()`). */
  ghost predicate IsSite(fn: Func, p: Pos) {
    ValidPos(fn, p) && |fn[0]| > 0 && p.i + 1 < |fn[p.b]| && HasOperand0(fn[p.b][p.i])
  }

  /** The slot before the first instruction of the entry block. */
  ghost function WithAlloca(fn: Func, n: Id): Func
    requires |fn| > 0 && |fn[0]| > 0
  {
    InsertAt(fn, Pos(0, 0), SlotAlloca(n))
  }

  /** Then the mask store before what was the first instruction. */
  ghost function AddSlot(fn: Func, k: BitPos, n: Id): Func
    requires |fn| > 0 && |fn[0]| > 0
  {
    InsertAt(WithAlloca(fn, n), Pos(0, 1), MaskStore(n, k))
  }

  /** For the call at `q`: the reset before the call's next instruction. */
  ghost function WithReset(fn: Func, q: Pos, n: Id): Func
    requires ValidPos(fn, q) && q.i + 1 < |fn[q.b]|
  {
    InsertAt(fn, Pos(q.b, q.i + 1), ResetStore(n))
  }

  /** Then the load before the reset. */
  ghost function WithLoad(fn: Func, q: Pos, n: Id): Func
    requires ValidPos(fn, q) && q.i + 1 < |fn[q.b]|
  {
    InsertAt(WithReset(fn, q, n), Pos(q.b, q.i + 1), SlotLoad(n))
  }

  /** Then the XOR before the load's next instruction, which is the reset. */
  ghost function AddChain(fn: Func, q: Pos, n: Id, arg: Value): Func
    requires ValidPos(fn, q) && q.i + 1 < |fn[q.b]|
  {
    InsertAt(WithLoad(fn, q, n), Pos(q.b, q.i + 2), FaultXor(n, arg))
  }

  /** Where the call at `p` is once the slot and the mask store are in. */
  function Shifted(p: Pos): Pos {
    if p.b == 0 then Pos(0, p.i + 2) else p
  }

  /** The function just before the call is erased: slot, mask store and
      chain in, every user of the call rewired to the XOR. */
  ghost function Rewired(fn: Func, p: Pos, k: BitPos, n: Id): Func
    requires IsSite(fn, p)
  {
    var call := fn[p.b][p.i];
    RewireAll(AddChain(AddSlot(fn, k, n), Shifted(p), n, Operand0(call)), call.id, n + 4)
  }

  /** `insertInjectFault` on the call at `p`, with bit position `k` and fresh
      identities from `n`. */
  ghost function InjectSite(fn: Func, p: Pos, k: BitPos, n: Id): Func
    requires IsSite(fn, p)
  {
    EraseAt(Rewired(fn, p, k, n), Shifted(p))
  }

  // ---------------------------------------------------------------------
  // The result block by block

  /** What the rewrite puts at the front of block `c`. */
  function Prologue(c: nat, n: Id, k: BitPos): Block {
    if c == 0 then [SlotAlloca(n), MaskStore(n, k)] else []
  }

  /** Block `c` of the result after its prologue: the former block with the
      uses of the call redirected to the XOR and, for the call's own block,
      the call replaced by the load, the XOR and the reset. */
  function SiteBody(fn: Func, p: Pos, c: nat, n: Id): Block
    requires ValidPos(fn, p) && c < |fn| && HasOperand0(fn[p.b][p.i])
  {
    var call := fn[p.b][p.i];
    if c == p.b then
      RewireBlock(fn[c][..p.i], call.id, n + 4) +
      [SlotLoad(n), FaultXor(n, Operand0(call)), ResetStore(n)] +
      RewireBlock(fn[c][p.i + 1..], call.id, n + 4)
    else RewireBlock(fn[c], call.id, n + 4)
  }

  lemma {:induction false} AddSlotShape(fn: Func, k: BitPos, n: Id)
    requires |fn| > 0 && |fn[0]| > 0
    ensures var r := AddSlot(fn, k, n);
      |r| == |fn| && forall c | 0 <= c < |fn| :: r[c] == Prologue(c, n, k) + fn[c]
  {
    var r := AddSlot(fn, k, n);
    assert WithAlloca(fn, n)[0] == [SlotAlloca(n)] + fn[0];
    assert r[0] == [SlotAlloca(n), MaskStore(n, k)] + fn[0];
  }

  lemma {:induction false} AddChainShape(fn: Func, q: Pos, n: Id, arg: Value)
    requires ValidPos(fn, q) && q.i + 1 < |fn[q.b]|
    ensures var r := AddChain(fn, q, n, arg);
      |r| == |fn| &&
      (forall c | 0 <= c < |fn| && c != q.b :: r[c] == fn[c]) &&
      r[q.b] == fn[q.b][..q.i + 1] + [SlotLoad(n), FaultXor(n, arg), ResetStore(n)] + fn[q.b][q.i + 1..]
  {
    var blk := fn[q.b];
    assert WithReset(fn, q, n)[q.b] == blk[..q.i + 1] + [ResetStore(n)] + blk[q.i + 1..];
    assert WithLoad(fn, q, n)[q.b] == blk[..q.i + 1] + [SlotLoad(n), ResetStore(n)] + blk[q.i + 1..];
    var r := AddChain(fn, q, n, arg);
    assert r[q.b] == blk[..q.i + 1] + [SlotLoad(n), FaultXor(n, arg), ResetStore(n)] + blk[q.i + 1..];
  }

  lemma ReplaceUsesNoop(x: Inst, from: Id, to: Id)
    requires !Uses(x, from)
    ensures ReplaceUses(x, from, to) == x
  {
    assert ReplaceUses(x, from, to).operands == x.operands;
  }

  lemma RewireBlockConcat(a: Block, b: Block, from: Id, to: Id)
    ensures RewireBlock(a + b, from, to) == RewireBlock(a, from, to) + RewireBlock(b, from, to)
  {
  }

  /** A block none of whose instructions uses `from` is left as it is. */
  lemma RewireBlockNoop(blk: Block, from: Id, to: Id)
    requires forall t | 0 <= t < |blk| :: !Uses(blk[t], from)
    ensures RewireBlock(blk, from, to) == blk
  {
    forall t | 0 <= t < |blk| ensures RewireInst(blk[t], from, to) == blk[t] {
      ReplaceUsesNoop(blk[t], from, to);
    }
  }

  /** The rewiring part way through the source's second loop: only the
      instructions named in `users` have had their uses of `from` replaced. */
  ghost function RewireSome(fn: Func, users: seq<Id>, from: Id, to: Id): Func {
    seq(|fn|, c requires 0 <= c < |fn| =>
      seq(|fn[c]|, t requires 0 <= t < |fn[c]| =>
        if fn[c][t].id in users then ReplaceUses(fn[c][t], from, to) else fn[c][t]))
  }

  /** Once its uses of `from` are replaced an instruction has none left, so
      replacing them again changes nothing. */
  lemma ReplaceUsesTwice(x: Inst, from: Id, to: Id)
    requires from != to
    ensures ReplaceUses(ReplaceUses(x, from, to), from, to) == ReplaceUses(x, from, to)
  {
    var y := ReplaceUses(x, from, to);
    forall j | 0 <= j < |y.operands| ensures y.operands[j] != Ref(from) {
      assert y.operands[j] == ReplaceOperand(x.operands[j], from, to);
    }
    ReplaceUsesNoop(y, from, to);
  }

  lemma RewireSomeNone(fn: Func, from: Id, to: Id)
    ensures RewireSome(fn, [], from, to) == fn
  {
    forall c | 0 <= c < |fn| ensures RewireSome(fn, [], from, to)[c] == fn[c] {
    }
  }

  /** `user->replaceUsesOfWith(from, to)` takes the rewiring one user further;
      a user met twice is rewired once. */
  lemma RewireSomeStep(fn: Func, users: seq<Id>, u: Id, from: Id, to: Id)
    requires from != to
    ensures ReplaceUsesIn(RewireSome(fn, users, from, to), u, from, to) == RewireSome(fn, users + [u], from, to)
  {
    var g := RewireSome(fn, users, from, to);
    var l := ReplaceUsesIn(g, u, from, to);
    var r := RewireSome(fn, users + [u], from, to);
    forall c | 0 <= c < |fn| ensures l[c] == r[c] {
      forall t | 0 <= t < |fn[c]| ensures l[c][t] == r[c][t] {
        var x := fn[c][t];
        if x.id in users && x.id == u {
          ReplaceUsesTwice(x, from, to);
        }
      }
    }
  }

  /** Once every user of `from` other than `from` itself and `to` has been
      rewired, and no other instruction, the rewiring is complete. */
  lemma RewireSomeAll(fn: Func, users: seq<Id>, from: Id, to: Id)
    requires forall u | u in users :: u != from && u != to
    requires forall c, t | 0 <= c < |fn| && 0 <= t < |fn[c]| && Uses(fn[c][t], from) && fn[c][t].id != from && fn[c][t].id != to ::
      fn[c][t].id in users
    ensures RewireSome(fn, users, from, to) == RewireAll(fn, from, to)
  {
    var l := RewireSome(fn, users, from, to);
    var r := RewireAll(fn, from, to);
    forall c | 0 <= c < |fn| ensures l[c] == r[c] {
      forall t | 0 <= t < |fn[c]| ensures l[c][t] == r[c][t] {
        var x := fn[c][t];
        if x.id !in users && !Uses(x, from) {
          ReplaceUsesNoop(x, from, to);
        }
      }
    }
  }

  /** The call's block once the slot, the mask store and the chain are in. */
  lemma {:induction false} ChainedSiteBlock(fn: Func, p: Pos, k: BitPos, n: Id)
    requires IsSite(fn, p)
    ensures var call := fn[p.b][p.i];
      var withChain := AddChain(AddSlot(fn, k, n), Shifted(p), n, Operand0(call));
      |withChain| == |fn| &&
      withChain[p.b] == Prologue(p.b, n, k) + fn[p.b][..p.i] + [call] +
        [SlotLoad(n), FaultXor(n, Operand0(call)), ResetStore(n)] + fn[p.b][p.i + 1..]
  {
    var call := fn[p.b][p.i];
    var q := Shifted(p);
    var withSlot := AddSlot(fn, k, n);
    AddSlotShape(fn, k, n);
    AddChainShape(withSlot, q, n, Operand0(call));
    var pro := Prologue(p.b, n, k);
    var blk := fn[p.b];
    assert withSlot[p.b] == pro + blk;
    assert (pro + blk)[..q.i + 1] == pro + blk[..p.i] + [call];
    assert (pro + blk)[q.i + 1..] == blk[p.i + 1..];
  }

  /** Rewiring the call's block before the call is erased. */
  lemma {:induction false} RewireSiteBlock(pro: Block, a: Block, call: Inst, chain: Block, b: Block, to: Id)
    requires forall t | 0 <= t < |pro| :: !Uses(pro[t], call.id)
    requires forall t | 0 <= t < |chain| :: chain[t].id == to || !Uses(chain[t], call.id)
    ensures RewireBlock(pro + a + [call] + chain + b, call.id, to) ==
      (pro + RewireBlock(a, call.id, to)) + [call] + (chain + RewireBlock(b, call.id, to))
  {
    var ci := call.id;
    RewireBlockNoop(pro, ci, to);
    forall t | 0 <= t < |chain| ensures RewireInst(chain[t], ci, to) == chain[t] {
      if chain[t].id != to {
        ReplaceUsesNoop(chain[t], ci, to);
      }
    }
    assert RewireBlock(chain, ci, to) == chain;
    assert RewireBlock([call], ci, to) == [call];
    RewireBlockConcat(pro + a + [call] + chain, b, ci, to);
    RewireBlockConcat(pro + a + [call], chain, ci, to);
    RewireBlockConcat(pro + a, [call], ci, to);
    RewireBlockConcat(pro, a, ci, to);
  }

  lemma DropMiddle<T>(s: seq<T>, front: seq<T>, y: T, back: seq<T>)
    requires s == front + [y] + back
    ensures s[..|front|] + s[|front| + 1..] == front + back
  {
    assert s[..|front|] == front;
    assert s[|front| + 1..] == back;
  }

  /** The call's block once its users are rewired, before the call is
      erased. */
  lemma {:induction false} RewiredSiteBlock(fn: Func, p: Pos, k: BitPos, n: Id)
    requires IsSite(fn, p) && fn[p.b][p.i].id < n
    ensures var call := fn[p.b][p.i];
      var withChain := AddChain(AddSlot(fn, k, n), Shifted(p), n, Operand0(call));
      var rewired := RewireAll(withChain, call.id, n + 4);
      |rewired| == |fn| &&
      rewired[p.b] == (Prologue(p.b, n, k) + RewireBlock(fn[p.b][..p.i], call.id, n + 4)) + [call] +
        ([SlotLoad(n), FaultXor(n, Operand0(call)), ResetStore(n)] + RewireBlock(fn[p.b][p.i + 1..], call.id, n + 4))
  {
    var call := fn[p.b][p.i];
    var chain := [SlotLoad(n), FaultXor(n, Operand0(call)), ResetStore(n)];
    ChainedSiteBlock(fn, p, k, n);
    RewireSiteBlock(Prologue(p.b, n, k), fn[p.b][..p.i], call, chain, fn[p.b][p.i + 1..], n + 4);
  }

  /** Erasing the instruction at `q` from a block laid out around it. */
  lemma EraseLaidOut(f: Func, q: Pos, front: Block, y: Inst, back: Block)
    requires ValidPos(f, q) && f[q.b] == front + [y] + back && |front| == q.i
    ensures EraseAt(f, q)[q.b] == front + back
  {
    DropMiddle(f[q.b], front, y, back);
  }

  lemma {:induction false} SiteBlockShape(fn: Func, p: Pos, k: BitPos, n: Id)
    requires IsSite(fn, p) && fn[p.b][p.i].id < n
    ensures var r := InjectSite(fn, p, k, n);
      |r| == |fn| && r[p.b] == Prologue(p.b, n, k) + SiteBody(fn, p, p.b, n)
  {
    hide AddSlot, AddChain, RewireAll, InjectSite, Rewired, SiteBody;
    SiteStages(fn, p, k, n);
    var call := fn[p.b][p.i];
    var rewired := RewireAll(AddChain(AddSlot(fn, k, n), Shifted(p), n, Operand0(call)), call.id, n + 4);
    var front := Prologue(p.b, n, k) + RewireBlock(fn[p.b][..p.i], call.id, n + 4);
    var back := [SlotLoad(n), FaultXor(n, Operand0(call)), ResetStore(n)] + RewireBlock(fn[p.b][p.i + 1..], call.id, n + 4);
    RewiredSiteBlock(fn, p, k, n);
    EraseLaidOut(rewired, Shifted(p), front, call, back);
    SiteBodyAtCall(fn, p, n);
  }

  lemma SiteBodyAtCall(fn: Func, p: Pos, n: Id)
    requires ValidPos(fn, p) && HasOperand0(fn[p.b][p.i])
    ensures var call := fn[p.b][p.i];
      SiteBody(fn, p, p.b, n) == RewireBlock(fn[p.b][..p.i], call.id, n + 4) +
        ([SlotLoad(n), FaultXor(n, Operand0(call)), ResetStore(n)] + RewireBlock(fn[p.b][p.i + 1..], call.id, n + 4))
  {
  }

  lemma {:induction false} OtherBlockShape(fn: Func, p: Pos, k: BitPos, n: Id, c: nat)
    requires IsSite(fn, p) && fn[p.b][p.i].id < n && c < |fn| && c != p.b
    ensures var r := InjectSite(fn, p, k, n);
      |r| == |fn| && r[c] == Prologue(c, n, k) + SiteBody(fn, p, c, n)
  {
    hide AddSlot, AddChain, InjectSite, Rewired;
    SiteStages(fn, p, k, n);
    var call := fn[p.b][p.i];
    var ci, x := call.id, n + 4;
    var q := Shifted(p);
    var withSlot := AddSlot(fn, k, n);
    AddSlotShape(fn, k, n);
    var withChain := AddChain(withSlot, q, n, Operand0(call));
    AddChainShape(withSlot, q, n, Operand0(call));
    var rewired := RewireAll(withChain, ci, x);
    var r := InjectSite(fn, p, k, n);
    var pro := Prologue(c, n, k);
    assert r[c] == rewired[c];
    assert withChain[c] == pro + fn[c];
    RewireBlockConcat(pro, fn[c], ci, x);
    RewireBlockNoop(pro, ci, x);
  }

  /** The closed form of one rewrite: each block is its prologue followed by
      the former block, rewired; in the call's block the call's place holds
      the load, the XOR and the reset, in that order. */
  lemma {:induction false} InjectSiteShape(fn: Func, p: Pos, k: BitPos, n: Id)
    requires IsSite(fn, p) && fn[p.b][p.i].id < n
    ensures var r := InjectSite(fn, p, k, n);
      |r| == |fn| && forall c | 0 <= c < |fn| :: r[c] == Prologue(c, n, k) + SiteBody(fn, p, c, n)
  {
    SiteBlockShape(fn, p, k, n);
    forall c | 0 <= c < |fn| && c != p.b
      ensures InjectSite(fn, p, k, n)[c] == Prologue(c, n, k) + SiteBody(fn, p, c, n)
    {
      OtherBlockShape(fn, p, k, n, c);
    }
  }

  /** The entry block of the result starts with the slot and its mask
      store, followed by the first `m` instructions of the old entry block
      when none of them is the call or uses it. */
  lemma EntryPrefix(fn: Func, p: Pos, k: BitPos, n: Id, m: nat)
    requires IsSite(fn, p) && fn[p.b][p.i].id < n
    requires m <= |fn[0]| && (p.b == 0 ==> m <= p.i)
    requires forall t | 0 <= t < m :: !Uses(fn[0][t], fn[p.b][p.i].id)
    ensures var r0 := InjectSite(fn, p, k, n)[0];
      m + 2 <= |r0| && r0[..m + 2] == [SlotAlloca(n), MaskStore(n, k)] + fn[0][..m]
  {
    hide InjectSite, AddSlot, AddChain, Rewired, RewireAll;
    InjectSiteShape(fn, p, k, n);
    var ci := fn[p.b][p.i].id;
    var pre := fn[0][..m];
    RewireBlockNoop(pre, ci, n + 4);
    var whole := if p.b == 0 then fn[0][..p.i] else fn[0];
    assert whole == pre + whole[m..];
    RewireBlockConcat(pre, whole[m..], ci, n + 4);
  }

  // ---------------------------------------------------------------------
  // Well-formedness, step by step

  lemma {:induction false} SizeSameShape(fn: Func, g: Func)
    requires |g| == |fn| && forall c | 0 <= c < |fn| :: |g[c]| == |fn[c]|
    ensures Size(g) == Size(fn)
    decreases |fn|
  {
    if fn != [] {
      SizeSameShape(fn[..|fn| - 1], g[..|g| - 1]);
    }
  }

  /** Rewiring keeps every instruction in place with its identity and kind. */
  lemma RewireShape(fn: Func, from: Id, to: Id)
    ensures var r := RewireAll(fn, from, to);
      |r| == |fn| &&
      forall c | 0 <= c < |fn| :: |r[c]| == |fn[c]| &&
        forall t | 0 <= t < |fn[c]| :: r[c][t] == RewireInst(fn[c][t], from, to) &&
          r[c][t].id == fn[c][t].id && r[c][t].kind == fn[c][t].kind
  {
  }

  lemma RewireHas(fn: Func, from: Id, to: Id)
    ensures Ids(RewireAll(fn, from, to)) == Ids(fn)
  {
    var r: Func := RewireAll(fn, from, to);
    RewireShape(fn, from, to);
    forall y | y in Ids(fn) ensures y in Ids(r) {
      IdsMember(fn, y);
      var c, t :| 0 <= c < |fn| && 0 <= t < |fn[c]| && fn[c][t].id == y;
      IdsAt(r, c, t);
    }
    forall y | y in Ids(r) ensures y in Ids(fn) {
      IdsMember(r, y);
      var c, t :| 0 <= c < |r| && 0 <= t < |r[c]| && r[c][t].id == y;
      IdsAt(fn, c, t);
    }
  }

  /** Each operand of a rewired instruction is one it had or the new target. */
  lemma RewireOperands(x: Inst, from: Id, to: Id, v: Value)
    requires v in RewireInst(x, from, to).operands
    ensures v == Ref(to) || (v in x.operands && v != Ref(from)) || (x.id in {from, to} && v in x.operands)
  {
    if x.id != from && x.id != to {
      var ops := ReplaceUses(x, from, to).operands;
      var j :| 0 <= j < |ops| && ops[j] == v;
      assert v == ReplaceOperand(x.operands[j], from, to);
    }
  }

  lemma RewireIds(fn: Func, from: Id, to: Id)
    requires UniqueIds(fn)
    ensures UniqueIds(RewireAll(fn, from, to)) && Ids(RewireAll(fn, from, to)) == Ids(fn)
  {
    var r: Func := RewireAll(fn, from, to);
    RewireShape(fn, from, to);
    RewireHas(fn, from, to);
    SizeSameShape(fn, r);
  }

  lemma RewireStructure(fn: Func, from: Id, to: Id)
    requires Terminated(fn)
    ensures var r := RewireAll(fn, from, to);
      Terminated(r) && Size(r) == Size(fn)
  {
    var r: Func := RewireAll(fn, from, to);
    RewireShape(fn, from, to);
    SizeSameShape(fn, r);
    forall c | 0 <= c < |r| ensures |r[c]| > 0 && r[c][|r[c]| - 1].kind == Terminator {
      assert r[c][|r[c]| - 1].kind == fn[c][|fn[c]| - 1].kind;
    }
  }

  lemma RewireFresh(fn: Func, from: Id, to: Id, n: nat)
    requires IdsBelow(fn, n) && NoSelfUse(fn)
    ensures var r := RewireAll(fn, from, to);
      IdsBelow(r, n) && NoSelfUse(r)
  {
    var r: Func := RewireAll(fn, from, to);
    RewireShape(fn, from, to);
    RewireHas(fn, from, to);
    forall c, t | 0 <= c < |r| && 0 <= t < |r[c]| && r[c][t].kind.Call? ensures !Uses(r[c][t], r[c][t].id) {
      if Uses(r[c][t], r[c][t].id) {
        RewireOperands(fn[c][t], from, to, Ref(r[c][t].id));
      }
    }
  }

  lemma RewireClosed(fn: Func, from: Id, to: Id)
    requires Closed(fn) && to in Ids(fn)
    ensures Closed(RewireAll(fn, from, to))
  {
    var r: Func := RewireAll(fn, from, to);
    RewireShape(fn, from, to);
    RewireHas(fn, from, to);
    forall c, t, v | 0 <= c < |r| && 0 <= t < |r[c]| && v in r[c][t].operands && v.Ref?
      ensures Has(r, v.id)
    {
      RewireOperands(fn[c][t], from, to, v);
    }
  }

  /** After rewiring, nothing uses `from` any more, provided neither `to`
      nor `from` itself did. */
  lemma RewireClears(fn: Func, from: Id, to: Id)
    requires from != to
    requires forall c, t | 0 <= c < |fn| && 0 <= t < |fn[c]| && fn[c][t].id == from :: !Uses(fn[c][t], from)
    requires forall c, t | 0 <= c < |fn| && 0 <= t < |fn[c]| && fn[c][t].id == to :: !Uses(fn[c][t], from)
    ensures var r := RewireAll(fn, from, to);
      forall c, t | 0 <= c < |r| && 0 <= t < |r[c]| :: !Uses(r[c][t], from)
  {
    var r: Func := RewireAll(fn, from, to);
    RewireShape(fn, from, to);
    forall c, t | 0 <= c < |r| && 0 <= t < |r[c]| ensures !Uses(r[c][t], from) {
      if Uses(r[c][t], from) {
        RewireOperands(fn[c][t], from, to, Ref(from));
      }
    }
  }

  // ---------------------------------------------------------------------
  // Well-formedness of each stage, one property at a time

  lemma {:induction false} SlotIds(fn: Func, k: BitPos, n: Id)
    requires |fn| > 0 && |fn[0]| > 0 && UniqueIds(fn) && n !in Ids(fn) && n + 1 !in Ids(fn)
    ensures UniqueIds(AddSlot(fn, k, n)) && Ids(AddSlot(fn, k, n)) == Ids(fn) + {n} + {n + 1}
  {
    InsertUnique(fn, Pos(0, 0), SlotAlloca(n));
    InsertUnique(WithAlloca(fn, n), Pos(0, 1), MaskStore(n, k));
  }

  lemma {:induction false} SlotStructure(fn: Func, k: BitPos, n: Id)
    requires Terminated(fn)
    ensures var w := WithAlloca(fn, n); Terminated(w) && Size(w) == Size(fn) + 1
    ensures var r := AddSlot(fn, k, n); Terminated(r) && Size(r) == Size(fn) + 2
  {
    var w := WithAlloca(fn, n);
    InsertTerminated(fn, Pos(0, 0), SlotAlloca(n));
    SizeUpdate(fn, 0, w[0]);
    InsertTerminated(w, Pos(0, 1), MaskStore(n, k));
    SizeUpdate(w, 0, AddSlot(fn, k, n)[0]);
  }

  lemma {:induction false} SlotFresh(fn: Func, k: BitPos, n: Id)
    requires |fn| > 0 && |fn[0]| > 0 && IdsBelow(fn, n) && NoSelfUse(fn)
    ensures var w := WithAlloca(fn, n); IdsBelow(w, n + 1) && NoSelfUse(w)
    ensures var r := AddSlot(fn, k, n); IdsBelow(r, n + 2) && NoSelfUse(r)
  {
    InsertIds(fn, Pos(0, 0), SlotAlloca(n), n);
    InsertIds(WithAlloca(fn, n), Pos(0, 1), MaskStore(n, k), n + 1);
  }

  lemma {:induction false} SlotClosed(fn: Func, k: BitPos, n: Id)
    requires |fn| > 0 && |fn[0]| > 0 && Closed(fn)
    ensures Closed(WithAlloca(fn, n)) && Closed(AddSlot(fn, k, n))
  {
    InsertClosed(fn, Pos(0, 0), SlotAlloca(n));
    InsertHas(fn, Pos(0, 0), SlotAlloca(n));
    InsertClosed(WithAlloca(fn, n), Pos(0, 1), MaskStore(n, k));
  }

  lemma {:induction false} ChainIds(fn: Func, q: Pos, n: Id, arg: Value)
    requires ValidPos(fn, q) && q.i + 1 < |fn[q.b]| && UniqueIds(fn)
    requires n + 2 !in Ids(fn) && n + 3 !in Ids(fn) && n + 4 !in Ids(fn)
    ensures UniqueIds(AddChain(fn, q, n, arg)) && Ids(AddChain(fn, q, n, arg)) == Ids(fn) + {n + 2} + {n + 3} + {n + 4}
  {
    hide Ids, BlockIds, Size, UniqueIds;
    var s3, s4 := WithReset(fn, q, n), WithLoad(fn, q, n);
    InsertUnique(fn, Pos(q.b, q.i + 1), ResetStore(n));
    assert n + 3 !in Ids(s3) && n + 4 !in Ids(s3);
    InsertUnique(s3, Pos(q.b, q.i + 1), SlotLoad(n));
    InsertUnique(s4, Pos(q.b, q.i + 2), FaultXor(n, arg));
  }

  lemma {:induction false} ChainStructure(fn: Func, q: Pos, n: Id, arg: Value)
    requires ValidPos(fn, q) && q.i + 1 < |fn[q.b]| && Terminated(fn)
    ensures var s3 := WithReset(fn, q, n); Terminated(s3) && Size(s3) == Size(fn) + 1
    ensures var s4 := WithLoad(fn, q, n); Terminated(s4) && Size(s4) == Size(fn) + 2
    ensures var r := AddChain(fn, q, n, arg); Terminated(r) && Size(r) == Size(fn) + 3
  {
    var s3, s4 := WithReset(fn, q, n), WithLoad(fn, q, n);
    InsertTerminated(fn, Pos(q.b, q.i + 1), ResetStore(n));
    SizeUpdate(fn, q.b, s3[q.b]);
    InsertTerminated(s3, Pos(q.b, q.i + 1), SlotLoad(n));
    SizeUpdate(s3, q.b, s4[q.b]);
    InsertTerminated(s4, Pos(q.b, q.i + 2), FaultXor(n, arg));
    SizeUpdate(s4, q.b, AddChain(fn, q, n, arg)[q.b]);
  }

  lemma {:induction false} ChainFresh(fn: Func, q: Pos, n: Id, arg: Value)
    requires ValidPos(fn, q) && q.i + 1 < |fn[q.b]|
    requires IdsBelow(fn, n + 2) && NoSelfUse(fn) && arg != Ref(n + 4)
    ensures var s3 := WithReset(fn, q, n); IdsBelow(s3, n + 3) && NoSelfUse(s3)
    ensures var s4 := WithLoad(fn, q, n); IdsBelow(s4, n + 4) && NoSelfUse(s4)
    ensures var r := AddChain(fn, q, n, arg); IdsBelow(r, n + 5) && NoSelfUse(r)
  {
    var s3, s4 := WithReset(fn, q, n), WithLoad(fn, q, n);
    InsertIds(fn, Pos(q.b, q.i + 1), ResetStore(n), n + 2);
    InsertIds(s3, Pos(q.b, q.i + 1), SlotLoad(n), n + 3);
    InsertIds(s4, Pos(q.b, q.i + 2), FaultXor(n, arg), n + 4);
  }

  /** The XOR is the only instruction with its identity. */
  lemma {:induction false} ChainXorAlone(fn: Func, q: Pos, n: Id, arg: Value)
    requires ValidPos(fn, q) && q.i + 1 < |fn[q.b]| && IdsBelow(fn, n + 2)
    ensures var r := AddChain(fn, q, n, arg);
      forall c, t | 0 <= c < |r| && 0 <= t < |r[c]| && r[c][t].id == n + 4 :: r[c][t] == FaultXor(n, arg)
  {
    var s3, s4 := WithReset(fn, q, n), WithLoad(fn, q, n);
    InsertHas(fn, Pos(q.b, q.i + 1), ResetStore(n));
    InsertHas(s3, Pos(q.b, q.i + 1), SlotLoad(n));
    InsertedAlone(s4, Pos(q.b, q.i + 2), FaultXor(n, arg));
  }

  lemma {:induction false} ChainClosed(fn: Func, q: Pos, n: Id, arg: Value)
    requires ValidPos(fn, q) && q.i + 1 < |fn[q.b]| && Closed(fn) && n in Ids(fn)
    requires arg.Ref? ==> arg.id in Ids(fn)
    ensures Closed(WithReset(fn, q, n)) && Closed(WithLoad(fn, q, n)) && Closed(AddChain(fn, q, n, arg))
  {
    var s3, s4 := WithReset(fn, q, n), WithLoad(fn, q, n);
    InsertClosed(fn, Pos(q.b, q.i + 1), ResetStore(n));
    InsertHas(fn, Pos(q.b, q.i + 1), ResetStore(n));
    InsertClosed(s3, Pos(q.b, q.i + 1), SlotLoad(n));
    InsertHas(s3, Pos(q.b, q.i + 1), SlotLoad(n));
    InsertClosed(s4, Pos(q.b, q.i + 2), FaultXor(n, arg));
  }

  /** Where the call and the XOR are in the intermediate stages of one
      rewrite. */
  lemma {:induction false} SiteStages(fn: Func, p: Pos, k: BitPos, n: Id)
    requires IsSite(fn, p)
    ensures var call := fn[p.b][p.i];
      var q := Shifted(p);
      var s2 := AddSlot(fn, k, n);
      ValidPos(s2, q) && q.i + 1 < |s2[q.b]| && s2[q.b][q.i] == call &&
      var s5 := AddChain(s2, q, n, Operand0(call));
      ValidPos(s5, q) && q.i + 2 < |s5[q.b]| && s5[q.b][q.i] == call &&
      s5[q.b][q.i + 2] == FaultXor(n, Operand0(call)) &&
      var s6 := RewireAll(s5, call.id, n + 4);
      ValidPos(s6, q) && q.i + 1 < |s6[q.b]| && s6[q.b][q.i] == call &&
      InjectSite(fn, p, k, n) == EraseAt(s6, q)
  {
    var call := fn[p.b][p.i];
    var q := Shifted(p);
    var s2 := AddSlot(fn, k, n);
    AddSlotShape(fn, k, n);
    assert s2[p.b] == Prologue(p.b, n, k) + fn[p.b];
    var s5 := AddChain(s2, q, n, Operand0(call));
    AddChainShape(s2, q, n, Operand0(call));
    RewireShape(s5, call.id, n + 4);
  }

  /** Before the erase, every identity of the function is still there and
      the five new ones are added. */
  lemma {:induction false} RewiredIds(fn: Func, p: Pos, k: BitPos, n: Id)
    requires IsSite(fn, p) && UniqueIds(fn) && IdsBelow(fn, n)
    ensures var s6 := Rewired(fn, p, k, n);
      UniqueIds(s6) && Ids(s6) == Ids(fn) + {n} + {n + 1} + {n + 2} + {n + 3} + {n + 4}
  {
    hide AddSlot, AddChain, RewireAll, Ids, BlockIds, Size, UniqueIds;
    var call := fn[p.b][p.i];
    var q := Shifted(p);
    var s2 := AddSlot(fn, k, n);
    SiteStages(fn, p, k, n);
    SlotIds(fn, k, n);
    ChainIds(s2, q, n, Operand0(call));
    RewireIds(AddChain(s2, q, n, Operand0(call)), call.id, n + 4);
  }

  /** One rewrite keeps identities unique; the call's identity is gone and the
      five new ones are in use. */
  lemma {:induction false} InjectSiteIds(fn: Func, p: Pos, k: BitPos, n: Id)
    requires IsSite(fn, p) && UniqueIds(fn) && IdsBelow(fn, n)
    ensures var r := InjectSite(fn, p, k, n);
      UniqueIds(r) && Ids(r) == Ids(fn) - {fn[p.b][p.i].id} + {n, n + 1, n + 2, n + 3, n + 4}
  {
    var call := fn[p.b][p.i];
    var q := Shifted(p);
    var s6 := Rewired(fn, p, k, n);
    SiteStages(fn, p, k, n);
    RewiredIds(fn, p, k, n);
    EraseUnique(s6, q);
    EraseHas(s6, q);
    IdsAt(fn, p.b, p.i);
    FreshSwap(Ids(fn), call.id, n);
  }

  /** Below the fresh identities, one rewrite removes exactly the call. */
  lemma InjectSiteKeeps(fn: Func, p: Pos, k: BitPos, n: Id, y: Id)
    requires IsSite(fn, p) && UniqueIds(fn) && IdsBelow(fn, n) && y < n
    ensures y in Ids(InjectSite(fn, p, k, n)) <==> y in Ids(fn) && y != fn[p.b][p.i].id
  {
    InjectSiteIds(fn, p, k, n);
    SwapMember(Ids(fn), Ids(InjectSite(fn, p, k, n)), fn[p.b][p.i].id, n, y);
  }

  lemma SwapMember(ids: set<Id>, r: set<Id>, gone: Id, n: Id, y: Id)
    requires r == ids - {gone} + {n, n + 1, n + 2, n + 3, n + 4} && y < n
    ensures y in r <==> y in ids && y != gone
  {
  }

  lemma FreshSwap(ids: set<Id>, gone: Id, n: Id)
    requires gone < n
    ensures ids + {n} + {n + 1} + {n + 2} + {n + 3} + {n + 4} - {gone} ==
      ids - {gone} + {n, n + 1, n + 2, n + 3, n + 4}
  {
  }

  lemma {:induction false} InjectSiteTerminated(fn: Func, p: Pos, k: BitPos, n: Id)
    requires IsSite(fn, p) && Terminated(fn)
    ensures var r := InjectSite(fn, p, k, n);
      Terminated(r) && Size(r) == Size(fn) + 4
  {
    var call := fn[p.b][p.i];
    var q := Shifted(p);
    var s2 := AddSlot(fn, k, n);
    var s5 := AddChain(s2, q, n, Operand0(call));
    var s6 := RewireAll(s5, call.id, n + 4);
    SiteStages(fn, p, k, n);
    SlotStructure(fn, k, n);
    ChainStructure(s2, q, n, Operand0(call));
    RewireStructure(s5, call.id, n + 4);
    EraseTerminated(s6, q);
    SizeUpdate(s6, q.b, EraseAt(s6, q)[q.b]);
  }

  lemma {:induction false} InjectSiteFresh(fn: Func, p: Pos, k: BitPos, n: Id)
    requires IsSite(fn, p) && IdsBelow(fn, n) && NoSelfUse(fn)
    requires forall v | v in fn[p.b][p.i].operands && v.Ref? :: v.id < n
    ensures var r := InjectSite(fn, p, k, n);
      IdsBelow(r, n + 5) && NoSelfUse(r)
  {
    var call := fn[p.b][p.i];
    var arg := Operand0(call);
    var q := Shifted(p);
    var s2 := AddSlot(fn, k, n);
    var s5 := AddChain(s2, q, n, arg);
    var s6 := RewireAll(s5, call.id, n + 4);
    SiteStages(fn, p, k, n);
    SlotFresh(fn, k, n);
    assert arg != Ref(n + 4) by {
      assert arg.Ref? ==> arg in call.operands;
    }
    ChainFresh(s2, q, n, arg);
    RewireFresh(s5, call.id, n + 4, n + 5);
    EraseFresh(s6, q, n + 5);
  }

  lemma {:induction false} RewiredClosed(fn: Func, p: Pos, k: BitPos, n: Id)
    requires IsSite(fn, p) && Closed(fn)
    ensures Closed(Rewired(fn, p, k, n))
  {
    var call := fn[p.b][p.i];
    var arg := Operand0(call);
    var q := Shifted(p);
    var s2 := AddSlot(fn, k, n);
    var s4 := WithLoad(s2, q, n);
    SiteStages(fn, p, k, n);
    SlotClosed(fn, k, n);
    InsertHas(fn, Pos(0, 0), SlotAlloca(n));
    InsertHas(WithAlloca(fn, n), Pos(0, 1), MaskStore(n, k));
    assert arg.Ref? ==> arg.id in Ids(fn) by {
      assert arg.Ref? ==> arg in call.operands;
    }
    ChainClosed(s2, q, n, arg);
    InsertHas(s4, Pos(q.b, q.i + 2), FaultXor(n, arg));
    RewireClosed(AddChain(s2, q, n, arg), call.id, n + 4);
  }

  /** Once its users are rewired, nothing uses the call any more: the XOR
      names the call's argument, never the call itself. */
  lemma {:induction false} RewiredClears(fn: Func, p: Pos, k: BitPos, n: Id)
    requires IsSite(fn, p) && UniqueIds(fn) && IdsBelow(fn, n) && NoSelfUse(fn) && Closed(fn)
    ensures var s6 := Rewired(fn, p, k, n);
      forall c, t | 0 <= c < |s6| && 0 <= t < |s6[c]| :: !Uses(s6[c][t], fn[p.b][p.i].id)
  {
    var call := fn[p.b][p.i];
    var arg := Operand0(call);
    var q := Shifted(p);
    var s2 := AddSlot(fn, k, n);
    var s5 := AddChain(s2, q, n, arg);
    SiteStages(fn, p, k, n);
    IdsAt(fn, p.b, p.i);
    assert arg != Ref(call.id) && arg != Ref(n + 4) by {
      assert arg.Ref? ==> arg in call.operands;
    }
    assert !Uses(FaultXor(n, arg), call.id);
    SlotFresh(fn, k, n);
    ChainFresh(s2, q, n, arg);
    ChainXorAlone(s2, q, n, arg);
    SlotIds(fn, k, n);
    ChainIds(s2, q, n, arg);
    UniquePositions(s5);
    forall c, t | 0 <= c < |s5| && 0 <= t < |s5[c]| && s5[c][t].id == call.id
      ensures !Uses(s5[c][t], call.id)
    {
      assert c == q.b && t == q.i;
    }
    RewireClears(s5, call.id, n + 4);
  }

  lemma {:induction false} InjectSiteClosed(fn: Func, p: Pos, k: BitPos, n: Id)
    requires IsSite(fn, p) && UniqueIds(fn) && IdsBelow(fn, n) && NoSelfUse(fn) && Closed(fn)
    ensures Closed(InjectSite(fn, p, k, n))
  {
    SiteStages(fn, p, k, n);
    RewiredIds(fn, p, k, n);
    RewiredClosed(fn, p, k, n);
    RewiredClears(fn, p, k, n);
    EraseClosed(Rewired(fn, p, k, n), Shifted(p));
  }

  /** One rewrite keeps the function well formed with the five new identities
      in use: four instructions more, the call gone, no new identity reused. */
  lemma InjectSiteWellFormed(fn: Func, p: Pos, k: BitPos, n: Id)
    requires IsSite(fn, p) && WellFormed(fn, n)
    ensures var r := InjectSite(fn, p, k, n);
      WellFormed(r, n + 5) && Size(r) == Size(fn) + 4 &&
      Ids(r) == Ids(fn) - {fn[p.b][p.i].id} + {n, n + 1, n + 2, n + 3, n + 4}
  {
    InjectSiteIds(fn, p, k, n);
    InjectSiteTerminated(fn, p, k, n);
    assert forall v | v in fn[p.b][p.i].operands && v.Ref? :: v.id < n;
    InjectSiteFresh(fn, p, k, n);
    InjectSiteClosed(fn, p, k, n);
  }

  /** After the rewrite the call is gone and no instruction names it. */
  lemma InjectSiteRemovesCall(fn: Func, p: Pos, k: BitPos, n: Id)
    requires IsSite(fn, p) && WellFormed(fn, n)
    ensures var r := InjectSite(fn, p, k, n);
      fn[p.b][p.i].id !in Ids(r) &&
      forall c, t | 0 <= c < |r| && 0 <= t < |r[c]| :: !Uses(r[c][t], fn[p.b][p.i].id)
  {
    SiteStages(fn, p, k, n);
    RewiredIds(fn, p, k, n);
    EraseHas(Rewired(fn, p, k, n), Shifted(p));
    RewiredClears(fn, p, k, n);
    EraseUnused(Rewired(fn, p, k, n), Shifted(p), fn[p.b][p.i].id);
  }

  // ---------------------------------------------------------------------
  // The snapshot across one rewrite

  lemma {:induction false} RewireBlockTargets(blk: Block, from: Id, to: Id)
    ensures TargetsIn(RewireBlock(blk, from, to)) == TargetsIn(blk)
  {
    if blk != [] {
      var init := blk[..|blk| - 1];
      assert RewireBlock(blk, from, to)[..|blk| - 1] == RewireBlock(init, from, to);
      RewireBlockTargets(init, from, to);
    }
  }

  /** Rewiring changes operands only, never an instruction's kind or identity,
      so it selects the same calls. */
  lemma {:induction false} RewireTargets(fn: Func, from: Id, to: Id)
    ensures Targets(RewireAll(fn, from, to)) == Targets(fn)
  {
    if fn != [] {
      var init := fn[..|fn| - 1];
      assert RewireAll(fn, from, to)[..|fn| - 1] == RewireAll(init, from, to);
      RewireTargets(init, from, to);
      RewireBlockTargets(fn[|fn| - 1], from, to);
    }
  }

  /** None of the new instructions is a call, so up to the erase the function
      selects exactly the calls it had. */
  lemma {:induction false} RewiredTargets(fn: Func, p: Pos, k: BitPos, n: Id)
    requires IsSite(fn, p)
    ensures Targets(Rewired(fn, p, k, n)) == Targets(fn)
  {
    hide Targets, TargetsIn, RewireAll;
    var call := fn[p.b][p.i];
    var q := Shifted(p);
    var s1 := WithAlloca(fn, n);
    var s2 := AddSlot(fn, k, n);
    var s3 := WithReset(s2, q, n);
    var s4 := WithLoad(s2, q, n);
    SiteStages(fn, p, k, n);
    InsertKeepsTargets(fn, Pos(0, 0), SlotAlloca(n));
    InsertKeepsTargets(s1, Pos(0, 1), MaskStore(n, k));
    InsertKeepsTargets(s2, Pos(q.b, q.i + 1), ResetStore(n));
    InsertKeepsTargets(s3, Pos(q.b, q.i + 1), SlotLoad(n));
    InsertKeepsTargets(s4, Pos(q.b, q.i + 2), FaultXor(n, Operand0(call)));
    RewireTargets(AddChain(s2, q, n, Operand0(call)), call.id, n + 4);
  }

  /** Rewriting the call the snapshot names first takes exactly that call off
      the snapshot; the other targets stay, in order. */
  lemma {:induction false} InjectSiteTargets(fn: Func, p: Pos, k: BitPos, n: Id)
    requires IsSite(fn, p) && UniqueIds(fn) && IdsBelow(fn, n) && IsTarget(fn[p.b][p.i])
    requires Targets(fn) != [] && Targets(fn)[0] == fn[p.b][p.i].id
    ensures Targets(InjectSite(fn, p, k, n)) == Targets(fn)[1..]
  {
    SiteStages(fn, p, k, n);
    RewiredTargets(fn, p, k, n);
    RewiredIds(fn, p, k, n);
    EraseFirstTarget(Rewired(fn, p, k, n), Shifted(p));
  }
}
