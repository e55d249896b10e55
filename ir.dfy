// An abstract view of the LLVM IR that the fault-injection pass rewrites:
// a function is a sequence of basic blocks, a block a sequence of
// instructions, and an instruction has an identity (its address), a kind and
// a list of operands. The object-model operations the pass calls
// (insert-before, replaceUsesOfWith, eraseFromParent) are plain sequence
// edits here.
module IR {

  datatype Option<T> = None | Some(value: T)

  /** The identity of an instruction object (what an `Instruction *` names). */
  type Id = nat

  /** An operand: the result of an instruction of the same function, an integer
      constant, or a value no instruction of the function defines (an
      argument, a global, a block label). */
  datatype Value = Ref(id: Id) | Const(bits: int) | Symbol(name: string)

  datatype Kind =
    | Call(callee: Option<string>)  // None: indirect call, no called function
    | Alloca
    | Store
    | Load
    | Xor
    | Terminator
    | Other

  datatype Inst = Inst(id: Id, kind: Kind, operands: seq<Value>)

  type Block = seq<Inst>

  type Func = seq<Block>

  /** Block index and index within the block. */
  datatype Pos = Pos(b: nat, i: nat)

  predicate ValidPos(fn: Func, p: Pos) {
    p.b < |fn| && p.i < |fn[p.b]|
  }

  predicate Uses(x: Inst, v: Id) {
    Ref(v) in x.operands
  }

  /** The identities of the instructions of `blk`. */
  ghost function BlockIds(blk: Block): set<Id> {
    if blk == [] then {} else BlockIds(blk[..|blk| - 1]) + {blk[|blk| - 1].id}
  }

  /** The identities of the instructions of `fn`. */
  ghost function Ids(fn: Func): set<Id> {
    if fn == [] then {} else Ids(fn[..|fn| - 1]) + BlockIds(fn[|fn| - 1])
  }

  /** Some instruction of `fn` has identity `v`. */
  ghost predicate Has(fn: Func, v: Id) {
    v in Ids(fn)
  }

  /** Every block is non-empty and ends with its terminator. */
  ghost predicate Terminated(fn: Func) {
    |fn| > 0 &&
    forall c | 0 <= c < |fn| :: |fn[c]| > 0 && fn[c][|fn[c]| - 1].kind == Terminator
  }

  /** No two positions hold the same instruction object: there are exactly as
      many identities as instructions (`UniquePositions` states it position
      by position). */
  ghost predicate UniqueIds(fn: Func) {
    |Ids(fn)| == Size(fn)
  }

  /** Every identity in use is below `n`, so `n` and above are fresh. */
  ghost predicate IdsBelow(fn: Func, n: nat) {
    forall y | y in Ids(fn) :: y < n
  }

  /** No call names its own result. Other instructions may (a phi node, or
      any instruction in an unreachable block); a marked call that did would
      leave the XOR naming the erased call. */
  ghost predicate NoSelfUse(fn: Func) {
    forall c, t | 0 <= c < |fn| && 0 <= t < |fn[c]| && fn[c][t].kind.Call? :: !Uses(fn[c][t], fn[c][t].id)
  }

  /** Every instruction result an operand names exists in the function. */
  ghost predicate Closed(fn: Func) {
    forall c, t, v | 0 <= c < |fn| && 0 <= t < |fn[c]| && v in fn[c][t].operands && v.Ref? :: Has(fn, v.id)
  }

  ghost predicate WellFormed(fn: Func, n: nat) {
    Terminated(fn) && UniqueIds(fn) && IdsBelow(fn, n) && NoSelfUse(fn) && Closed(fn)
  }

  /** A loop header whose phi node names its own result is well formed:
      only calls are barred from naming themselves. */
  lemma SelfPhiWellFormed()
    ensures WellFormed([[Inst(1, Other, [Const(0), Ref(1)]), Inst(2, Terminator, [Ref(1)])]], 3)
  {
    var blk := [Inst(1, Other, [Const(0), Ref(1)]), Inst(2, Terminator, [Ref(1)])];
    var fn := [blk];
    assert blk[..1] == [blk[0]] && blk[..0] == [];
    assert BlockIds(blk) == {1, 2};
    assert fn[..0] == [];
    assert Ids(fn) == {1, 2} && Size(fn) == 2;
    assert Has(fn, 1) by { assert fn[0][0].id == 1; }
  }

  /** A bound on the identities in use stays a bound when raised. */
  lemma WellFormedMono(fn: Func, n: nat, m: nat)
    requires WellFormed(fn, n) && n <= m
    ensures WellFormed(fn, m)
  {
  }

  lemma {:induction false} BlockIdsMember(blk: Block, y: Id)
    ensures y in BlockIds(blk) <==> exists t | 0 <= t < |blk| :: blk[t].id == y
  {
    if blk != [] {
      var init := blk[..|blk| - 1];
      BlockIdsMember(init, y);
      if exists t | 0 <= t < |init| :: init[t].id == y {
        var t :| 0 <= t < |init| && init[t].id == y;
        assert blk[t] == init[t];
      }
      if exists t | 0 <= t < |blk| :: blk[t].id == y {
        var t :| 0 <= t < |blk| && blk[t].id == y;
        if t < |init| {
          assert init[t] == blk[t];
        }
      }
    }
  }

  /** `Ids` holds exactly the identities found at some position. */
  lemma {:induction false} IdsMember(fn: Func, y: Id)
    ensures y in Ids(fn) <==> exists c, t | 0 <= c < |fn| && 0 <= t < |fn[c]| :: fn[c][t].id == y
  {
    if fn != [] {
      var init := fn[..|fn| - 1];
      var last := |fn| - 1;
      IdsMember(init, y);
      BlockIdsMember(fn[last], y);
      if exists c, t | 0 <= c < |init| && 0 <= t < |init[c]| :: init[c][t].id == y {
        var c, t :| 0 <= c < |init| && 0 <= t < |init[c]| && init[c][t].id == y;
        assert fn[c][t] == init[c][t];
      }
      if exists t | 0 <= t < |fn[last]| :: fn[last][t].id == y {
        var t :| 0 <= t < |fn[last]| && fn[last][t].id == y;
        assert fn[last][t].id == y;
      }
      if exists c, t | 0 <= c < |fn| && 0 <= t < |fn[c]| :: fn[c][t].id == y {
        var c, t :| 0 <= c < |fn| && 0 <= t < |fn[c]| && fn[c][t].id == y;
        if c < last {
          assert init[c][t] == fn[c][t];
        }
      }
    }
  }

  lemma IdsAt(fn: Func, c: nat, t: nat)
    requires c < |fn| && t < |fn[c]|
    ensures fn[c][t].id in Ids(fn)
  {
    IdsMember(fn, fn[c][t].id);
  }

  /** Number of instructions in the function. */
  function Size(fn: Func): nat {
    if fn == [] then 0 else Size(fn[..|fn| - 1]) + |fn[|fn| - 1]|
  }

  lemma {:induction false} SizeUpdate(fn: Func, c: nat, blk: Block)
    requires c < |fn|
    ensures Size(fn[c := blk]) == Size(fn) - |fn[c]| + |blk|
  {
    var last := |fn| - 1;
    var r := fn[c := blk];
    if c < last {
      assert r[..last] == fn[..last][c := blk];
      SizeUpdate(fn[..last], c, blk);
    } else {
      assert r[..last] == fn[..last];
    }
  }

  lemma {:induction false} BlockIdsCard(blk: Block)
    ensures |BlockIds(blk)| <= |blk|
  {
    if blk != [] {
      BlockIdsCard(blk[..|blk| - 1]);
    }
  }

  /** A function never has more identities than instructions. */
  lemma {:induction false} IdsCard(fn: Func)
    ensures |Ids(fn)| <= Size(fn)
  {
    if fn != [] {
      IdsCard(fn[..|fn| - 1]);
      BlockIdsCard(fn[|fn| - 1]);
    }
  }

  lemma SubsetCard(a: set<Id>, b: set<Id>)
    requires a <= b
    ensures |a| <= |b| && (|b| <= |a| ==> a == b)
  {
    assert b == a + (b - a);
    if a != b {
      var y :| y in b - a;
      assert y in b - a;
    }
  }

  // ---------------------------------------------------------------------
  // Locating an instruction object (what an object address gives the C++ code)

  function FindIn(blk: Block, x: Id, i: nat): (r: Option<nat>)
    requires i <= |blk|
    ensures r.Some? ==> i <= r.value < |blk| && blk[r.value].id == x
    ensures r.None? ==> forall j | i <= j < |blk| :: blk[j].id != x
    decreases |blk| - i
  {
    if i == |blk| then None
    else if blk[i].id == x then Some(i)
    else FindIn(blk, x, i + 1)
  }

  function FindFrom(fn: Func, x: Id, b: nat): (r: Option<Pos>)
    requires b <= |fn|
    ensures r.Some? ==> b <= r.value.b && ValidPos(fn, r.value) && fn[r.value.b][r.value.i].id == x
    ensures r.None? ==> forall c, t | b <= c < |fn| && 0 <= t < |fn[c]| :: fn[c][t].id != x
    decreases |fn| - b
  {
    if b == |fn| then None
    else match FindIn(fn[b], x, 0)
      case Some(i) => Some(Pos(b, i))
      case None => FindFrom(fn, x, b + 1)
  }

  /** The position of instruction `x`, if it is in the function. */
  function Find(fn: Func, x: Id): (r: Option<Pos>)
    ensures r.Some? ==> ValidPos(fn, r.value) && fn[r.value.b][r.value.i].id == x
    ensures r.None? <==> !Has(fn, x)
  {
    IdsMember(fn, x);
    FindFrom(fn, x, 0)
  }

  lemma FindUnique(fn: Func, p: Pos)
    requires UniqueIds(fn) && ValidPos(fn, p)
    ensures Find(fn, fn[p.b][p.i].id) == Some(p)
  {
    UniquePositions(fn);
  }

  // ---------------------------------------------------------------------
  // The object-model operations

  /** `new I(..., insertBefore)`: put `x` just before the instruction at `p`. */
  function InsertAt(fn: Func, p: Pos, x: Inst): Func
    requires ValidPos(fn, p)
  {
    fn[p.b := fn[p.b][..p.i] + [x] + fn[p.b][p.i..]]
  }

  /** `eraseFromParent`: unlink the instruction at `p` from its block. */
  function EraseAt(fn: Func, p: Pos): Func
    requires ValidPos(fn, p)
  {
    fn[p.b := fn[p.b][..p.i] + fn[p.b][p.i + 1..]]
  }

  function ReplaceOperand(v: Value, from: Id, to: Id): Value {
    if v == Ref(from) then Ref(to) else v
  }

  /** `User::replaceUsesOfWith(from, to)` on one instruction: every operand
      naming `from` names `to` instead. */
  function ReplaceUses(x: Inst, from: Id, to: Id): Inst {
    x.(operands := seq(|x.operands|, j requires 0 <= j < |x.operands| => ReplaceOperand(x.operands[j], from, to)))
  }

  /** `replaceUsesOfWith` called on the instruction object `user` of `fn`. */
  function ReplaceUsesIn(fn: Func, user: Id, from: Id, to: Id): Func {
    seq(|fn|, c requires 0 <= c < |fn| =>
      seq(|fn[c]|, t requires 0 <= t < |fn[c]| =>
        if fn[c][t].id == user then ReplaceUses(fn[c][t], from, to) else fn[c][t]))
  }

  function UsersIn(blk: Block, v: Id): (r: seq<Id>)
    ensures forall t | 0 <= t < |blk| && Uses(blk[t], v) :: blk[t].id in r
  {
    if blk == [] then []
    else
      var init := blk[..|blk| - 1];
      assert forall t | 0 <= t < |init| :: init[t] == blk[t];
      UsersIn(init, v) + (if Uses(blk[|blk| - 1], v) then [blk[|blk| - 1].id] else [])
  }

  /** The use list of the result of `v`: the instructions naming it, block by
      block. */
  function UsersOf(fn: Func, v: Id): (r: seq<Id>)
    ensures forall c, t | 0 <= c < |fn| && 0 <= t < |fn[c]| && Uses(fn[c][t], v) :: fn[c][t].id in r
  {
    if fn == [] then []
    else
      var init := fn[..|fn| - 1];
      assert forall c | 0 <= c < |init| :: init[c] == fn[c];
      UsersOf(init, v) + UsersIn(fn[|fn| - 1], v)
  }

  /** Where each instruction of `InsertAt(fn, p, x)` comes from. */
  lemma InsertAtIndex(fn: Func, p: Pos, x: Inst)
    requires ValidPos(fn, p)
    ensures var r := InsertAt(fn, p, x);
      |r| == |fn| && |r[p.b]| == |fn[p.b]| + 1 &&
      (forall c | 0 <= c < |fn| && c != p.b :: r[c] == fn[c]) &&
      (forall t | 0 <= t < p.i :: r[p.b][t] == fn[p.b][t]) &&
      r[p.b][p.i] == x &&
      (forall t | p.i < t <= |fn[p.b]| :: r[p.b][t] == fn[p.b][t - 1])
  {
  }

  /** Where each instruction of `EraseAt(fn, p)` comes from. */
  lemma EraseAtIndex(fn: Func, p: Pos)
    requires ValidPos(fn, p)
    ensures var r := EraseAt(fn, p);
      |r| == |fn| && |r[p.b]| == |fn[p.b]| - 1 &&
      (forall c | 0 <= c < |fn| && c != p.b :: r[c] == fn[c]) &&
      (forall t | 0 <= t < p.i :: r[p.b][t] == fn[p.b][t]) &&
      (forall t | p.i <= t < |fn[p.b]| - 1 :: r[p.b][t] == fn[p.b][t + 1])
  {
  }

  /** The instruction of `InsertAt(fn, p, x)` at (c, t), other than `x`
      itself, is the one of `fn` at (c, InsertBack(p, c, t)). */
  function InsertBack(p: Pos, c: nat, t: nat): nat {
    if c == p.b && t > p.i then t - 1 else t
  }

  /** The instruction of `EraseAt(fn, p)` at (c, t) is the one of `fn` at
      (c, EraseBack(p, c, t)). */
  function EraseBack(p: Pos, c: nat, t: nat): nat {
    if c == p.b && t >= p.i then t + 1 else t
  }

  lemma InsertHas(fn: Func, p: Pos, x: Inst)
    requires ValidPos(fn, p)
    ensures Ids(InsertAt(fn, p, x)) == Ids(fn) + {x.id}
  {
    var r: Func := InsertAt(fn, p, x);
    InsertAtIndex(fn, p, x);
    forall y | y in Ids(fn) ensures y in Ids(r) {
      IdsMember(fn, y);
      var c, t :| 0 <= c < |fn| && 0 <= t < |fn[c]| && fn[c][t].id == y;
      if c == p.b && t >= p.i {
        IdsAt(r, c, t + 1);
      } else {
        IdsAt(r, c, t);
      }
    }
    IdsAt(r, p.b, p.i);
    forall y | y in Ids(r) ensures y in Ids(fn) + {x.id} {
      IdsMember(r, y);
      var c, t :| 0 <= c < |r| && 0 <= t < |r[c]| && r[c][t].id == y;
      if c != p.b || t != p.i {
        IdsAt(fn, c, InsertBack(p, c, t));
      }
    }
  }

  lemma InsertUnique(fn: Func, p: Pos, x: Inst)
    requires UniqueIds(fn) && ValidPos(fn, p) && x.id !in Ids(fn)
    ensures UniqueIds(InsertAt(fn, p, x)) && Ids(InsertAt(fn, p, x)) == Ids(fn) + {x.id}
  {
    InsertHas(fn, p, x);
    SizeUpdate(fn, p.b, InsertAt(fn, p, x)[p.b]);
  }

  /** The inserted instruction is the only one with its (fresh) identity. */
  lemma InsertedAlone(fn: Func, p: Pos, x: Inst)
    requires ValidPos(fn, p) && x.id !in Ids(fn)
    ensures var r := InsertAt(fn, p, x);
      forall c, t | 0 <= c < |r| && 0 <= t < |r[c]| && r[c][t].id == x.id :: c == p.b && t == p.i
  {
    var r: Func := InsertAt(fn, p, x);
    InsertAtIndex(fn, p, x);
    forall c, t | 0 <= c < |r| && 0 <= t < |r[c]| && r[c][t].id == x.id ensures c == p.b && t == p.i {
      IdsAt(fn, c, InsertBack(p, c, t));
    }
  }

  lemma InsertTerminated(fn: Func, p: Pos, x: Inst)
    requires Terminated(fn) && ValidPos(fn, p)
    ensures Terminated(InsertAt(fn, p, x))
  {
    var r: Func := InsertAt(fn, p, x);
    InsertAtIndex(fn, p, x);
    forall c | 0 <= c < |r| ensures |r[c]| > 0 && r[c][|r[c]| - 1].kind == Terminator {
      if c == p.b { assert r[c][|r[c]| - 1] == fn[c][|fn[c]| - 1]; }
    }
  }

  lemma InsertIds(fn: Func, p: Pos, x: Inst, n: nat)
    requires IdsBelow(fn, n) && NoSelfUse(fn) && ValidPos(fn, p)
    requires x.id == n && !Uses(x, n)
    ensures IdsBelow(InsertAt(fn, p, x), n + 1) && NoSelfUse(InsertAt(fn, p, x))
  {
    var r: Func := InsertAt(fn, p, x);
    InsertAtIndex(fn, p, x);
    InsertHas(fn, p, x);
    forall c, t | 0 <= c < |r| && 0 <= t < |r[c]| && r[c][t].kind.Call? ensures !Uses(r[c][t], r[c][t].id) {
      if c != p.b || t != p.i {
        assert r[c][t] == fn[c][InsertBack(p, c, t)];
      }
    }
  }

  lemma InsertClosed(fn: Func, p: Pos, x: Inst)
    requires Closed(fn) && ValidPos(fn, p)
    requires forall v | v in x.operands && v.Ref? :: Has(fn, v.id)
    ensures Closed(InsertAt(fn, p, x))
  {
    var r: Func := InsertAt(fn, p, x);
    InsertAtIndex(fn, p, x);
    InsertHas(fn, p, x);
    forall c, t, v | 0 <= c < |r| && 0 <= t < |r[c]| && v in r[c][t].operands && v.Ref? ensures Has(r, v.id) {
      if c != p.b || t != p.i {
        assert r[c][t] == fn[c][InsertBack(p, c, t)];
      }
    }
  }

  /** Erasing keeps every other identity and adds none. */
  lemma EraseIdsBounds(fn: Func, p: Pos)
    requires ValidPos(fn, p)
    ensures Ids(fn) - {fn[p.b][p.i].id} <= Ids(EraseAt(fn, p)) <= Ids(fn)
  {
    var r: Func := EraseAt(fn, p);
    EraseAtIndex(fn, p);
    forall y | y in Ids(fn) - {fn[p.b][p.i].id} ensures y in Ids(r) {
      IdsMember(fn, y);
      var c, t :| 0 <= c < |fn| && 0 <= t < |fn[c]| && fn[c][t].id == y;
      if c == p.b && t > p.i {
        IdsAt(r, c, t - 1);
      } else {
        IdsAt(r, c, t);
      }
    }
    forall y | y in Ids(r) ensures y in Ids(fn) {
      IdsMember(r, y);
      var c, t :| 0 <= c < |r| && 0 <= t < |r[c]| && r[c][t].id == y;
      assert fn[c][EraseBack(p, c, t)] == r[c][t];
      IdsAt(fn, c, EraseBack(p, c, t));
    }
  }

  /** Two positions holding the same identity leave fewer identities than
      instructions. */
  lemma DuplicateShrinks(fn: Func, c: nat, t: nat, c': nat, t': nat)
    requires c < |fn| && t < |fn[c]| && c' < |fn| && t' < |fn[c']|
    requires fn[c][t].id == fn[c'][t'].id
    ensures (c != c' || t != t') ==> |Ids(fn)| < Size(fn)
  {
    if c != c' || t != t' {
      var r: Func := EraseAt(fn, Pos(c, t));
      EraseIdsBounds(fn, Pos(c, t));
      EraseAtIndex(fn, Pos(c, t));
      var u := if c' == c && t' > t then t' - 1 else t';
      assert r[c'][u] == fn[c'][t'];
      IdsAt(r, c', u);
      SubsetCard(Ids(fn), Ids(r));
      IdsCard(r);
      SizeUpdate(fn, c, r[c]);
    }
  }

  /** With unique identities, an identity names at most one position. */
  lemma UniquePositions(fn: Func)
    requires UniqueIds(fn)
    ensures forall c, t, c', t' |
      0 <= c < |fn| && 0 <= t < |fn[c]| && 0 <= c' < |fn| && 0 <= t' < |fn[c']| &&
      fn[c][t].id == fn[c'][t'].id
      :: c == c' && t == t'
  {
    forall c, t, c', t' |
      0 <= c < |fn| && 0 <= t < |fn[c]| && 0 <= c' < |fn| && 0 <= t' < |fn[c']| &&
      fn[c][t].id == fn[c'][t'].id
      ensures c == c' && t == t'
    {
      DuplicateShrinks(fn, c, t, c', t');
    }
  }

  lemma EraseHas(fn: Func, p: Pos)
    requires ValidPos(fn, p) && UniqueIds(fn)
    ensures Ids(EraseAt(fn, p)) == Ids(fn) - {fn[p.b][p.i].id}
  {
    var r: Func := EraseAt(fn, p);
    var gone := fn[p.b][p.i].id;
    EraseIdsBounds(fn, p);
    IdsAt(fn, p.b, p.i);
    IdsCard(r);
    SizeUpdate(fn, p.b, r[p.b]);
    SubsetCard(Ids(fn) - {gone}, Ids(r));
  }

  lemma EraseUnique(fn: Func, p: Pos)
    requires UniqueIds(fn) && ValidPos(fn, p)
    ensures UniqueIds(EraseAt(fn, p))
  {
    EraseHas(fn, p);
    IdsAt(fn, p.b, p.i);
    SizeUpdate(fn, p.b, EraseAt(fn, p)[p.b]);
  }

  lemma EraseTerminated(fn: Func, p: Pos)
    requires Terminated(fn) && ValidPos(fn, p) && p.i + 1 < |fn[p.b]|
    ensures Terminated(EraseAt(fn, p))
  {
    var r: Func := EraseAt(fn, p);
    EraseAtIndex(fn, p);
    forall c | 0 <= c < |r| ensures |r[c]| > 0 && r[c][|r[c]| - 1].kind == Terminator {
      if c == p.b { assert r[c][|r[c]| - 1] == fn[c][|fn[c]| - 1]; }
    }
  }

  lemma EraseFresh(fn: Func, p: Pos, n: nat)
    requires IdsBelow(fn, n) && NoSelfUse(fn) && ValidPos(fn, p)
    ensures IdsBelow(EraseAt(fn, p), n) && NoSelfUse(EraseAt(fn, p))
  {
    var r: Func := EraseAt(fn, p);
    EraseAtIndex(fn, p);
    EraseIdsBounds(fn, p);
    forall c, t | 0 <= c < |r| && 0 <= t < |r[c]| && r[c][t].kind.Call? ensures !Uses(r[c][t], r[c][t].id) {
      assert r[c][t] == fn[c][EraseBack(p, c, t)];
    }
  }

  /** Erasing keeps a value unused. */
  lemma EraseUnused(fn: Func, p: Pos, v: Id)
    requires ValidPos(fn, p)
    requires forall c, t | 0 <= c < |fn| && 0 <= t < |fn[c]| :: !Uses(fn[c][t], v)
    ensures var r := EraseAt(fn, p);
      forall c, t | 0 <= c < |r| && 0 <= t < |r[c]| :: !Uses(r[c][t], v)
  {
    var r: Func := EraseAt(fn, p);
    EraseAtIndex(fn, p);
    forall c, t | 0 <= c < |r| && 0 <= t < |r[c]| ensures !Uses(r[c][t], v) {
      assert r[c][t] == fn[c][EraseBack(p, c, t)];
    }
  }

  lemma EraseClosed(fn: Func, p: Pos)
    requires Closed(fn) && UniqueIds(fn) && ValidPos(fn, p)
    requires forall c, t | 0 <= c < |fn| && 0 <= t < |fn[c]| :: !Uses(fn[c][t], fn[p.b][p.i].id)
    ensures Closed(EraseAt(fn, p))
  {
    var r: Func := EraseAt(fn, p);
    EraseAtIndex(fn, p);
    EraseHas(fn, p);
    forall c, t, v | 0 <= c < |r| && 0 <= t < |r[c]| && v in r[c][t].operands && v.Ref? ensures Has(r, v.id) {
      var u := EraseBack(p, c, t);
      assert r[c][t] == fn[c][u];
      assert v.id != fn[p.b][p.i].id by { assert !Uses(fn[c][u], fn[p.b][p.i].id); }
    }
  }
}
