# Fault-injection pass, modelled in Dafny

`InjectFaultProc.cpp` is an LLVM module pass (`injectfault`). It finds every
call whose callee name starts with `__faultinject_selected_target`. At each
such call it plants a one-bit corruption of the call's first argument:

- a 32-bit stack slot (`xor_marker`) at the front of the entry block;
- a store of a mask `1 << k` into that slot, where the bit position `k` is
  drawn from 0..31;
- after the call, a load of the slot, the XOR of the call's operand 0 with
  the loaded value, and a store of 0 back into the slot.

Every user of the call is then rewired to the XOR, and the call is erased.
For each function, the pass takes a snapshot of the marked calls before it
changes anything, then rewrites them in that order.

The project models this on an abstract IR:

- A function is a sequence of blocks. A block is a sequence of instructions.
- An instruction has an identity (the address of the object), a kind and operands.
- An operand refers to an instruction's result, a constant, or a symbol such
  as an argument or a function.

The files follow the structure of the program:

- `ir.dfy` (`IR`): the IR and the object-model edits the pass calls, with
  their effect on well-formedness.
  - `InsertAt` is insert-before.
  - `ReplaceUsesIn` is `replaceUsesOfWith`.
  - `EraseAt` is `eraseFromParent`.
  - `UsersOf` is the use list.
- `mask.dfy` (`BitMask`): the mask `1ULL << k`, narrowed to `unsigned int`.
- `selection.dfy` (`Selection`): the marker test and the snapshot scan.
  - `Targets` is the snapshot as a function.
  - `SelectTargets` is the nested loop of `runOnModule`.
- `injection.dfy` (`Injection`): the rewrite of one call (`insertInjectFault`),
  stage by stage in the order the source performs it. `InjectSite` gives the
  result. The closed form and the preserved invariants are proved about it.
- `pass.dfy` (`Pass`): the pass as functions.
  - `SiteOf` is one call of the snapshot.
  - `Steps` is the loop over a snapshot.
  - `RunOnFunction` is the body of the loop over functions.
  - `RunSpec` is the whole module.
- `machine.dfy` (`Machine`): the pass as the source runs it. It is a class
  `Module` whose `functions` and `nextId` fields the methods update in place:
  `InsertInjectFault`, the user-rewiring loops, the loop over a snapshot and
  `RunOnModule`. Each method is proved against the functions of `Injection`
  and `Pass`.

Each new instruction object takes the next identity from `nextId`. A site
therefore uses five consecutive identities `n .. n+4`, in the order the
source creates them:

1. the slot;
2. the mask store;
3. the reset store;
4. the load;
5. the XOR.

The functions the pass meets are assumed well formed below `nextId`:

- every block ends in its terminator;
- identities are distinct and below `nextId`;
- no call names its own result;
- every instruction result an operand names exists.

Other instructions may name their own result: a phi node may, and so may
any instruction in an unreachable block. The first, second and fourth
conditions hold for any module LLVM's verifier accepts, once `nextId` is
above every identity in use. They are what makes `CI->getNextNode()` and
`begin()` defined. The verifier does not guarantee the third condition: it
accepts a call that names itself in an unreachable block (see "## Left
out"). `IR.SelfPhiWellFormed` shows a block whose phi node names itself
that is well formed. The proofs show that one rewrite keeps all four
conditions, so the whole pass keeps them.

The code places the new instructions after the call in this textual order:

1. the load (inserted before the reset);
2. the XOR (inserted before the load's next node, which is the reset);
3. the reset.

So the load reads the mask before the reset clears it
(`Injection.SiteBody`, `Injection.InjectSiteShape`).

## Model

| member | source | states |
|---|---|---|
| BitMask.Mask | InjectFaultProc.cpp:43-46 | `1ULL << k` narrowed to `unsigned int` is exactly 2^k and lies between 1 and 2^31, so nothing is lost in the 64-bit shift or in the narrowing |
| BitMask.MaskOneBit | InjectFaultProc.cpp:45-46 | the mask has bit `k` set and no other bit, so exactly one bit is set |
| Selection.SelectTargets | InjectFaultProc.cpp:88-93 | the nested loop over blocks and instructions returns exactly the snapshot `Targets(fn)` |
| Selection.TargetsMember | InjectFaultProc.cpp:89-93 | an identity is in the snapshot if and only if it is a call of the function whose callee name starts with the marker prefix |
| Selection.TargetsForwardOrder | InjectFaultProc.cpp:89-93 | of two marked calls, the one met first in block order, then instruction order, comes first in the snapshot |
| Selection.InsertKeepsTargets | InjectFaultProc.cpp:49-59 | inserting an instruction that is not a marked call leaves the snapshot unchanged |
| Selection.EraseFirstTarget | InjectFaultProc.cpp:74 | erasing the call the snapshot names first removes exactly that entry and keeps the others in order |
| Injection.InjectSiteShape | InjectFaultProc.cpp:49-74 | after one rewrite, every block is its prologue (the slot and mask store for the entry block, nothing otherwise) followed by the former block, rewired and in the same order; in the call's block the call's place holds the load, the XOR and the reset |
| Injection.EntryPrefix | InjectFaultProc.cpp:49-53 | the entry block starts with the slot and the store of the mask, followed by the instructions that led it before |
| Injection.InjectSiteWellFormed | InjectFaultProc.cpp:42-75 | one rewrite keeps the function well formed below `n+5`, adds four instructions net, removes the call's identity and adds the five new ones |
| Injection.InjectSiteRemovesCall | InjectFaultProc.cpp:61-74 | after one rewrite the call is gone and no instruction names it |
| Injection.InjectSiteKeeps | InjectFaultProc.cpp:74 | of the identities below `n`, one rewrite removes exactly the call |
| Injection.InjectSiteTargets | InjectFaultProc.cpp:49-74 | rewriting the call the snapshot names first takes exactly that call off the marked calls |
| Injection.RewireSomeStep | InjectFaultProc.cpp:68-72 | each `replaceUsesOfWith` takes the rewiring one user further, and a user met twice is rewired once |
| Injection.RewireSomeAll | InjectFaultProc.cpp:61-72 | once every user other than the call and the XOR has been rewired, the result equals the complete rewiring, whatever the order of the users |
| Pass.SnapshotSite | InjectFaultProc.cpp:91-95 | every call of the snapshot is found in the function and can be rewritten: it has a next instruction and an operand 0 |
| Pass.FirstSiteReady | InjectFaultProc.cpp:94-95 | rewriting the next call of the snapshot keeps the function well formed, leaves the rest of the snapshot still marked and in order, and adds four instructions |
| Pass.StepsReady | InjectFaultProc.cpp:94-95 | after `j` calls of the snapshot: well formed below `n + 5j`, the marked calls are the snapshot without its first `j` entries, and `4j` instructions more |
| Pass.StepsKeeps | InjectFaultProc.cpp:94-95 | of the identities in use before the loop, exactly the rewritten calls are gone after it |
| Pass.StepsSnoc | InjectFaultProc.cpp:94-95 | the loop one call further is the rewrite of snapshot entry `j` applied to the function as the first `j` rewrites left it |
| Pass.StepsEntry | InjectFaultProc.cpp:49-53 | after the loop the entry block starts with one slot and mask store per site, the site rewritten last first, ahead of the former entry instructions |
| Pass.SlotPairsAt | InjectFaultProc.cpp:49-53 | the slot and mask store of the site rewritten `j`-th are preceded by the pairs of the sites rewritten after it, one pair each, so the pairs lie in reverse order of rewriting |
| Pass.RunOnFunctionReady | InjectFaultProc.cpp:88-95 | after the loop over a function's snapshot, the function is well formed, no marked call is left and there are 4 instructions more per site; a function without marked calls is unchanged; of the former identities, exactly the marked calls are gone |
| Pass.RunOnFunctionUnused | InjectFaultProc.cpp:61-74 | after the loop no instruction names any call of the snapshot |
| Pass.RunOnFunctionEntry | InjectFaultProc.cpp:49-53 | after the loop the entry block starts with the slot and mask store of every site, in reverse order of rewriting |
| Pass.RunSpecAt | InjectFaultProc.cpp:86-96 | function `f` after the pass is its own loop over its snapshot, with the fresh identities following those the earlier functions took |
| Machine.Module.InsertBefore | InjectFaultProc.cpp:49-59 | `new I(..., insertBefore)` links the instruction just before the given one and changes nothing else |
| Machine.Module.ReplaceUsesOfWith | InjectFaultProc.cpp:71 | `replaceUsesOfWith` replaces the uses in that one user and changes nothing else |
| Machine.Module.EraseFromParent | InjectFaultProc.cpp:74 | `eraseFromParent` unlinks the instruction and changes nothing else |
| Machine.Module.AddMaskSlot | InjectFaultProc.cpp:46-53 | the slot goes before the first entry instruction, then the mask store before the instruction after the slot; the two take the next two identities |
| Machine.Module.AddFaultChain | InjectFaultProc.cpp:55-59 | the reset goes before the call's next node, the load before the reset, and the XOR before the load's next node; they take the next three identities |
| Machine.Module.RewireUsers | InjectFaultProc.cpp:61-72 | the two loops over the users of the call rewire every user except the call and the XOR to the XOR |
| Machine.Module.InsertInjectFault | InjectFaultProc.cpp:42-75 | the function becomes the one-site rewrite of the call for the drawn bit `k`, five identities are used, and every function stays well formed |
| Machine.Module.InjectSnapshot | InjectFaultProc.cpp:94-95 | the loop over the snapshot leaves the function as `RunOnFunction` with the drawn bits, using five identities per call |
| Machine.Module.RunOnModule | InjectFaultProc.cpp:85-97 | the loop over the functions leaves the module as `RunSpec` of the old functions with the drawn bits, using five identities per marked call, and the module stays well formed |

## Left out

- Random numbers: `std::random_device` and the freshly seeded `mt19937` are
  not modelled. `InsertInjectFault` picks the bit position
  nondeterministically and returns it, and `RunOnModule` returns every
  position it drew. The model says nothing about their distribution.
- LLVM types, the data layout's address space and the names of the new
  values are not modelled. The XOR is not checked to combine two `i32`
  values.
- Indirect calls: `getCalledFunction()` is null for an indirect call, and
  the source calls `getName()` on it without a check. The model treats an
  indirect call as not marked (`Selection.IsTarget`).
- `runOnModule` is declared to return `bool` but has no `return`
  statement. The model does not give it a result.
- Pass registration (`RegisterPass`, the pass `ID`) is not part of this
  model.
- Use-list order: `UsersOf` lists the users block by block. LLVM's use-list
  order may differ. `Injection.RewireSomeAll` shows that the result is the
  same for any list that holds every user.
- Instruction objects: `InsertInjectFault` finds the call's position once
  (`Find`). It derives the positions of `begin()`, `++begin()`,
  `getNextNode()` and the new instructions from that position and from
  where it inserted them. Aliasing between instruction objects is not
  modelled: instructions are values named by their identity.
- A marked call without arguments: its operand 0 is the callee, and the
  model uses the callee's symbol.
- Run-time behaviour of the rewritten code is not modelled, only the IR.
  This includes what the XOR computes and that the reset makes later
  executions of the same site in one activation read 0.
- Pass.StepsKeeps: states which of the identities in use before the loop
  survive it, not which of the fresh identities are in use after several
  sites. `Injection.InjectSiteWellFormed` states the latter for one site.
- A call that names its own result, which LLVM's verifier admits only in an
  unreachable block, is outside the model: `WellFormed` excludes it. If such
  a call were marked, the XOR would take it as operand 0. The XOR is
  skipped when the users are rewired, so it would still name the call after
  `eraseFromParent`.
- Declarations, which have no blocks, are left as they are. The model does
  not check that a defined function is well formed beyond the assumptions
  stated above.
