/**
 Whole runs of pmm_alloc_frame and pmm_free_frame after initialisation.
 */
module FrameRuns {
  import opened Words
  import opened Frames

  datatype Op = Alloc | Free(frame: nat)

  /** Frames in use, and the frames handed out and not yet freed, counted with multiplicity. */
  datatype State = State(used: set<nat>, owned: multiset<nat>)

  ghost function Step(s: State, total: nat, op: Op): State {
    match op
    case Alloc =>
      var f := LowestFree(s.used, total);
      if f < total then State(s.used + {f}, s.owned + multiset{f}) else s
    case Free(f) =>
      if f < total then State(s.used - {f}, s.owned - multiset{f}) else s
  }

  /** Callers free only frames they were given. */
  ghost predicate Allowed(s: State, op: Op) {
    op.Free? ==> op.frame in s.owned
  }

  ghost function Run(s: State, total: nat, ops: seq<Op>): State
    decreases |ops|
  {
    if ops == [] then s else Run(Step(s, total, ops[0]), total, ops[1..])
  }

  ghost predicate RunAllowed(s: State, total: nat, ops: seq<Op>)
    decreases |ops|
  {
    ops == [] || (Allowed(s, ops[0]) && RunAllowed(Step(s, total, ops[0]), total, ops[1..]))
  }

  /**
   Handed-out frames are pairwise distinct, below the frame count and outside the
   reserved set; what is in use is exactly what is reserved or handed out.
   */
  ghost predicate Inv(s: State, total: nat, reserved: set<nat>) {
    && (forall f :: f in s.owned ==> s.owned[f] == 1 && f < total && f !in reserved)
    && (forall f :: f in s.used <==> f in reserved || f in s.owned)
  }

  lemma StepKeeps(s: State, total: nat, reserved: set<nat>, op: Op)
    requires Inv(s, total, reserved) && Allowed(s, op)
    ensures Inv(Step(s, total, op), total, reserved)
  {
  }

  lemma {:induction false} RunKeeps(s: State, total: nat, reserved: set<nat>, ops: seq<Op>)
    requires Inv(s, total, reserved) && RunAllowed(s, total, ops)
    ensures Inv(Run(s, total, ops), total, reserved)
    decreases |ops|
  {
    if ops != [] {
      StepKeeps(s, total, reserved, ops[0]);
      RunKeeps(Step(s, total, ops[0]), total, reserved, ops[1..]);
    }
  }

  /**
   After any allowed run from a state in which only `reserved` is in use, the next
   allocation returns address 0 exactly when every frame is in use, and otherwise
   the lowest frame that is neither reserved nor handed out.
   */
  lemma NextAllocation(total: nat, reserved: set<nat>, ops: seq<Op>)
    requires 0 in reserved
    requires RunAllowed(State(reserved, multiset{}), total, ops)
    ensures var s := Run(State(reserved, multiset{}), total, ops);
            var f := LowestFree(s.used, total);
            var phys := if f < total then f * PAGE_SIZE else 0;
            && (phys == 0 <==> forall g :: 0 <= g < total ==> g in reserved || g in s.owned)
            && (phys != 0 ==>
                  && f !in reserved && f !in s.owned
                  && forall g :: 0 <= g < f ==> g in reserved || g in s.owned)
  {
    RunKeeps(State(reserved, multiset{}), total, reserved, ops);
  }
}
