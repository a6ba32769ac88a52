// The plan of a global sync (planWritableMounts in src/runtime_persist.zig):
// every writable mount is covered by one backend or the sync does no I/O.
module MountPlan {
  datatype MountKind = RamFs | TmpFs | ZigosPersist | BootFat | ProcFs | DevFs | NetFs

  datatype MountEntry = MountEntry(used: bool, readonly: bool, kind: MountKind, id: nat)

  datatype PlanResult =
    | PlanNotConfigured
    | PlanUnsupported
    | Plan(writableMounts: nat, immediateMounts: nat, durableMountId: nat)

  predicate Active(e: MountEntry) {
    e.used && !e.readonly
  }

  predicate Immediate(e: MountEntry) {
    Active(e) && (e.kind.RamFs? || e.kind.TmpFs?)
  }

  predicate Durable(e: MountEntry) {
    Active(e) && e.kind.ZigosPersist?
  }

  function Writable(mounts: seq<MountEntry>, n: nat): nat
    requires n <= |mounts|
  {
    if n == 0 then 0 else Writable(mounts, n - 1) + if Active(mounts[n - 1]) then 1 else 0
  }

  /** Every active mount among the first `n` has a backend, and at most one of
      them is the store's own. */
  ghost predicate CoveredUpTo(mounts: seq<MountEntry>, n: nat, mounted: bool, mountId: nat)
    requires n <= |mounts|
  {
    && (forall i :: 0 <= i < n && Active(mounts[i]) ==>
          Immediate(mounts[i]) || (Durable(mounts[i]) && mounted && mountId != 0 && mounts[i].id == mountId))
    && (forall i, j :: 0 <= i < j < n ==> !(Durable(mounts[i]) && Durable(mounts[j])))
  }

  /** And a configured store is mounted writable somewhere. */
  ghost predicate Coverable(mounts: seq<MountEntry>, mounted: bool, mountId: nat) {
    && CoveredUpTo(mounts, |mounts|, mounted, mountId)
    && (mounted ==> exists i :: 0 <= i < |mounts| && Durable(mounts[i]))
  }

  /** What each kind of mount does to a sync, alone in the table. */
  lemma OneMount(e: MountEntry, mounted: bool, mountId: nat)
    ensures Coverable([e], mounted, mountId)
            <==> if !e.used || e.readonly then !mounted
                 else match e.kind
                      case RamFs => !mounted
                      case TmpFs => !mounted
                      case ZigosPersist => mounted && mountId != 0 && e.id == mountId
                      case BootFat => false
                      case ProcFs => false
                      case DevFs => false
                      case NetFs => false
  {
    assert [e][0] == e;
  }

  /** A plan is made exactly for the mount tables it covers completely, and it
      then counts every writable mount once, as immediate or as the durable
      one. */
  method PlanWritableMounts(mounts: seq<MountEntry>, mounted: bool, mountId: nat) returns (r: PlanResult)
    ensures r.Plan? <==> Coverable(mounts, mounted, mountId)
    ensures r.Plan? ==>
              r.writableMounts == Writable(mounts, |mounts|)
              && r.writableMounts == r.immediateMounts + if r.durableMountId != 0 then 1 else 0
    ensures r.Plan? ==> (r.durableMountId != 0 <==> mounted)
    ensures r.Plan? && mounted ==> r.durableMountId == mountId
  {
    var writableMounts: nat, immediateMounts: nat, durableMountId: nat := 0, 0, 0;
    for n := 0 to |mounts|
      invariant CoveredUpTo(mounts, n, mounted, mountId)
      invariant writableMounts == Writable(mounts, n)
      invariant writableMounts == immediateMounts + if durableMountId != 0 then 1 else 0
      invariant durableMountId != 0 <==> exists i :: 0 <= i < n && Durable(mounts[i])
      invariant durableMountId != 0 ==> mounted && durableMountId == mountId
    {
      var entry := mounts[n];
      if !entry.used || entry.readonly {
        continue;
      }
      writableMounts := writableMounts + 1;
      match entry.kind {
        case RamFs => immediateMounts := immediateMounts + 1;
        case TmpFs => immediateMounts := immediateMounts + 1;
        case ZigosPersist =>
          if !mounted || mountId == 0 || entry.id != mountId || durableMountId != 0 {
            assert Active(mounts[n]) && !Immediate(mounts[n]) && Durable(mounts[n]);
            return PlanNotConfigured;
          }
          durableMountId := entry.id;
        case _ =>
          assert Active(mounts[n]) && !Immediate(mounts[n]) && !Durable(mounts[n]);
          return PlanUnsupported;
      }
    }
    if mounted && durableMountId == 0 {
      return PlanNotConfigured;
    }
    return Plan(writableMounts, immediateMounts, durableMountId);
  }
}
