// One boot of the store: a mount and the sync calls served after it, whatever
// the device does, as one run of the step machine.
module JournalSession {
  import opened Bytes
  import opened JournalFormat
  import opened JournalDisk
  import opened JournalRecords
  import opened JournalRuns
  import opened JournalDurability
  import opened JournalStore
  import opened FileSync
  import opened MountPlan
  import opened TreeWalk

  datatype Request =
    | Global(mounts: seq<MountEntry>, mountId: nat, view: View)
    | OneFile(target: Name, live: Inode, includeMetadata: bool)

  datatype Response = GlobalDone(all: GlobalResult) | FileDone(one: SyncResult)

  ghost predicate ValidRequest(q: Request) {
    q.Global? ==> ValidView(q.view)
  }

  /** The calls that report durable success. */
  predicate Acked(r: Response) {
    r == GlobalDone(AllSynced(true)) || r == FileDone(Synced)
  }

  /** The snapshot of a tree. */
  ghost predicate SnapshotOf(s: Snapshot, v: View) {
    WalkOf(v).Walking? && s.payload == PayloadBytes(WalkOf(v).records) && s.count == |WalkOf(v).records|
  }

  /** Step `e` of the run acknowledges a commit of what `q` asked for. */
  ghost predicate Acknowledged(q: Request, run: seq<Sys>, e: nat) {
    && 0 < e < |run| && run[e - 1].phase.HeaderWritten? && run[e].phase.Ready?
    && var old_, new_ := run[e - 1].phase.mem.snap, run[e - 1].phase.next;
       match q
       case Global(_, _, view) => SnapshotOf(new_, view)
       case OneFile(target, live, includeMetadata) => SyncedWith(old_, new_, target, live, includeMetadata)
  }

  /** What an undamaged store answers to a call in which no device operation
      fails, and the memory it then holds. */
  datatype Answer = Answer(response: Response, mem: Memory)

  ghost function AnswerTo(mem: Memory, mounted: bool, q: Request): Answer {
    match q
    case Global(mounts, mountId, view) =>
      if !Coverable(mounts, mounted, mountId) then Answer(GlobalDone(PlanRejected), mem)
      else if !mounted then Answer(GlobalDone(AllSynced(false)), mem)
      else if WalkOf(view).WalkFailed? then Answer(GlobalDone(TreeRejected), mem)
      else if mem.snap.generation == 0xFFFF_FFFF_FFFF_FFFF then Answer(GlobalDone(GlobalFailed(NoSpace)), mem)
      else
        var rs := WalkOf(view).records;
        Answer(GlobalDone(AllSynced(true)), Memory(Other(mem.active), NextSnapshot(mem, PayloadBytes(rs), |rs|)))
    case OneFile(target, live, includeMetadata) =>
      if !mounted then Answer(FileDone(SyncNotConfigured), mem)
      else
        var refused := FileSyncRefuses(mem.snap, target, live, includeMetadata);
        if refused.Some? then Answer(FileDone(SyncFailed(refused.value)), mem)
        else if mem.snap.generation == 0xFFFF_FFFF_FFFF_FFFF then Answer(FileDone(SyncNoSpace), mem)
        else
          var rs := FileSyncOf(mem.snap.payload, mem.snap.count, target, live, includeMetadata).records;
          Answer(FileDone(Synced), Memory(Other(mem.active), NextSnapshot(mem, PayloadBytes(rs), |rs|)))
  }

  /** The answers to a list of calls. */
  ghost function Answers(mem: Memory, mounted: bool, requests: seq<Request>): seq<Answer> {
    if requests == [] then []
    else
      var before := Answers(mem, mounted, requests[..|requests| - 1]);
      before + [AnswerTo(if before == [] then mem else before[|before| - 1].mem, mounted, requests[|requests| - 1])]
  }

  /** The machine state a store is in. */
  ghost predicate InStep(store: Store, s: Sys)
    requires store.Valid()
    reads store, store.payload, store.device
  {
    && s.media == store.device.Contents()
    && if !store.mounted then s.phase.Off? && !store.damaged
       else if store.damaged then s.phase.Damaged? && s.phase.mem == store.InMemory()
       else s.phase == Ready(store.InMemory())
  }

  /** A run continued by the steps of a commit. */
  lemma Join(run: seq<Sys>, steps: seq<Sys>, mem: Memory, new_: Snapshot, bs: BlockSize) returns (after: seq<Sys>)
    requires IsRun(run, bs) && Segment(steps, mem, new_, bs) && steps[0] == Last(run)
    ensures IsRun(after, bs) && run <= after && after == run + steps[1..] && Last(after) == Last(steps)
    ensures 2 <= |steps| ==> |run| < |after| && after[|after| - 2] == steps[|steps| - 2]
  {
    hide Next, Init, OfCommit;
    after := run + steps[1..];
    forall i | 0 <= i < |after| - 1
      ensures Next(after[i], after[i + 1], bs)
    {
      if i < |run| - 1 {
        assert Next(run[i], run[i + 1], bs);
      } else {
        var k := i - (|run| - 1);
        assert Next(steps[k], steps[k + 1], bs);
      }
    }
  }

  /** A run continued by a commit, and what its last state says. */
  lemma JoinCommit(run: seq<Sys>, steps: seq<Sys>, payload: seq<byte>, count: nat, r: CommitResult, media: Media, mem: Memory,
                   damaged: bool, bs: BlockSize)
    returns (after: seq<Sys>)
    requires IsRun(run, bs) && 0 < |run| && CommitLeft(steps, Last(run), payload, count, r, media, mem, damaged, bs)
    ensures IsRun(after, bs) && 0 < |after| && run <= after && Last(after).media == media
    ensures if damaged then Last(after).phase.Damaged? && Last(after).phase.mem == mem else Last(after).phase == Ready(mem)
    ensures r == Committed ==> Published(after, payload, count) && after[|after| - 2].phase.mem == Last(run).phase.mem
  {
    hide IsRun, Segment;
    var old_ := Last(run).phase.mem;
    SegmentStarts(steps, old_, NextSnapshot(old_, payload, count), bs);
    after := Join(run, steps, old_, NextSnapshot(old_, payload, count), bs);
  }

  /** The run's last step reports the commit of a payload. */
  ghost predicate Published(run: seq<Sys>, payload: seq<byte>, count: nat) {
    && 2 <= |run| && run[|run| - 2].phase.HeaderWritten? && Last(run).phase.Ready?
    && run[|run| - 2].phase.next.payload == payload && run[|run| - 2].phase.next.count == count
  }

  method ServeGlobal(store: Store, mounts: seq<MountEntry>, mountId: nat, view: View, next: array<byte>, ghost run: seq<Sys>)
    returns (r: GlobalResult, ghost after: seq<Sys>)
    requires store.Valid() && store.payload != store.device as object
    requires ValidRequest(Global(mounts, mountId, view))
    requires next.Length == MAX_PAYLOAD && next != store.payload && next != store.device as object
    requires IsRun(run, store.device.bs) && 0 < |run| && InStep(store, Last(run))
    modifies store, store.payload, store.device, next
    ensures store.Valid() && IsRun(after, store.device.bs) && 0 < |after| && run <= after && InStep(store, Last(after))
    ensures store.mounted == old(store.mounted) && store.device.failures >= old(store.device.failures)
    ensures !old(store.damaged) && store.device.failures == old(store.device.failures) ==>
              !store.damaged && Answer(GlobalDone(r), store.InMemory()) == AnswerTo(old(store.InMemory()), store.mounted, Global(mounts, mountId, view))
    ensures r == AllSynced(true) ==> Acknowledged(Global(mounts, mountId, view), after, |after| - 1)
  {
    hide IsRun, Coverable, WalkOf, ValidView, PayloadBytes;
    after := run;
    ghost var steps: seq<Sys>;
    r, steps := store.Sync(mounts, mountId, view, next);
    if r == AllSynced(true) || r.GlobalFailed? {
      ghost var rs := WalkOf(view).records;
      after := JoinCommit(run, steps, PayloadBytes(rs), |rs|, if r.AllSynced? then Committed else r.result,
                          store.device.Contents(), store.InMemory(), store.damaged, store.device.bs);
    }
  }

  method ServeFile(store: Store, target: Name, live: Inode, includeMetadata: bool, next: array<byte>, ghost run: seq<Sys>)
    returns (r: SyncResult, ghost after: seq<Sys>)
    requires store.Valid() && store.payload != store.device as object
    requires next.Length == MAX_PAYLOAD && next != store.payload && next != store.device as object
    requires IsRun(run, store.device.bs) && 0 < |run| && InStep(store, Last(run))
    modifies store, store.payload, store.device, next
    ensures store.Valid() && IsRun(after, store.device.bs) && 0 < |after| && run <= after && InStep(store, Last(after))
    ensures store.mounted == old(store.mounted) && store.device.failures >= old(store.device.failures)
    ensures !old(store.damaged) && store.device.failures == old(store.device.failures) ==>
              !store.damaged && Answer(FileDone(r), store.InMemory()) == AnswerTo(old(store.InMemory()), store.mounted, OneFile(target, live, includeMetadata))
    ensures r == Synced ==> Acknowledged(OneFile(target, live, includeMetadata), after, |after| - 1)
  {
    hide IsRun, FileSyncOf, PayloadBytes;
    after := run;
    ghost var steps: seq<Sys>;
    ghost var old_ := store.InMemory();
    r, steps := store.SyncFile(target, live, includeMetadata, next);
    if r.Synced? || r.SyncIo? || r.SyncNoSpace? {
      ghost var rs := FileSyncOf(old_.snap.payload, old_.snap.count, target, live, includeMetadata).records;
      after := JoinCommit(run, steps, PayloadBytes(rs), |rs|, OutcomeOf(r),
                          store.device.Contents(), store.InMemory(), store.damaged, store.device.bs);
    }
  }

  method Serve(store: Store, q: Request, next: array<byte>, ghost run: seq<Sys>)
    returns (r: Response, ghost after: seq<Sys>, ghost end: nat)
    requires store.Valid() && store.payload != store.device as object && ValidRequest(q)
    requires next.Length == MAX_PAYLOAD && next != store.payload && next != store.device as object
    requires IsRun(run, store.device.bs) && 0 < |run| && InStep(store, Last(run))
    modifies store, store.payload, store.device, next
    ensures store.Valid() && IsRun(after, store.device.bs) && 0 < |after| && run <= after && InStep(store, Last(after))
    ensures store.mounted == old(store.mounted) && store.device.failures >= old(store.device.failures)
    ensures !old(store.damaged) && store.device.failures == old(store.device.failures) ==>
              !store.damaged && Answer(r, store.InMemory()) == AnswerTo(old(store.InMemory()), store.mounted, q)
    ensures Acked(r) ==> Acknowledged(q, after, end)
  {
    hide IsRun, ValidRequest, Acknowledged, InStep;
    match q {
      case Global(mounts, mountId, view) =>
        var all: GlobalResult;
        all, after := ServeGlobal(store, mounts, mountId, view, next, run);
        r := GlobalDone(all);
      case OneFile(target, live, includeMetadata) =>
        var one: SyncResult;
        one, after := ServeFile(store, target, live, includeMetadata, next, run);
        r := FileDone(one);
    }
    end := |after| - 1;
  }

  /** Every call that reported durable success has its acknowledging step. */
  ghost predicate AllAcknowledged(requests: seq<Request>, responses: seq<Response>, ends: seq<nat>, run: seq<Sys>) {
    && |responses| == |ends| <= |requests|
    && forall n :: 0 <= n < |ends| && Acked(responses[n]) ==> Acknowledged(requests[n], run, ends[n])
  }

  /** The memory a mount of the disk puts into the store. */
  ghost function FirstMemory(d: seq<Block>, bs: BlockSize): Memory
    requires IsDisk(d, bs)
  {
    match Recover(d, bs)
    case Unmountable => FRESH_MEMORY
    case Mounted(m) => m
  }

  /** The calls were answered as Answers says, and `last` is what the last
      answer left in a mounted store. */
  ghost predicate Answered(first: Memory, mounted: bool, requests: seq<Request>, responses: seq<Response>, last: Memory) {
    var answers := Answers(first, mounted, requests);
    && |responses| == |answers|
    && (forall k :: 0 <= k < |answers| ==> responses[k] == answers[k].response)
    && (mounted ==> last == if answers == [] then first else answers[|answers| - 1].mem)
  }

  lemma AnsweredOnce(first: Memory, mounted: bool, requests: seq<Request>, k: nat, responses: seq<Response>, last: Memory,
                     r: Response, now: Memory)
    requires k < |requests| && Answered(first, mounted, requests[..k], responses, last)
    requires Answer(r, now) == AnswerTo(last, mounted, requests[k])
    ensures Answered(first, mounted, requests[..k + 1], responses + [r], now)
  {
    assert requests[..k + 1][..k] == requests[..k] && requests[..k + 1][k] == requests[k];
    var before := Answers(first, mounted, requests[..k]);
    var mem := if before == [] then first else before[|before| - 1].mem;
    assert Answers(first, mounted, requests[..k + 1]) == before + [AnswerTo(mem, mounted, requests[k])];
    if !mounted {
      SameWhenUnmounted(mem, last, requests[k]);
    }
    hide AnswerTo;
  }

  lemma SameWhenUnmounted(a: Memory, b: Memory, q: Request)
    ensures AnswerTo(a, false, q).response == AnswerTo(b, false, q).response
  {
  }

  /** A boot: a fresh store mounts the device and serves the calls in order.
      Whatever fails, the states it goes through continue the run that led to
      the device, the store ends in step with it, and every call that reported
      durable success has its acknowledging step in it. When nothing fails, the
      mount answers for the disk alone, and every call as Answers says. */
  method Boot(device: Device, requests: seq<Request>, ghost before: seq<Sys>)
    returns (store: Store, responses: seq<Response>, ghost run: seq<Sys>, ghost ends: seq<nat>)
    requires device.Valid() && forall k :: 0 <= k < |requests| ==> ValidRequest(requests[k])
    requires IsRun(before, device.bs) && 0 < |before| && Last(before) == Sys(device.Contents(), Off)
    modifies device
    ensures store.device == device && store.Valid()
    ensures IsRun(run, device.bs) && 0 < |run| && before <= run && InStep(store, Last(run))
    ensures |responses| == |requests| && AllAcknowledged(requests, responses, ends, run)
    ensures device.failures >= old(device.failures)
    ensures device.failures == old(device.failures) ==>
              && IsDisk(old(device.now), device.bs)
              && (store.mounted <==> MountAnswer(old(device.now), device.bs) == MountOk)
              && !store.damaged && Answered(FirstMemory(old(device.now), device.bs), store.mounted, requests, responses, store.InMemory())
  {
    hide IsRun, ValidRequest, Acknowledged, Acked, MountStep, AllAcknowledged, AnswerTo, MountAnswer, Recover, Answered;
    store := new Store(device);
    var next := new byte[MAX_PAYLOAD](i => 0);
    run := before;
    responses, ends := [], [];
    ghost var first := FirstMemory(device.now, device.bs);
    var mounted := store.Mount();
    if mounted == MountOk {
      run := MountJoins(before, Sys(device.Contents(), Ready(store.InMemory())), device.bs);
    }
    NoneYet(requests, run);
    FirstAnswered(device.now, device.bs, store.mounted, requests, store.InMemory());
    hide InStep;
    for k := 0 to |requests|
      invariant store.device == device && fresh(store) && fresh(store.payload) && store.Valid()
      invariant IsRun(run, device.bs) && 0 < |run| && before <= run && InStep(store, Last(run))
      invariant |responses| == |ends| == k && AllAcknowledged(requests, responses, ends, run)
      invariant device.failures >= old(device.failures)
      invariant device.failures == old(device.failures) ==>
                  && (store.mounted <==> MountAnswer(old(device.now), device.bs) == MountOk)
                  && !store.damaged && Answered(first, store.mounted, requests[..k], responses, store.InMemory())
    {
      ghost var was, end, last := run, 0, store.InMemory();
      var r: Response;
      r, run, end := Serve(store, requests[k], next, run);
      OneMoreCall(requests, responses, ends, was, run, r, end);
      if device.failures == old(device.failures) {
        AnsweredOnce(first, store.mounted, requests, k, responses, last, r, store.InMemory());
      }
      responses, ends := responses + [r], ends + [end];
    }
    assert requests[..|requests|] == requests;
  }

  lemma FirstAnswered(d: seq<Block>, bs: BlockSize, mounted: bool, requests: seq<Request>, mem: Memory)
    requires IsDisk(d, bs) && (mounted ==> Recover(d, bs) == Mounted(mem))
    ensures Answered(FirstMemory(d, bs), mounted, requests[..0], [], mem)
  {
    hide Recover;
    assert requests[..0] == [];
  }

  lemma NoneYet(requests: seq<Request>, run: seq<Sys>)
    ensures AllAcknowledged(requests, [], [], run)
  {
  }

  lemma MountJoins(run: seq<Sys>, s: Sys, bs: BlockSize) returns (after: seq<Sys>)
    requires IsRun(run, bs) && MediaOk(Last(run).media, bs) && MountStep(Last(run), s, bs)
    ensures IsRun(after, bs) && after == run + [s]
  {
    hide Init, MountStep;
    after := run + [s];
    forall i | 0 <= i < |after| - 1
      ensures Next(after[i], after[i + 1], bs)
    {
      if i < |run| - 1 {
        assert Next(run[i], run[i + 1], bs);
      }
    }
  }

  lemma OneMoreCall(requests: seq<Request>, responses: seq<Response>, ends: seq<nat>, run: seq<Sys>, after: seq<Sys>,
                    r: Response, end: nat)
    requires AllAcknowledged(requests, responses, ends, run) && |ends| < |requests| && run <= after
    requires Acked(r) ==> Acknowledged(requests[|ends|], after, end)
    ensures AllAcknowledged(requests, responses + [r], ends + [end], after)
  {
    hide SyncedWith, SnapshotOf, Acked;
    forall n | 0 <= n < |ends| && Acked(responses[n])
      ensures Acknowledged(requests[n], after, ends[n])
    {
      assert Acknowledged(requests[n], run, ends[n]);
      assert forall j :: 0 <= j < |run| ==> after[j] == run[j];
    }
  }

  /** Cutting the power anywhere in such a run gives the run the next boot
      continues from. */
  lemma PowerCut(run: seq<Sys>, j: nat, image: seq<Block>, bs: BlockSize) returns (next: seq<Sys>)
    requires IsRun(run, bs) && j < |run| && CrashImage(run[j].media, image)
    ensures IsRun(next, bs) && 0 < |next| && run[..j + 1] <= next && Last(next) == Sys(Definite(image), Off)
  {
    hide Init;
    var s, t := run[j], Sys(Definite(image), Off);
    next := run[..j + 1] + [t];
    RunInvariant(run, bs, j);
    hide Inv;
    assert CrashStep(s, t, bs);
    forall i | 0 <= i < |next| - 1
      ensures Next(next[i], next[i + 1], bs)
    {
      if i < j {
        assert Next(run[i], run[i + 1], bs);
      }
    }
  }

  /** What every boot after it finds of an acknowledged call: cut the power at
      any later state, and the mount recovers that very commit or a newer
      one. */
  lemma AcknowledgedCallSurvives(q: Request, run: seq<Sys>, e: nat, j: nat, image: seq<Block>, bs: BlockSize)
    requires IsRun(run, bs) && Acknowledged(q, run, e) && e <= j < |run| && CrashImage(run[j].media, image)
    ensures IsDisk(image, bs) && Recover(image, bs).Mounted?
    ensures var snap, acked := Recover(image, bs).memory.snap, run[e - 1].phase.next;
            snap == acked || snap.generation > acked.generation
  {
    hide IsRun, SyncedWith, SnapshotOf, CrashImage, Recover, IsDisk;
    AcknowledgedSurvives(run, bs, e - 1, j, image);
  }
}
