/** One run of `lambda_handler` (ami-create/main.py:35-174) as a pure
    function from the configuration, what the account lists, and the
    clock reading to the run's decisions: for each tracked instance,
    its sorted history, whether an image is requested and under which
    name, whether the alert goes out, and which images are deregistered;
    and, for each snapshot, whether it is deleted.

    The boto3 calls are not made here: `describe_instances`,
    `images.filter` and `describe_snapshots` become the `Account` input,
    and `create_image`, `deregister_image`, `Snapshot.delete` and
    `update_sns` become fields of the returned plan. A `ClientError` from
    any of these calls only logs, so it changes nothing the plan records. */
module Handler {
  import opened Options
  import opened Text
  import opened Clock
  import opened Sorting
  import opened AmiHistory
  import opened Retention
  import opened Inventory
  import opened Schedule
  import opened Snapshots

  /** The environment settings: `INSTANCE_PREFIXES`,
      `AMI_RETENTION_COUNT` (already converted by `int`), `AMI_INTERVAL`. */
  datatype Config = Config(namePrefixes: string, copiesToKeep: int, interval: string)

  /** The settings when the environment sets none of them. */
  const DefaultConfig := Config(DefaultNamePrefixes, DefaultCopiesToKeep, DefaultInterval)

  /** What the three describe calls return. */
  datatype Account = Account(reservations: seq<Reservation>, images: seq<Image>, snapshots: seq<Snapshot>)

  /** The decisions for one tracked instance. */
  datatype InstancePlan = InstancePlan(
    instanceId: string,
    name: string,
    history: seq<Entry>,
    decision: Decision,
    request: Option<string>,
    deregister: seq<string>)

  /** The decisions of the whole run. `snapshotDeleted[i]` says whether the
      `i`-th listed snapshot is deleted; `deletedIds` are the ids
      `Snapshot.delete` is called for, in listing order. */
  datatype Plan = Plan(
    instances: seq<InstancePlan>,
    keepList: seq<string>,
    snapshotDeleted: seq<bool>,
    deletedIds: seq<string>)

  /** `x` is the image id of an entry at a rank the ladder does not keep. */
  predicate AtDroppedRank(sorted: seq<Entry>, copiesToKeep: int, x: string)
  {
    exists i :: 0 <= i < |sorted| && !Kept(copiesToKeep - 1, i) && x == ImageToken(sorted[i])
  }

  /** The image ids of the entries at the ranks `d`, in the order of `d`. */
  function RankTokens(sorted: seq<Entry>, d: seq<nat>): (r: seq<string>)
    requires forall i :: i in d ==> i < |sorted|
    ensures |r| == |d|
  {
    seq(|d|, j requires 0 <= j < |d| => assert d[j] in d; ImageToken(sorted[d[j]]))
  }

  /** When `d` holds exactly the dropped ranks, its tokens are exactly the
      image ids at dropped ranks. */
  lemma RankTokensDropped(sorted: seq<Entry>, copiesToKeep: int, d: seq<nat>)
    requires forall i :: i in d <==> 0 <= i < |sorted| && !Kept(copiesToKeep - 1, i)
    ensures forall x :: x in RankTokens(sorted, d) <==> AtDroppedRank(sorted, copiesToKeep, x)
  {
    var r := RankTokens(sorted, d);
    forall x | x in r ensures AtDroppedRank(sorted, copiesToKeep, x) {
      var j :| 0 <= j < |r| && r[j] == x;
      assert d[j] in d;
    }
    forall x | AtDroppedRank(sorted, copiesToKeep, x) ensures x in r {
      var i :| 0 <= i < |sorted| && !Kept(copiesToKeep - 1, i) && x == ImageToken(sorted[i]);
      assert i in d;
      var j :| 0 <= j < |d| && d[j] == i;
      assert r[j] == x;
    }
  }

  /** The image ids `deregister_image` is called with (lines 122-126): the
      second word of each entry whose rank the ladder does not keep, in
      rank order. */
  function DeregisterIds(sorted: seq<Entry>, copiesToKeep: int): (r: seq<string>)
    ensures forall x :: x in r <==> AtDroppedRank(sorted, copiesToKeep, x)
    ensures |r| + |Retained(copiesToKeep, |sorted|)| == |sorted|
  {
    var d := Deregistered(copiesToKeep, |sorted|);
    RetentionPartition(copiesToKeep, |sorted|);
    RankTokensDropped(sorted, copiesToKeep, d);
    RankTokens(sorted, d)
  }

  /** The decisions for the tracked instance `id`. */
  function PlanInstance(cfg: Config, images: seq<Image>, t: Tracked, id: string, now: Stamp): (p: InstancePlan)
    requires id in t.names
    ensures p.instanceId == id && p.name == t.names[id]
    ensures multiset(p.history) == multiset(History(images, t, id))
    ensures Descending(Keys(Render, p.history))
    ensures p.decision == DecideFor(History(images, t, id), now, cfg.interval)
    ensures p.request.Some? <==> p.decision.create
    ensures p.request.Some? ==> p.request.value == ImageName(id, now)
    ensures !p.decision.alert
    ensures forall x :: x in p.deregister <==> AtDroppedRank(p.history, cfg.copiesToKeep, x)
  {
    var found := History(images, t, id);
    var history := SortNewestFirst(found);
    var decision := DecideFor(found, now, cfg.interval);
    var request := if decision.create then Some(ImageName(id, now)) else None;
    InstancePlan(id, t.names[id], history, decision, request, DeregisterIds(history, cfg.copiesToKeep))
  }

  /** The tracked instances of the account under the configuration. */
  function TrackedOf(cfg: Config, acct: Account): (t: Tracked)
    ensures t.Wf()
  {
    TrackInstances(acct.reservations, AllowList(cfg.namePrefixes))
  }

  /** One run of the handler. */
  function Run(cfg: Config, acct: Account, now: Stamp): (r: Plan)
    ensures |r.instances| == |TrackedOf(cfg, acct).order|
    ensures forall i :: 0 <= i < |r.instances| ==> r.instances[i].instanceId == TrackedOf(cfg, acct).order[i]
    ensures forall i :: 0 <= i < |r.instances| ==> !r.instances[i].decision.alert
    ensures forall x :: x in r.keepList <==>
      exists j :: 0 <= j < |acct.images| && Attribution(acct.images[j], TrackedOf(cfg, acct)).Some? && acct.images[j].imageId == x
    ensures |r.snapshotDeleted| == |acct.snapshots|
    ensures forall k :: 0 <= k < |acct.snapshots| ==>
      (r.snapshotDeleted[k] <==> Contains(acct.snapshots[k].description, CreateImageMarker)
                                 && !RaisedBy(Raises(acct.snapshots), k)
                                 && ParentImage(acct.snapshots[k].description) !in r.keepList)
    ensures forall x :: x in r.deletedIds <==>
      exists k :: 0 <= k < |acct.snapshots| && r.snapshotDeleted[k] && acct.snapshots[k].snapshotId == x
  {
    var t := TrackedOf(cfg, acct);
    var keep := KeepList(acct.images, t);
    var mask := DeleteMask(acct.snapshots, keep);
    assert forall i :: 0 <= i < |t.order| ==> t.order[i] in t.order;
    Plan(
      seq(|t.order|, i requires 0 <= i < |t.order| => PlanInstance(cfg, acct.images, t, t.order[i], now)),
      keep,
      mask,
      DeletedIds(acct.snapshots, mask))
  }

  /** The parts of a run, one by one. */
  lemma RunParts(cfg: Config, acct: Account, now: Stamp)
    ensures var t := TrackedOf(cfg, acct);
      && Run(cfg, acct, now).keepList == KeepList(acct.images, t)
      && Run(cfg, acct, now).snapshotDeleted == DeleteMask(acct.snapshots, KeepList(acct.images, t))
      && Run(cfg, acct, now).deletedIds == DeletedIds(acct.snapshots, Run(cfg, acct, now).snapshotDeleted)
      && forall i :: 0 <= i < |t.order| ==>
           t.order[i] in t.names && Run(cfg, acct, now).instances[i] == PlanInstance(cfg, acct.images, t, t.order[i], now)
  {
  }

  /** The run plans each tracked instance exactly once, and an instance
      id is planned exactly when some instance with that id has a `Name`
      tag whose value is one of the allowed names. */
  lemma PlannedIffNameTagAllowed(cfg: Config, acct: Account, now: Stamp, x: string)
    ensures (exists i :: 0 <= i < |Run(cfg, acct, now).instances| && Run(cfg, acct, now).instances[i].instanceId == x)
      <==> exists k, inst :: 0 <= k < |acct.reservations| && inst in acct.reservations[k].instances
             && inst.instanceId == x && Qualifies(inst, AllowList(cfg.namePrefixes))
    ensures forall i, j :: 0 <= i < j < |Run(cfg, acct, now).instances| ==>
      Run(cfg, acct, now).instances[i].instanceId != Run(cfg, acct, now).instances[j].instanceId
  {
    var t := TrackedOf(cfg, acct);
    var r := Run(cfg, acct, now);
    TrackedIff(acct.reservations, AllowList(cfg.namePrefixes), x);
    if x in t.order {
      var i :| 0 <= i < |t.order| && t.order[i] == x;
      assert r.instances[i].instanceId == x;
    }
  }

  /** An instance plan requests an image exactly when every image in its
      history is at least `hours_between_amis` old. */
  lemma PlanRequestIffOld(cfg: Config, images: seq<Image>, t: Tracked, id: string, now: Stamp)
    requires id in t.names
    ensures var p := PlanInstance(cfg, images, t, id, now);
      p.request.Some? <==>
        forall e :: e in p.history ==> Seconds(now) - Seconds(e.date) >= IntervalHours(cfg.interval) * SecondsPerHour
  {
    var p := PlanInstance(cfg, images, t, id, now);
    var found := History(images, t, id);
    CreateIffAllOld(found, now, cfg.interval);
    assert forall e :: e in p.history <==> e in found by {
      assert forall e :: e in p.history <==> e in multiset(p.history);
      assert forall e :: e in found <==> e in multiset(found);
    }
  }

  /** An image is requested for an instance exactly when every image in
      its history is at least `hours_between_amis` old; in particular an
      instance without images always gets one. */
  lemma RequestIffHistoryOld(cfg: Config, acct: Account, now: Stamp, i: nat)
    requires i < |Run(cfg, acct, now).instances|
    ensures var p := Run(cfg, acct, now).instances[i];
      p.request.Some? <==>
        forall e :: e in p.history ==> Seconds(now) - Seconds(e.date) >= IntervalHours(cfg.interval) * SecondsPerHour
  {
    var t := TrackedOf(cfg, acct);
    RunParts(cfg, acct, now);
    PlanRequestIffOld(cfg, acct.images, t, t.order[i], now);
  }

  /** An image at a dropped rank of an ordering of an instance's history
      is in `ami_keep_list`, when the account's image ids are free of
      spaces. */
  lemma DroppedAreKept(images: seq<Image>, t: Tracked, id: string, sorted: seq<Entry>, copiesToKeep: int, x: string)
    requires multiset(sorted) == multiset(History(images, t, id))
    requires forall j :: 0 <= j < |images| ==> ' ' !in images[j].imageId
    requires AtDroppedRank(sorted, copiesToKeep, x)
    ensures x in KeepList(images, t)
  {
    var n :| 0 <= n < |sorted| && !Kept(copiesToKeep - 1, n) && x == ImageToken(sorted[n]);
    var e := sorted[n];
    assert e in multiset(sorted);
    HistoryInKeepList(images, t, id, e);
  }

  /** Every image an instance plan deregisters is in `ami_keep_list`,
      when the account's image ids are free of spaces, as AWS image ids
      are. */
  lemma DeregisteredAreKept(cfg: Config, images: seq<Image>, t: Tracked, id: string, now: Stamp, x: string)
    requires id in t.names
    requires forall j :: 0 <= j < |images| ==> ' ' !in images[j].imageId
    requires x in PlanInstance(cfg, images, t, id, now).deregister
    ensures x in KeepList(images, t)
  {
    var p := PlanInstance(cfg, images, t, id, now);
    DroppedAreKept(images, t, id, p.history, cfg.copiesToKeep, x);
  }

  /** An image deregistered in a run is still in that run's
      `ami_keep_list`, so a snapshot whose parent it is survives the
      sweep. */
  lemma DeregisteredImagesKeepSnapshots(cfg: Config, acct: Account, now: Stamp, i: nat, x: string, k: nat)
    requires forall j :: 0 <= j < |acct.images| ==> ' ' !in acct.images[j].imageId
    requires i < |Run(cfg, acct, now).instances| && x in Run(cfg, acct, now).instances[i].deregister
    requires k < |acct.snapshots| && ParentImage(acct.snapshots[k].description) == x
    ensures x in Run(cfg, acct, now).keepList
    ensures !Run(cfg, acct, now).snapshotDeleted[k]
  {
    var t := TrackedOf(cfg, acct);
    RunParts(cfg, acct, now);
    DeregisteredAreKept(cfg, acct.images, t, t.order[i], now, x);
    KeptParentSurvives(acct.snapshots, KeepList(acct.images, t), k);
  }

  /** The newest `COPIES_TO_KEEP - 1` images of a history are never
      deregistered, when the history's image ids are distinct and free of
      spaces. */
  lemma NewestImagesSurvive(cfg: Config, images: seq<Image>, t: Tracked, id: string, now: Stamp, n: nat)
    requires id in t.names
    requires var h := PlanInstance(cfg, images, t, id, now).history;
      && n < |h| && n < cfg.copiesToKeep - 1
      && (forall m :: 0 <= m < |h| ==> ' ' !in h[m].imageId)
      && (forall m :: 0 <= m < |h| && m != n ==> h[m].imageId != h[n].imageId)
    ensures var p := PlanInstance(cfg, images, t, id, now);
      p.history[n].imageId !in p.deregister
  {
  }

  /** When the account lists every image once, the sorted history of an
      instance holds each image id once. */
  lemma PlanHistoryDistinct(cfg: Config, images: seq<Image>, t: Tracked, id: string, now: Stamp)
    requires id in t.names
    requires DistinctImageIds(images)
    ensures DistinctIds(PlanInstance(cfg, images, t, id, now).history)
  {
    HistoryDistinctIds(images, t, id);
    ReorderKeepsDistinct(History(images, t, id), PlanInstance(cfg, images, t, id, now).history);
  }

  /** The newest `COPIES_TO_KEEP - 1` images of an instance survive the
      run, stated over the account: every image is listed once and no
      image id contains a space. */
  lemma NewestImagesSurviveInAccount(cfg: Config, images: seq<Image>, t: Tracked, id: string, now: Stamp, n: nat)
    requires id in t.names
    requires DistinctImageIds(images)
    requires forall j :: 0 <= j < |images| ==> ' ' !in images[j].imageId
    requires n < |PlanInstance(cfg, images, t, id, now).history| && n < cfg.copiesToKeep - 1
    ensures var p := PlanInstance(cfg, images, t, id, now);
      p.history[n].imageId !in p.deregister
  {
    var h := PlanInstance(cfg, images, t, id, now).history;
    PlanHistoryDistinct(cfg, images, t, id, now);
    forall m | 0 <= m < |h|
      ensures ' ' !in h[m].imageId
    {
      assert h[m] in multiset(History(images, t, id));
      HistoryInKeepList(images, t, id, h[m]);
    }
    NewestImagesSurvive(cfg, images, t, id, now, n);
  }
}
