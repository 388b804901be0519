/** When a new image is due (ami-create/main.py:46-51, 84-116). The
    interval setting becomes a number of hours; the age of the newest
    image in an instance's sorted history is compared with it; and the
    missing-AMI alert is guarded by a second comparison.

    Time is whole seconds. The source subtracts two parsed
    `"%Y-%m-%dT%H.%M.%S"` strings, so both sides are already whole
    seconds, and `total_seconds() / 3600 >= hours` is the exact integer
    test `elapsed >= hours * 3600`. One reading of the clock, `now`,
    serves the whole run. */
module Schedule {
  import opened Options
  import opened Text
  import opened Clock
  import opened AmiHistory
  import opened Inventory

  /** `AMI_INTERVAL` when the environment does not set it. */
  const DefaultInterval: string := "daily"

  const SecondsPerHour := 3600

  /** The age the fallback date of an empty history is given (line 90). */
  const FallbackDays := 365

  /** `hours_between_amis`: 24 for `daily`, 168 for `weekly`, and 0 for
      any other setting, which is not rejected. */
  function IntervalHours(interval: string): (r: nat)
    ensures interval == "daily" ==> r == 24
    ensures interval == "weekly" ==> r == 168
    ensures interval != "daily" && interval != "weekly" ==> r == 0
  {
    if interval == "daily" then 24
    else if interval == "weekly" then 168
    else 0
  }

  /** `difference`, in seconds: from the newest image of the sorted
      history to `now`, or 365 days when the history is empty and
      `snapshots[0]` raises `IndexError`. `DateToken` shows that the
      date word of the first entry is the rendering of its date, which
      `strptime` reads back as that date. */
  function Elapsed(sorted: seq<Entry>, now: Stamp): (r: int)
    ensures |sorted| == 0 ==> r == FallbackDays * SecondsPerDay
  {
    if |sorted| == 0 then FallbackDays * SecondsPerDay
    else Seconds(now) - Seconds(sorted[0].date)
  }

  /** The two decisions taken for one instance: whether `create_image` is
      called, and whether `update_sns` is. */
  datatype Decision = Decision(create: bool, alert: bool)

  /** Lines 96-116. The create branch sets `creating` to `"true"` whether
      or not `create_image` raises `ClientError`; the other branch sets
      it to `"false"`. The alert needs `creating == "false"` and an
      elapsed time above `hours + 1` hours, which the first test has
      already excluded, so the alert is never raised. */
  function Decide(elapsed: int, hours: nat): (r: Decision)
    ensures r.create <==> elapsed >= hours * SecondsPerHour
    ensures !r.alert
  {
    var create := elapsed >= hours * SecondsPerHour;
    var creating := create;
    Decision(create, elapsed > (hours + 1) * SecondsPerHour && !creating)
  }

  /** For a non-empty history the elapsed time is the age of its newest
      image: no image is younger, and some image is exactly that old. */
  lemma ElapsedIsAgeOfNewest(history: seq<Entry>, now: Stamp)
    requires |history| > 0
    ensures forall e :: e in history ==> Elapsed(SortNewestFirst(history), now) <= Seconds(now) - Seconds(e.date)
    ensures exists e :: e in history && Elapsed(SortNewestFirst(history), now) == Seconds(now) - Seconds(e.date)
  {
    NewestBoundsAll(history);
    var newest := SortNewestFirst(history)[0];
    assert Elapsed(SortNewestFirst(history), now) == Seconds(now) - Seconds(newest.date);
  }

  /** The decision for one instance's unsorted history: never an alert,
      and always a new image for an instance without one. */
  function DecideFor(history: seq<Entry>, now: Stamp, interval: string): (r: Decision)
    ensures !r.alert
    ensures |history| == 0 ==> r.create
  {
    Decide(Elapsed(SortNewestFirst(history), now), IntervalHours(interval))
  }

  /** An image is created exactly when every image already in the history
      is at least `hours_between_amis` old. */
  lemma CreateIffAllOld(history: seq<Entry>, now: Stamp, interval: string)
    ensures DecideFor(history, now, interval).create <==>
      forall e :: e in history ==> Seconds(now) - Seconds(e.date) >= IntervalHours(interval) * SecondsPerHour
  {
    if |history| > 0 {
      NewestBoundsAll(history);
    }
  }

  /** With an interval setting other than `daily` or `weekly` an image is
      created whenever no image in the history is dated after `now`. */
  lemma UnknownIntervalCreates(history: seq<Entry>, now: Stamp, interval: string)
    requires interval != "daily" && interval != "weekly"
    ensures DecideFor(history, now, interval).create <==>
      forall e :: e in history ==> Seconds(e.date) <= Seconds(now)
  {
    CreateIffAllOld(history, now, interval);
  }

  /** An instance with no attributed image always gets one. */
  lemma EmptyHistoryCreates(now: Stamp, interval: string)
    ensures DecideFor([], now, interval).create
  {
    CreateIffAllOld([], now, interval);
  }

  /** `Name` of the image requested at line 101,
      `"Lambda - {} from {}".format(instance, now)`: five words joined by
      single spaces. */
  function ImageName(instanceId: string, now: Stamp): string
  {
    "Lambda" + [' '] + ("-" + [' '] + (instanceId + [' '] + ("from" + [' '] + Format(now))))
  }

  /** The request's name splits on spaces into five words, the third of
      which is the instance id, when the id has no space. */
  lemma ImageNameWords(instanceId: string, now: Stamp)
    requires ' ' !in instanceId
    ensures Split(ImageName(instanceId, now), ' ') == ["Lambda", "-", instanceId, "from", Format(now)]
  {
    SplitFive("Lambda", "-", instanceId, "from", Format(now), ' ');
  }

  /** An image made from the request is attributed, in a later run, to the
      instance it was made from: the third word of its name is the
      instance id, when the id has no space. */
  lemma CreatedImageIsAttributed(instanceId: string, now: Stamp, t: Tracked, imageId: string, created: Stamp)
    requires ' ' !in instanceId && instanceId in t.names
    ensures Attribution(Image(imageId, Some(ImageName(instanceId, now)), Some(created)), t) == Some(instanceId)
  {
    ImageNameWords(instanceId, now);
  }
}
