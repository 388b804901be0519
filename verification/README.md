# AMI rotation handler — a Dafny model

This project models the decision logic of `lambda_handler` in
`ami-create/main.py`. The handler is an AWS Lambda function that, on
every run:

1. tracks the EC2 instances whose `Name` tag is one of the allowed names;
2. attributes the account's images to those instances through the third
   word of the image name, and collects every attributed image id in
   `ami_keep_list`;
3. sorts each instance's `"<date> <ami-id>"` history newest first;
4. requests a new image when the newest one is at least
   `hours_between_amis` old;
5. deregisters the images at the ranks the retention ladder does not
   keep;
6. deletes the snapshots made by `CreateImage` whose parent AMI is not in
   `ami_keep_list`, unless the run-wide `do_not_delete` flag is up.

A run is a pure function here: `Handler.Run` maps the configuration,
what the account lists, and one clock reading to a `Plan`. For each
tracked instance the plan holds:
- the sorted history;
- the create/alert decision;
- the name of the requested image;
- the images to deregister.

For each snapshot the plan says whether it is deleted, and it lists the
ids of the deleted snapshots.

Modules, in dependency order:
- `Options`: `Option`.
- `Arith`: two facts about integer division.
- `Text`: Python's `str.split`, the substring test, the leftmost match
  of a literal, and the code-point order of `str`.
- `Clock`: timestamps, `DATE_FORMAT` rendering, and `datetime`
  subtraction in seconds.
- `Sorting`: a descending insertion sort by a string key.
- `AmiHistory`: history entries, their sort, and the newest entry.
- `Retention`: the ladder `range(k) + range(k, n, 7)`.
- `Inventory`: the allow-list, the instance pass, image attribution,
  histories and `ami_keep_list`.
- `Schedule`: interval hours, the create and alert guards, and the
  requested image name.
- `Snapshots`: the parent-AMI extraction and the sweep with the sticky
  flag.
- `Handler`: one run, plus theorems across the passes.

Consequences the model proves:
- **The alert is dead code.** The alert at line 114 needs
  `creating == "false"`, and that value is only set on the branch where
  the elapsed time is below `hours_between_amis`. So the elapsed time can
  never also exceed `hours_between_amis + 1` hours, and `update_sns` is
  never called (`Schedule.Decide`).
- **Snapshots of deregistered images survive.** `ami_keep_list` is
  filled before any image is deregistered and is never pruned. So, when
  no image id contains a space, a snapshot whose parent is deregistered
  in the same run is never deleted
  (`Handler.DeregisteredImagesKeepSnapshots`).

Two consequences of the code that are easy to miss:
- **A description with no `ami-`.** `ami_parent` stays `" "`, so such a
  marked snapshot is deleted unless `" "` is in the keep list
  (`Snapshots.NoAmiMeansDeleted`).
- **A retention count of zero or less.** `COPIES_TO_KEEP` is handed to
  `range` as it is; no value is rejected (`Retention.LadderMembership`
  holds for every count).

## Model

| member | source | states |
|---|---|---|
| Text.Split | ami-create/main.py:16 | `str.split` on one character always yields at least one piece, and no piece contains the separator |
| Text.JoinSplit | ami-create/main.py:16 | joining the pieces of a split with the separator gives back the original string, so splitting loses nothing |
| Text.SplitJoin | ami-create/main.py:16 | splitting the join of separator-free pieces gives back exactly those pieces |
| Text.IndexOf | ami-create/main.py:158 | the search for a literal finds its leftmost occurrence, and finds none exactly when it occurs nowhere |
| Text.ContainsMeansOccurs | ami-create/main.py:156 | the substring test `pat in s` holds exactly when `pat` occurs at some position of `s` |
| Text.LexLeIsTotalOrder | ami-create/main.py:81 | the code-point order `list.sort` uses on strings is reflexive, total, antisymmetric and transitive |
| Clock.Seconds | ami-create/main.py:92 | a stamp's seconds are its day ordinal times 86400 plus a time of day below 86400, so the difference of two stamps is `(a - b).total_seconds()` |
| Clock.Format | ami-create/main.py:14 | a rendered `DATE_FORMAT` stamp is always 19 characters long and contains no space |
| Clock.FormatOrder | ami-create/main.py:14 | comparing two rendered stamps as strings agrees with comparing their fields in order, and two stamps render alike only if they are equal |
| Clock.FormatIsChronological | ami-create/main.py:73 | one rendered stamp is at most another as a string exactly when it is no later in seconds |
| Sorting.SortBy | ami-create/main.py:81 | `sort(reverse=True)` gives a permutation of its input whose keys are in descending order |
| Sorting.DescendingUnique | ami-create/main.py:81 | two descending arrangements of the same multiset of strings are equal, so the sort result is determined |
| AmiHistory.DateToken | ami-create/main.py:87 | the first space-separated word of an entry is the rendering of the image's date |
| AmiHistory.ImageToken | ami-create/main.py:124 | the second word of an entry is a prefix of its image id, and is the id itself when the id has no space |
| AmiHistory.RenderOrder | ami-create/main.py:74 | if one entry string is at most another, its image date is no later |
| AmiHistory.RenderInjective | ami-create/main.py:74 | two entries render to the same string only if they are the same date and id |
| AmiHistory.SortNewestFirst | ami-create/main.py:80-81 | the sorted history is a permutation of the history, with entry strings in descending order |
| AmiHistory.ReorderKeepsDistinct | ami-create/main.py:81 | any reordering of a history with distinct image ids, the sort among them, keeps the ids distinct |
| AmiHistory.SortIsCanonical | ami-create/main.py:81 | any descending arrangement of the history's entry strings is exactly the sorted history's |
| AmiHistory.NewestBoundsAll | ami-create/main.py:84-87 | the first entry after the sort belongs to the history, and no entry of the history is dated later |
| Retention.LadderMembership | ami-create/main.py:120-121 | a rank below `n` is in `indices_to_keep` exactly when it is below `k`, or at least `k` with `(i - k) % 7 == 0` |
| Retention.RanksMembers | ami-create/main.py:122-123 | the ranks listed are exactly the ranks below `n` whose membership in `indices_to_keep` is the one asked for |
| Retention.RanksIncreasing | ami-create/main.py:122 | the ranks are listed in the increasing order in which `enumerate` visits them |
| Retention.RetainedMember | ami-create/main.py:120-123 | a rank is retained exactly when it is below `n` and the ladder rule keeps it |
| Retention.RetentionPartition | ami-create/main.py:119-131 | retained and deregistered ranks are disjoint, each is characterised by the ladder rule, and together they count every rank once |
| Retention.NothingDeregisteredWhenFew | ami-create/main.py:120-123 | with `COPIES_TO_KEEP >= 1` and at most `COPIES_TO_KEEP` images, nothing is deregistered and every rank is retained in order |
| Retention.RetainedStep | ami-create/main.py:121-123 | one more image adds its rank to the retained ranks exactly when the ladder rule keeps it |
| Retention.RetainedCount | ami-create/main.py:121 | when `1 <= COPIES_TO_KEEP <= n + 1`, the number of retained images is `k` plus one in seven of the remaining `n - k`, rounded up |
| Retention.DefaultLadderOnTwenty | ami-create/main.py:119-126 | with the default count of 10 and twenty images, ranks 0 to 9 and 16 are kept (eleven) and nine are deregistered |
| Inventory.AllowList | ami-create/main.py:16 | the allowed names are comma-free and joined by commas give back the setting |
| Inventory.DefaultAllowList | ami-create/main.py:16 | the default setting allows exactly `Crawler` and `Mongo` |
| Inventory.Track | ami-create/main.py:61-63 | tracking adds the id with its name, keeps every other name, and keeps the insertion order of the dictionary keys |
| Inventory.ScanTags | ami-create/main.py:58-63 | after the tag loop the id is tracked exactly when it was already, or some tag is a `Name` tag with an allowed value |
| Inventory.ScanInstances | ami-create/main.py:56-66 | after the instance loop an id is tracked exactly when it was already, or some instance with that id qualifies; recorded names stay allowed |
| Inventory.TrackInstances | ami-create/main.py:55-66 | the instance pass lists each tracked id once and records only allowed names |
| Inventory.TrackedIff | ami-create/main.py:55-66 | an id is tracked exactly when some instance in some reservation has that id and a `Name` tag whose value is exactly an allowed name |
| Inventory.NameWord | ami-create/main.py:71 | the third word of an image name exists only for a named image and contains no space |
| Inventory.Attribution | ami-create/main.py:69-77 | an image is attributed exactly when its name has a third word, that word is a tracked id, and its date parses; the result is that word |
| Inventory.EntryOf | ami-create/main.py:73-74 | an attributed image contributes an entry with its id and date, whose first word is the rendered date |
| Inventory.History | ami-create/main.py:69-77 | an entry is in an instance's history exactly when some image is attributed to that instance and contributes that entry |
| Inventory.KeepList | ami-create/main.py:75 | an id is in `ami_keep_list` exactly when it is the id of some attributed image |
| Inventory.HistoryDistinctIds | ami-create/main.py:69-75 | when the account lists every image id once, no image id occurs twice in an instance's history |
| Inventory.HistoryInKeepList | ami-create/main.py:74-75 | every image in an instance's history is in `ami_keep_list` |
| Inventory.KeepListInHistory | ami-create/main.py:74-75 | every id in `ami_keep_list` belongs to an entry of some tracked instance's history |
| Schedule.IntervalHours | ami-create/main.py:46-51 | `daily` gives 24 hours, `weekly` 168, and any other setting 0, without being rejected |
| Schedule.Elapsed | ami-create/main.py:86-92 | an empty history, where `snapshots[0]` raises `IndexError`, is given an elapsed time of 365 days |
| Schedule.ElapsedIsAgeOfNewest | ami-create/main.py:84-92 | for a non-empty history the elapsed time is the age of its newest image: no image is younger, and some image is exactly that old |
| Schedule.DecideFor | ami-create/main.py:84-116 | the decision for an instance's history never raises the alert, and an empty history always creates an image |
| Schedule.Decide | ami-create/main.py:96-116 | an image is created exactly when the elapsed seconds reach `hours_between_amis * 3600`, and the alert is never raised |
| Schedule.CreateIffAllOld | ami-create/main.py:84-96 | an image is created exactly when every image of the instance's history is at least `hours_between_amis` old |
| Schedule.UnknownIntervalCreates | ami-create/main.py:46-96 | with an interval other than `daily` or `weekly`, an image is created whenever no image is dated after the clock reading |
| Schedule.EmptyHistoryCreates | ami-create/main.py:89-96 | an instance with no attributed image always gets one |
| Schedule.ImageNameWords | ami-create/main.py:101 | when the instance id contains no space, the requested image name splits into `Lambda`, `-`, the instance id, `from` and the rendered clock reading |
| Schedule.CreatedImageIsAttributed | ami-create/main.py:69-101 | when the instance id contains no space, an image created under the requested name is attributed, in a later run, to the instance it was made from |
| Snapshots.FirstPieceIsMaximal | ami-create/main.py:160 | the first piece of a split is a prefix of the string, ended by the separator or by the end of the string |
| Snapshots.ParentImage | ami-create/main.py:157-160 | the parent is `" "` exactly when there is no `ami-`; otherwise it starts with `ami-`, lies at the leftmost `ami-`, has no space or newline, and runs to a space, a newline or the end |
| Snapshots.SweepDeletes | ami-create/main.py:140-171 | the loop deletes an entry exactly when it is an orphan, the flag was down on entry, and no entry up to and including it raised the flag |
| Snapshots.DeleteMask | ami-create/main.py:139-174 | a snapshot is deleted exactly when its description has the `CreateImage` marker, no snapshot up to it raised the flag, and its parent is not kept |
| Snapshots.DeletedIds | ami-create/main.py:165-168 | the ids deleted are exactly those of the snapshots the mask selects |
| Snapshots.FlagIsSticky | ami-create/main.py:140-156 | once a snapshot's tags raise the flag, neither it nor any later snapshot is deleted |
| Snapshots.KeptParentSurvives | ami-create/main.py:162-163 | a snapshot whose parent is in `ami_keep_list` is never deleted |
| Snapshots.DeletedIffOrphan | ami-create/main.py:145-162 | when no tag scan raises the flag, a snapshot is deleted exactly when it is marked and its parent is not kept |
| Snapshots.NoAmiMeansDeleted | ami-create/main.py:142-162 | with the flag down, a marked snapshot whose description has no `ami-` is deleted unless `" "` is kept |
| Handler.RankTokensDropped | ami-create/main.py:122-124 | reading the image ids at exactly the dropped ranks yields exactly the ids at ranks the ladder does not keep |
| Handler.DeregisterIds | ami-create/main.py:122-126 | an id is deregistered exactly when it is the image id at a rank the ladder does not keep, and deregistered and retained images count the history once |
| Handler.PlanInstance | ami-create/main.py:80-126 | an instance's plan holds its name, its history sorted newest first as a permutation, the create decision for that history, a request exactly when creating, no alert, and the ids at dropped ranks |
| Handler.TrackedOf | ami-create/main.py:55-66 | the tracked instances of a run list each id once |
| Handler.Run | ami-create/main.py:35-174 | a run plans every tracked instance in dictionary order and never raises the alert; its keep list holds exactly the ids of attributed images; a snapshot is deleted exactly when it is marked, no snapshot up to it raised the flag, and its parent is not in that keep list; the deleted ids are exactly those of the deleted snapshots |
| Handler.PlannedIffNameTagAllowed | ami-create/main.py:55-84 | an id is planned exactly when some instance with that id has an allowed `Name` tag, and no id is planned twice |
| Handler.PlanRequestIffOld | ami-create/main.py:84-101 | an instance plan requests an image exactly when every image in its history is at least `hours_between_amis` old |
| Handler.RequestIffHistoryOld | ami-create/main.py:84-116 | in a run, an instance gets an image exactly when every image in its history is at least `hours_between_amis` old |
| Handler.DroppedAreKept | ami-create/main.py:75-126 | when no image id contains a space, an image at a dropped rank of an instance's history is in `ami_keep_list` |
| Handler.DeregisteredAreKept | ami-create/main.py:75-126 | when no image id contains a space, every image an instance plan deregisters is in `ami_keep_list` |
| Handler.DeregisteredImagesKeepSnapshots | ami-create/main.py:75-163 | when no image id contains a space, an image deregistered in a run is in that run's `ami_keep_list`, so a snapshot whose parent it is survives the sweep |
| Handler.NewestImagesSurvive | ami-create/main.py:120-126 | when the history's image ids are distinct and contain no space, the newest `COPIES_TO_KEEP - 1` images of the history are never deregistered |
| Handler.PlanHistoryDistinct | ami-create/main.py:69-81 | when the account lists every image id once, the sorted history of a tracked instance holds each image id once |
| Handler.NewestImagesSurviveInAccount | ami-create/main.py:69-126 | when the account lists every image id once and no image id contains a space, the newest `COPIES_TO_KEEP - 1` images of a tracked instance are never deregistered |

## Left out

- The boto3 calls are not modelled. `describe_instances`, `images.filter` and `describe_snapshots` are inputs. `create_image`, `deregister_image` and `Snapshot.delete` are fields of the returned plan. Their `ClientError`s only log, so they change nothing the plan records.
- `update_sns` and SNS publishing are not modelled: the alert guard that calls it never holds.
- Logging and `LOGLEVEL` are not modelled, because they do not affect any decision.
- `datetime.now` is not modelled. One clock reading, a parameter, serves the whole run. The source reads the clock at line 85 for each instance, again at line 90 for an empty history, and once more at line 92, where the value is discarded because `strptime` is a class method.
- Schedule.Elapsed: gives an empty history exactly 365 days. In the source the fallback date comes from a second clock reading at line 90, so the gap is 365 days less the whole seconds between the two readings, down to 31535999 seconds. Every interval is at most 168 hours, so the create decision is the same either way.
- `strptime` of `image.creation_date` is not modelled. An image's date is given already parsed, or `None` when it does not parse; with `None` the `except Exception` at line 76 logs a warning and skips the image. Timestamps are calendar-valid with a four-digit year.
- Clock.FormatIsChronological: holds only for four-digit years, where `%Y` is fixed-width.
- Schedule.Decide: models `total_seconds() / 3600 >= hours` as the exact integer test `elapsed >= hours * 3600`. Both dates are whole seconds, so the float division only loses precision at magnitudes no timestamp reaches.
- Snapshots.Snapshot: the tag scan at lines 145-154 is an input boolean per snapshot, `tagsRaiseFlag`. That scan calls `dict.iteritems`, which Python 3 lacks, and its bare `except` swallows the error. So under Python 3 the flag never rises; `Snapshots.DeletedIffOrphan` states the deletion rule for that case.
- A tag without a `Key` or a `Value` is not modelled: every tag has both. In the source the `and` at line 59 short-circuits, so a missing `Value` on a tag whose key is not `Name` raises nothing. A lookup that does raise skips only the instance's remaining tags; an earlier matching tag has already tracked it.
- Only a missing `Tags` key (`tags == None`) is modelled as skipping an instance. Exceptions of other kinds are not.
- Nothing rejects an `AMI_RETENTION_COUNT` of zero or less; the model, like the source, hands it to `range`.
- `int(AMI_RETENTION_COUNT)` is not modelled as a parse. The count is an integer input, and a value that does not parse stops the module before any run.
- `re.search` is modelled only for the literal prefix `ami-` followed by `.*`. A general regular-expression engine is not modelled.
- Handler.DroppedAreKept: requires every image id to be free of spaces, because `ami.split(" ")[1]` cuts an id at its first space.
- Handler.DeregisteredAreKept: requires every image id to be free of spaces, for the same reason.
- Handler.DeregisteredImagesKeepSnapshots: requires every image id to be free of spaces, for the same reason.
- Inventory.History: the contract fixes which entries occur, not how often. Multiplicity is pinned down only when the account lists every image id once (`Inventory.HistoryDistinctIds`: then no entry repeats).
- Handler.NewestImagesSurvive: requires the history's image ids to be distinct and free of spaces. With a repeated id, an id kept at a newer rank can also be deregistered at an older rank.
- Handler.NewestImagesSurviveInAccount: requires every image id to be listed once and to be free of spaces, for the same reasons.
- `count-ec2-instances/main.py` and `aws-cost-report/main.py` are not part of this model. They are boto3 counters, I/O and floating-point cost aggregation.
