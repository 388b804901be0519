/** The first two passes of the handler (ami-create/main.py:55-77): which
    instances are tracked, and which of the account's images belong to
    them.

    The instance pass walks every instance of every reservation. An
    instance is tracked when one of its tags has key `Name` and a value
    that is exactly one of the comma-separated entries of
    `INSTANCE_PREFIXES`; tracking it records the tag value as its name
    and gives it an empty history. An instance without a `Tags` key makes
    the lookup raise, and the bare `except` skips it.

    The image pass attributes an image to the instance whose id is the
    third space-separated word of the image name, if that instance is
    tracked and the creation date parses. Any exception on the way (no
    name, fewer than three words, a date that does not parse) skips the
    image. Every attributed image id also goes into `ami_keep_list`. */
module Inventory {
  import opened Options
  import opened Text
  import opened Clock
  import opened AmiHistory

  // ---------------------------------------------------------------------
  // INSTANCE_PREFIXES
  // ---------------------------------------------------------------------

  /** `INSTANCE_PREFIXES` when the environment does not set it. */
  const DefaultNamePrefixes: string := "Crawler,Mongo"

  /** `INSTANCE_NAME_PREFIX`: the setting cut at every comma. */
  function AllowList(setting: string): (r: seq<string>)
    ensures |r| >= 1
    ensures forall i :: 0 <= i < |r| ==> ',' !in r[i]
    ensures Join(r, ',') == setting
  {
    JoinSplit(setting, ',');
    Split(setting, ',')
  }

  /** The default setting allows exactly the names `Crawler` and `Mongo`. */
  lemma DefaultAllowList()
    ensures AllowList(DefaultNamePrefixes) == ["Crawler", "Mongo"]
  {
    var pieces := ["Crawler", "Mongo"];
    assert Join(pieces[1..], ',') == "Mongo";
    assert Join(pieces, ',') == DefaultNamePrefixes;
    SplitJoin(pieces, ',');
  }

  // ---------------------------------------------------------------------
  // Instances and the tracked set
  // ---------------------------------------------------------------------

  datatype Tag = Tag(key: string, value: string)

  /** An instance as `describe_instances` reports it; `tags` is `None`
      when the instance has no `Tags` key. */
  datatype Instance = Instance(instanceId: string, tags: Option<seq<Tag>>)

  datatype Reservation = Reservation(instances: seq<Instance>)

  /** The tracked instances: the keys of `instance_dictionary` in their
      insertion order, and `instance_names`. Both dictionaries receive
      the same keys at the same time (lines 61-63). */
  datatype Tracked = Tracked(order: seq<string>, names: map<string, string>)
  {
    /** The order lists each key once, and lists exactly the named keys. */
    ghost predicate Wf()
    {
      && (forall i, j :: 0 <= i < j < |order| ==> order[i] != order[j])
      && (forall x :: x in order <==> x in names)
    }
  }

  const NoInstances := Tracked([], map[])

  /** Every recorded name is one of the allowed names. */
  predicate NamesAllowed(t: Tracked, allow: seq<string>)
  {
    forall x :: x in t.names ==> t.names[x] in allow
  }

  /** `tag["Key"] == "Name" and tag["Value"] in INSTANCE_NAME_PREFIX`:
      an exact match against one allowed name, not a prefix test. */
  predicate NameTagMatches(tag: Tag, allow: seq<string>)
  {
    tag.key == "Name" && tag.value in allow
  }

  /** One of the tags matches. */
  predicate SomeTagMatches(tags: seq<Tag>, allow: seq<string>)
  {
    exists k :: 0 <= k < |tags| && NameTagMatches(tags[k], allow)
  }

  /** The instance has a `Tags` key and one of its tags matches. */
  predicate Qualifies(inst: Instance, allow: seq<string>)
  {
    inst.tags.Some? && SomeTagMatches(inst.tags.value, allow)
  }

  /** `instance_names[id] = name; instance_dictionary[id] = []`: a new key
      goes to the end of the order, a key already present keeps its place
      and takes the new name. */
  function Track(t: Tracked, id: string, name: string): (r: Tracked)
    requires t.Wf()
    ensures r.Wf()
    ensures forall x :: x in r.names <==> x in t.names || x == id
    ensures r.names[id] == name
    ensures forall x :: x in t.names && x != id ==> r.names[x] == t.names[x]
    ensures t.order <= r.order
  {
    Tracked(if id in t.names then t.order else t.order + [id], t.names[id := name])
  }

  /** The tag loop of lines 58-63 for the instance `id`. */
  function ScanTags(t: Tracked, id: string, tags: seq<Tag>, allow: seq<string>): (r: Tracked)
    requires t.Wf()
    ensures r.Wf()
    ensures forall x :: x in r.names <==>
      x in t.names || (x == id && SomeTagMatches(tags, allow))
    ensures NamesAllowed(t, allow) ==> NamesAllowed(r, allow)
    ensures t.order <= r.order
    decreases |tags|
  {
    if |tags| == 0 then t
    else
      var next := if NameTagMatches(tags[0], allow) then Track(t, id, tags[0].value) else t;
      TagsShift(tags, allow);
      ScanTags(next, id, tags[1..], allow)
  }

  /** Some tag matches exactly when the first does or some later one does. */
  lemma TagsShift(tags: seq<Tag>, allow: seq<string>)
    requires |tags| > 0
    ensures SomeTagMatches(tags, allow) <==> NameTagMatches(tags[0], allow) || SomeTagMatches(tags[1..], allow)
  {
    if SomeTagMatches(tags, allow) {
      var k :| 0 <= k < |tags| && NameTagMatches(tags[k], allow);
      assert k == 0 || tags[1..][k - 1] == tags[k];
    }
    if SomeTagMatches(tags[1..], allow) {
      var k :| 0 <= k < |tags[1..]| && NameTagMatches(tags[1..][k], allow);
      assert tags[k + 1] == tags[1..][k];
    }
  }

  /** Some instance in `insts` has the id `x` and qualifies. */
  predicate SomeQualifies(insts: seq<Instance>, x: string, allow: seq<string>)
  {
    exists j :: 0 <= j < |insts| && insts[j].instanceId == x && Qualifies(insts[j], allow)
  }

  /** The instance loop of lines 56-66 over a flat list of instances. */
  function ScanInstances(t: Tracked, insts: seq<Instance>, allow: seq<string>): (r: Tracked)
    requires t.Wf()
    ensures r.Wf()
    ensures forall x :: x in r.names <==> x in t.names || SomeQualifies(insts, x, allow)
    ensures NamesAllowed(t, allow) ==> NamesAllowed(r, allow)
    ensures t.order <= r.order
    decreases |insts|
  {
    if |insts| == 0 then t
    else
      var inst := insts[0];
      var next := match inst.tags
        case None => t
        case Some(tags) => ScanTags(t, inst.instanceId, tags, allow);
      InstancesShift(insts, allow);
      ScanInstances(next, insts[1..], allow)
  }

  /** Some instance with id `x` qualifies exactly when the first does or
      some later one does. */
  lemma InstancesShift(insts: seq<Instance>, allow: seq<string>)
    requires |insts| > 0
    ensures forall x :: SomeQualifies(insts, x, allow) <==>
      (insts[0].instanceId == x && Qualifies(insts[0], allow)) || SomeQualifies(insts[1..], x, allow)
  {
    forall x | SomeQualifies(insts, x, allow)
      ensures (insts[0].instanceId == x && Qualifies(insts[0], allow)) || SomeQualifies(insts[1..], x, allow)
    {
      var j :| 0 <= j < |insts| && insts[j].instanceId == x && Qualifies(insts[j], allow);
      assert j == 0 || insts[1..][j - 1] == insts[j];
    }
    forall x | SomeQualifies(insts[1..], x, allow)
      ensures SomeQualifies(insts, x, allow)
    {
      var j :| 0 <= j < |insts[1..]| && insts[1..][j].instanceId == x && Qualifies(insts[1..][j], allow);
      assert insts[j + 1] == insts[1..][j];
    }
  }

  /** The instances of all reservations, in the order the nested loops
      visit them. */
  function Flatten(rs: seq<Reservation>): (r: seq<Instance>)
    ensures forall inst :: inst in r <==> exists i :: 0 <= i < |rs| && inst in rs[i].instances
  {
    if |rs| == 0 then []
    else
      assert forall i :: 1 <= i < |rs| ==> rs[i] == rs[1..][i - 1];
      rs[0].instances + Flatten(rs[1..])
  }

  /** The result of the instance pass. */
  function TrackInstances(rs: seq<Reservation>, allow: seq<string>): (r: Tracked)
    ensures r.Wf()
    ensures NamesAllowed(r, allow)
  {
    ScanInstances(NoInstances, Flatten(rs), allow)
  }

  /** An instance id is tracked exactly when some instance with that id,
      in some reservation, has a `Name` tag whose value is exactly one of
      the allowed names; the name recorded for it is an allowed name. */
  lemma TrackedIff(rs: seq<Reservation>, allow: seq<string>, x: string)
    ensures x in TrackInstances(rs, allow).order <==>
      exists i, inst :: 0 <= i < |rs| && inst in rs[i].instances && inst.instanceId == x && Qualifies(inst, allow)
    ensures x in TrackInstances(rs, allow).order ==> TrackInstances(rs, allow).names[x] in allow
  {
    var insts := Flatten(rs);
    if exists i, inst :: 0 <= i < |rs| && inst in rs[i].instances && inst.instanceId == x && Qualifies(inst, allow) {
      var i, inst :| 0 <= i < |rs| && inst in rs[i].instances && inst.instanceId == x && Qualifies(inst, allow);
      assert inst in insts;
      var j :| 0 <= j < |insts| && insts[j] == inst;
    }
    if SomeQualifies(insts, x, allow) {
      var j :| 0 <= j < |insts| && insts[j].instanceId == x && Qualifies(insts[j], allow);
      assert insts[j] in insts;
    }
  }

  // ---------------------------------------------------------------------
  // Images, attribution and ami_keep_list
  // ---------------------------------------------------------------------

  /** An image owned by the account. `name` is `None` where boto3 reports
      no name; `created` is `None` when the creation date does not parse,
      and otherwise the parsed date, which `strftime` renders back as
      `Format(created)`. */
  datatype Image = Image(imageId: string, name: Option<string>, created: Option<Stamp>)

  /** `image.name.split(" ")[2]`, or `None` where that raises. */
  function NameWord(img: Image): (r: Option<string>)
    ensures r.Some? ==> img.name.Some? && ' ' !in r.value
  {
    if img.name.None? then None else Token(img.name.value, ' ', 2)
  }

  /** The tracked instance the image is attributed to, if any. */
  function Attribution(img: Image, t: Tracked): (r: Option<string>)
    ensures r.Some? <==> NameWord(img).Some? && NameWord(img).value in t.names && img.created.Some?
    ensures r.Some? ==> r == NameWord(img) && r.value in t.names
  {
    match NameWord(img)
    case None => None
    case Some(id) => if id in t.names && img.created.Some? then Some(id) else None
  }

  /** The history entry an attributed image contributes (line 74). */
  function EntryOf(img: Image): (e: Entry)
    requires img.created.Some?
    ensures e.imageId == img.imageId && e.date == img.created.value
    ensures Token(Render(e), ' ', 0) == Some(Format(img.created.value))
  {
    var e := Entry(img.created.value, img.imageId);
    assert DateToken(e) == Format(e.date);
    e
  }

  /** `instance_dictionary[id]` after the image pass, before sorting: the
      entries of the images attributed to `id`, in the order the images
      are listed. */
  function History(images: seq<Image>, t: Tracked, id: string): (r: seq<Entry>)
    ensures forall e :: e in r <==>
      exists j :: 0 <= j < |images| && Attribution(images[j], t) == Some(id) && EntryOf(images[j]) == e
    ensures |r| <= |images|
  {
    if |images| == 0 then []
    else
      var img := images[0];
      assert forall j :: 1 <= j < |images| ==> images[j] == images[1..][j - 1];
      (if Attribution(img, t) == Some(id) then [EntryOf(img)] else []) + History(images[1..], t, id)
  }

  /** `ami_keep_list`: the ids of all attributed images, in image order. */
  function KeepList(images: seq<Image>, t: Tracked): (r: seq<string>)
    ensures forall x :: x in r <==>
      exists j :: 0 <= j < |images| && Attribution(images[j], t).Some? && images[j].imageId == x
  {
    if |images| == 0 then []
    else
      var img := images[0];
      assert forall j :: 1 <= j < |images| ==> images[j] == images[1..][j - 1];
      (if Attribution(img, t).Some? then [img.imageId] else []) + KeepList(images[1..], t)
  }

  /** Every image in an instance's history is in `ami_keep_list`. */
  lemma HistoryInKeepList(images: seq<Image>, t: Tracked, id: string, e: Entry)
    requires e in History(images, t, id)
    ensures e.imageId in KeepList(images, t)
    ensures exists j :: 0 <= j < |images| && images[j].imageId == e.imageId
  {
    var j :| 0 <= j < |images| && Attribution(images[j], t) == Some(id) && EntryOf(images[j]) == e;
  }

  /** Conversely every image in `ami_keep_list` is in the history of the
      instance it is attributed to. */
  lemma KeepListInHistory(images: seq<Image>, t: Tracked, x: string)
    requires x in KeepList(images, t)
    ensures exists id :: id in t.names && exists e :: e in History(images, t, id) && e.imageId == x
  {
    var j :| 0 <= j < |images| && Attribution(images[j], t).Some? && images[j].imageId == x;
    var id := Attribution(images[j], t).value;
    assert EntryOf(images[j]) in History(images, t, id);
  }

  /** No image id occurs twice in the image list. */
  predicate DistinctImageIds(images: seq<Image>)
  {
    forall a, b :: 0 <= a < |images| && 0 <= b < |images| && a != b ==> images[a].imageId != images[b].imageId
  }

  /** When the account lists every image once, an instance's history holds
      each of its images once: no entry is repeated. */
  lemma {:induction false} HistoryDistinctIds(images: seq<Image>, t: Tracked, id: string)
    requires DistinctImageIds(images)
    ensures DistinctIds(History(images, t, id))
  {
    if |images| > 0 {
      var rest := images[1..];
      assert forall j :: 0 <= j < |rest| ==> rest[j] == images[j + 1];
      HistoryDistinctIds(rest, t, id);
      var tail := History(rest, t, id);
      forall e | e in tail
        ensures e.imageId != images[0].imageId
      {
        var j :| 0 <= j < |rest| && Attribution(rest[j], t) == Some(id) && EntryOf(rest[j]) == e;
      }
      var h := History(images, t, id);
      if Attribution(images[0], t) == Some(id) {
        assert h == [EntryOf(images[0])] + tail;
        ConsDistinct(EntryOf(images[0]), tail);
      } else {
        assert h == tail;
      }
    }
  }
}
