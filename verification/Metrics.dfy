/**
 The metrics store: four label-indexed series sets, and the abstract map from containers to
 records that two of them represent.
 */
module Metrics {

  import opened Wrappers

  /** A prometheus.Labels value over the label names in use; None is a name that is not given. */
  datatype Labels = Labels(
    namespace: Option<string>,
    pod: Option<string>,
    container: Option<string>,
    containerType: Option<string>,
    image: Option<string>,
    currentVersion: Option<string>,
    latestVersion: Option<string>)

  /** The value is not asked for, or it is the given label's value. */
  predicate Agrees(given: Option<string>, asked: Option<string>) {
    asked.None? || given == asked
  }

  /** A partial match: every asked label name is a label of the series, with the asked value. */
  predicate Matches(series: Labels, partial: Labels) {
    && Agrees(series.namespace, partial.namespace)
    && Agrees(series.pod, partial.pod)
    && Agrees(series.container, partial.container)
    && Agrees(series.containerType, partial.containerType)
    && Agrees(series.image, partial.image)
    && Agrees(series.currentVersion, partial.currentVersion)
    && Agrees(series.latestVersion, partial.latestVersion)
  }

  /** The four vecs' label names: all of them, all but the versions, and the lookup ones without a container type. */
  datatype Names = VersionNames | CheckedNames | LookupNames

  predicate HasNames(s: Labels, names: Names) {
    && s.namespace.Some? && s.pod.Some? && s.container.Some? && s.image.Some?
    && (s.containerType.Some? <==> !names.LookupNames?)
    && (s.currentVersion.Some? <==> names.VersionNames?)
    && (s.latestVersion.Some? <==> names.VersionNames?)
  }

  function Remaining<V>(series: map<Labels, V>, partial: Labels): map<Labels, V> {
    map s | s in series && !Matches(s, partial) :: series[s]
  }

  /** A GaugeVec or CounterVec with its variable label names. */
  class Vec<V> {
    const names: Names
    var series: map<Labels, V>

    constructor (names: Names)
      ensures this.names == names && series == map[]
    {
      this.names := names;
      series := map[];
    }

    /** DeletePartialMatch: removes the matching series and counts them. */
    method DeletePartialMatch(partial: Labels) returns (deleted: nat)
      modifies this
      ensures series == Remaining(old(series), partial)
      ensures deleted == |old(series)| - |series|
    {
      var before := series;
      series := Remaining(series, partial);
      SmallerMap(before, series);
      deleted := |before| - |series|;
    }

    /** With(labels).Set(value). */
    method Set(labels: Labels, value: V)
      requires HasNames(labels, names)
      modifies this
      ensures series == old(series)[labels := value]
    {
      series := series[labels := value];
    }
  }

  lemma SmallerMap<V>(a: map<Labels, V>, b: map<Labels, V>)
    requires b.Keys <= a.Keys
    ensures |b| <= |a|
  {
    SmallerSet(b.Keys, a.Keys);
  }

  lemma {:induction false} SmallerSet(b: set<Labels>, a: set<Labels>)
    requires b <= a
    ensures |b| <= |a|
  {
    if b != {} {
      var x :| x in b;
      SmallerSet(b - {x}, a - {x});
    }
  }

  // ---------- labels ----------

  datatype Key = Key(namespace: string, pod: string, container: string, containerType: string)

  /** What was last added for a container. */
  datatype Record = Record(image: string, current: string, latest: string, isLatest: bool, at: int)

  function FullLabels(k: Key, image: string, current: string, latest: string): Labels {
    Labels(Some(k.namespace), Some(k.pod), Some(k.container), Some(k.containerType),
           Some(image), Some(current), Some(latest))
  }

  function LastUpdatedLabels(k: Key, image: string): Labels {
    Labels(Some(k.namespace), Some(k.pod), Some(k.container), Some(k.containerType), Some(image), None, None)
  }

  function PodPartialLabels(namespace: string, pod: string): Labels {
    Labels(Some(namespace), Some(pod), None, None, None, None, None)
  }

  function ContainerPartialLabels(k: Key): Labels {
    Labels(Some(k.namespace), Some(k.pod), Some(k.container), Some(k.containerType), None, None, None)
  }

  /** The labels of the duration and error series: no container type among them. */
  function LookupLabels(namespace: string, pod: string, container: string, image: string): Labels {
    Labels(Some(namespace), Some(pod), Some(container), None, Some(image), None, None)
  }

  predicate HasKey(s: Labels) {
    s.namespace.Some? && s.pod.Some? && s.container.Some? && s.containerType.Some?
  }

  function KeyOf(s: Labels): Key
    requires HasKey(s)
  {
    Key(s.namespace.value, s.pod.value, s.container.value, s.containerType.value)
  }

  // ---------- the abstract map ----------

  type Images = map<Key, Record>

  function Flag(isLatest: bool): real {
    if isLatest then 1.0 else 0.0
  }

  /** One series: its labels and its value. */
  datatype Row<V> = Row(labels: Labels, value: V)

  function VersionRow(k: Key, r: Record): Row<real> {
    Row(FullLabels(k, r.image, r.current, r.latest), Flag(r.isLatest))
  }

  function CheckedRow(k: Key, r: Record): Row<real> {
    Row(LastUpdatedLabels(k, r.image), r.at as real)
  }

  type RowOf<!V> = (Key, Record) -> Row<V>

  /** A row's labels carry its container's key. */
  ghost predicate Keyed<V(!new)>(row: RowOf<V>) {
    forall k, r :: HasKey(row(k, r).labels) && KeyOf(row(k, r).labels) == k
  }

  /** The vec holds exactly the rows of the map. */
  ghost predicate Mirrors<V(!new)>(series: map<Labels, V>, images: Images, row: RowOf<V>) {
    && (forall k :: k in images ==> HasRow(series, row(k, images[k])))
    && (forall s :: s in series ==> FromImages(s, images, row))
  }

  predicate HasRow<V(==)>(series: map<Labels, V>, row: Row<V>) {
    row.labels in series && series[row.labels] == row.value
  }

  predicate FromImages<V>(s: Labels, images: Images, row: RowOf<V>) {
    HasKey(s) && KeyOf(s) in images && s == row(KeyOf(s), images[KeyOf(s)]).labels
  }

  /** Both vecs represent one map. */
  ghost predicate Represents(version: map<Labels, real>, checked: map<Labels, real>, images: Images) {
    Mirrors(version, images, VersionRow) && Mirrors(checked, images, CheckedRow)
  }

  lemma RowsAreKeyed()
    ensures Keyed(VersionRow) && Keyed(CheckedRow)
  {
  }

  lemma ContainerMatch(s: Labels, k: Key)
    ensures Matches(s, ContainerPartialLabels(k)) <==> HasKey(s) && KeyOf(s) == k
  {
  }

  lemma PodMatch(s: Labels, namespace: string, pod: string)
    requires HasKey(s)
    ensures Matches(s, PodPartialLabels(namespace, pod)) <==> KeyOf(s).namespace == namespace && KeyOf(s).pod == pod
  {
  }

  lemma MirrorWithoutKey<V(!new)>(series: map<Labels, V>, images: Images, row: RowOf<V>, k: Key)
    requires Keyed(row) && Mirrors(series, images, row)
    ensures Mirrors(Remaining(series, ContainerPartialLabels(k)), images - {k}, row)
  {
    hide Matches, HasKey, KeyOf, ContainerPartialLabels;
    var rest := Remaining(series, ContainerPartialLabels(k));
    forall j | j in images - {k} ensures HasRow(rest, row(j, images[j])) {
      assert HasRow(series, row(j, images[j]));
      ContainerMatch(row(j, images[j]).labels, k);
    }
    forall s | s in rest ensures FromImages(s, images - {k}, row) {
      assert FromImages(s, images, row);
      ContainerMatch(s, k);
    }
  }

  lemma MirrorWithoutPod<V(!new)>(series: map<Labels, V>, images: Images, row: RowOf<V>, namespace: string, pod: string)
    requires Keyed(row) && Mirrors(series, images, row)
    ensures Mirrors(Remaining(series, PodPartialLabels(namespace, pod)), WithoutPod(images, namespace, pod), row)
  {
    hide Matches, HasKey, KeyOf, PodPartialLabels;
    var rest := Remaining(series, PodPartialLabels(namespace, pod));
    forall j | j in WithoutPod(images, namespace, pod) ensures HasRow(rest, row(j, images[j])) {
      assert HasRow(series, row(j, images[j]));
      PodMatch(row(j, images[j]).labels, namespace, pod);
    }
    forall s | s in rest ensures FromImages(s, WithoutPod(images, namespace, pod), row) {
      assert FromImages(s, images, row);
      PodMatch(s, namespace, pod);
    }
  }

  lemma MirrorWithKey<V(!new)>(series: map<Labels, V>, images: Images, row: RowOf<V>, k: Key, r: Record)
    requires Keyed(row) && Mirrors(series, images, row) && k !in images
    ensures Mirrors(series[row(k, r).labels := row(k, r).value], images[k := r], row)
  {
    var more := series[row(k, r).labels := row(k, r).value];
    hide HasKey, KeyOf;
    assert KeyOf(row(k, r).labels) == k;
    var bigger := images[k := r];
    forall j | j in bigger ensures HasRow(more, row(j, bigger[j])) {
      if j != k {
        assert HasRow(series, row(j, images[j]));
        assert KeyOf(row(j, images[j]).labels) == j;
      }
    }
    forall s | s in more ensures FromImages(s, bigger, row) {
      if s != row(k, r).labels { assert FromImages(s, images, row); }
    }
  }

  /** One series per container in each vec, the same containers with the same image in both, values 0 or 1. */
  lemma OneSeriesPerContainer(version: map<Labels, real>, checked: map<Labels, real>, images: Images, s: Labels)
    requires Represents(version, checked, images)
    requires s in version
    ensures HasKey(s) && (version[s] == 0.0 || version[s] == 1.0)
    ensures forall t :: t in version && HasKey(t) && KeyOf(t) == KeyOf(s) ==> t == s
    ensures exists c :: c in checked && HasKey(c) && KeyOf(c) == KeyOf(s)
    ensures forall c :: c in checked && HasKey(c) && KeyOf(c) == KeyOf(s) ==> c.image == s.image
    ensures forall c, d :: (c in checked && HasKey(c) && KeyOf(c) == KeyOf(s) &&
                            d in checked && HasKey(d) && KeyOf(d) == KeyOf(s)) ==> c == d
  {
    assert FromImages(s, images, VersionRow);
    var k := KeyOf(s);
    assert HasRow(version, VersionRow(k, images[k])) && HasRow(checked, CheckedRow(k, images[k]));
    assert KeyOf(CheckedRow(k, images[k]).labels) == k;
    forall t | t in version && HasKey(t) && KeyOf(t) == k ensures t == s { assert FromImages(t, images, VersionRow); }
    forall c | c in checked && HasKey(c) && KeyOf(c) == k
      ensures c.image == s.image && c == CheckedRow(k, images[k]).labels
    {
      assert FromImages(c, images, CheckedRow);
    }
  }

  function WithoutPod(images: Images, namespace: string, pod: string): Images {
    map k | k in images && !(k.namespace == namespace && k.pod == pod) :: images[k]
  }

  // ---------- operations ----------

  datatype Operation =
    | Add(key: Key, record: Record)
    | Remove(key: Key)
    | RemoveWholePod(namespace: string, pod: string)

  /** What each method does to the abstract map. */
  function After(images: Images, op: Operation): Images {
    match op
    case Add(k, r) => images[k := r]
    case Remove(k) => images - {k}
    case RemoveWholePod(n, p) => WithoutPod(images, n, p)
  }

  function Run(ops: seq<Operation>): Images {
    if ops == [] then map[] else After(Run(ops[..|ops| - 1]), ops[|ops| - 1])
  }

  // ---------- the store ----------

  class Metrics {
    const version: Vec<real>
    const checked: Vec<real>
    const duration: Vec<real>
    const errors: Vec<nat>
    /** What the version and last-checked vecs represent. */
    ghost var images: Images

    constructor ()
      ensures Valid() && images == map[]
      ensures fresh(version) && fresh(checked) && fresh(duration) && fresh(errors)
      ensures duration.series == map[] && errors.series == map[]
    {
      version := new Vec(VersionNames);
      checked := new Vec(CheckedNames);
      duration := new Vec(LookupNames);
      errors := new Vec(LookupNames);
      images := map[];
    }

    ghost predicate Valid()
      reads this, version, checked, duration, errors
    {
      && version != checked && version != duration && checked != duration
      && version.names == VersionNames && checked.names == CheckedNames
      && duration.names == LookupNames && errors.names == LookupNames
      && Represents(version.series, checked.series, images)
      && (forall s :: s in duration.series ==> HasNames(s, LookupNames))
      && (forall s :: s in errors.series ==> HasNames(s, LookupNames))
    }

    /** AddImage: the container's old series go, one new series per vec comes. */
    method AddImage(k: Key, r: Record)
      requires Valid()
      modifies this, version, checked
      ensures Valid()
      ensures images == old(images)[k := r]
    {
      hide Mirrors, Remaining, ContainerPartialLabels;
      var labels := ContainerPartialLabels(k);
      var _ := version.DeletePartialMatch(labels);
      var _ := checked.DeletePartialMatch(labels);
      RowsAreKeyed();
      MirrorWithoutKey(old(version.series), images, VersionRow, k);
      MirrorWithoutKey(old(checked.series), images, CheckedRow, k);
      MirrorWithKey(version.series, images - {k}, VersionRow, k, r);
      MirrorWithKey(checked.series, images - {k}, CheckedRow, k, r);
      assert (images - {k})[k := r] == images[k := r];
      version.Set(FullLabels(k, r.image, r.current, r.latest), if r.isLatest then 1.0 else 0.0);
      checked.Set(LastUpdatedLabels(k, r.image), r.at as real);
      images := images[k := r];
    }

    /** RemoveImage: the two deletes on the lookup vecs match nothing, for want of a container type. */
    method RemoveImage(k: Key)
      requires Valid()
      modifies this, version, checked, duration, errors
      ensures Valid()
      ensures images == old(images) - {k}
      ensures duration.series == old(duration.series) && errors.series == old(errors.series)
    {
      hide Mirrors, Remaining;
      var labels := ContainerPartialLabels(k);
      var total := version.DeletePartialMatch(labels);
      var n := duration.DeletePartialMatch(labels);
      total := total + n;
      n := checked.DeletePartialMatch(labels);
      total := total + n;
      n := errors.DeletePartialMatch(labels);
      total := total + n;
      RowsAreKeyed();
      MirrorWithoutKey(old(version.series), images, VersionRow, k);
      MirrorWithoutKey(old(checked.series), images, CheckedRow, k);
      LookupSeriesNeverMatch(old(duration.series), k);
      LookupSeriesNeverMatch(old(errors.series), k);
      images := images - {k};
    }

    /** RemovePod: every series of the pod goes from all four vecs, and nothing else does. */
    method RemovePod(namespace: string, pod: string)
      requires Valid()
      modifies this, version, checked, duration, errors
      ensures Valid()
      ensures images == WithoutPod(old(images), namespace, pod)
      ensures duration.series == WithoutPodSeries(old(duration.series), namespace, pod)
      ensures errors.series == WithoutPodSeries(old(errors.series), namespace, pod)
    {
      hide Mirrors, Remaining, WithoutPod;
      var labels := PodPartialLabels(namespace, pod);
      var total := version.DeletePartialMatch(labels);
      var n := duration.DeletePartialMatch(labels);
      total := total + n;
      n := checked.DeletePartialMatch(labels);
      total := total + n;
      n := errors.DeletePartialMatch(labels);
      total := total + n;
      RowsAreKeyed();
      MirrorWithoutPod(old(version.series), images, VersionRow, namespace, pod);
      MirrorWithoutPod(old(checked.series), images, CheckedRow, namespace, pod);
      PodSeriesMatch(old(duration.series), namespace, pod);
      PodSeriesMatch(old(errors.series), namespace, pod);
      images := WithoutPod(images, namespace, pod);
    }

    /**
     Any sequence of these operations on an empty store: afterwards each container's version series says what was
     added last, and is 1 exactly for the latest.
     */
    method Execute(ops: seq<Operation>)
      requires Valid() && images == map[]
      modifies this, version, checked, duration, errors
      ensures Valid() && images == Run(ops)
      ensures forall i, k, r :: LastAdded(ops, i, k, r) ==>
        var s := Labels(Some(k.namespace), Some(k.pod), Some(k.container), Some(k.containerType),
                        Some(r.image), Some(r.current), Some(r.latest));
        && s in version.series
        && (version.series[s] == 1.0 <==> r.isLatest) && (version.series[s] == 0.0 <==> !r.isLatest)
    {
      hide Mirrors, Represents;
      for i := 0 to |ops|
        invariant Valid() && images == Run(ops[..i])
      {
        match ops[i] {
          case Add(k, r) => AddImage(k, r);
          case Remove(k) => RemoveImage(k);
          case RemoveWholePod(n, p) => RemovePod(n, p);
        }
        assert ops[..i + 1][..i] == ops[..i];
      }
      assert ops[..|ops|] == ops;
      forall i, k, r | LastAdded(ops, i, k, r)
        ensures var s := Labels(Some(k.namespace), Some(k.pod), Some(k.container), Some(k.containerType),
                                Some(r.image), Some(r.current), Some(r.latest));
          && s in version.series
          && (version.series[s] == 1.0 <==> r.isLatest) && (version.series[s] == 0.0 <==> !r.isLatest)
      {
        SeriesSayLastAdded(version.series, checked.series, ops, i, k, r);
      }
    }

    /** RegisterImageDuration; podExists is what the pod reader says inside the lock. */
    method RegisterImageDuration(podExists: bool, namespace: string, pod: string, container: string, image: string,
                                 seconds: real)
      requires Valid()
      modifies duration
      ensures Valid()
      ensures var s := Labels(Some(namespace), Some(pod), Some(container), None, Some(image), None, None);
        duration.series == if podExists then old(duration.series)[s := seconds] else old(duration.series)
    {
      hide Mirrors;
      if !podExists {
        return;
      }
      duration.Set(LookupLabels(namespace, pod, container, image), seconds);
    }

    /** ReportError. */
    method ReportError(podExists: bool, namespace: string, pod: string, container: string, image: string)
      requires Valid()
      modifies errors
      ensures Valid()
      ensures var s := Labels(Some(namespace), Some(pod), Some(container), None, Some(image), None, None);
        errors.series ==
          if podExists then old(errors.series)[s := (if s in old(errors.series) then old(errors.series)[s] else 0) + 1]
          else old(errors.series)
    {
      hide Mirrors;
      if !podExists {
        return;
      }
      var s := LookupLabels(namespace, pod, container, image);
      errors.Set(s, (if s in errors.series then errors.series[s] else 0) + 1);
    }
  }

  lemma LookupSeriesNeverMatch<V>(series: map<Labels, V>, k: Key)
    requires forall s :: s in series ==> HasNames(s, LookupNames)
    ensures Remaining(series, ContainerPartialLabels(k)) == series
  {
  }

  /** The series whose namespace and pod are not both the given ones. */
  function WithoutPodSeries<V>(series: map<Labels, V>, namespace: string, pod: string): map<Labels, V> {
    map s | s in series && !OfPod(s, namespace, pod) :: series[s]
  }

  predicate OfPod(s: Labels, namespace: string, pod: string) {
    s.namespace == Some(namespace) && s.pod == Some(pod)
  }

  lemma PodSeriesMatch<V>(series: map<Labels, V>, namespace: string, pod: string)
    ensures Remaining(series, PodPartialLabels(namespace, pod)) == WithoutPodSeries(series, namespace, pod)
  {
  }

  // ---------- whole runs ----------

  predicate Removes(op: Operation, k: Key) {
    match op
    case Add(_, _) => false
    case Remove(j) => j == k
    case RemoveWholePod(n, p) => k.namespace == n && k.pod == p
  }

  /** Operation i added this record for k, and no later one added or removed k. */
  predicate LastAdded(ops: seq<Operation>, i: nat, k: Key, r: Record) {
    && i < |ops| && ops[i] == Add(k, r)
    && forall j :: i < j < |ops| ==> !Removes(ops[j], k) && !(ops[j].Add? && ops[j].key == k)
  }

  /** After any run a container maps to a record exactly when that record was added last and not removed since. */
  lemma {:induction false} RunHoldsLastAdded(ops: seq<Operation>, k: Key, r: Record)
    ensures (k in Run(ops) && Run(ops)[k] == r) <==> exists i: nat :: LastAdded(ops, i, k, r)
  {
    if ops != [] {
      var before, op := ops[..|ops| - 1], ops[|ops| - 1];
      RunHoldsLastAdded(before, k, r);
      if Removes(op, k) || (op.Add? && op.key == k) {
        assert forall i: nat :: LastAdded(ops, i, k, r) ==> i == |ops| - 1;
        assert op == Add(k, r) ==> LastAdded(ops, |ops| - 1, k, r);
      } else {
        assert forall i: nat :: LastAdded(before, i, k, r) ==> LastAdded(ops, i, k, r);
        assert forall i: nat :: LastAdded(ops, i, k, r) ==> i < |before| && LastAdded(before, i, k, r);
      }
    }
  }

  /**
   What the series say after any run, whichever way they came about: the record that was added last for a container,
   and not removed since, has one version series with its three strings, which is 1 for the latest and 0 for an
   outdated image, and one last-checked series with the time of the check.
   */
  lemma SeriesSayLastAdded(version: map<Labels, real>, checked: map<Labels, real>, ops: seq<Operation>,
                           i: nat, k: Key, r: Record)
    requires Represents(version, checked, Run(ops)) && LastAdded(ops, i, k, r)
    ensures var s := Labels(Some(k.namespace), Some(k.pod), Some(k.container), Some(k.containerType),
                            Some(r.image), Some(r.current), Some(r.latest));
      && s in version && (version[s] == 1.0 <==> r.isLatest) && (version[s] == 0.0 <==> !r.isLatest)
    ensures var s := Labels(Some(k.namespace), Some(k.pod), Some(k.container), Some(k.containerType),
                            Some(r.image), None, None);
      s in checked && checked[s] == r.at as real
  {
    hide LastAdded;
    RunHoldsLastAdded(ops, k, r);
    assert HasRow(version, VersionRow(k, r)) && HasRow(checked, CheckedRow(k, r));
  }

  /** And there are no other series. */
  lemma NoOtherSeries(version: map<Labels, real>, checked: map<Labels, real>, ops: seq<Operation>, s: Labels)
    requires Represents(version, checked, Run(ops)) && (s in version || s in checked)
    ensures exists i, k, r ::
      && LastAdded(ops, i, k, r)
      && s.namespace == Some(k.namespace) && s.pod == Some(k.pod) && s.container == Some(k.container)
      && s.containerType == Some(k.containerType) && s.image == Some(r.image)
      && (s in version ==> s.currentVersion == Some(r.current) && s.latestVersion == Some(r.latest))
  {
    hide LastAdded, Run;
    assert FromImages(s, Run(ops), VersionRow) || FromImages(s, Run(ops), CheckedRow);
    var k, r := KeyOf(s), Run(ops)[KeyOf(s)];
    RunHoldsLastAdded(ops, k, r);
  }
}
