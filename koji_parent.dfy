/**
 * The `koji_parent` pre-build plugin of atomic_reactor: it reads the
 * parent image's component, version and release labels, forms the
 * parent's NVR (name-version-release), waits for Koji to know a build of
 * that NVR, and fails the build when Koji never does.
 */
module KojiParent {
  import opened Wrappers
  import opened Text

  /** The three label kinds the plugin looks up (`Labels.LABEL_TYPE_*`). */
  datatype LabelType = Component | Version | Release

  /** The order in which the plugin looks the labels up. */
  const LabelNames: seq<LabelType> := [Component, Version, Release]

  /** The value of the parent's labels as `Labels` resolves them: a label kind is present or not. */
  type Labels = map<LabelType, string>

  /** A build record as Koji's `getBuild` returns it. */
  datatype BuildInfo = BuildInfo(fields: map<string, string>)

  /** The key of the plugin's result. */
  const ResultKey := "parent-image-koji-build"

  /** The exception the plugin raises. */
  datatype PluginError = BuildNotFound  // ValueError('Parent image Koji build NOT found!')

  /** `Labels(config['Labels'] or {})`: a missing (None) or empty label set gives no labels. */
  function LabelsOf(configLabels: Option<Labels>): Labels
  {
    if configLabels.None? then map[] else configLabels.value
  }

  /** The values found for `names`, in order, skipping those without a label. */
  function FoundValues(labels: Labels, names: seq<LabelType>): (r: seq<string>)
    ensures |r| <= |names|
    decreases |names|
  {
    if names == [] then []
    else
      var init := FoundValues(labels, names[..|names| - 1]);
      var last := names[|names| - 1];
      if last in labels then init + [labels[last]] else init
  }

  /** Every label is found exactly when as many values are found as there are names. */
  lemma {:induction false} FoundValuesComplete(labels: Labels, names: seq<LabelType>)
    ensures |FoundValues(labels, names)| == |names| <==> forall k :: 0 <= k < |names| ==> names[k] in labels
    ensures |FoundValues(labels, names)| == |names| ==>
      forall k :: 0 <= k < |names| ==> FoundValues(labels, names)[k] == labels[names[k]]
    decreases |names|
  {
    if names != [] {
      var init := names[..|names| - 1];
      FoundValuesComplete(labels, init);
      assert forall k :: 0 <= k < |init| ==> init[k] == names[k];
    }
  }

  /** The parent image's NVR: "component-version-release" when all three labels are present. */
  function NvrOf(labels: Labels): (r: Option<string>)
  {
    var values := FoundValues(labels, LabelNames);
    if |values| != |LabelNames| then None else Some(Join(values, "-"))
  }

  /** The NVR exists exactly when all three labels do, and is their values joined by "-". */
  lemma {:induction false} NvrOfSpec(labels: Labels)
    ensures NvrOf(labels).Some? <==> Component in labels && Version in labels && Release in labels
    ensures NvrOf(labels).Some? ==>
      NvrOf(labels).value == labels[Component] + "-" + labels[Version] + "-" + labels[Release]
  {
    FoundValuesComplete(labels, LabelNames);
    var values := FoundValues(labels, LabelNames);
    if |values| == 3 {
      assert values == [labels[Component], labels[Version], labels[Release]];
      JoinCons(labels[Component], [labels[Version], labels[Release]], "-");
      JoinCons(labels[Version], [labels[Release]], "-");
    } else {
      assert !(forall k :: 0 <= k < 3 ==> LabelNames[k] in labels);
    }
  }

  /** A parent with no labels (None or an empty map) has no NVR. */
  lemma {:induction false} NoLabelsNoNvr(configLabels: Option<Labels>)
    requires configLabels.None? || configLabels.value == map[]
    ensures NvrOf(LabelsOf(configLabels)).None?
  {
    NvrOfSpec(LabelsOf(configLabels));
  }

  /** The index of the first reply that names a build. */
  function FirstFound(replies: seq<Option<BuildInfo>>): (r: Option<nat>)
    ensures r.None? <==> forall i :: 0 <= i < |replies| ==> replies[i].None?
    ensures r.Some? ==> r.value < |replies| && replies[r.value].Some?
    ensures r.Some? ==> forall i :: 0 <= i < r.value ==> replies[i].None?
    decreases |replies|
  {
    if replies == [] then None
    else if replies[0].Some? then Some(0)
    else
      match FirstFound(replies[1..])
      case None =>
        assert forall i :: 1 <= i < |replies| ==> replies[i] == replies[1..][i - 1];
        None
      case Some(k) =>
        assert forall i :: 1 <= i < k + 1 ==> replies[i] == replies[1..][i - 1];
        Some(k + 1)
  }

  /** How many times the wait asks Koji: up to and including the first reply naming a build, else every reply. */
  function Polls(replies: seq<Option<BuildInfo>>): (n: nat)
    ensures n <= |replies|
  {
    match FirstFound(replies)
    case None => |replies|
    case Some(i) => i + 1
  }

  /** The stored build after the wait: the last reply asked for, or `before` when Koji was never asked. */
  function AfterPolling(before: Option<BuildInfo>, replies: seq<Option<BuildInfo>>): (r: Option<BuildInfo>)
  {
    if Polls(replies) == 0 then before else replies[Polls(replies) - 1]
  }

  /** The wait ends with a build exactly when some reply within the timeout names one, and then with the first such. */
  lemma {:induction false} AfterPollingSpec(before: Option<BuildInfo>, replies: seq<Option<BuildInfo>>)
    requires replies != []
    ensures AfterPolling(before, replies).Some? <==> exists i :: 0 <= i < |replies| && replies[i].Some?
    ensures AfterPolling(before, replies).Some? ==> AfterPolling(before, replies) == replies[FirstFound(replies).value]
  {
  }

  /** `n` copies of `x`. */
  function Repeat<T>(x: T, n: nat): (r: seq<T>)
    ensures |r| == n && forall i :: 0 <= i < n ==> r[i] == x
  {
    if n == 0 then [] else Repeat(x, n - 1) + [x]
  }

  class KojiParentPlugin {
    /** `_parent_image_nvr`. */
    var parentImageNvr: Option<string>
    /** `_parent_image_build`. */
    var parentImageBuild: Option<BuildInfo>
    /** The NVRs passed to Koji's `getBuild`, in order. */
    var requested: seq<Option<string>>

    constructor ()
      ensures parentImageNvr == None && parentImageBuild == None && requested == []
    {
      parentImageNvr := None;
      parentImageBuild := None;
      requested := [];
    }

    /**
     * `detect_parent_image_nvr`: look the three labels up in order; with
     * all three, store their values joined by "-" and return true, else
     * store None and return false.
     */
    method DetectParentImageNvr(configLabels: Option<Labels>) returns (detected: bool)
      modifies this`parentImageNvr
      ensures parentImageNvr == NvrOf(LabelsOf(configLabels))
      ensures detected <==> parentImageNvr.Some?
    {
      var labels := LabelsOf(configLabels);
      var labelValues: seq<string> := [];
      for i := 0 to |LabelNames|
        invariant labelValues == FoundValues(labels, LabelNames[..i])
      {
        assert LabelNames[..i + 1][..i] == LabelNames[..i];
        var name := LabelNames[i];
        if name in labels {
          labelValues := labelValues + [labels[name]];
        }
      }
      assert LabelNames[..|LabelNames|] == LabelNames;
      if |labelValues| != |LabelNames| {
        parentImageNvr := None;
        return false;
      }
      parentImageNvr := Some(Join(labelValues, "-"));
      return true;
    }

    /** `has_parent_image_build`: ask Koji for the stored NVR, store its reply, and tell whether it names a build. */
    method HasParentImageBuild(reply: Option<BuildInfo>) returns (found: bool)
      modifies this`parentImageBuild, this`requested
      ensures parentImageBuild == reply
      ensures requested == old(requested) + [parentImageNvr]
      ensures found <==> reply.Some?
    {
      requested := requested + [parentImageNvr];
      parentImageBuild := reply;
      found := parentImageBuild.Some?;
    }

    /**
     * `wait_for_parent_image_build`: ask Koji once per entry of `replies`
     * (the replies that arrive before the timeout) until one names a build.
     */
    method WaitForParentImageBuild(replies: seq<Option<BuildInfo>>)
      modifies this`parentImageBuild, this`requested
      ensures parentImageBuild == AfterPolling(old(parentImageBuild), replies)
      ensures requested == old(requested) + Repeat(parentImageNvr, Polls(replies))
    {
      var i := 0;
      while i < |replies|
        invariant 0 <= i <= |replies|
        invariant forall k :: 0 <= k < i ==> replies[k].None?
        invariant requested == old(requested) + Repeat(parentImageNvr, i)
        invariant parentImageBuild == if i == 0 then old(parentImageBuild) else replies[i - 1]
      {
        var found := HasParentImageBuild(replies[i]);
        if found {
          assert FirstFound(replies) == Some(i);
          return;
        }
        i := i + 1;
      }
      assert FirstFound(replies).None?;
    }

    /** `verify_parent_image_build`: raise when no build is stored. */
    method VerifyParentImageBuild() returns (r: Option<PluginError>)
      ensures r.Some? <==> parentImageBuild.None?
      ensures r.Some? ==> r.value == BuildNotFound
    {
      if parentImageBuild.None? {
        return Some(BuildNotFound);
      }
      return None;
    }

    /** `make_result`: the stored build under the key "parent-image-koji-build". */
    method MakeResult() returns (result: map<string, Option<BuildInfo>>)
      ensures result.Keys == {ResultKey} && result[ResultKey] == parentImageBuild
    {
      result := map[ResultKey := parentImageBuild];
    }

    /**
     * `run`: without an NVR, return None and ask Koji nothing; otherwise
     * wait for the build, raise when none was found, and return it.
     */
    method Run(configLabels: Option<Labels>, replies: seq<Option<BuildInfo>>)
      returns (r: Result<Option<map<string, Option<BuildInfo>>>, PluginError>)
      modifies this`parentImageNvr, this`parentImageBuild, this`requested
      ensures parentImageNvr == NvrOf(LabelsOf(configLabels))
      ensures parentImageNvr.None? ==>
        r == Ok(None) && parentImageBuild == old(parentImageBuild) && requested == old(requested)
      ensures parentImageNvr.Some? ==>
        && parentImageBuild == AfterPolling(old(parentImageBuild), replies)
        && requested == old(requested) + Repeat(parentImageNvr, Polls(replies))
        && (r.Err? <==> parentImageBuild.None?)
        && (r.Err? ==> r.error == BuildNotFound)
        && (r.Ok? ==> r.value == Some(map[ResultKey := parentImageBuild]))
    {
      var detected := DetectParentImageNvr(configLabels);
      if !detected {
        return Ok(None);
      }
      WaitForParentImageBuild(replies);
      var failure := VerifyParentImageBuild();
      if failure.Some? {
        return Err(failure.value);
      }
      var result := MakeResult();
      assert result == map[ResultKey := parentImageBuild];
      return Ok(Some(result));
    }
  }
}
