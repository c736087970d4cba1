/**
 * The job queue the window edits: one record per queued video, appended by
 * "add", deleted by "remove", rewritten by "apply settings to selection".
 * The tree view mirrors the queue row by row, so a selection is a set of
 * queue indices.
 */
module Queue {
  import opened Text
  import Paths
  import Collections

  datatype Job = Job(outFolder: string, prefix: string, path: string,
                     cropW: int, cropH: int, offsetX: int, offsetY: int)

  /** The record `add_videos` queues for one path. */
  function NewJob(path: string, cropW: int, cropH: int, seps: set<char>): Job
  {
    Job(Paths.FileStem(path, seps), "frame", path, cropW, cropH, 0, 0)
  }

  /** The record maker `add_videos` uses with the default crop size. */
  function JobFor(cropW: int, cropH: int, seps: set<char>): string -> Job
  {
    path => NewJob(path, cropW, cropH, seps)
  }

  /** The records queued for `paths`, one per path in the order chosen. */
  function Queued(paths: seq<string>, cropW: int, cropH: int, seps: set<char>): seq<Job>
  {
    Collections.Mapped(JobFor(cropW, cropH, seps), paths)
  }

  /**
   * Adding queues one record per path, in the chosen order: named after the
   * file, with prefix "frame", the given crop size and zero offsets.
   */
  lemma QueuedJobs(paths: seq<string>, cropW: int, cropH: int, seps: set<char>)
    ensures var q := Queued(paths, cropW, cropH, seps);
      |q| == |paths| &&
      forall i :: 0 <= i < |q| ==>
        q[i].path == paths[i] && q[i].outFolder == Paths.FileStem(paths[i], seps) && q[i].prefix == "frame" &&
        q[i].cropW == cropW && q[i].cropH == cropH && q[i].offsetX == 0 && q[i].offsetY == 0
  {
    Collections.MappedLength(JobFor(cropW, cropH, seps), paths);
    forall i | 0 <= i < |paths|
      ensures Queued(paths, cropW, cropH, seps)[i] == NewJob(paths[i], cropW, cropH, seps)
    {
      Collections.MappedAt(JobFor(cropW, cropH, seps), paths, i);
    }
  }

  /** `s` without the entries at the positions in `gone`, the others in their order. */
  function Without<T>(s: seq<T>, gone: set<nat>): seq<T>
    decreases |s|
  {
    if s == [] then []
    else Without(s[..|s| - 1], gone) + (if |s| - 1 in gone then [] else [s[|s| - 1]])
  }

  /** The positions below `n` that are not in `gone`, in increasing order. */
  function KeptIndices(n: nat, gone: set<nat>): (k: seq<nat>)
    ensures forall j :: 0 <= j < |k| ==> k[j] < n && k[j] !in gone
  {
    if n == 0 then [] else KeptIndices(n - 1, gone) + (if n - 1 in gone then [] else [n - 1])
  }

  /** The kept positions are listed in increasing order, and every position outside `gone` is listed. */
  lemma {:induction false} KeptIndicesOrdered(n: nat, gone: set<nat>)
    ensures var k := KeptIndices(n, gone);
      (forall i, j :: 0 <= i < j < |k| ==> k[i] < k[j]) &&
      (forall i :: 0 <= i < n && i !in gone ==> i in k)
  {
    if n > 0 {
      KeptIndicesOrdered(n - 1, gone);
    }
  }

  /**
   * Removing keeps exactly the unselected positions, in their original
   * relative order: entry j of the result is the j-th unselected entry.
   */
  lemma {:induction false} WithoutKeepsOrder<T>(s: seq<T>, gone: set<nat>)
    ensures var k := KeptIndices(|s|, gone);
      |Without(s, gone)| == |k| && forall j :: 0 <= j < |k| ==> Without(s, gone)[j] == s[k[j]]
    decreases |s|
  {
    if s != [] {
      var init, last := s[..|s| - 1], |s| - 1;
      WithoutKeepsOrder(init, gone);
      var k0, w0 := KeptIndices(last, gone), Without(init, gone);
      assert Without(s, gone) == w0 + (if last in gone then [] else [s[last]]);
      assert KeptIndices(|s|, gone) == k0 + (if last in gone then [] else [last]);
      forall j | 0 <= j < |k0|
        ensures w0[j] == s[k0[j]]
      {
        assert init[k0[j]] == s[k0[j]];
      }
    }
  }

  /** Positions at or past the end are not in the sequence: nothing is removed. */
  lemma {:induction false} WithoutNothing<T>(s: seq<T>, gone: set<nat>)
    requires forall d :: d in gone ==> d >= |s|
    ensures Without(s, gone) == s
    decreases |s|
  {
    if s != [] {
      WithoutNothing(s[..|s| - 1], gone);
    }
  }

  /**
   * Why the descending order matters: when every position removed so far
   * lies after `i`, entry `i` is still at index `i`, and deleting it there
   * removes position `i` of the original.
   */
  lemma {:induction false} DeleteBelowRemoved<T>(s: seq<T>, gone: set<nat>, i: nat)
    requires i < |s| && i !in gone
    requires forall d :: d in gone ==> d > i
    ensures |Without(s, gone)| > i
    ensures Without(s, gone + {i}) == Without(s, gone)[..i] + Without(s, gone)[i + 1..]
    decreases |s|
  {
    var m := |s| - 1;
    var s0 := s[..m];
    if m == i {
      WithoutNothing(s0, gone);
      WithoutNothing(s0, gone + {i});
    } else {
      DeleteBelowRemoved(s0, gone, i);
      var w0 := Without(s0, gone);
      var tail := if m in gone then [] else [s[m]];
      assert Without(s, gone) == w0 + tail;
      assert Without(s, gone + {i}) == Without(s0, gone + {i}) + tail;
      assert (w0 + tail)[..i] == w0[..i];
      assert (w0 + tail)[i + 1..] == w0[i + 1..] + tail;
    }
  }

  /** `sorted(indices, reverse=True)` for distinct indices below `n`. */
  function Descending(n: nat, sel: set<nat>): (r: seq<nat>)
    ensures forall i, j :: 0 <= i < j < |r| ==> r[i] > r[j]
    ensures forall x :: x in r <==> x in sel && x < n
    ensures forall i :: 0 <= i < |r| ==> r[i] < n
  {
    if n == 0 then []
    else (if n - 1 in sel then [n - 1] else []) + Descending(n - 1, sel)
  }

  /** The values of the fields under the settings panel. */
  datatype ApplyForm = ApplyForm(cropW: string, cropH: string, offsetX: string, offsetY: string,
                                 useVideoNameFolder: bool, outFolder: string,
                                 useVideoNamePrefix: bool, prefix: string)

  datatype Numbers = Numbers(w: int, h: int, ox: int, oy: int)

  /** The four `int()` parses; any failure is the `ValueError` branch. */
  function ParseNumbers(form: ApplyForm): (r: Wrappers.Option<Numbers>)
    ensures r.Some? <==> ParseInt(form.cropW).Some? && ParseInt(form.cropH).Some? &&
                         ParseInt(form.offsetX).Some? && ParseInt(form.offsetY).Some?
  {
    var w, h := ParseInt(form.cropW), ParseInt(form.cropH);
    var ox, oy := ParseInt(form.offsetX), ParseInt(form.offsetY);
    if w.Some? && h.Some? && ox.Some? && oy.Some? then Wrappers.Some(Numbers(w.value, h.value, ox.value, oy.value))
    else Wrappers.None
  }

  /** The record `apply_settings_to_selected` writes over one selected record. */
  function Reconfigured(j: Job, form: ApplyForm, n: Numbers, seps: set<char>): Job
  {
    var outFolder :=
      if form.useVideoNameFolder then Paths.FileStem(j.path, seps)
      else if form.outFolder == "" then "custom_output" else form.outFolder;
    var prefix := if form.useVideoNamePrefix then Paths.FileStem(j.path, seps) else form.prefix;
    Job(outFolder, prefix, j.path, n.w, n.h, n.ox, n.oy)
  }

  /**
   * Reconfiguring keeps the video path; a typed folder name is never empty,
   * while a typed prefix is taken as it is; and doing it twice is doing it once.
   */
  lemma ReconfiguredShape(j: Job, form: ApplyForm, n: Numbers, seps: set<char>)
    ensures var r := Reconfigured(j, form, n, seps);
      r.path == j.path &&
      (form.useVideoNameFolder ==> r.outFolder == Paths.FileStem(j.path, seps)) &&
      (!form.useVideoNameFolder ==> r.outFolder != "" && (form.outFolder != "" ==> r.outFolder == form.outFolder)) &&
      (!form.useVideoNamePrefix ==> r.prefix == form.prefix) &&
      Reconfigured(r, form, n, seps) == r
  {
  }

  datatype ApplyStatus = NothingSelected | NotIntegers | Applied

  class VideoQueue {
    var jobs: seq<Job>

    constructor ()
      ensures jobs == []
    {
      jobs := [];
    }

    /**
     * `add_videos`: one record per chosen path, named after the file, with
     * prefix "frame", the default crop size and zero offsets. A default size
     * that is not an integer raises before anything is queued.
     */
    method AddVideos(paths: seq<string>, defaultCropW: string, defaultCropH: string, seps: set<char>)
      returns (ok: bool)
      modifies this`jobs
      ensures ok <==> ParseInt(defaultCropW).Some? && ParseInt(defaultCropH).Some?
      ensures !ok ==> jobs == old(jobs)
      ensures ok ==> jobs == old(jobs) + Queued(paths, ParseInt(defaultCropW).value, ParseInt(defaultCropH).value, seps)
    {
      var w, h := ParseInt(defaultCropW), ParseInt(defaultCropH);
      if w.None? || h.None? {
        return false;
      }
      var cropW, cropH := w.value, h.value;
      ghost var before := jobs;
      for k := 0 to |paths|
        invariant jobs == before + Queued(paths[..k], cropW, cropH, seps)
      {
        assert paths[..k + 1][..k] == paths[..k];
        jobs := jobs + [NewJob(paths[k], cropW, cropH, seps)];
      }
      assert paths[..|paths|] == paths;
      return true;
    }

    /**
     * `remove_selected`: the selected indices, largest first, each deleted
     * in place; the result is the queue without exactly those positions.
     */
    method RemoveSelected(selection: seq<nat>)
      requires forall k :: 0 <= k < |selection| ==> selection[k] < |jobs|
      modifies this
      ensures jobs == Without(old(jobs), set k | 0 <= k < |selection| :: selection[k])
    {
      ghost var orig := jobs;
      var gone := set k | 0 <= k < |selection| :: selection[k];
      var order := Descending(|jobs|, gone);
      ghost var removed: set<nat> := {};
      WithoutNothing(orig, {});
      for k := 0 to |order|
        invariant removed == set j | 0 <= j < k :: order[j]
        invariant jobs == Without(orig, removed)
      {
        var index := order[k];
        DeleteBelowRemoved(orig, removed, index);
        jobs := jobs[..index] + jobs[index + 1..];
        removed := removed + {index};
      }
      assert removed == gone;
    }

    /**
     * `apply_settings_to_selected`: with nothing selected, or with a field
     * that is not an integer, the queue is left as it is; otherwise every
     * selected record is reconfigured and every other one kept.
     */
    method ApplySettingsToSelected(selection: seq<nat>, form: ApplyForm, seps: set<char>)
      returns (status: ApplyStatus)
      requires forall k :: 0 <= k < |selection| ==> selection[k] < |jobs|
      modifies this
      ensures status == (if selection == [] then NothingSelected
                         else if ParseNumbers(form).None? then NotIntegers else Applied)
      ensures status != Applied ==> jobs == old(jobs)
      ensures status == Applied ==> |jobs| == |old(jobs)| && forall i :: 0 <= i < |jobs| ==>
        jobs[i] == if i in selection then Reconfigured(old(jobs)[i], form, ParseNumbers(form).value, seps)
                   else old(jobs)[i]
    {
      if selection == [] {
        return NothingSelected;
      }
      var n := ParseNumbers(form);
      if n.None? {
        return NotIntegers;
      }
      ReconfigureAll(selection, form, n.value, seps);
      return Applied;
    }

    /** The loop of `apply_settings_to_selected`, once the four numbers are parsed. */
    method ReconfigureAll(selection: seq<nat>, form: ApplyForm, n: Numbers, seps: set<char>)
      requires forall k :: 0 <= k < |selection| ==> selection[k] < |jobs|
      modifies this
      ensures |jobs| == |old(jobs)|
      ensures forall i :: 0 <= i < |jobs| ==>
        jobs[i] == if i in selection then Reconfigured(old(jobs)[i], form, n, seps) else old(jobs)[i]
    {
      ghost var orig := jobs;
      ghost var touched: set<nat> := {};
      for k := 0 to |selection|
        invariant |jobs| == |orig|
        invariant touched == set j | 0 <= j < k :: selection[j]
        invariant forall i :: 0 <= i < |jobs| ==>
          jobs[i] == if i in touched then Reconfigured(orig[i], form, n, seps) else orig[i]
      {
        var index := selection[k];
        ReconfiguredShape(orig[index], form, n, seps);
        jobs := jobs[index := Reconfigured(jobs[index], form, n, seps)];
        touched := touched + {index};
      }
      assert forall i :: i in touched <==> i in selection;
    }
  }
}
