/**
 * The editor-side action script, `run_action_template.jsx`: it pads numbers,
 * sorts the `.png` files of its input folder, runs the recorded action on each
 * and saves it as `PREFIX_NNNN.png`, and always leaves the completion marker
 * `photoshop_done.tmp` next to itself, reading "done" or "error: <message>".
 */
module ActionScript {
  import opened Wrappers
  import Text
  import Paths
  import Crop
  import Collections

  /* ---------------------------------------------------------------- pad */

  /** `pad(num, size)`: prepend "0" until the text is `size` long. */
  method Pad(num: nat, size: nat) returns (s: string)
    ensures s == Text.Padded(num, size)
  {
    s := Text.DecimalText(num);
    ghost var d, z := s, 0;
    while |s| < size
      invariant s == Text.Zeros(z) + d
      invariant z == 0 || |s| <= size
      decreases size - |s|
    {
      Text.ZerosGrow(z, d);
      s := "0" + s;
      z := z + 1;
    }
  }

  /* ------------------------------------------------------------ sorting */

  /**
   * JavaScript's default `sort` order on the file names: `s` comes no later
   * than `t` when it is a prefix of `t` or is smaller at the first difference.
   */
  predicate Below(s: string, t: string)
    decreases |s|
  {
    |s| == 0 || (|t| > 0 && (s[0] < t[0] || (s[0] == t[0] && Below(s[1..], t[1..]))))
  }

  lemma {:induction false} BelowTotal(s: string, t: string)
    ensures Below(s, t) || Below(t, s)
    decreases |s|
  {
    if |s| > 0 && |t| > 0 && s[0] == t[0] {
      BelowTotal(s[1..], t[1..]);
    }
  }

  lemma {:induction false} BelowAntisymmetric(s: string, t: string)
    requires Below(s, t) && Below(t, s)
    ensures s == t
    decreases |s|
  {
    if |s| > 0 {
      BelowAntisymmetric(s[1..], t[1..]);
      assert s == [s[0]] + s[1..] && t == [t[0]] + t[1..];
    }
  }

  lemma {:induction false} BelowTransitive(s: string, t: string, u: string)
    requires Below(s, t) && Below(t, u)
    ensures Below(s, u)
    decreases |s|
  {
    if |s| > 0 && s[0] == t[0] && t[0] == u[0] {
      BelowTransitive(s[1..], t[1..], u[1..]);
    }
  }

  /** Each name is no later than the next one. */
  predicate Ordered(names: seq<string>)
  {
    forall k :: 0 < k < |names| ==> Below(names[k - 1], names[k])
  }

  /** An ordered list is ordered between any two positions, not only neighbours. */
  lemma {:induction false} OrderedPairwise(names: seq<string>, i: nat, j: nat)
    requires Ordered(names) && i <= j < |names|
    ensures Below(names[i], names[j])
    decreases j - i
  {
    if i == j {
      BelowTotal(names[i], names[i]);
    } else {
      OrderedPairwise(names, i, j - 1);
      BelowTransitive(names[i], names[j - 1], names[j]);
    }
  }

  /** `fileList.sort()`: an insertion sort by adjacent swaps, in place. */
  method SortNames(a: array<string>)
    modifies a
    ensures Ordered(a[..])
    ensures multiset(a[..]) == multiset(old(a[..]))
  {
    var i := 1;
    while i < a.Length
      invariant 1 <= i || a.Length == 0
      invariant i <= a.Length || a.Length == 0
      invariant forall k :: 0 < k < i && k < a.Length ==> Below(a[k - 1], a[k])
      invariant multiset(a[..]) == multiset(old(a[..]))
    {
      Sink(a, i);
      i := i + 1;
    }
  }

  /** Moves `a[i]` left past every larger neighbour, so that `a[..i + 1]` is ordered. */
  method Sink(a: array<string>, i: nat)
    requires i < a.Length
    requires forall k :: 0 < k < i ==> Below(a[k - 1], a[k])
    modifies a
    ensures forall k :: 0 < k <= i ==> Below(a[k - 1], a[k])
    ensures forall k :: i < k < a.Length ==> a[k] == old(a[k])
    ensures multiset(a[..]) == multiset(old(a[..]))
  {
    var j := i;
    while j > 0 && !Below(a[j - 1], a[j])
      invariant 0 <= j <= i
      invariant forall k :: 0 < k < j ==> Below(a[k - 1], a[k])
      invariant forall k :: j + 1 < k <= i ==> Below(a[k - 1], a[k])
      invariant 0 < j < i ==> Below(a[j - 1], a[j + 1])
      invariant j < i ==> Below(a[j], a[j + 1])
      invariant forall k :: i < k < a.Length ==> a[k] == old(a[k])
      invariant multiset(a[..]) == multiset(old(a[..]))
    {
      BelowTotal(a[j - 1], a[j]);
      Swap(a, j - 1);
      j := j - 1;
    }
  }

  /** Exchanges `a[j]` and `a[j + 1]`. */
  method Swap(a: array<string>, j: nat)
    requires j + 1 < a.Length
    modifies a
    ensures a[j] == old(a[j + 1]) && a[j + 1] == old(a[j])
    ensures forall k :: 0 <= k < a.Length && k != j && k != j + 1 ==> a[k] == old(a[k])
    ensures multiset(a[..]) == multiset(old(a[..]))
  {
    ghost var s := a[..];
    a[j], a[j + 1] := a[j + 1], a[j];
    assert a[..] == s[..j] + [s[j + 1], s[j]] + s[j + 2..];
    assert s == s[..j] + [s[j], s[j + 1]] + s[j + 2..];
  }

  /* ------------------------------------------------------------- naming */

  /** The name the i-th (0-based) sorted input is saved under. */
  function OutputName(prefix: string, i: nat): string
  {
    prefix + "_" + Text.Padded(i + 1, 4) + ".png"
  }

  /** Different positions are saved under different names, so no output overwrites another. */
  lemma OutputNameInjective(prefix: string, i: nat, j: nat)
    requires OutputName(prefix, i) == OutputName(prefix, j)
    ensures i == j
  {
    var a := Text.Padded(i + 1, 4);
    var b := Text.Padded(j + 1, 4);
    var x := OutputName(prefix, i);
    var p := |prefix| + 1;
    assert |a| == |x| - p - 4 == |b|;
    assert a == x[p..p + |a|];
    assert b == x[p..p + |b|];
    Text.PaddedInjective(i + 1, j + 1, 4);
  }

  /** Every output name passes the `.png` filter the next stage of the pipeline applies. */
  lemma OutputNameIsPng(prefix: string, i: nat)
    ensures Paths.IsPng(OutputName(prefix, i))
  {
    var x := OutputName(prefix, i);
    assert x[|x| - 4..] == ".png";
  }

  /* ---------------------------------------------------------- the run */

  /** What the script does, in the order it does it. */
  datatype Event = CreateFolder | Open(name: string) | Save(name: string) | WriteMarker(text: string)

  const MarkerName := "photoshop_done.tmp"
  const DoneText := "done"

  /** `inputFolder.getFiles("*.png")`: the folder entries the mask keeps, in listing order. */
  function PngEntries(listing: seq<string>): (names: seq<string>)
    ensures forall n :: n in names ==> n in listing && Paths.IsPng(n)
    ensures forall n :: n in listing && Paths.IsPng(n) ==> n in names
  {
    if listing == [] then []
    else if Paths.IsPng(listing[0]) then [listing[0]] + PngEntries(listing[1..])
    else PngEntries(listing[1..])
  }

  /**
   * The position of the first document whose open/action/save step fails,
   * or the number of documents when every step succeeds.
   */
  function FirstFailure(docs: seq<Crop.Frame>, step: Crop.Frame -> Result<Crop.Frame, string>, i: nat): (f: nat)
    requires i <= |docs|
    ensures i <= f <= |docs|
    ensures forall k :: i <= k < f ==> step(docs[k]).Success?
    ensures f < |docs| ==> step(docs[f]).Failure?
    decreases |docs| - i
  {
    if i == |docs| || step(docs[i]).Failure? then i else FirstFailure(docs, step, i + 1)
  }

  /**
   * The files the first `n` documents add to the output folder: each one whose
   * step succeeded, under its own number.
   */
  function Saved(prefix: string, docs: seq<Crop.Frame>, step: Crop.Frame -> Result<Crop.Frame, string>, n: nat): map<string, Crop.Frame>
    requires n <= |docs|
  {
    if n == 0 then map[]
    else match step(docs[n - 1])
      case Success(out) => Saved(prefix, docs, step, n - 1)[OutputName(prefix, n - 1) := out]
      case Failure(_) => Saved(prefix, docs, step, n - 1)
  }

  /** Every successful document among the first `n` is in the folder under its own number, with the image its step produced. */
  lemma {:induction false} SavedHas(prefix: string, docs: seq<Crop.Frame>, step: Crop.Frame -> Result<Crop.Frame, string>, n: nat)
    requires n <= |docs|
    ensures forall k :: 0 <= k < n && step(docs[k]).Success? ==>
      OutputName(prefix, k) in Saved(prefix, docs, step, n) &&
      Saved(prefix, docs, step, n)[OutputName(prefix, k)] == step(docs[k]).value
  {
    if n > 0 {
      var last := n - 1;
      SavedHas(prefix, docs, step, last);
      forall k | 0 <= k < last
        ensures OutputName(prefix, k) != OutputName(prefix, last)
      {
        if OutputName(prefix, k) == OutputName(prefix, last) {
          OutputNameInjective(prefix, k, last);
        }
      }
    }
  }

  /** Nothing else is in the folder: every saved name is the number of a successful document among the first `n`. */
  lemma {:induction false} SavedOnly(prefix: string, docs: seq<Crop.Frame>, step: Crop.Frame -> Result<Crop.Frame, string>, n: nat)
    requires n <= |docs|
    ensures forall name :: name in Saved(prefix, docs, step, n) ==>
      exists k :: 0 <= k < n && step(docs[k]).Success? && name == OutputName(prefix, k)
  {
    if n > 0 {
      SavedOnly(prefix, docs, step, n - 1);
    }
  }

  /** The open/save events of the first `n` documents, which all succeeded. */
  function FileEvents(prefix: string, order: seq<string>, n: nat): seq<Event>
    requires n <= |order|
  {
    if n == 0 then [] else FileEvents(prefix, order, n - 1) + [Open(order[n - 1]), Save(OutputName(prefix, n - 1))]
  }

  /** The marker text: "done", or "error: " and the message of the failed step. */
  function MarkerText(docs: seq<Crop.Frame>, step: Crop.Frame -> Result<Crop.Frame, string>): string
  {
    var f := FirstFailure(docs, step, 0);
    if f == |docs| then DoneText else "error: " + step(docs[f]).error
  }

  /** The events of the document loop: every success opened and saved, then the failing one opened. */
  function LoopEvents(prefix: string, order: seq<string>, docs: seq<Crop.Frame>,
                      step: Crop.Frame -> Result<Crop.Frame, string>): seq<Event>
    requires |docs| == |order|
  {
    var f := FirstFailure(docs, step, 0);
    FileEvents(prefix, order, f) + (if f < |order| then [Open(order[f])] else [])
  }

  /** The whole event trace of one run, from the folder check to the marker. */
  function Trace(existed: bool, prefix: string, order: seq<string>, docs: seq<Crop.Frame>,
                 step: Crop.Frame -> Result<Crop.Frame, string>): seq<Event>
    requires |docs| == |order|
  {
    (if existed then [] else [CreateFolder])
    + (LoopEvents(prefix, order, docs, step) + [WriteMarker(MarkerText(docs, step))])
  }

  /** The document contents of `order`, read from the folder. */
  function Contents(order: seq<string>, files: map<string, Crop.Frame>): (docs: seq<Crop.Frame>)
    requires forall n :: n in order ==> n in files
    ensures |docs| == |order|
    ensures forall k :: 0 <= k < |order| ==> docs[k] == files[order[k]]
  {
    seq(|order|, k requires 0 <= k < |order| => files[order[k]])
  }

  /** `getFiles("*.png")` followed by `sort()`, on a fresh array. */
  method SortedPngs(listing: seq<string>) returns (order: seq<string>)
    ensures Ordered(order) && multiset(order) == multiset(PngEntries(listing))
  {
    var entries := PngEntries(listing);
    var a := new string[|entries|](k requires 0 <= k < |entries| => entries[k]);
    assert a[..] == entries;
    SortNames(a);
    order := a[..];
  }

  /** The folder, the output folder and the marker as the script sees them. */
  class ScriptRun {
    var outputExists: bool
    var outputFiles: map<string, Crop.Frame>
    var marker: Option<string>
    var events: seq<Event>

    constructor(outputExists: bool, outputFiles: map<string, Crop.Frame>)
      ensures this.outputExists == outputExists && this.outputFiles == outputFiles
      ensures marker == None && events == []
    {
      this.outputExists := outputExists;
      this.outputFiles := outputFiles;
      marker := None;
      events := [];
    }

    /**
     * One run of the script over the input folder `files` (listed as
     * `listing`), with `step` standing for open, the recorded action and the
     * save of one document. Returns the order the files were processed in.
     */
    method Run(prefix: string, listing: seq<string>, files: map<string, Crop.Frame>,
               step: Crop.Frame -> Result<Crop.Frame, string>) returns (order: seq<string>)
      requires forall n :: n in listing ==> n in files
      modifies this
      ensures Ordered(order) && multiset(order) == multiset(PngEntries(listing))
      ensures forall n :: n in order ==> n in files
      ensures outputExists
      ensures var docs := Contents(order, files);
        var f := FirstFailure(docs, step, 0);
        outputFiles == old(outputFiles) + Saved(prefix, docs, step, f) &&
        marker == Some(MarkerText(docs, step)) &&
        events == old(events) + Trace(old(outputExists), prefix, order, docs, step)
    {
      OpenFolder();
      order := SortedPngs(listing);
      assert forall n :: n in order ==> n in multiset(PngEntries(listing));
      var docs := Contents(order, files);
      ProcessAndMark(prefix, order, docs, step);
      Collections.Associative(old(events), if old(outputExists) then [] else [CreateFolder],
                  LoopEvents(prefix, order, docs, step) + [WriteMarker(MarkerText(docs, step))]);
    }

    /** `if (!outputFolder.exists) outputFolder.create()`. */
    method OpenFolder()
      modifies this`outputExists, this`events
      ensures outputExists
      ensures events == old(events) + (if old(outputExists) then [] else [CreateFolder])
    {
      if !outputExists {
        outputExists := true;
        events := events + [CreateFolder];
      }
    }

    /** The loop over the documents, then the marker saying how it ended. */
    method ProcessAndMark(prefix: string, order: seq<string>, docs: seq<Crop.Frame>,
                          step: Crop.Frame -> Result<Crop.Frame, string>)
      requires |docs| == |order|
      modifies this`outputFiles, this`events, this`marker
      ensures outputFiles == old(outputFiles) + Saved(prefix, docs, step, FirstFailure(docs, step, 0))
      ensures marker == Some(MarkerText(docs, step))
      ensures events == old(events) + (LoopEvents(prefix, order, docs, step) + [WriteMarker(MarkerText(docs, step))])
    {
      var failure := ProcessDocuments(prefix, order, docs, step);
      var text := if failure.Some? then "error: " + failure.value else DoneText;
      marker := Some(text);
      events := events + [WriteMarker(text)];
      Collections.Associative(old(events), LoopEvents(prefix, order, docs, step), [WriteMarker(text)]);
    }

    /**
     * The loop over the sorted files: open, run the action and save each,
     * until the first failing document, which is left open.
     */
    method ProcessDocuments(prefix: string, order: seq<string>, docs: seq<Crop.Frame>,
                            step: Crop.Frame -> Result<Crop.Frame, string>) returns (failure: Option<string>)
      requires |docs| == |order|
      modifies this`outputFiles, this`events
      ensures var f := FirstFailure(docs, step, 0);
        failure == (if f < |order| then Some(step(docs[f]).error) else None) &&
        outputFiles == old(outputFiles) + Saved(prefix, docs, step, f) &&
        events == old(events) + LoopEvents(prefix, order, docs, step)
    {
      ghost var f := FirstFailure(docs, step, 0);
      var i := 0;
      while i < |order|
        invariant i <= f
        invariant outputFiles == old(outputFiles) + Saved(prefix, docs, step, i)
        invariant events == old(events) + FileEvents(prefix, order, i)
      {
        ghost var before := events;
        events := events + [Open(order[i])];
        match step(docs[i])
        case Failure(msg) =>
          assert f == i;
          return Some(msg);
        case Success(out) =>
          outputFiles := outputFiles[OutputName(prefix, i) := out];
          events := events + [Save(OutputName(prefix, i))];
          assert outputFiles == old(outputFiles) + Saved(prefix, docs, step, i + 1) by {
            Collections.UnionUpdate(old(outputFiles), Saved(prefix, docs, step, i), OutputName(prefix, i), out);
          }
          assert events == old(events) + FileEvents(prefix, order, i + 1) by {
            var pair := [Open(order[i]), Save(OutputName(prefix, i))];
            assert events == before + pair;
            assert FileEvents(prefix, order, i + 1) == FileEvents(prefix, order, i) + pair;
          }
          i := i + 1;
      }
      return None;
    }
  }

  /* ------------------------------------------------------------ properties */

  /** The marker is the last thing written, on the success path and on the error path alike. */
  lemma MarkerAlwaysLast(existed: bool, prefix: string, order: seq<string>, docs: seq<Crop.Frame>,
                         step: Crop.Frame -> Result<Crop.Frame, string>)
    requires |docs| == |order|
    ensures var t := Trace(existed, prefix, order, docs, step);
      |t| > 0 && t[|t| - 1] == WriteMarker(MarkerText(docs, step))
    ensures MarkerText(docs, step) == DoneText <==> forall k :: 0 <= k < |docs| ==> step(docs[k]).Success?
  {
    var f := FirstFailure(docs, step, 0);
    if f < |docs| {
      var m := MarkerText(docs, step);
      assert m[..7] == "error: ";
    }
  }

  /** A missing output folder is created before any document is opened. */
  lemma FolderFirst(prefix: string, order: seq<string>, docs: seq<Crop.Frame>,
                    step: Crop.Frame -> Result<Crop.Frame, string>)
    requires |docs| == |order|
    ensures Trace(false, prefix, order, docs, step)[0] == CreateFolder
    ensures CreateFolder !in Trace(false, prefix, order, docs, step)[1..]
  {
    var f := FirstFailure(docs, step, 0);
    var t := Trace(false, prefix, order, docs, step);
    FileEventsNoFolder(prefix, order, f);
    assert t[1..] == FileEvents(prefix, order, f) + (if f < |order| then [Open(order[f])] else [])
      + [WriteMarker(MarkerText(docs, step))];
  }

  lemma {:induction false} FileEventsNoFolder(prefix: string, order: seq<string>, n: nat)
    requires n <= |order|
    ensures CreateFolder !in FileEvents(prefix, order, n)
  {
    if n > 0 {
      FileEventsNoFolder(prefix, order, n - 1);
    }
  }

  /** With no `.png` input nothing is opened or saved, and the marker still reads "done". */
  lemma NoInputStillMarks(existed: bool, prefix: string, step: Crop.Frame -> Result<Crop.Frame, string>)
    ensures Trace(existed, prefix, [], [], step) ==
      (if existed then [] else [CreateFolder]) + [WriteMarker(DoneText)]
    ensures Saved(prefix, [], step, FirstFailure([], step, 0)) == map[]
  {
  }

  /** The i-th event pair is the i-th sorted file opened and saved under the i-th number. */
  lemma {:induction false} FileEventsAt(prefix: string, order: seq<string>, n: nat, k: nat)
    requires k < n <= |order|
    ensures |FileEvents(prefix, order, n)| == 2 * n
    ensures FileEvents(prefix, order, n)[2 * k] == Open(order[k])
    ensures FileEvents(prefix, order, n)[2 * k + 1] == Save(OutputName(prefix, k))
  {
    FileEventsLength(prefix, order, n - 1);
    if k < n - 1 {
      FileEventsAt(prefix, order, n - 1, k);
    }
  }

  lemma {:induction false} FileEventsLength(prefix: string, order: seq<string>, n: nat)
    requires n <= |order|
    ensures |FileEvents(prefix, order, n)| == 2 * n
  {
    if n > 0 {
      FileEventsLength(prefix, order, n - 1);
    }
  }
}
