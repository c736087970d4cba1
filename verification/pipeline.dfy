/**
 * `process_video`: the four-stage pipeline one queued video goes through.
 * Stage 1 (always) decodes the video into numbered frames, keeping every
 * `frame_step`-th one when reduction is on; stage 2 crops every frame;
 * stage 3 hands the folder to the image editor through the action script
 * and waits for its completion marker; stage 4 resizes every frame. Each
 * enabled stage reads the folder the previous one wrote and writes a new,
 * named folder under the video's own output folder; an optional cleanup
 * moves the final frames to that folder and deletes the stage folders.
 *
 * The decoder, the resizer and the editor are oracles that succeed or fail;
 * the stop button is an oracle that, once pressed, stays pressed; the file
 * system is the video's output folder, as a map from stage-folder name to
 * the files in it.
 */
module Pipeline {
  import opened Wrappers
  import Text
  import Paths
  import Crop
  import Template
  import Queue
  import ActionScript
  import Collections

  /* ------------------------------------------------------------- oracles */

  /**
   * The stop button as seen by the pipeline's checks: the i-th check (counted
   * across the whole run) sees it pressed exactly when i is at or past the
   * check at which it was pressed, if it ever was.
   */
  datatype StopOracle = Never | From(first: nat)
  {
    predicate SetAt(i: nat) { From? && first <= i }
  }

  /** One pass of the editor wait loop: does the marker exist, has the editor exited? */
  datatype Poll = Poll(marker: bool, exited: bool)

  /** A progress report shown in the window. */
  datatype Progress =
    | StageStarted(stage: nat)
    | FilesDone(stage: nat, current: nat, total: nat)
    | EditorWaiting(seconds: nat)

  /** A folder: file name to image (a file that does not hold a well-formed image is one too). */
  type Dir = map<string, Crop.Image>

  /** Which of the optional behaviours the window's check boxes switch on. */
  datatype Stages = Stages(reduce: bool, crop: bool, editor: bool, resize: bool)

  /**
   * What the external tools do for this video: the decoded frames (None when
   * ffmpeg fails), the action-script template (None when it is missing),
   * whether the editor starts, what the wait loop observes, what the editor
   * leaves in its output folder, whether it closes within the 5 s grace, and
   * the resizer (None when magick fails).
   */
  datatype Tools = Tools(
    frames: Option<seq<Crop.Image>>,
    template: Option<string>,
    launches: bool,
    polls: seq<Poll>,
    editorOutput: Dir,
    closesInTime: bool,
    resize: (Crop.Image, int, int) -> Option<Crop.Image>)

  /** Why a video's processing raised (and so abandoned the rest of the queue). */
  datatype Failure =
    | BadNumber        // `int()` of the final size or the frame step
    | DecodeFailed     // ffmpeg exited with an error
    | ImageUnreadable  // the image library could not open a frame
    | TemplateMissing  // the action-script template was not found
    | LaunchFailed     // the editor could not be started
    | EditorDied       // the editor exited before writing the marker
    | EditorHung       // the editor did not close within 5 s
    | ResizeFailed     // magick exited with an error

  /** How `process_video` ended: normally (with its last folder), by a stop check, or by raising. */
  datatype Outcome = Finished(last: string) | Stopped | Failed(reason: Failure)

  /** How one stage ended. */
  datatype StageEnd = Continue | StopSeen | Broke(reason: Failure)

  /* ------------------------------------------------------ folder names */

  const ReducedDir := "1_reduced_frames"
  const AllFramesDir := "1_all_frames"
  const CroppedDir := "2_cropped_frames"
  const EditedDir := "3_transparent_temp"
  const FinalDir := "4_final_output"

  /** Every folder name a stage can create; cleanup deletes all of them. */
  const StageNames: set<string> := {ReducedDir, AllFramesDir, CroppedDir, EditedDir, FinalDir}

  function FirstDir(reduce: bool): string
  {
    if reduce then ReducedDir else AllFramesDir
  }

  /** The folders a fully successful run leaves, one per stage that ran. */
  function EnabledDirs(s: Stages): (names: set<string>)
    ensures names <= StageNames
    ensures FirstDir(s.reduce) in names
  {
    {FirstDir(s.reduce)}
    + (if s.crop then {CroppedDir} else {})
    + (if s.editor then {EditedDir} else {})
    + (if s.resize then {FinalDir} else {})
  }

  /** The folder the last enabled stage writes, where the video's frames end up. */
  function LastDir(s: Stages): (name: string)
    ensures name in EnabledDirs(s)
  {
    if s.resize then FinalDir
    else if s.editor then EditedDir
    else if s.crop then CroppedDir
    else FirstDir(s.reduce)
  }

  /** A stage folder's path: the video's folder, the separator, the name. */
  function StagePath(videoDir: string, sep: char, name: string): string
  {
    videoDir + [sep] + name
  }

  /* ----------------------------------------------------- frame selection */

  /** The decoder's filter keeps frame `n` (0-based) exactly when `n mod step` is 0. */
  predicate Keep(n: nat, step: int)
    requires step > 0
  {
    n % step == 0
  }

  /** The frames among the first `n` that the filter keeps, in order. */
  function SelectFrames(frames: seq<Crop.Image>, step: int, n: nat): seq<Crop.Image>
    requires step > 0 && n <= |frames|
  {
    if n == 0 then []
    else SelectFrames(frames, step, n - 1) + (if Keep(n - 1, step) then [frames[n - 1]] else [])
  }

  lemma {:induction false} MulAtLeast(x: int, step: int)
    requires x >= 1 && step > 0
    ensures x * step >= step
    decreases x
  {
    if x > 1 {
      MulAtLeast(x - 1, step);
      assert x * step == (x - 1) * step + step;
    }
  }

  /** Euclidean division by a positive divisor is determined by quotient and remainder. */
  lemma DivUnique(a: int, step: int, d: int, m: int)
    requires step > 0 && a == d * step + m && 0 <= m < step
    ensures a / step == d
  {
    var q := a / step;
    var r := a % step;
    assert a == q * step + r;
    assert (q - d) * step == m - r;
    if q > d {
      MulAtLeast(q - d, step);
    } else if q < d {
      MulAtLeast(d - q, step);
    }
  }

  lemma DivStep(q: int, r: int, step: int)
    requires step > 0 && q >= 0 && 0 <= r < step
    ensures (q * step + r + step - 1) / step == (if r == 0 then q else q + 1)
    ensures (q * step + r + step) / step == q + 1
  {
    if r == 0 {
      DivUnique(q * step + r + step - 1, step, q, step - 1);
    } else {
      assert q * step + r + step - 1 == (q + 1) * step + (r - 1);
      DivUnique(q * step + r + step - 1, step, q + 1, r - 1);
    }
    assert q * step + r + step == (q + 1) * step + r;
    DivUnique(q * step + r + step, step, q + 1, r);
  }

  /**
   * Of `n` decoded frames, ceil(n / step) are kept, and the j-th kept one is
   * decoded frame `j * step`.
   */
  lemma {:induction false} SelectFramesExact(frames: seq<Crop.Image>, step: int, n: nat)
    requires step > 0 && n <= |frames|
    ensures |SelectFrames(frames, step, n)| == (n + step - 1) / step
    ensures forall j :: 0 <= j < |SelectFrames(frames, step, n)| ==>
      j * step < n && SelectFrames(frames, step, n)[j] == frames[j * step]
  {
    if n > 0 {
      SelectFramesExact(frames, step, n - 1);
      CeilStep(n - 1, step);
    }
  }

  /** How ceil(m / step) grows from m to m + 1: by one exactly when `m` is a multiple of `step`. */
  lemma CeilStep(m: nat, step: int)
    requires step > 0
    ensures (m + step) / step == (m + step - 1) / step + (if m % step == 0 then 1 else 0)
    ensures m % step == 0 ==> (m + step - 1) / step * step == m
  {
    var q, r := m / step, m % step;
    assert m == q * step + r;
    DivStep(q, r, step);
    assert m + step - 1 == q * step + r + step - 1;
    assert m + step == q * step + r + step;
  }

  /** 30 decoded frames with step 3 keep frames 0, 3, ..., 27: ten of them. */
  lemma SelectThirtyByThree(frames: seq<Crop.Image>)
    requires |frames| == 30
    ensures |SelectFrames(frames, 3, 30)| == 10
    ensures SelectFrames(frames, 3, 30)[9] == frames[27]
  {
    SelectFramesExact(frames, 3, 30);
  }

  /** The frames stage 1 writes, before numbering. */
  function Decoded(frames: seq<Crop.Image>, reduce: bool, step: int): seq<Crop.Image>
    requires reduce ==> step > 0
  {
    if reduce then SelectFrames(frames, step, |frames|) else frames
  }

  /* ----------------------------------------------------------- numbering */

  /** ffmpeg's `frame_%04d.png` name of the i-th (0-based) written frame. */
  function FrameName(i: nat): string
  {
    ActionScript.OutputName("frame", i)
  }

  /** The folder ffmpeg writes: the i-th frame under `FrameName(i)`. */
  function Numbered(frames: seq<Crop.Image>): Dir
  {
    if frames == [] then map[]
    else Numbered(frames[..|frames| - 1])[FrameName(|frames| - 1) := frames[|frames| - 1]]
  }

  lemma FrameNameInjective(i: nat, j: nat)
    requires FrameName(i) == FrameName(j)
    ensures i == j
  {
    ActionScript.OutputNameInjective("frame", i, j);
  }

  /** The numbered folder holds each frame under its number... */
  lemma {:induction false} NumberedHolds(frames: seq<Crop.Image>)
    ensures forall j :: 0 <= j < |frames| ==>
      FrameName(j) in Numbered(frames) && Numbered(frames)[FrameName(j)] == frames[j]
  {
    if frames != [] {
      var last := |frames| - 1;
      var before := frames[..last];
      NumberedHolds(before);
      assert Numbered(frames) == Numbered(before)[FrameName(last) := frames[last]];
      forall j | 0 <= j < |frames|
        ensures FrameName(j) in Numbered(frames) && Numbered(frames)[FrameName(j)] == frames[j]
      {
        if j < last {
          if FrameName(j) == FrameName(last) {
            FrameNameInjective(j, last);
          }
          assert before[j] == frames[j];
        }
      }
    }
  }

  /** ...and nothing else. */
  lemma {:induction false} NumberedOnly(frames: seq<Crop.Image>)
    ensures forall name :: name in Numbered(frames) ==> exists j :: 0 <= j < |frames| && name == FrameName(j)
  {
    if frames != [] {
      var last := |frames| - 1;
      var before := frames[..last];
      NumberedOnly(before);
      forall name | name in Numbered(frames)
        ensures exists j :: 0 <= j < |frames| && name == FrameName(j)
      {
        if name != FrameName(last) {
          assert name in Numbered(before);
          var j :| 0 <= j < last && name == FrameName(j);
          assert before[j] == frames[j];
        }
      }
    }
  }

  /** Every file stage 1 writes passes the `.png` filter of the stages after it. */
  lemma NumberedPng(frames: seq<Crop.Image>)
    ensures PngNames(Numbered(frames)) == Numbered(frames).Keys
  {
    NumberedOnly(frames);
    forall name | name in Numbered(frames)
      ensures Paths.IsPng(name)
    {
      var j :| 0 <= j < |frames| && name == FrameName(j);
      ActionScript.OutputNameIsPng("frame", j);
    }
  }

  /* -------------------------------------------------- per-file stages */

  /** The `.png` files of a folder. */
  function PngNames(d: Dir): set<string>
  {
    set name | name in d && Paths.IsPng(name)
  }

  /** The `.png` part of a folder. */
  function PngPart(d: Dir): (p: Dir)
    ensures p.Keys == PngNames(d)
    ensures forall name :: name in p ==> p[name] == d[name]
  {
    map name | name in d && Paths.IsPng(name) :: d[name]
  }

  /** `names` lists the `.png` files of `d`, each once, in some order. */
  ghost predicate IsListing(names: seq<string>, d: Dir)
  {
    (forall i, j :: 0 <= i < j < |names| ==> names[i] != names[j]) &&
    (forall i :: 0 <= i < |names| ==> names[i] in d && Paths.IsPng(names[i])) &&
    (forall name :: name in d && Paths.IsPng(name) ==> name in names)
  }

  /** What a per-file stage writes for the files in `names`: each converted image under the same name. */
  function Converted(src: Dir, names: seq<string>, op: Crop.Image -> Option<Crop.Image>): Dir
  {
    map name | name in names && name in src && op(src[name]).Some? :: op(src[name]).value
  }

  lemma ConvertedStep(src: Dir, names: seq<string>, k: nat, op: Crop.Image -> Option<Crop.Image>)
    requires k < |names| && names[k] in src && op(src[names[k]]).Some?
    ensures Converted(src, names[..k + 1], op) == Converted(src, names[..k], op)[names[k] := op(src[names[k]]).value]
  {
    assert names[..k + 1] == names[..k] + [names[k]];
  }

  /** What a per-file stage writes when it gets through every `.png` file. */
  function ConvertAll(src: Dir, op: Crop.Image -> Option<Crop.Image>): Dir
  {
    map name | name in src && Paths.IsPng(name) && op(src[name]).Some? :: op(src[name]).value
  }

  /** A complete pass writes the same folder whatever order the listing came in. */
  lemma ConvertedListing(src: Dir, names: seq<string>, op: Crop.Image -> Option<Crop.Image>)
    requires IsListing(names, src)
    ensures Converted(src, names, op) == ConvertAll(src, op)
  {
    assert Converted(src, names, op).Keys == ConvertAll(src, op).Keys;
  }

  /** What cleanup moves out of a folder after handling the files in `names`. */
  function Moved(src: Dir, names: seq<string>): Dir
  {
    map name | name in names && name in src :: src[name]
  }

  /** Moving every listed file moves the whole `.png` part of the folder. */
  lemma MovedListing(src: Dir, names: seq<string>)
    requires IsListing(names, src)
    ensures Moved(src, names) == PngPart(src)
  {
  }

  /** The reports a per-file stage makes over its first `n` files: one at every 10th. */
  function FileReports(stage: nat, n: nat, total: nat): seq<Progress>
  {
    if n == 0 then []
    else FileReports(stage, n - 1, total) + (if n % 10 == 0 then [FilesDone(stage, n, total)] else [])
  }

  /** A stage that handles `n` files reports `n / 10` times, at files 10, 20, 30, ... */
  lemma {:induction false} FileReportsCount(stage: nat, n: nat, total: nat)
    ensures |FileReports(stage, n, total)| == n / 10
    ensures forall j :: 0 <= j < n / 10 ==> FileReports(stage, n, total)[j] == FilesDone(stage, 10 * (j + 1), total)
  {
    if n > 0 {
      FileReportsCount(stage, n - 1, total);
      if n % 10 == 0 {
        assert n / 10 == (n - 1) / 10 + 1;
      } else {
        assert n / 10 == (n - 1) / 10;
      }
    }
  }

  /* -------------------------------------------------- editor wait loop */

  /** How the wait ended, with the number of 2-second sleeps completed. */
  datatype WaitEnd = MarkerSeen(waited: nat) | StopPressed(waited: nat) | Died(waited: nat)

  predicate Decisive(p: Poll) { p.marker || p.exited }

  /** The polls end with one that settles the wait: the marker, or the editor gone. */
  predicate Settles(polls: seq<Poll>)
  {
    polls != [] && Decisive(polls[|polls| - 1])
  }

  /**
   * The wait loop from its k-th pass: the marker is looked for first, then the
   * stop button (check number c + k), then, after the sleep, whether the
   * editor has exited.
   */
  function WaitSpec(polls: seq<Poll>, stop: StopOracle, c: nat, k: nat): (w: WaitEnd)
    requires Settles(polls) && k < |polls|
    ensures k <= w.waited <= |polls|
    decreases |polls| - k
  {
    if polls[k].marker then MarkerSeen(k)
    else if stop.SetAt(c + k) then StopPressed(k)
    else if polls[k].exited then Died(k + 1)
    else WaitSpec(polls, stop, c, k + 1)
  }

  /** The stop checks a wait makes: one per pass that got past the marker test. */
  function WaitChecks(w: WaitEnd): nat
  {
    match w
    case MarkerSeen(n) => n
    case StopPressed(n) => n + 1
    case Died(n) => n
  }

  /** The reports of `n` sleeps: one at every 5th, with the seconds waited. */
  function WaitReports(n: nat): seq<Progress>
  {
    if n == 0 then [] else WaitReports(n - 1) + (if n % 5 == 0 then [EditorWaiting(2 * n)] else [])
  }

  /** The wait reports every 10 seconds: after `n` sleeps, `n / 5` reports, the j-th at 10(j+1) s. */
  lemma {:induction false} WaitReportsCount(n: nat)
    ensures |WaitReports(n)| == n / 5
    ensures forall j :: 0 <= j < n / 5 ==> WaitReports(n)[j] == EditorWaiting(10 * (j + 1))
  {
    if n > 0 {
      WaitReportsCount(n - 1);
      if n % 5 == 0 {
        assert n / 5 == (n - 1) / 5 + 1;
      } else {
        assert n / 5 == (n - 1) / 5;
      }
    }
  }

  /** The first settling poll at or after `k`. */
  function FirstDecisive(polls: seq<Poll>, k: nat): (j: nat)
    requires Settles(polls) && k < |polls|
    ensures k <= j < |polls| && Decisive(polls[j])
    ensures forall i :: k <= i < j ==> !Decisive(polls[i])
    decreases |polls| - k
  {
    if Decisive(polls[k]) then k else FirstDecisive(polls, k + 1)
  }

  /**
   * Without a stop the wait cannot hang: it ends at the first settling poll,
   * with the marker if it is there and with the editor's death otherwise.
   */
  lemma {:induction false} WaitWithoutStop(polls: seq<Poll>, c: nat, k: nat)
    requires Settles(polls) && k < |polls|
    ensures var j := FirstDecisive(polls, k);
      WaitSpec(polls, Never, c, k) == if polls[j].marker then MarkerSeen(j) else Died(j + 1)
    decreases |polls| - k
  {
    if !Decisive(polls[k]) {
      WaitWithoutStop(polls, c, k + 1);
    }
  }

  /**
   * A stop pressed before the wait starts ends it at once, unless the marker
   * is already there: the marker is looked for first.
   */
  lemma WaitStopFirst(polls: seq<Poll>, stop: StopOracle, c: nat)
    requires Settles(polls) && stop.SetAt(c)
    ensures WaitSpec(polls, stop, c, 0) == if polls[0].marker then MarkerSeen(0) else StopPressed(0)
  {
  }

  /** The editor's death is only reported when no stop was seen in that pass. */
  lemma {:induction false} DiedMeansNoStop(polls: seq<Poll>, stop: StopOracle, c: nat, k: nat)
    requires Settles(polls) && k < |polls|
    requires WaitSpec(polls, stop, c, k).Died?
    ensures var n := WaitSpec(polls, stop, c, k).waited;
      n >= 1 && polls[n - 1].exited && !polls[n - 1].marker && !stop.SetAt(c + n - 1)
    decreases |polls| - k
  {
    if !polls[k].marker && !stop.SetAt(c + k) && !polls[k].exited {
      DiedMeansNoStop(polls, stop, c, k + 1);
    }
  }

  /** The wait ends with the stop button only at a check that saw it pressed. */
  lemma {:induction false} StopPressedMeansStop(polls: seq<Poll>, stop: StopOracle, c: nat, k: nat)
    requires Settles(polls) && k < |polls|
    requires WaitSpec(polls, stop, c, k).StopPressed?
    ensures stop.SetAt(c + WaitSpec(polls, stop, c, k).waited)
    decreases |polls| - k
  {
    if !polls[k].marker && !stop.SetAt(c + k) && !polls[k].exited {
      StopPressedMeansStop(polls, stop, c, k + 1);
    }
  }

  /* ------------------------------------------- the wait has no time limit */

  /** `n` passes in which the editor is up and has not written the marker. */
  function Idle(n: nat): (polls: seq<Poll>)
    ensures |polls| == n && forall j :: 0 <= j < n ==> polls[j] == Poll(false, false)
  {
    seq(n, _ => Poll(false, false))
  }

  /**
   * The wait as written has no bound of its own: an editor that stays up for
   * `n` passes before its marker appears keeps the program waiting for `n`
   * sleeps, whatever `n` is; with no marker and no exit it never ends.
   */
  lemma WaitUnbounded(n: nat, c: nat)
    ensures Settles(Idle(n) + [Poll(true, false)])
    ensures WaitSpec(Idle(n) + [Poll(true, false)], Never, c, 0) == MarkerSeen(n)
  {
    IdleThenMarker(n, c, 0);
  }

  lemma {:induction false} IdleThenMarker(n: nat, c: nat, k: nat)
    requires k <= n
    ensures Settles(Idle(n) + [Poll(true, false)])
    ensures WaitSpec(Idle(n) + [Poll(true, false)], Never, c, k) == MarkerSeen(n)
    decreases n - k
  {
    var polls := Idle(n) + [Poll(true, false)];
    assert polls[n] == Poll(true, false);
    if k < n {
      assert polls[k] == Poll(false, false);
      IdleThenMarker(n, c, k + 1);
    }
  }

  /** How a wait with a limit ends: as the unlimited wait does, or timed out. */
  datatype BoundedEnd = Ended(end: WaitEnd) | TimedOut(waited: nat)

  /**
   * The wait with a limit of `limit` sleeps, from its k-th pass: the passes
   * of `WaitSpec`, and a time-out once the limit is reached. It needs the
   * editor observed for `limit` passes and nothing about how they end.
   */
  function WaitWithin(polls: seq<Poll>, stop: StopOracle, c: nat, k: nat, limit: nat): BoundedEnd
    requires k <= limit <= |polls|
    decreases limit - k
  {
    if k == limit then TimedOut(limit)
    else if polls[k].marker then Ended(MarkerSeen(k))
    else if stop.SetAt(c + k) then Ended(StopPressed(k))
    else if polls[k].exited then Ended(Died(k + 1))
    else WaitWithin(polls, stop, c, k + 1, limit)
  }

  /** The limited wait never lasts longer than its limit. */
  lemma {:induction false} WaitWithinBounded(polls: seq<Poll>, stop: StopOracle, c: nat, k: nat, limit: nat)
    requires k <= limit <= |polls|
    ensures var e := WaitWithin(polls, stop, c, k, limit);
      (e.TimedOut? ==> e.waited == limit) && (e.Ended? ==> k <= e.end.waited <= limit)
    decreases limit - k
  {
    if k < limit && !polls[k].marker && !stop.SetAt(c + k) && !polls[k].exited {
      WaitWithinBounded(polls, stop, c, k + 1, limit);
    }
  }

  /** It times out only when no pass before the limit saw the marker, a stop or the editor's exit. */
  lemma {:induction false} WaitWithinTimedOut(polls: seq<Poll>, stop: StopOracle, c: nat, k: nat, limit: nat)
    requires k <= limit <= |polls| && WaitWithin(polls, stop, c, k, limit).TimedOut?
    ensures forall j :: k <= j < limit ==> !Decisive(polls[j]) && !stop.SetAt(c + j)
    decreases limit - k
  {
    if k < limit {
      assert !Decisive(polls[k]) && !stop.SetAt(c + k);
      WaitWithinTimedOut(polls, stop, c, k + 1, limit);
      forall j | k <= j < limit
        ensures !Decisive(polls[j]) && !stop.SetAt(c + j)
      {
        if j > k {
          assert k + 1 <= j < limit;
        }
      }
    }
  }

  /**
   * A wait that the limit does not cut short ends as the unlimited one does:
   * one that settles before the limit, or whose editor is found dead at the last pass.
   */
  lemma {:induction false} WaitWithinAgrees(polls: seq<Poll>, stop: StopOracle, c: nat, k: nat, limit: nat)
    requires Settles(polls) && k < |polls| && k <= limit <= |polls|
    requires var w := WaitSpec(polls, stop, c, k); w.waited < limit || (w.Died? && w.waited == limit)
    ensures WaitWithin(polls, stop, c, k, limit) == Ended(WaitSpec(polls, stop, c, k))
    decreases limit - k
  {
    if !polls[k].marker && !stop.SetAt(c + k) && !polls[k].exited {
      WaitWithinAgrees(polls, stop, c, k + 1, limit);
    }
  }

  /* ------------------------------------------------------------- the run */

  /** The folder each enabled stage leaves when every stage succeeds. */
  function ExpectedDirs(s: Stages, frames: seq<Crop.Image>, step: int, crop: Crop.Image -> Option<Crop.Image>,
                        edited: Dir, resize: Crop.Image -> Option<Crop.Image>): (dirs: map<string, Dir>)
    requires s.reduce ==> step > 0
    ensures dirs.Keys == EnabledDirs(s)
  {
    ExpectedFrom(s, Numbered(Decoded(frames, s.reduce, step)), crop, edited, resize)
  }

  /** The folders of a successful run up to stage 2, whose first stage wrote `first`. */
  function AfterCrop(s: Stages, first: Dir, crop: Crop.Image -> Option<Crop.Image>): (dirs: map<string, Dir>)
    ensures dirs.Keys == EnabledDirs(s.(editor := false, resize := false))
  {
    var m := map[FirstDir(s.reduce) := first];
    if s.crop then m[CroppedDir := ConvertAll(first, crop)] else m
  }

  /** The folders of a successful run up to stage 3. */
  function AfterEdit(s: Stages, first: Dir, crop: Crop.Image -> Option<Crop.Image>, edited: Dir): (dirs: map<string, Dir>)
    ensures dirs.Keys == EnabledDirs(s.(resize := false))
  {
    var m := AfterCrop(s, first, crop);
    if s.editor then m[EditedDir := edited] else m
  }

  /** The folders of a fully successful run whose first stage wrote `first`. */
  function ExpectedFrom(s: Stages, first: Dir, crop: Crop.Image -> Option<Crop.Image>,
                        edited: Dir, resize: Crop.Image -> Option<Crop.Image>): (dirs: map<string, Dir>)
    ensures dirs.Keys == EnabledDirs(s)
  {
    var m := AfterEdit(s, first, crop, edited);
    if s.resize then m[FinalDir := ConvertAll(m[LastDir(s.(resize := false))], resize)] else m
  }

  /**
   * The crop stage's per-file operation for a queued job; a file that is not
   * a well-formed image makes the image library raise.
   */
  function CropOp(job: Queue.Job): Crop.Image -> Option<Crop.Image>
  {
    (f: Crop.Image) =>
      if f.WellFormed() && job.cropW > 0 && job.cropH > 0
      then Some(Crop.CropFrame(f, job.cropW, job.cropH, job.offsetX, job.offsetY))
      else None
  }

  /** The resize stage's per-file operation at the configured final size. */
  function ResizeOp(tools: Tools, w: int, h: int): Crop.Image -> Option<Crop.Image>
  {
    (f: Crop.Image) => tools.resize(f, w, h)
  }

  /* ------------------------------------------------------ the editor stage */

  /** The editor stage gets as far as seeing the marker, its first stop check being number `c`. */
  predicate MarkerReached(tools: Tools, stop: StopOracle, c: nat)
    requires Settles(tools.polls)
  {
    !stop.SetAt(c) && tools.template.Some? && tools.launches &&
    WaitSpec(tools.polls, stop, c + 1, 0).MarkerSeen?
  }

  /**
   * How the editor stage ends: a stop at its first check; the missing
   * template; an editor that does not start; then the wait, after which the
   * stop is checked once more before the editor is closed, which may not
   * happen within the 5 s the program gives it.
   */
  function EditorEnd(tools: Tools, stop: StopOracle, c: nat): StageEnd
    requires Settles(tools.polls)
  {
    if stop.SetAt(c) then StopSeen
    else if tools.template.None? then Broke(TemplateMissing)
    else if !tools.launches then Broke(LaunchFailed)
    else AfterLaunch(tools, stop, c + 1)
  }

  /** How the editor stage ends once the editor has started, the wait's first stop check being number `c`. */
  function AfterLaunch(tools: Tools, stop: StopOracle, c: nat): StageEnd
    requires Settles(tools.polls)
  {
    match WaitSpec(tools.polls, stop, c, 0)
    case Died(_) => Broke(EditorDied)
    case StopPressed(_) => StopSeen
    case MarkerSeen(n) =>
      if stop.SetAt(c + n) then StopSeen
      else if tools.closesInTime then Continue
      else Broke(EditorHung)
  }

  /** The stop checks the editor stage makes: its first, the wait's, and the one after the wait. */
  function EditorChecks(tools: Tools, stop: StopOracle, c: nat): nat
    requires Settles(tools.polls)
  {
    if stop.SetAt(c) || tools.template.None? || !tools.launches then 1
    else 1 + AfterLaunchChecks(tools, stop, c + 1)
  }

  function AfterLaunchChecks(tools: Tools, stop: StopOracle, c: nat): nat
    requires Settles(tools.polls)
  {
    var w := WaitSpec(tools.polls, stop, c, 0);
    WaitChecks(w) + (if w.Died? then 0 else 1)
  }

  /** The progress the editor stage reports: its start, then the wait's. */
  function EditorReports(tools: Tools, stop: StopOracle, c: nat): seq<Progress>
    requires Settles(tools.polls)
  {
    if stop.SetAt(c) then []
    else if tools.template.None? || !tools.launches then [StageStarted(3)]
    else [StageStarted(3)] + WaitReports(WaitSpec(tools.polls, stop, c + 1, 0).waited)
  }

  /**
   * Without a stop the editor stage ends as the first settling poll says:
   * it goes on exactly when the template is there, the editor starts, the
   * marker appears before the editor exits, and the editor closes in time.
   */
  lemma EditorWithoutStop(tools: Tools, c: nat)
    requires Settles(tools.polls)
    ensures EditorEnd(tools, Never, c) == Continue <==>
      tools.template.Some? && tools.launches && tools.polls[FirstDecisive(tools.polls, 0)].marker &&
      tools.closesInTime
    ensures EditorEnd(tools, Never, c) != StopSeen
  {
    WaitWithoutStop(tools.polls, c + 1, 0);
  }

  /** What the reason a run failed with says about the run. */
  predicate Explains(outcome: Outcome, s: Stages, tools: Tools)
  {
    match outcome
    case Failed(DecodeFailed) => tools.frames.None?
    case Failed(ImageUnreadable) => s.crop
    case Failed(TemplateMissing) => s.editor && tools.template.None?
    case Failed(LaunchFailed) => s.editor && !tools.launches
    case Failed(EditorDied) => s.editor
    case Failed(EditorHung) => s.editor
    case Failed(ResizeFailed) => s.resize
    case _ => true
  }

  /**
   * The editor is only left running by a stop after its marker appeared or
   * by an editor that did not close; a marker is only left by the former.
   */
  predicate LeftBehind(outcome: Outcome, s: Stages, editorRunning: bool, marker: bool, markerBefore: bool)
  {
    (editorRunning ==> s.editor && (outcome == Stopped || outcome == Failed(EditorHung))) &&
    (marker ==> markerBefore || (s.editor && outcome == Stopped))
  }

  /** The output folder of one video, the marker, the editor, and the window's progress. */
  class VideoRun {
    const stop: StopOracle
    var checks: nat
    var rootExists: bool
    var rootFiles: Dir
    var stageDirs: map<string, Dir>
    var marker: bool
    var script: Option<string>
    var editorRunning: bool
    var reports: seq<Progress>

    constructor(stop: StopOracle, rootExists: bool, rootFiles: Dir, stageDirs: map<string, Dir>, marker: bool)
      ensures this.stop == stop && checks == 0
      ensures this.rootExists == rootExists && this.rootFiles == rootFiles && this.stageDirs == stageDirs
      ensures this.marker == marker && script == None && !editorRunning && reports == []
    {
      this.stop := stop;
      checks := 0;
      this.rootExists := rootExists;
      this.rootFiles := rootFiles;
      this.stageDirs := stageDirs;
      this.marker := marker;
      script := None;
      editorRunning := false;
      reports := [];
    }

    /** `stop_requested.is_set()`: one more check of the stop oracle. */
    method StopRequested() returns (pressed: bool)
      modifies this`checks
      ensures pressed == stop.SetAt(old(checks))
      ensures checks == old(checks) + 1
    {
      pressed := stop.SetAt(checks);
      checks := checks + 1;
    }

    /** `[f for f in os.listdir(d) if f.endswith(".png")]`, in whatever order the system lists them. */
    method ListPngs(d: Dir) returns (names: seq<string>)
      ensures IsListing(names, d)
    {
      names := [];
      var rest := PngNames(d);
      while rest != {}
        invariant forall name :: name in rest ==> name !in names
        invariant forall name :: name in d && Paths.IsPng(name) <==> name in rest || name in names
        invariant forall i :: 0 <= i < |names| ==> names[i] in d && Paths.IsPng(names[i])
        invariant forall i, j :: 0 <= i < j < |names| ==> names[i] != names[j]
        decreases rest
      {
        var name :| name in rest;
        names := names + [name];
        rest := rest - {name};
      }
    }

    /**
     * A per-file stage (cropping or resizing): list the `.png` files of
     * `from` and convert them one by one into `to`.
     */
    method FileStage(stage: nat, from: string, to: string, op: Crop.Image -> Option<Crop.Image>, failure: Failure)
      returns (end: StageEnd, names: seq<string>, k: nat)
      requires from in stageDirs && from != to
      requires to in stageDirs && stageDirs[to] == map[]
      modifies this`checks, this`stageDirs, this`reports
      ensures IsListing(names, old(stageDirs)[from])
      ensures k <= |names|
      ensures k > 0 ==> !stop.SetAt(old(checks) + k - 1)
      ensures forall j :: 0 <= j < k ==> op(old(stageDirs)[from][names[j]]).Some?
      ensures end == Continue <==> k == |names|
      ensures end == StopSeen ==> k < |names| && stop.SetAt(old(checks) + k)
      ensures end.Broke? ==>
        k < |names| && end.reason == failure &&
        !stop.SetAt(old(checks) + k) && op(old(stageDirs)[from][names[k]]).None?
      ensures checks == old(checks) + (if end == Continue then k else k + 1)
      ensures stageDirs == old(stageDirs)[to := Converted(old(stageDirs)[from], names[..k], op)]
      ensures reports == old(reports) + FileReports(stage, k, |names|)
    {
      var src := stageDirs[from];
      names := ListPngs(src);
      end, k := ConvertFiles(stage, src, names, to, op, failure);
    }

    /**
     * The loop of a per-file stage: for each name, check the stop button,
     * convert the file, write it under the same name into `to`, and report
     * every 10th file. Ends after `k` files, at the first stop seen or failed
     * conversion, or after the last file.
     */
    method ConvertFiles(stage: nat, src: Dir, names: seq<string>, to: string,
                        op: Crop.Image -> Option<Crop.Image>, failure: Failure)
      returns (end: StageEnd, k: nat)
      requires forall i :: 0 <= i < |names| ==> names[i] in src
      requires to in stageDirs && stageDirs[to] == map[]
      modifies this`checks, this`stageDirs, this`reports
      ensures k <= |names|
      ensures k > 0 ==> !stop.SetAt(old(checks) + k - 1)
      ensures forall j :: 0 <= j < k ==> op(src[names[j]]).Some?
      ensures end == Continue <==> k == |names|
      ensures end == StopSeen ==> k < |names| && stop.SetAt(old(checks) + k)
      ensures end.Broke? ==>
        k < |names| && end.reason == failure &&
        !stop.SetAt(old(checks) + k) && op(src[names[k]]).None?
      ensures checks == old(checks) + (if end == Continue then k else k + 1)
      ensures stageDirs == old(stageDirs)[to := Converted(src, names[..k], op)]
      ensures reports == old(reports) + FileReports(stage, k, |names|)
    {
      k := 0;
      end := Continue;
      while k < |names|
        invariant k <= |names| && end == Continue
        invariant k > 0 ==> !stop.SetAt(old(checks) + k - 1)
        invariant forall j :: 0 <= j < k ==> op(src[names[j]]).Some?
        invariant checks == old(checks) + k
        invariant stageDirs == old(stageDirs)[to := Converted(src, names[..k], op)]
        invariant reports == old(reports) + FileReports(stage, k, |names|)
      {
        end := ConvertNext(stage, src, names, k, to, op, failure, old(reports));
        if end != Continue {
          break;
        }
        k := k + 1;
      }
    }

    /** One turn of the per-file loop: the stop check, then the conversion of file `k`. */
    method ConvertNext(stage: nat, src: Dir, names: seq<string>, k: nat, to: string,
                       op: Crop.Image -> Option<Crop.Image>, failure: Failure, ghost before: seq<Progress>)
      returns (end: StageEnd)
      requires k < |names| && names[k] in src
      requires to in stageDirs && stageDirs[to] == Converted(src, names[..k], op)
      requires reports == before + FileReports(stage, k, |names|)
      modifies this`checks, this`stageDirs, this`reports
      ensures checks == old(checks) + 1
      ensures end == StopSeen <==> stop.SetAt(old(checks))
      ensures end.Broke? <==> !stop.SetAt(old(checks)) && op(src[names[k]]).None?
      ensures end.Broke? ==> end.reason == failure
      ensures end == Continue ==>
        op(src[names[k]]).Some? &&
        stageDirs == old(stageDirs)[to := Converted(src, names[..k + 1], op)] &&
        reports == before + FileReports(stage, k + 1, |names|)
      ensures end != Continue ==> stageDirs == old(stageDirs) && reports == old(reports)
    {
      var pressed := StopRequested();
      if pressed {
        return StopSeen;
      }
      var result := op(src[names[k]]);
      if result.None? {
        return Broke(failure);
      }
      SaveConverted(stage, src, names, k, to, op, before);
      return Continue;
    }

    /** Writes the k-th converted file into `to` and makes the stage's report, if it is due. */
    method SaveConverted(stage: nat, src: Dir, names: seq<string>, k: nat, to: string,
                         op: Crop.Image -> Option<Crop.Image>, ghost before: seq<Progress>)
      requires k < |names| && names[k] in src && op(src[names[k]]).Some?
      requires to in stageDirs && stageDirs[to] == Converted(src, names[..k], op)
      requires reports == before + FileReports(stage, k, |names|)
      modifies this`stageDirs, this`reports
      ensures stageDirs == old(stageDirs)[to := Converted(src, names[..k + 1], op)]
      ensures reports == before + FileReports(stage, k + 1, |names|)
    {
      var written := stageDirs[to][names[k] := op(src[names[k]]).value];
      ConvertedStep(src, names, k, op);
      stageDirs := stageDirs[to := written];
      if (k + 1) % 10 == 0 {
        reports := reports + [FilesDone(stage, k + 1, |names|)];
        Collections.Associative(before, FileReports(stage, k, |names|), [FilesDone(stage, k + 1, |names|)]);
      }
    }

    /**
     * The editor wait loop: while the marker is absent, check the stop button
     * (terminating the editor and leaving the loop when pressed), sleep 2 s,
     * report every 5th sleep, and give up with `EditorDied` if the editor has
     * exited.
     */
    method WaitForEditor(polls: seq<Poll>) returns (w: WaitEnd)
      requires Settles(polls)
      requires !marker && editorRunning
      modifies this`checks, this`reports, this`marker, this`editorRunning
      ensures w == WaitSpec(polls, stop, old(checks), 0)
      ensures checks == old(checks) + WaitChecks(w)
      ensures reports == old(reports) + WaitReports(w.waited)
      ensures marker == w.MarkerSeen?
      ensures editorRunning == w.MarkerSeen?
    {
      var k := 0;
      while true
        invariant k < |polls|
        invariant WaitSpec(polls, stop, old(checks), k) == WaitSpec(polls, stop, old(checks), 0)
        invariant checks == old(checks) + k
        invariant reports == old(reports) + WaitReports(k)
        invariant !marker && editorRunning
        decreases |polls| - k
      {
        marker := polls[k].marker;
        if marker {
          return MarkerSeen(k);
        }
        var pressed := StopRequested();
        if pressed {
          editorRunning := false;
          return StopPressed(k);
        }
        if (k + 1) % 5 == 0 {
          reports := reports + [EditorWaiting(2 * (k + 1))];
        }
        if polls[k].exited {
          editorRunning := false;
          return Died(k + 1);
        }
        k := k + 1;
      }
    }

    /**
     * The wait loop with a limit of `limit` sleeps: the same passes as
     * `WaitForEditor`, and when the limit is reached the editor is terminated
     * and the wait times out.
     */
    method WaitForEditorWithin(polls: seq<Poll>, limit: nat) returns (e: BoundedEnd)
      requires limit <= |polls|
      requires !marker && editorRunning
      modifies this`checks, this`reports, this`marker, this`editorRunning
      ensures e == WaitWithin(polls, stop, old(checks), 0, limit)
      ensures checks == old(checks) + (if e.TimedOut? then limit else WaitChecks(e.end))
      ensures reports == old(reports) + WaitReports(if e.TimedOut? then limit else e.end.waited)
      ensures marker == (e.Ended? && e.end.MarkerSeen?)
      ensures editorRunning == (e.Ended? && e.end.MarkerSeen?)
    {
      var k := 0;
      while k < limit
        invariant k <= limit
        invariant WaitWithin(polls, stop, old(checks), k, limit) == WaitWithin(polls, stop, old(checks), 0, limit)
        invariant checks == old(checks) + k
        invariant reports == old(reports) + WaitReports(k)
        invariant !marker && editorRunning
      {
        marker := polls[k].marker;
        if marker {
          return Ended(MarkerSeen(k));
        }
        var pressed := StopRequested();
        if pressed {
          editorRunning := false;
          return Ended(StopPressed(k));
        }
        if (k + 1) % 5 == 0 {
          reports := reports + [EditorWaiting(2 * (k + 1))];
        }
        if polls[k].exited {
          editorRunning := false;
          return Ended(Died(k + 1));
        }
        k := k + 1;
      }
      editorRunning := false;
      e := TimedOut(limit);
    }

    /** A folder that does not exist holds nothing. */
    predicate Valid()
      reads this
    {
      !rootExists ==> rootFiles == map[] && stageDirs == map[]
    }

    /**
     * The head of every stage: check the stop button and, when it is not
     * pressed, report the stage and create its folder.
     */
    method BeginStage(stage: nat, dir: string) returns (pressed: bool)
      requires dir !in stageDirs
      modifies this`checks, this`reports, this`stageDirs
      ensures pressed == stop.SetAt(old(checks)) && checks == old(checks) + 1
      ensures pressed ==> reports == old(reports) && stageDirs == old(stageDirs)
      ensures !pressed ==> reports == old(reports) + [StageStarted(stage)] && stageDirs == old(stageDirs)[dir := map[]]
    {
      pressed := StopRequested();
      if !pressed {
        reports := reports + [StageStarted(stage)];
        stageDirs := stageDirs[dir := map[]];
      }
    }

    /**
     * Stage 2 or 4: begin the stage, then convert every listed file; a stage
     * that goes on has written the conversion of every `.png` file of `from`.
     */
    method ConvertStage(stage: nat, from: string, to: string, op: Crop.Image -> Option<Crop.Image>, failure: Failure)
      returns (end: StageEnd)
      requires from in stageDirs && to !in stageDirs
      modifies this`checks, this`stageDirs, this`reports
      ensures checks > old(checks) && old(reports) <= reports
      ensures end == StopSeen <==> stop.SetAt(checks - 1)
      ensures end.Broke? ==> end.reason == failure
      ensures end == Continue ==> stageDirs == old(stageDirs)[to := ConvertAll(old(stageDirs)[from], op)]
      ensures end != Continue ==> stageDirs.Keys <= old(stageDirs).Keys + {to}
    {
      var pressed := BeginStage(stage, to);
      if pressed {
        return StopSeen;
      }
      var names, k;
      end, names, k := FileStage(stage, from, to, op, failure);
      if end == Continue {
        ConvertedListing(old(stageDirs)[from], names, op);
        assert names[..k] == names;
      }
    }

    /**
     * Stage 3: begin the stage, remove a stale marker, render the action
     * script, start the editor on it, wait for the marker, check the stop
     * button once more, then remove the marker and close the editor. A stop
     * seen after the marker leaves the marker and the editor as they are.
     */
    method EditorStage(from: string, videoDir: string, sep: char, prefix: string, tools: Tools)
      returns (end: StageEnd)
      requires from in stageDirs && EditedDir !in stageDirs
      requires Settles(tools.polls) && !editorRunning
      modifies this`checks, this`reports, this`stageDirs, this`marker, this`script, this`editorRunning
      ensures end == EditorEnd(tools, stop, old(checks))
      ensures checks == old(checks) + EditorChecks(tools, stop, old(checks))
      ensures end == StopSeen <==> stop.SetAt(checks - 1)
      ensures reports == old(reports) + EditorReports(tools, stop, old(checks))
      ensures stop.SetAt(old(checks)) ==> stageDirs == old(stageDirs) && marker == old(marker) && script == old(script)
      ensures !stop.SetAt(old(checks)) ==>
        stageDirs == old(stageDirs)[EditedDir := if MarkerReached(tools, stop, old(checks)) then tools.editorOutput else map[]]
      ensures !stop.SetAt(old(checks)) ==>
        script == if tools.template.None? then old(script)
          else Some(Template.RenderScript(tools.template, prefix, StagePath(videoDir, sep, from),
                                          StagePath(videoDir, sep, EditedDir), sep).value)
      ensures !stop.SetAt(old(checks)) ==> (marker <==> MarkerReached(tools, stop, old(checks)) && end == StopSeen)
      ensures editorRunning <==> MarkerReached(tools, stop, old(checks)) && end != Continue
    {
      var pressed := BeginStage(3, EditedDir);
      if pressed {
        return StopSeen;
      }
      marker := false;
      var rendered := Template.RenderScript(tools.template, prefix, StagePath(videoDir, sep, from),
                                            StagePath(videoDir, sep, EditedDir), sep);
      if rendered.Failure? {
        return Broke(TemplateMissing);
      }
      script := Some(rendered.value);
      if !tools.launches {
        return Broke(LaunchFailed);
      }
      editorRunning := true;
      end := FinishEditing(tools);
    }

    /**
     * Stage 3 from the editor's start: wait for the marker, check the stop
     * button once more, then remove the marker and close the editor.
     */
    method FinishEditing(tools: Tools) returns (end: StageEnd)
      requires Settles(tools.polls) && !marker && editorRunning
      modifies this`checks, this`reports, this`stageDirs, this`marker, this`editorRunning
      ensures end == AfterLaunch(tools, stop, old(checks))
      ensures checks == old(checks) + AfterLaunchChecks(tools, stop, old(checks))
      ensures end == StopSeen <==> stop.SetAt(checks - 1)
      ensures reports == old(reports) + WaitReports(WaitSpec(tools.polls, stop, old(checks), 0).waited)
      ensures stageDirs == if WaitSpec(tools.polls, stop, old(checks), 0).MarkerSeen?
        then old(stageDirs)[EditedDir := tools.editorOutput] else old(stageDirs)
      ensures marker <==> WaitSpec(tools.polls, stop, old(checks), 0).MarkerSeen? && end == StopSeen
      ensures editorRunning <==> WaitSpec(tools.polls, stop, old(checks), 0).MarkerSeen? && end != Continue
    {
      var w := WaitForEditor(tools.polls);
      if w.Died? {
        DiedMeansNoStop(tools.polls, stop, old(checks), 0);
        return Broke(EditorDied);
      }
      if w.StopPressed? {
        StopPressedMeansStop(tools.polls, stop, old(checks), 0);
      }
      if w.MarkerSeen? {
        stageDirs := stageDirs[EditedDir := tools.editorOutput];
      }
      var pressed := StopRequested();
      if pressed {
        return StopSeen;
      }
      assert w.MarkerSeen?;
      marker := false;
      if !tools.closesInTime {
        return Broke(EditorHung);
      }
      editorRunning := false;
      end := Continue;
    }

    /**
     * The optional cleanup: move the `.png` files of the last stage's folder
     * into the video's folder, then delete every stage folder there is.
     */
    method Cleanup(current: string)
      requires current in stageDirs && current in StageNames
      modifies this`rootFiles, this`stageDirs
      ensures rootFiles == old(rootFiles) + PngPart(old(stageDirs)[current])
      ensures stageDirs == old(stageDirs) - StageNames
    {
      MoveFinal(current);
      DeleteStageDirs();
      assert stageDirs == old(stageDirs) - StageNames;
    }

    /** Moves the `.png` files of `current`, one by one, into the video's folder. */
    method MoveFinal(current: string)
      requires current in stageDirs
      modifies this`rootFiles, this`stageDirs
      ensures rootFiles == old(rootFiles) + PngPart(old(stageDirs)[current])
      ensures stageDirs == old(stageDirs)[current := old(stageDirs)[current] - PngNames(old(stageDirs)[current])]
    {
      var src := stageDirs[current];
      var names := ListPngs(src);
      MoveFiles(src, names);
      MovedListing(src, names);
      stageDirs := stageDirs[current := src - PngNames(src)];
    }

    /** Moves the files `names` of `src`, in that order, into the video's folder. */
    method MoveFiles(src: Dir, names: seq<string>)
      requires forall i :: 0 <= i < |names| ==> names[i] in src
      modifies this`rootFiles
      ensures rootFiles == old(rootFiles) + Moved(src, names)
    {
      var i := 0;
      while i < |names|
        invariant i <= |names|
        invariant rootFiles == old(rootFiles) + Moved(src, names[..i])
      {
        assert Moved(src, names[..i + 1]) == Moved(src, names[..i])[names[i] := src[names[i]]];
        Collections.UnionUpdate(old(rootFiles), Moved(src, names[..i]), names[i], src[names[i]]);
        rootFiles := rootFiles[names[i] := src[names[i]]];
        i := i + 1;
      }
      assert names[..i] == names;
    }

    /** Deletes each stage folder that exists. */
    method DeleteStageDirs()
      modifies this`stageDirs
      ensures stageDirs == old(stageDirs) - StageNames
    {
      var temp := [ReducedDir, AllFramesDir, CroppedDir, EditedDir, FinalDir];
      var i := 0;
      while i < |temp|
        invariant i <= |temp|
        invariant forall name :: name in stageDirs <==> name in old(stageDirs) && name !in temp[..i]
        invariant forall name :: name in stageDirs ==> stageDirs[name] == old(stageDirs)[name]
      {
        if temp[i] in stageDirs {
          stageDirs := stageDirs - {temp[i]};
        }
        i := i + 1;
      }
      assert temp[..i] == temp;
      assert stageDirs.Keys == (old(stageDirs) - StageNames).Keys;
    }

    /**
     * `process_video`: read the final size and the frame step, empty the
     * video's folder if it exists, and run the enabled stages in order, each
     * on the folder the previous one wrote; then the optional cleanup.
     */
    method ProcessVideo(job: Queue.Job, finalW: string, finalH: string, frameStep: string, s: Stages,
                        clean: bool, videoDir: string, sep: char, tools: Tools) returns (outcome: Outcome)
      requires Valid() && !editorRunning
      requires s.reduce && Text.ParseInt(frameStep).Some? ==> Text.ParseInt(frameStep).value > 0
      requires s.editor ==> Settles(tools.polls)
      modifies this
      ensures Valid()
      ensures outcome == Failed(BadNumber) <==>
        Text.ParseInt(finalW).None? || Text.ParseInt(finalH).None? || Text.ParseInt(frameStep).None?
      ensures outcome == Failed(BadNumber) ==> unchanged(this)
      ensures outcome != Failed(BadNumber) ==>
        checks > old(checks) && old(reports) <= reports &&
        (outcome == Stopped <==> stop.SetAt(checks - 1)) &&
        (rootExists <==> old(rootExists) || !stop.SetAt(old(checks))) &&
        stageDirs.Keys <= EnabledDirs(s)
      ensures outcome.Finished? ==> tools.frames.Some?
      ensures outcome.Finished? ==>
        var expected := ExpectedDirs(s, tools.frames.value, Text.ParseInt(frameStep).value, CropOp(job),
                                     tools.editorOutput,
                                     ResizeOp(tools, Text.ParseInt(finalW).value, Text.ParseInt(finalH).value));
        outcome.last == LastDir(s) &&
        (clean ==> stageDirs == map[] && rootFiles == PngPart(expected[LastDir(s)])) &&
        (!clean ==> stageDirs == expected && rootFiles == map[])
      ensures Explains(outcome, s, tools)
      ensures LeftBehind(outcome, s, editorRunning, marker, old(marker))
    {
      var w := Text.ParseInt(finalW);
      var h := Text.ParseInt(finalH);
      var step := Text.ParseInt(frameStep);
      if w.None? || h.None? || step.None? {
        return Failed(BadNumber);
      }
      outcome := ProcessParsed(job, w.value, h.value, step.value, s, clean, videoDir, sep, tools);
    }

    /** `process_video` once the numbers are read: empty the video's folder, run the stages, clean up. */
    method ProcessParsed(job: Queue.Job, w: int, h: int, step: int, s: Stages,
                         clean: bool, videoDir: string, sep: char, tools: Tools) returns (outcome: Outcome)
      requires Valid() && !editorRunning
      requires s.reduce ==> step > 0
      requires s.editor ==> Settles(tools.polls)
      modifies this
      ensures Valid() && outcome != Failed(BadNumber)
      ensures checks > old(checks) && old(reports) <= reports
      ensures outcome == Stopped <==> stop.SetAt(checks - 1)
      ensures rootExists <==> old(rootExists) || !stop.SetAt(old(checks))
      ensures stageDirs.Keys <= EnabledDirs(s)
      ensures outcome.Finished? ==> tools.frames.Some?
      ensures outcome.Finished? ==>
        var expected := ExpectedDirs(s, tools.frames.value, step, CropOp(job), tools.editorOutput, ResizeOp(tools, w, h));
        outcome.last == LastDir(s) &&
        (clean ==> stageDirs == map[] && rootFiles == PngPart(expected[LastDir(s)])) &&
        (!clean ==> stageDirs == expected && rootFiles == map[])
      ensures Explains(outcome, s, tools)
      ensures LeftBehind(outcome, s, editorRunning, marker, old(marker))
    {
      if rootExists {
        rootFiles := map[];
        stageDirs := map[];
      }
      outcome := RunStages(job, w, h, step, s, videoDir, sep, tools);
      if outcome.Finished? {
        Tidy(clean, outcome.last);
      }
    }

    /** The end of a finished run: the cleanup, when it is switched on. */
    method Tidy(clean: bool, last: string)
      requires last in stageDirs && last in StageNames && stageDirs.Keys <= StageNames && rootFiles == map[]
      modifies this`rootFiles, this`stageDirs
      ensures clean ==> stageDirs == map[] && rootFiles == PngPart(old(stageDirs)[last])
      ensures !clean ==> stageDirs == old(stageDirs) && rootFiles == map[]
    {
      if clean {
        Cleanup(last);
        assert stageDirs == map[] by {
          assert stageDirs.Keys == {};
        }
        Collections.EmptyUnion(PngPart(old(stageDirs)[last]));
      }
    }

    /** The stages of `process_video` on an empty video folder. */
    method RunStages(job: Queue.Job, w: int, h: int, step: int, s: Stages,
                     videoDir: string, sep: char, tools: Tools) returns (outcome: Outcome)
      requires stageDirs == map[] && rootFiles == map[] && !editorRunning
      requires s.reduce ==> step > 0
      requires s.editor ==> Settles(tools.polls)
      modifies this
      ensures outcome != Failed(BadNumber)
      ensures Valid()
      ensures checks > old(checks) && old(reports) <= reports
      ensures outcome == Stopped <==> stop.SetAt(checks - 1)
      ensures rootExists <==> old(rootExists) || !stop.SetAt(old(checks))
      ensures stageDirs.Keys <= EnabledDirs(s)
      ensures outcome.Finished? ==> tools.frames.Some?
      ensures outcome.Finished? ==>
        outcome.last == LastDir(s) && LastDir(s) in StageNames && rootFiles == map[] &&
        stageDirs == ExpectedDirs(s, tools.frames.value, step, CropOp(job), tools.editorOutput, ResizeOp(tools, w, h))
      ensures Explains(outcome, s, tools)
      ensures LeftBehind(outcome, s, editorRunning, marker, old(marker))
    {
      var end := DecodeStage(s, step, tools);
      if end != Continue {
        return if end == StopSeen then Stopped else Failed(end.reason);
      }
      ghost var first := Numbered(Decoded(tools.frames.value, s.reduce, step));
      ghost var expected := ExpectedFrom(s, first, CropOp(job), tools.editorOutput, ResizeOp(tools, w, h));
      assert expected == ExpectedDirs(s, tools.frames.value, step, CropOp(job), tools.editorOutput, ResizeOp(tools, w, h));
      outcome := LaterStages(job, w, h, s, videoDir, sep, tools, first);
    }

    /** Stage 1: decode the video into numbered frames, every `step`-th one when reducing. */
    method DecodeStage(s: Stages, step: int, tools: Tools) returns (end: StageEnd)
      requires stageDirs == map[] && (s.reduce ==> step > 0)
      modifies this`checks, this`reports, this`stageDirs, this`rootExists
      ensures checks == old(checks) + 1 && old(reports) <= reports
      ensures end == StopSeen <==> stop.SetAt(old(checks))
      ensures rootExists <==> old(rootExists) || !stop.SetAt(old(checks))
      ensures end.Broke? ==> end.reason == DecodeFailed && tools.frames.None?
      ensures end == Continue <==> !stop.SetAt(old(checks)) && tools.frames.Some?
      ensures end == Continue ==>
        stageDirs == map[FirstDir(s.reduce) := Numbered(Decoded(tools.frames.value, s.reduce, step))]
      ensures end != Continue ==> stageDirs.Keys <= {FirstDir(s.reduce)}
      ensures end == StopSeen ==> stageDirs == old(stageDirs)
    {
      var pressed := BeginStage(1, FirstDir(s.reduce));
      if pressed {
        return StopSeen;
      }
      rootExists := true;
      if tools.frames.None? {
        return Broke(DecodeFailed);
      }
      stageDirs := stageDirs[FirstDir(s.reduce) := Numbered(Decoded(tools.frames.value, s.reduce, step))];
      end := Continue;
    }

    /** Stages 2 to 4, each when enabled, on the frames stage 1 wrote. */
    method LaterStages(job: Queue.Job, w: int, h: int, s: Stages, videoDir: string, sep: char, tools: Tools,
                       ghost first: Dir) returns (outcome: Outcome)
      requires stageDirs == map[FirstDir(s.reduce) := first] && !editorRunning
      requires checks > 0 && !stop.SetAt(checks - 1)
      requires s.editor ==> Settles(tools.polls)
      modifies this`checks, this`reports, this`stageDirs, this`marker, this`script, this`editorRunning
      ensures outcome != Failed(BadNumber) && outcome != Failed(DecodeFailed)
      ensures checks >= old(checks) && old(reports) <= reports
      ensures outcome == Stopped <==> stop.SetAt(checks - 1)
      ensures stageDirs.Keys <= EnabledDirs(s)
      ensures outcome.Finished? ==>
        outcome.last == LastDir(s) && LastDir(s) in StageNames &&
        stageDirs == ExpectedFrom(s, first, CropOp(job), tools.editorOutput, ResizeOp(tools, w, h))
      ensures Explains(outcome, s, tools)
      ensures LeftBehind(outcome, s, editorRunning, marker, old(marker))
    {
      var end := CropStep(job, s, first);
      if end == Continue {
        end := EditStep(s, videoDir, sep, job.prefix, tools, first, CropOp(job));
        if end == Continue {
          end := ResizeStep(s, ResizeOp(tools, w, h), first, CropOp(job), tools.editorOutput);
        }
      }
      outcome := match end
        case Continue => Finished(LastDir(s))
        case StopSeen => Stopped
        case Broke(reason) => Failed(reason);
    }

    /** Stage 2, when enabled. */
    method CropStep(job: Queue.Job, s: Stages, ghost first: Dir) returns (end: StageEnd)
      requires stageDirs == map[FirstDir(s.reduce) := first]
      requires checks > 0 && !stop.SetAt(checks - 1)
      modifies this`checks, this`reports, this`stageDirs
      ensures checks >= old(checks) && old(reports) <= reports
      ensures end == StopSeen <==> stop.SetAt(checks - 1)
      ensures end.Broke? ==> s.crop && end.reason == ImageUnreadable
      ensures stageDirs.Keys <= EnabledDirs(s)
      ensures end == Continue ==> stageDirs == AfterCrop(s, first, CropOp(job))
    {
      end := Continue;
      if s.crop {
        end := ConvertStage(2, FirstDir(s.reduce), CroppedDir, CropOp(job), ImageUnreadable);
      }
    }

    /** Stage 3, when enabled, on the folder stage 2 (or stage 1) wrote. */
    method EditStep(s: Stages, videoDir: string, sep: char, prefix: string, tools: Tools,
                    ghost first: Dir, ghost crop: Crop.Image -> Option<Crop.Image>) returns (end: StageEnd)
      requires stageDirs == AfterCrop(s, first, crop) && !editorRunning
      requires checks > 0 && !stop.SetAt(checks - 1)
      requires s.editor ==> Settles(tools.polls)
      modifies this`checks, this`reports, this`stageDirs, this`marker, this`script, this`editorRunning
      ensures checks >= old(checks) && old(reports) <= reports
      ensures end == StopSeen <==> stop.SetAt(checks - 1)
      ensures end.Broke? ==> s.editor && end.reason in {TemplateMissing, LaunchFailed, EditorDied, EditorHung}
      ensures end == Broke(TemplateMissing) ==> tools.template.None?
      ensures end == Broke(LaunchFailed) ==> !tools.launches
      ensures stageDirs.Keys <= EnabledDirs(s)
      ensures end == Continue ==> stageDirs == AfterEdit(s, first, crop, tools.editorOutput)
      ensures editorRunning ==> s.editor && (end == StopSeen || end == Broke(EditorHung))
      ensures marker ==> old(marker) || (s.editor && end == StopSeen)
    {
      end := Continue;
      if s.editor {
        end := EditorStage(LastDir(s.(editor := false, resize := false)), videoDir, sep, prefix, tools);
      }
    }

    /** Stage 4, when enabled, on the folder the last earlier stage wrote. */
    method ResizeStep(s: Stages, resize: Crop.Image -> Option<Crop.Image>, ghost first: Dir,
                      ghost crop: Crop.Image -> Option<Crop.Image>, ghost edited: Dir) returns (end: StageEnd)
      requires stageDirs == AfterEdit(s, first, crop, edited)
      requires checks > 0 && !stop.SetAt(checks - 1)
      modifies this`checks, this`reports, this`stageDirs
      ensures checks >= old(checks) && old(reports) <= reports
      ensures end == StopSeen <==> stop.SetAt(checks - 1)
      ensures end.Broke? ==> s.resize && end.reason == ResizeFailed
      ensures stageDirs.Keys <= EnabledDirs(s)
      ensures end == Continue ==> stageDirs == ExpectedFrom(s, first, crop, edited, resize)
    {
      end := Continue;
      if s.resize {
        end := ConvertStage(4, LastDir(s.(resize := false)), FinalDir, resize, ResizeFailed);
      }
    }
  }
}
