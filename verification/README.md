# Video2FrameProcesser, modelled in Dafny

Video2FrameProcesser is a desktop tool. It turns each queued video into a
folder of processed PNG frames. The window keeps a queue of videos, each
with:

- an output folder name;
- a file-name prefix;
- a crop size;
- a crop offset.

A worker takes the queue in order and runs each video through up to four
stages. Each stage writes a numbered sub-folder of the video's output
folder:

1. **Decode** the video into `frame_NNNN.png` files with ffmpeg, always.
   When reduction is on, only every `frame_step`-th frame is kept.
2. **Crop** every frame (optional). The crop box is centred and shifted by
   the offsets. The result is a transparent RGBA canvas of exactly the crop
   size.
3. **Edit** the frames in an image editor (optional). The program renders
   an action script from a template, starts the editor on it, and waits for
   the completion marker the script writes.
4. **Resize** every frame to the final size with ImageMagick (optional).

An optional cleanup then moves the last stage's frames into the video's
folder and deletes the stage folders. The stop button is checked before
every stage, every file and every pass of the editor wait.

The model covers the following parts of `main.py` and
`run_action_template.jsx`:

- **Settings** — the merge of the defaults into loaded settings.
- **Paths** — `os.path.basename`, the stem that `splitext` leaves, and the
  `.png` filter.
- **Queue** — the queue as a class whose `jobs` sequence the three queue
  commands rewrite.
- **Aspect** — the linked width and height fields as a class. Its two
  write traces call each other, guarded by the re-entrancy flag.
- **Crop** — the crop geometry and the pixel-level crop of one frame.
- **Template** — `str.replace` and the rendering of the run script.
- **ActionScript** — the editor-side script as a class:
  - `pad` as a loop;
  - `sort()` as an in-place insertion sort on an array;
  - the loop over the sorted documents;
  - the marker it writes on the success path and on the error path.
- **Pipeline** — `process_video` as a class over the video's output folder:
  - the folder is a map from stage-folder name to files;
  - the stop button is an oracle that stays pressed once pressed;
  - the per-file loops, the editor wait loop and the cleanup are methods
    with loop invariants;
  - each method is proved against specification functions: `ExpectedDirs`,
    `WaitSpec`, `EditorEnd`, `FileReports` and `WaitReports`.
- **Runner** — `process_queue` as a class over the window's dialogs, the
  progress bar and the videos handed to `process_video`. Each video's
  outcome is an input.
- **Text** — the two decimal-text conversions, Python's `int(text)` and
  `str(i)`, and the zero padding shared by the script's `pad` and ffmpeg's
  `%04d`.

## Model

| member | source | states |
|---|---|---|
| Settings.MergeDefaults | main.py:60-62 | Merged keys are the loaded keys plus every default key. Every loaded entry is kept unchanged. Every default missing from the file is added with its default value. |
| Text.DecimalTextValue | run_action_template.jsx:18 | The decimal text of `n` spells `n`. |
| Text.PaddedShape | run_action_template.jsx:17-21 | Padding gives digits that keep the number's value. The result is `max(size, digits)` long and ends with the unpadded text, so nothing is truncated. |
| Text.PaddedInjective | run_action_template.jsx:17-21 | Different numbers never get the same padded text, whatever the width. |
| Text.ParseIntText | main.py:359-368 | `int(str(i)) == i` for every integer, negative ones included. |
| Text.ParseIntBlank | main.py:499 | `int()` rejects (`ValueError`) the empty text and text made only of blanks. |
| Paths.BaseNameShape | main.py:325 | The base name is a tail of the path with no separator, and it is preceded by a separator unless it is the whole path. |
| Paths.LastDot | main.py:325 | Returns the index of the last '.' (no later '.' exists), or -1 when there is none. |
| Paths.StemShape | main.py:325 | The stem is either the whole name, or the name cut at its last dot with something other than dots before that dot. |
| Paths.StemDropsExtension | main.py:325 | `name + ".ext"` has stem `name` whenever `name` is not all dots. |
| Paths.FileStemShape | main.py:325 | The default folder name holds no separator and is no longer than the path. |
| Queue.QueuedJobs | main.py:324-327 | One record per chosen path, in order: folder is the file's stem, prefix "frame", the default crop size, zero offsets. |
| Queue.VideoQueue.AddVideos | main.py:319-328 | Succeeds exactly when both default sizes parse. A failed parse leaves the queue unchanged. A successful run appends exactly `Queued(paths, …)`. |
| Queue.KeptIndicesOrdered | main.py:330-335 | The surviving positions are strictly increasing, and every unselected position survives. |
| Queue.WithoutKeepsOrder | main.py:330-335 | Removal keeps exactly the unselected entries in their original order: entry j of the result is the j-th unselected entry. |
| Queue.DeleteBelowRemoved | main.py:332-334 | When every deletion so far was above `i`, deleting at index `i` removes original position `i`. This is why the indices are sorted in reverse. |
| Queue.Descending | main.py:332-333 | The deletion order is strictly decreasing and lists exactly the selected positions in range. |
| Queue.VideoQueue.RemoveSelected | main.py:330-335 | The new queue is the old queue without exactly the selected positions. |
| Queue.ParseNumbers | main.py:339-341 | The four fields are accepted exactly when each one parses as an integer. |
| Queue.ReconfiguredShape | main.py:343-355 | Reconfiguring keeps the video path. It uses the file stem when asked to. A typed folder name is kept, an empty one becomes "custom_output", and a typed prefix is taken verbatim. Applying it twice equals applying it once. |
| Queue.VideoQueue.ApplySettingsToSelected | main.py:337-356 | Status is NothingSelected, then NotIntegers, then Applied, in that priority. Only Applied changes the queue: selected records are reconfigured and the length and the other records are kept. |
| Queue.VideoQueue.ReconfigureAll | main.py:343-356 | Every selected index gets the reconfigured record, and every other record is unchanged. |
| Aspect.TruncDiv | main.py:365-366 | `int(a / b)` truncates toward zero, for both signs of `a`. |
| Aspect.HeightFor | main.py:362-366 | Defined exactly for 1:1, 4:3 and 16:9. 1:1 copies the width. Otherwise the height is the floor of 3w/4 or 9w/16 for w ≥ 0. |
| Aspect.WidthFor | main.py:373-377 | Defined exactly for the three ratios. The width is the floor of 4h/3 or 16h/9 for h ≥ 0. |
| Aspect.LinkIsOdd | main.py:365-366 | Truncation makes both links odd functions: a negated entry gives the negated result. |
| Aspect.LinkRoundTrip | main.py:359-379 | Width to height and back never exceeds the typed width, loses at most 2, and is exact for 1:1. |
| Aspect.HeightTextOfNumber | main.py:362-366 | The text written into the height field reads back as the derived height. |
| Aspect.DimensionLink.OnWidthChange | main.py:359-368 | Does nothing while an update is running. Otherwise the height becomes `str` of the derived height when the width parses and the ratio is fixed, and stays as it was otherwise. Width, ratio and flag are unchanged. |
| Aspect.DimensionLink.OnHeightChange | main.py:370-379 | The mirror image of OnWidthChange. |
| Aspect.DimensionLink.SetCropW | main.py:376 | The width takes the text. The nested trace writes the height unless the flag is set, so the field written second never writes back. |
| Aspect.DimensionLink.SetCropH | main.py:365 | The mirror image of SetCropW. |
| Aspect.DimensionLink.SelectRatio | main.py:358 | Choosing a ratio re-derives the height from the current width. |
| Crop.CropBox | main.py:537-540 | The box is exactly `cw` by `ch` and is centred (floor division) plus the offsets. |
| Crop.Clamp | main.py:550-557 | A nonempty clamped region lies inside the frame. |
| Crop.ClampFits | main.py:550-562 | The clamped region fits the canvas at its paste position and is shifted from the box by exactly the box's corner. |
| Crop.CropFrame | main.py:535-564 | The result is exactly `cw` × `ch`. Each pixel is the frame's pixel under the box, or transparent where the box leaves the frame. |
| Crop.PastedBox | main.py:560-562 | Pasting the clamped region into the blank canvas puts every pixel under the box in its place. |
| Crop.CropOutsideIsTransparent | main.py:544-564 | A box that misses the frame gives a fully transparent image. |
| Crop.CropInsideIsRegion | main.py:537-562 | A box inside the frame gives exactly the frame's region, with no padding. |
| Crop.FullHdCentreExample | main.py:537-540 | A 1920×1080 frame cropped to 256×256 with no offset gives the box (832,412)-(1088,668). |
| Crop.FarLeftOffsetExample | main.py:537-560 | Offset -2000 on a 1920-wide frame leaves nothing to paste, so the result is transparent. |
| Template.ReplaceAllAbsent | main.py:485-487 | `replace` leaves a text without the placeholder unchanged. |
| Template.ReplaceAllFirst | main.py:485 | At the first occurrence: the prefix is kept, that occurrence is replaced, and scanning resumes after it. |
| Template.ReplaceAllSplice | main.py:485 | `x + t + y` becomes `x + r + y` when no occurrence of `t` starts inside `x` and `y` holds none. |
| Template.ReplaceCharAt | main.py:486-487 | Replacing one character changes each occurrence of it and keeps the length and the other characters. |
| Template.SlashedShape | main.py:486-487 | Every separator becomes '/', every other character is kept, and the length is unchanged. |
| Template.RenderScript | main.py:482-489 | Rendering fails, with the not-found error, exactly when the template is missing. |
| Template.RenderSubstitutes | main.py:484-487 | A template with each placeholder once, in order, renders as the surrounding pieces with the prefix verbatim and both folders slashed. |
| Template.SubstituteThree | main.py:485-487 | Three successive single-occurrence replacements give the spliced text. |
| ActionScript.Pad | run_action_template.jsx:17-21 | The loop returns exactly the padded text of `num` to width `size`. |
| ActionScript.BelowTotal | run_action_template.jsx:30 | The default sort order is total. |
| ActionScript.BelowAntisymmetric | run_action_template.jsx:30 | The default sort order is antisymmetric. |
| ActionScript.BelowTransitive | run_action_template.jsx:30 | The default sort order is transitive. |
| ActionScript.OrderedPairwise | run_action_template.jsx:30 | An adjacent-ordered list is ordered between any two positions. |
| ActionScript.SortNames | run_action_template.jsx:30 | The array ends up ordered and is a permutation of its old contents. |
| ActionScript.Sink | run_action_template.jsx:30 | One insertion step: `a[..i+1]` becomes ordered, the rest is untouched, and the contents are a permutation. |
| ActionScript.Swap | run_action_template.jsx:30 | Exchanges two neighbours and changes nothing else. |
| ActionScript.OutputNameInjective | run_action_template.jsx:40 | Different positions get different `PREFIX_NNNN.png` names, so no save overwrites another. |
| ActionScript.OutputNameIsPng | run_action_template.jsx:40 | Every output name passes the pipeline's `.png` filter. |
| ActionScript.PngEntries | run_action_template.jsx:27 | The mask keeps exactly the listed `.png` entries. |
| ActionScript.FirstFailure | run_action_template.jsx:31-45 | Finds the first failing document: every earlier one succeeds and this one fails, or it is the count when all succeed. |
| ActionScript.SavedHas | run_action_template.jsx:31-45 | Every successful document k is saved under number k+1 with the image its step produced. |
| ActionScript.SavedOnly | run_action_template.jsx:31-45 | Nothing else is saved. |
| ActionScript.SortedPngs | run_action_template.jsx:27-30 | The processing order is sorted and is a permutation of the `.png` entries. |
| ActionScript.ScriptRun.OpenFolder | run_action_template.jsx:24-26 | Afterwards the output folder exists, and it is created only when it was missing. |
| ActionScript.ScriptRun.ProcessDocuments | run_action_template.jsx:31-45 | The loop saves exactly the documents before the first failure and stops there with its message. The events are the open/save pairs, then the open of the failing document. |
| ActionScript.ScriptRun.ProcessAndMark | run_action_template.jsx:27-63 | The marker reads "done", or "error: " plus the first failure's message. It is written after the loop on both paths. |
| ActionScript.ScriptRun.Run | run_action_template.jsx:5-63 | The whole run. Input is taken in sorted order. Output is what was there plus the saved documents. The marker and the full event trace are as above. |
| ActionScript.MarkerAlwaysLast | run_action_template.jsx:49-63 | The marker is the last event on the try path and the catch path alike. It reads "done" exactly when every document succeeded. |
| ActionScript.FolderFirst | run_action_template.jsx:24-32 | A missing output folder is created before any document is opened. |
| ActionScript.NoInputStillMarks | run_action_template.jsx:27-54 | With no `.png` input nothing is opened, and the marker still reads "done". |
| ActionScript.FileEventsAt | run_action_template.jsx:31-45 | Event pair i opens the i-th sorted file and saves it under number i+1. |
| Pipeline.EnabledDirs | main.py:508-609 | The folders a run can create are stage folders, and the first-stage folder is always among them. |
| Pipeline.LastDir | main.py:506-617 | The frames end in the folder of the last enabled stage. |
| Pipeline.SelectFramesExact | main.py:513 | The filter keeps ⌈n/step⌉ frames, and kept frame j is decoded frame `j·step`. |
| Pipeline.SelectThirtyByThree | main.py:513 | 30 frames at step 3 keep 10, the last being frame 27. |
| Pipeline.NumberedHolds | main.py:514 | The decoder writes frame j under `frame_%04d` of j+1. |
| Pipeline.NumberedOnly | main.py:514 | The decoder writes nothing else. |
| Pipeline.NumberedPng | main.py:514 | Every decoded file passes the `.png` filter of the later stages. |
| Pipeline.PngPart | main.py:629-633 | The `.png` part of a folder holds exactly its `.png` files, with their contents. |
| Pipeline.ConvertedListing | main.py:529-567 | A complete per-file pass writes the same folder whatever the listing order. |
| Pipeline.MovedListing | main.py:629-633 | Moving every listed file moves exactly the folder's `.png` part. |
| Pipeline.FileReportsCount | main.py:566-567 | After n files a stage has made n/10 reports, at files 10, 20, 30, … |
| Pipeline.WaitSpec | main.py:590-599 | The wait ends after a number of sleeps between the pass it starts at and the number of polls. |
| Pipeline.WaitReportsCount | main.py:596-598 | After n sleeps the wait has made n/5 reports, at 10, 20, 30, … seconds. |
| Pipeline.FirstDecisive | main.py:590-599 | Returns the first poll that settles the wait; no earlier poll does. |
| Pipeline.WaitWithoutStop | main.py:590-599 | Without a stop the wait ends at the first settling poll: with the marker when it is there, with the editor's death otherwise. |
| Pipeline.WaitStopFirst | main.py:590-594 | A stop pressed before the wait ends it at once, unless the marker is already there. |
| Pipeline.DiedMeansNoStop | main.py:599 | The editor's death is reported only after a pass with no marker, no stop and an exited editor. |
| Pipeline.StopPressedMeansStop | main.py:591-594 | The wait ends with the stop only at a check that saw it. |
| Pipeline.Idle | main.py:590-599 | An editor that is up and has not written the marker, for a given number of polls. |
| Pipeline.WaitUnbounded | main.py:590-599 | However many idle polls come first, the wait goes on through all of them and ends only with the marker after them: nothing bounds it. |
| Pipeline.WaitWithinBounded | main.py:590-599 | The bounded wait gives up exactly at its limit, and otherwise ends between its start and its limit. |
| Pipeline.WaitWithinTimedOut | main.py:590-599 | The bounded wait gives up only after polls that neither settle nor see a stop. |
| Pipeline.WaitWithinAgrees | main.py:590-599 | When the unbounded wait ends before the limit, or with the editor found dead at the last pass, the bounded one ends the same way. |
| Pipeline.ExpectedDirs | main.py:506-617 | A fully successful run leaves exactly the enabled stage folders. |
| Pipeline.EditorWithoutStop | main.py:570-603 | Without a stop the editor stage goes on exactly when all of these hold: the template exists, the editor starts, the marker comes before the editor exits, and the editor closes in time. |
| Pipeline.VideoRun.StopRequested | main.py:509 | One more stop check; it sees the oracle at the current check count. |
| Pipeline.VideoRun.ListPngs | main.py:529 | The listing holds each `.png` file of the folder exactly once. |
| Pipeline.VideoRun.FileStage | main.py:528-567 | The stage ends in one of three ways: after every file, at the first stop seen, or at the first unreadable file. The target holds the converted files so far, and the reports are one per 10 files. |
| Pipeline.VideoRun.ConvertFiles | main.py:530-567 | The per-file loop, with the same ends, folder and reports stated for the files handled. |
| Pipeline.VideoRun.ConvertNext | main.py:531-567 | One pass: the stop check, the conversion, the write and the report. |
| Pipeline.VideoRun.SaveConverted | main.py:564-567 | Writes the file under its own name and reports at every 10th file. |
| Pipeline.VideoRun.WaitForEditor | main.py:589-599 | The loop ends as `WaitSpec` says. The check count, the reports, the marker and whether the editor runs match that end. |
| Pipeline.VideoRun.WaitForEditorWithin | main.py:589-599 | The same loop with a limit on its passes: it ends as `WaitWithin` says, and on giving up it has made one check and one sleep per pass and closes the editor. |
| Pipeline.VideoRun.BeginStage | main.py:508-512 | A stage starts, with its report and its folder, exactly when its stop check is clear. |
| Pipeline.VideoRun.ConvertStage | main.py:524-568 | A per-file stage that goes on has written the conversion of every `.png` file of its input folder. |
| Pipeline.VideoRun.EditorStage | main.py:570-603 | The end is `EditorEnd`. Also stated: the stop checks and reports, the edited folder, the script that was written, and whether the marker and the editor are left behind. |
| Pipeline.VideoRun.FinishEditing | main.py:589-603 | From the editor's start: the end, the check count, the reports, the folder, the marker and whether the editor runs, all as the wait end dictates. |
| Pipeline.VideoRun.Cleanup | main.py:622-650 | The root gains the last stage's `.png` files and every stage folder is gone. |
| Pipeline.VideoRun.MoveFinal | main.py:627-633 | The `.png` files move to the root and the rest of the folder stays. |
| Pipeline.VideoRun.MoveFiles | main.py:629-633 | The root gains exactly the listed files. |
| Pipeline.VideoRun.DeleteStageDirs | main.py:638-648 | Every stage folder that exists is deleted and nothing else is touched. |
| Pipeline.VideoRun.ProcessVideo | main.py:496-650 | A bad number fails before anything changes. Otherwise it ends Stopped exactly at a check that saw the stop. A finished run leaves either `ExpectedDirs` or, with cleanup, the root holding the last stage's `.png` part and no stage folder. A failure's reason is explained by the tools, and the editor and marker are left behind only by a stop or a hung editor. |
| Pipeline.VideoRun.ProcessParsed | main.py:503-650 | The same as ProcessVideo, once the numbers are read. |
| Pipeline.VideoRun.Tidy | main.py:622-650 | With cleanup, the root holds the last folder's `.png` part and no stage folder remains. Without cleanup, nothing changes. |
| Pipeline.VideoRun.RunStages | main.py:506-617 | On an empty video folder, a finished run leaves exactly `ExpectedDirs`. |
| Pipeline.VideoRun.DecodeStage | main.py:508-522 | The first folder holds the numbered selected frames exactly when the stop check is clear and the decoder succeeds. |
| Pipeline.VideoRun.LaterStages | main.py:524-617 | Stages 2 to 4 on the first folder. A finished run leaves `ExpectedFrom`. |
| Pipeline.VideoRun.CropStep | main.py:524-568 | When enabled, the crop stage's end and folders. |
| Pipeline.VideoRun.EditStep | main.py:570-603 | When enabled, the editor stage's end and folders. The failure reasons it can give follow from the tools. |
| Pipeline.VideoRun.ResizeStep | main.py:605-617 | When enabled, the resize stage's end and folders. |
| Runner.LoopSpec | main.py:439-448 | The loop ends at the first stop or the first raising video, at an index in range. |
| Runner.QueueRun.ProcessQueue | main.py:427-460 | For outcomes where a stopped video leaves the stop flag set (`StopSticks`): an empty queue only shows the message. Otherwise these follow `LoopSpec`: the videos handed over, the dialogs and the bar. The buttons end enabled. |
| Runner.QueueRun.Finish | main.py:450-460 | The interruption or error dialog. "All done" and "complete" appear only without a stop, and "ready" only without a stop at the end. |
| Runner.AllDoneExactly | main.py:450-453 | "All done" is shown exactly when no video raised and no stop was seen at the end. |
| Runner.UninterruptedRunsAll | main.py:439-448 | Without a stop or an error every video is processed. |
| Runner.NothingAfterStop | main.py:440-443 | Since the stop flag stays set after a stopped video, that video is the last one handed over. |
| Runner.StoppedHidesAllDone | main.py:440-453 | After a video returned because of a stop, "All done" is not shown. |
| Runner.FirstErrorEnds | main.py:454-456 | The run ends at the first raising video, with its reason. |

## Left out

- The user interface is not modelled: widgets, the settings window, the preview, language files and log text. Progress is kept only as the reports the stages make.
- Reading and writing the settings file (JSON parsing, the fallback to the defaults when the file is missing or corrupt) are file I/O. Only the key merge is modelled.
- Threads are not modelled. The stop button is an oracle indexed by the worker's own checks, and it stays pressed once pressed.
- The tools' internals are left out: ffmpeg, ImageMagick, the image editor and its recorded action. Each appears as the output it produces or as failure.
- ActionScript.ScriptRun.Run: the per-file step is open, action, save. The `doc.close` at run_action_template.jsx:44 is not part of it, so a close that throws after a successful `saveAs` leaves a file on disk that `Saved` does not list. The `Open` event is recorded even when `open` throws.
- The tools' partial output on failure is not modelled. A decoder or resizer that fails writes nothing in the model, and an editor that is stopped or dies leaves its folder empty.
- The script's 3-second start-up sleep and the program's 2-second sleeps appear only as counts.
- Pixel modes are not modelled: frames are RGBA, so the conversion of non-RGBA frames is the identity.
- The crop stage treats non-positive crop sizes as an unreadable frame, which is a failure. The source lets the image library raise on them.
- Text.ParseInt: accepts ASCII digits, a sign and blanks, where a blank is one of ' ', \t, \n, \r, \v and \f. Python's `int` also strips \x1c-\x1f, \x85, \xa0 and the other Unicode spaces, and accepts underscores and non-ASCII digits. None of these are modelled.
- Aspect.HeightFor, Aspect.WidthFor: compute `int(w * 3 / 4)`, `int(w * 9 / 16)`, `int(h * 4 / 3)` and `int(h * 16 / 9)` in exact arithmetic. Python first rounds each quotient to the nearest double. Once the gap between neighbouring doubles is wide enough for that rounding to reach the next integer, `int()` gives one more than the exact floor. This starts below 2^53 for every ratio except 1:1. For 16:9 widths, `int(633318697598981 * 16 / 9)` is 1125899906842633, while `WidthFor("16:9", 633318697598981)` is 1125899906842632. The smallest entries that differ are h = 633318697598981 for 16:9 widths, w = 1000799917193447 for 16:9 heights, w = 3002399751580333 for 4:3 heights and h = 3377699720527874 for 4:3 widths, and the same magnitudes negated. Some larger entries agree and some do not. A quotient beyond the largest double (an entry above about 10^308) raises `OverflowError`. The `except (ValueError, tk.TclError)` at main.py:367 and main.py:378 does not catch it, so the other field is not written, while the model writes it.
- Aspect.WidthFor: leaves out the same double rounding and `OverflowError` as the line above, with the first differences at h = 633318697598981 for 16:9 and h = 3377699720527874 for 4:3.
- Pipeline.VideoRun.ListPngs: the order of `os.listdir` is an arbitrary choice, and the results are proved for every order.
- Pipeline.VideoRun.ProcessVideo: requires a positive frame step when reduction is on. What ffmpeg does with `mod(n, 0)` or a negative step is not modelled.
- ActionScript.Below: the `sort()` at run_action_template.jsx:30 compares the File objects by their string form, which is the URI-encoded full path (a space becomes `%20`). The model compares the bare names by character code. Both give the same order for the `frame_NNNN.png` names the decoder writes into one folder. Other names, or names with characters beyond the Basic Multilingual Plane, may sort differently.
- ActionScript.ScriptRun.Run: the prefix is taken as a finished piece of the script. main.py:485 puts the typed prefix into the string literal at run_action_template.jsx:12 without escaping, so the model assumes it holds no `"`, no `\` and no line break. With a `"` the script does not parse and no marker is written, and a `\` starts an escape that changes the saved names.
- Pipeline.VideoRun.WaitForEditor: requires `Settles(polls)`, i.e. the editor eventually writes the marker or exits. The loop at main.py:590-599 has no time limit, so an editor that does neither keeps the worker waiting for ever (see Findings). The same assumption is carried by EditorStage, FinishEditing, EditStep, LaterStages, RunStages, ProcessParsed and ProcessVideo.
- ActionScript.PngEntries: the `*.png` mask is a case-sensitive suffix test. The editor's own file-system case rules are not modelled.
- The program's paths are joined by string concatenation with the host separator. `os.path.join` edge cases such as absolute components are not modelled.
- The per-video `self.log` messages and `messagebox` calls are not modelled, apart from the dialogs and bar states of the queue runner.

## Findings

| source | as written | input that shows it | evidently intended | confidence | as-written member | corrected member |
|---|---|---|---|---|---|---|
| main.py:590-599 | The wait for the editor's marker has no time limit: it ends only with the marker, a stop or the editor's exit. | An editor that stays up and never writes the marker, e.g. because the script failed to parse: `Idle(n)` for every n keeps the wait going. | A wait bounded by a number of passes, after which the editor is closed and the stage fails. | medium, not executed | Pipeline.WaitUnbounded | Pipeline.VideoRun.WaitForEditorWithin |

The rest of the model keeps the source's unbounded wait, under the assumption stated for Pipeline.VideoRun.WaitForEditor above; the bounded wait is proved on its own (`Pipeline.WaitWithinBounded`, `Pipeline.WaitWithinTimedOut`, `Pipeline.WaitWithinAgrees`).
