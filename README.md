# transpose-midi in Dafny

This project models the core of `transpose.py`, a script that writes transposed copies of MIDI files. Three parts are modelled:

- `transpose_note` (module `Notes`, `notes.dfy`). It shifts a MIDI note number by at most an octave. A result outside 0..127 is folded back by one octave.
- `remove_ext` (module `Paths`, `paths.dfy`). It drops the last dot-suffix of a path's file name. It uses the POSIX rules of `os.path.split` and `os.path.join`, and `str.split` / `str.join` on `'.'`.
- The per-shift loop of `transpose_midi` (module `Midi`, `midi.dfy`). For each shift it:
  1. loads the file afresh;
  2. rewrites the note of every note-on and note-off message in place (class `MidiFile`, method `TransposeNotes`, two nested loops);
  3. saves the result under `remove_ext(path) + "_tp" + str(shift) + ".mid"`;
  4. folds the outcome into `is_ok`.

  The shift's decimal rendering, `str(int)`, is modelled with its parse back in module `Decimal` (`decimal.dfy`).

The MIDI library is abstracted:

- A parsed file is a sequence of tracks. Each track is a sequence of events: `NoteOn`, `NoteOff` or `Other`.
- The library keeps every note field in 0..127, and a message of type `note_on` or `note_off` is always a `NoteOn` or `NoteOff` event, never an `Other`. This is the class invariant `MidiFile.Valid()`.
- Loading is an input to the job, one result per shift: what `MidiFile(midi_path)` gives at the k-th shift, the parsed container or `None` when the file does not parse. The loads are independent inputs, so the model does not assume that they agree.
- Saving is one input flag per shift: whether the save at that position succeeds.
- Every failure the bare `except` catches becomes a `None` outcome for that shift. There are three such failures:
  - the load fails;
  - `transpose_note`'s range assertion fails;
  - the save fails.

The code reloads the input inside the per-shift `try`. A load that fails fails only its own shift and does not abort the job; a file that never parses fails every shift and saves nothing. The model follows the code here.

Whether the loads agree is left to the environment. The job itself never saves to the input's path string (`OutputPathIsNotInput`), but the model does not exclude a link between an output name and the input, another writer, or a read error at one shift; each of these only changes what a later load gives.

## Model

| member | source | states |
|---|---|---|
| Notes.TransposeNote | transpose.py:38-49 | For a note in 0..127 and a shift in -12..12, the result is in 0..127. It equals note+shift when that is already in range. It is note+shift+12 exactly when note+shift is below 0, and note+shift-12 exactly when it is above 127. It is in the same pitch class as note+shift. |
| Notes.TransposeNoteIsNearest | transpose.py:43-49 | Among all in-range notes of the pitch class of note+shift, the result is the closest to note+shift, and the only one at that distance. |
| Notes.TransposeNoteExamples | transpose.py:43-49 | Worked values: (60,0)↦60, (64,5)↦69, (0,-1)↦11, (127,1)↦116. |
| Decimal.NatToString | transpose.py:71 | The rendering is non-empty and all digits. Its first digit is '0' only for zero, so there are no leading zeros. |
| Decimal.IntToString | transpose.py:71 | str(int): it starts with '-' exactly for negative numbers, and digits follow. |
| Decimal.ParseNatToString | transpose.py:71 | Reading the digits back gives the natural number. |
| Decimal.ParseIntToString | transpose.py:71 | Reading the rendering back gives the integer. |
| Decimal.IntToStringInjective | transpose.py:71 | Distinct shifts render as distinct strings. |
| Decimal.IntToStringExamples | transpose.py:71 | -3↦"-3", 7↦"7", 0↦"0", 12↦"12". |
| Paths.LastIndex | transpose.py:22-23 | The result is -1 exactly when the character is absent. Otherwise the character is at the result and never after it. |
| Paths.Basename | transpose.py:22 | The tail of os.path.split has no '/', and the path is its directory prefix followed by it. |
| Paths.DirPrefix | transpose.py:22 | The path prefix through the last '/' is a prefix of the path, and is empty or ends in '/'. |
| Paths.Dirname | transpose.py:22 | The head of os.path.split is a prefix of the path's prefix through the last '/', with only separators after it. It is empty, all separators, or does not end in '/'. It is empty exactly when the path has no '/'. |
| Paths.RStripSlashes | transpose.py:22 | rstrip('/'): the result is a prefix and does not end in '/'. Only slashes were removed. |
| Paths.JoinPath | transpose.py:29 | posixpath.join: a component that starts with '/' replaces the directory. Otherwise the result is the directory, then exactly one '/' when the directory is non-empty and does not already end in '/', then the component. |
| Paths.SplitJoinPath | transpose.py:22-29 | posixpath.split undoes posixpath.join: joining a directory of the shape split produces with a name without '/' and splitting again gives both back. |
| Paths.SplitOn | transpose.py:23 | str.split: there is at least one piece, and exactly one when the separator is absent. No piece holds the separator. |
| Paths.JoinWith | transpose.py:28 | '.'.join: the first piece opens the result and the last piece closes it, and a join of two or more pieces holds the separator. Its exact content is pinned by JoinSplit and SplitJoin. |
| Paths.JoinSplit | transpose.py:23-28 | '.'.join of name.split('.') gives the name back. |
| Paths.SplitJoin | transpose.py:23-28 | Splitting a join of separator-free pieces gives the pieces back. |
| Paths.Stem | transpose.py:28 | The name kept by remove_ext is a proper prefix of the file name, followed in the name by a '.' after which no '.' occurs: everything before the last '.'. |
| Paths.Extension | transpose.py:23-28 | The dropped suffix starts with its only '.', and the name is the stem followed by it. |
| Paths.JoinAllButLastPiece | transpose.py:28 | Re-joining all pieces but the last gives the name up to its last '.', inner dots included. |
| Paths.RemoveExt | transpose.py:16-29 | A file name without '.' leaves the path unchanged. Otherwise the result is the directory of os.path.split joined with the stem of the name. The directory is always kept as a prefix. |
| Paths.NameWithoutExt | transpose.py:23-28 | The file name left by remove_ext is a prefix of the name; with a '.' in the name it stops right before a '.'. |
| Paths.RemoveExtSplitsBack | transpose.py:16-29 | Splitting the result of remove_ext gives the input's own directory and its file name without the extension: the directory is preserved. |
| Paths.AppendToName | transpose.py:71 | Appending a suffix without '/' to a path keeps its directory and lengthens its file name by the suffix. |
| Paths.RemoveExtSplitsAtStem | transpose.py:22-29 | With a '.' in the file name, the result is the directory joined with an empty name, followed by the stem. |
| Paths.DirnameSeparatorPrefix | transpose.py:22-29 | Rejoining the split directory gives the path's prefix through its last '/', up to a run of repeated separators. With no repeated separator it gives the prefix exactly. |
| Paths.RemoveExtDropsExtension | transpose.py:22-29 | With a '.' in the file name and no doubled separator before it, the path is the result followed by the extension. Only the last dot-suffix is cut. |
| Paths.RemoveExtPlusSuffixIsNotPath | transpose.py:16-29 | Appending to the result a non-empty suffix with no '/' that does not start with '.' never gives back the original path. |
| Midi.TransposeEvent | transpose.py:66-68 | A note-on or note-off event keeps its kind, channel, velocity and time, and gets transpose_note's result as its note. Any other event is unchanged. |
| Midi.TransposeTrack | transpose.py:66-68 | The rewrite of one track adds and drops no event. |
| Midi.TransposeContainer | transpose.py:65-68 | The rewrite keeps the number of tracks and each track's length. |
| Midi.TransposeTrackAt | transpose.py:66-68 | The rewritten track has the same length as the original. Each event is the rewrite of the event at its place. |
| Midi.TransposeContainerAt | transpose.py:65-68 | The rewritten container agrees with the event-by-event rewrite in shape and at every place. |
| Midi.TransposeContainerIff | transpose.py:65-68 | A container is the rewrite exactly when it has the same track count and track lengths, and each event is the rewrite of the one at its place: order kept, notes transposed, other events untouched. |
| Midi.TransposePreservesWellFormed | transpose.py:66-68 | A loaded file stays well formed after the rewrite: every note is still in 0..127, and no other event claims a note type. |
| Midi.TransposableIff | transpose.py:65-68 | For a loaded file, the rewrite runs without an assertion failure exactly when the shift is within -12..12 or the file has no note event. |
| Midi.MidiFile.Load | transpose.py:64 | MidiFile(midi_path): a fresh object holding the parsed tracks, with the class invariant established. |
| Midi.MidiFile.TransposeNotes | transpose.py:65-68 | The nested loops. It succeeds exactly when the file is transposable by the shift. On success the tracks are the rewrite of the loaded tracks. On failure (a shift out of range meeting the first note event) nothing has changed. The class invariant is kept. |
| Midi.ShiftSuffix | transpose.py:71 | The name tail `_tp<shift>.mid` starts with '_' and has no '/'. |
| Midi.ShiftSuffixInjective | transpose.py:71 | Distinct shifts give distinct name tails. |
| Midi.OutputPathSplits | transpose.py:70-71 | OutputPath, the path line 71 saves to: it lies in the input file's directory, and its file name is the input's name without its extension followed by `_tp<shift>.mid`. |
| Midi.OutputPathInjective | transpose.py:70-71 | Two different shifts never write to the same output path. |
| Midi.OutputPathIsNotInput | transpose.py:64-71 | No output path string equals the input path string: the job never saves to the path it loads from. |
| Midi.Attempt | transpose.py:63-76 | The outcome of one shift's try, the specification TransposeOne is proved against: a saved file exactly when the file loads, every note event takes the shift without an assertion failure, and the save succeeds. |
| Midi.AttemptSucceedsIff | transpose.py:63-76 | One shift saves a file exactly when the file loads, the save succeeds, and the shift is within an octave or the file has no note event. |
| Midi.TransposeOne | transpose.py:63-76 | The body of the per-shift try: a fresh object from this shift's load, the in-place rewrite, the derived output path and the save. Its outcome is the shift's attempt: the saved path and container, or a failure. |
| Midi.RunShifts | transpose.py:58-78 | The `for tp in transposition` loop: every shift is attempted on its own load. The flag is True exactly when every shift's attempt succeeded. The files saved are those of the successful attempts, in shift order. |
| Midi.TransposeMidi | transpose.py:51-78 | transpose_midi: the same result as the loop over the shift list. A single int shift behaves as that one shift's attempt: True exactly when it succeeds, saving just its file. |
| Midi.SingleShiftRun | transpose.py:60-62 | A run over the one-element list a single int becomes succeeds and saves exactly as that shift's own attempt. |
| Midi.AllPresentSnoc | transpose.py:58-76 | Folding one more outcome into is_ok keeps it True exactly when that outcome succeeded. |
| Midi.CollectIff | transpose.py:62-71 | A file is among the saved files exactly when some shift's outcome is that file. |
| Midi.CollectAllPresent | transpose.py:62-71 | When every outcome is a file, all of them are saved, in order. |
| Midi.CollectNonePresent | transpose.py:62-76 | When no outcome is a file, nothing is saved. |
| Midi.SavedFiles | transpose.py:62-76 | No more files are saved than there are shifts; which files, and in what order, is given by SavedFilesIff, SavedFilesAllSucceed and RunShifts. |
| Midi.SavedFilesIff | transpose.py:62-76 | A file is saved exactly when some shift's own attempt produces it. A failing shift hides no other shift's file, and each shift works on its own load. |
| Midi.SavedFilesAllSucceed | transpose.py:62-71 | When every shift succeeds, the k-th saved file is at the output path of shift k and holds the k-th load transposed by shift k. |
| Midi.LoadFailureSavesNothing | transpose.py:64-76 | When no load gives a file, every shift fails and nothing is saved. |

## Left out

- MIDI parsing (`MidiFile(midi_path)`) and `midi.save`: foreign library and binary file I/O. Each shift's load is a given parsed container or `None`; nothing relates one shift's load to another's or to what earlier shifts saved, since the file system is not modelled. Saving records a (path, container) pair, or fails according to a per-shift flag.
- The bare `except:` catching arbitrary faults is reduced to the three failures the model has: load, the range assertion, and save.
- The `KeyboardInterrupt` re-raise and its message: cancellation is not modelled.
- A failed save may leave a partial file on disk. The model records no file for that shift.
- Message objects are mutated through shared references in the source. The model reassigns a `seq<seq<Event>>` field of `MidiFile`, so aliasing between message objects is not modelled.
- Each event's fields other than kind, channel, note, velocity and time are folded into the `Other` payload.
- The assertions are kept even though Python's `-O` would strip them; the model always checks them.
- The runtime type assertions `type(x) is int`: Dafny's typing makes them hold by construction.
- Windows path rules (`ntpath`: drives, backslashes). Paths follow the POSIX rules only.
- The `__main__` command line: argument parsing, the recursive `*.mid` search, progress display, the error-file report, and the fixed shift list -5..6 without 0. This is I/O glue around `transpose_midi`.
- Paths.RemoveExtDropsExtension: requires that the directory part has no doubled trailing separator. `os.path.split` collapses such a run, so for a path like `a//b.mid` the result is `a/b`, and the path is not the result followed by the extension.
