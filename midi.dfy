/** transpose_midi: for every requested shift, load the MIDI file afresh,
    rewrite the note of every note-on and note-off event in place, and save
    the result under a name derived from the input path and the shift. The
    MIDI library is abstracted: a parsed file is a sequence of tracks, each a
    sequence of events, and loading and saving are inputs to the model. */
module Midi {
  import opened Notes
  import opened Decimal
  import opened Paths

  datatype Option<T> = None | Some(value: T)

  /** An event of a track: the two kinds transpose_midi rewrites, and every
      other kind with its payload, passed through untouched. `time` is the
      delta time every event carries. */
  datatype Event =
    | NoteOn(channel: int, note: int, velocity: int, time: int)
    | NoteOff(channel: int, note: int, velocity: int, time: int)
    | Other(kind: string, payload: seq<int>, time: int)

  predicate IsNoteEvent(e: Event) {
    e.NoteOn? || e.NoteOff?
  }

  type Track = seq<Event>

  /** A parsed MIDI file: its tracks, in order. */
  type Container = seq<Track>

  /** The MIDI library keeps the note field of every note event in range, and
      a message typed note_on or note_off is always one of the two note kinds. */
  predicate WellFormed(c: Container) {
    forall t, i :: 0 <= t < |c| && 0 <= i < |c[t]| ==>
      (IsNoteEvent(c[t][i]) ==> NoteInRange(c[t][i].note)) &&
      (c[t][i].Other? ==> c[t][i].kind != "note_on" && c[t][i].kind != "note_off")
  }

  /** Every note event of `c` can be passed to transpose_note with shift `tp`
      without its assertions failing. */
  predicate Transposable(c: Container, tp: int) {
    forall t, i :: 0 <= t < |c| && 0 <= i < |c[t]| && IsNoteEvent(c[t][i]) ==>
      NoteInRange(c[t][i].note) && ShiftInRange(tp)
  }

  /** One event after the rewrite: a note event gets the transposed note and
      keeps its kind, channel, velocity and time; any other event is unchanged. */
  function TransposeEvent(e: Event, tp: int): (r: Event)
    requires IsNoteEvent(e) ==> NoteInRange(e.note) && ShiftInRange(tp)
    ensures r.NoteOn? == e.NoteOn? && r.NoteOff? == e.NoteOff? && r.time == e.time
    ensures IsNoteEvent(e) ==>
              r.channel == e.channel && r.velocity == e.velocity && r.note == TransposeNote(e.note, tp)
    ensures !IsNoteEvent(e) ==> r == e
  {
    match e
    case NoteOn(channel, n, velocity, time) => NoteOn(channel, TransposeNote(n, tp), velocity, time)
    case NoteOff(channel, n, velocity, time) => NoteOff(channel, TransposeNote(n, tp), velocity, time)
    case Other(_, _, _) => e
  }

  /** The track after every event has been rewritten; no event is added or dropped. */
  function TransposeTrack(track: Track, tp: int): (r: Track)
    requires forall i :: 0 <= i < |track| && IsNoteEvent(track[i]) ==> NoteInRange(track[i].note) && ShiftInRange(tp)
    ensures |r| == |track|
  {
    if track == [] then [] else [TransposeEvent(track[0], tp)] + TransposeTrack(track[1..], tp)
  }

  /** The container after every track has been rewritten; the number of
      tracks and the length of each are kept. */
  function TransposeContainer(c: Container, tp: int): (r: Container)
    requires Transposable(c, tp)
    ensures |r| == |c| && forall t :: 0 <= t < |c| ==> |r[t]| == |c[t]|
  {
    if c == [] then [] else [TransposeTrack(c[0], tp)] + TransposeContainer(c[1..], tp)
  }

  /** `r` is `c` event by event rewritten: same number of tracks, same track
      lengths, and each event the rewrite of the one at its place in `c`. */
  predicate RewrittenAt(c: Container, r: Container, tp: int)
    requires Transposable(c, tp)
  {
    |r| == |c| &&
    (forall t :: 0 <= t < |c| ==> |r[t]| == |c[t]|) &&
    (forall t, i :: 0 <= t < |c| && 0 <= i < |c[t]| ==> r[t][i] == TransposeEvent(c[t][i], tp))
  }

  lemma {:induction false} TransposeTrackAt(track: Track, tp: int)
    requires forall i :: 0 <= i < |track| && IsNoteEvent(track[i]) ==> NoteInRange(track[i].note) && ShiftInRange(tp)
    ensures |TransposeTrack(track, tp)| == |track|
    ensures forall i :: 0 <= i < |track| ==> TransposeTrack(track, tp)[i] == TransposeEvent(track[i], tp)
  {
    if track != [] {
      TransposeTrackAt(track[1..], tp);
    }
  }

  /** The rewritten container is exactly the one that agrees with the
      event-by-event rewrite in shape and at every place: the track count, the
      track lengths and the event order are kept, note events are transposed,
      and every other event is left as it was. */
  lemma {:induction false} TransposeContainerIff(c: Container, r: Container, tp: int)
    requires Transposable(c, tp)
    ensures r == TransposeContainer(c, tp) <==> RewrittenAt(c, r, tp)
  {
    TransposeContainerAt(c, tp);
    var tc := TransposeContainer(c, tp);
    if RewrittenAt(c, r, tp) {
      forall t | 0 <= t < |c|
        ensures r[t] == tc[t]
      {
        assert |r[t]| == |tc[t]|;
        forall i | 0 <= i < |c[t]|
          ensures r[t][i] == tc[t][i]
        {
        }
      }
    }
  }

  lemma {:induction false} TransposeContainerAt(c: Container, tp: int)
    requires Transposable(c, tp)
    ensures RewrittenAt(c, TransposeContainer(c, tp), tp)
  {
    if c != [] {
      assert Transposable(c[1..], tp) by {
        forall t, i | 0 <= t < |c[1..]| && 0 <= i < |c[1..][t]| && IsNoteEvent(c[1..][t][i])
          ensures NoteInRange(c[1..][t][i].note) && ShiftInRange(tp)
        {
          assert c[1..][t] == c[t + 1];
        }
      }
      TransposeContainerAt(c[1..], tp);
      TransposeTrackAt(c[0], tp);
      var tc := TransposeContainer(c, tp);
      forall t | 0 <= t < |c|
        ensures |tc[t]| == |c[t]|
        ensures forall i :: 0 <= i < |c[t]| ==> tc[t][i] == TransposeEvent(c[t][i], tp)
      {
        if t > 0 {
          assert tc[t] == TransposeContainer(c[1..], tp)[t - 1];
          assert c[t] == c[1..][t - 1];
        }
      }
    }
  }

  /** The rewrite keeps the container well formed: every new note is in range. */
  lemma TransposePreservesWellFormed(c: Container, tp: int)
    requires WellFormed(c) && Transposable(c, tp)
    ensures WellFormed(TransposeContainer(c, tp))
  {
    TransposeContainerAt(c, tp);
    var r := TransposeContainer(c, tp);
    forall t, i | 0 <= t < |r| && 0 <= i < |r[t]|
      ensures (IsNoteEvent(r[t][i]) ==> NoteInRange(r[t][i].note)) &&
              (r[t][i].Other? ==> r[t][i].kind != "note_on" && r[t][i].kind != "note_off")
    {
      assert r[t][i] == TransposeEvent(c[t][i], tp);
    }
  }

  /** Some track of `c` holds a note-on or note-off event. */
  predicate HasNoteEvent(c: Container) {
    exists t, i :: 0 <= t < |c| && 0 <= i < |c[t]| && IsNoteEvent(c[t][i])
  }

  /** For a file the MIDI library loaded, the rewrite goes through exactly when
      the shift is within an octave or the file holds no note event at all:
      an out-of-range shift fails on the first note event it meets. */
  lemma TransposableIff(c: Container, tp: int)
    requires WellFormed(c)
    ensures Transposable(c, tp) <==> ShiftInRange(tp) || !HasNoteEvent(c)
  {
  }

  /** The file loaded by MidiFile(midi_path), which transpose_midi edits in place. */
  class MidiFile {
    var tracks: Container

    ghost predicate Valid()
      reads this
    {
      WellFormed(tracks)
    }

    /** A fresh object holding the parsed tracks. */
    constructor Load(parsed: Container)
      requires WellFormed(parsed)
      ensures Valid() && tracks == parsed
    {
      tracks := parsed;
    }

    /** The nested loops over tracks and messages: each note-on or note-off
        message gets its note replaced by transpose_note's result. A shift out
        of range makes transpose_note's assertion fail at the first note event,
        before anything has been rewritten. */
    method TransposeNotes(tp: int) returns (ok: bool)
      requires Valid()
      modifies this
      ensures Valid()
      ensures ok == Transposable(old(tracks), tp)
      ensures ok ==> tracks == TransposeContainer(old(tracks), tp)
      ensures !ok ==> tracks == old(tracks)
    {
      ghost var original := tracks;
      ok := true;
      var t := 0;
      while t < |tracks|
        invariant 0 <= t <= |tracks| == |original|
        invariant forall u :: 0 <= u < |tracks| ==> |tracks[u]| == |original[u]|
        invariant !ShiftInRange(tp) ==> tracks == original
        invariant !ShiftInRange(tp) ==>
                    forall u, j :: 0 <= u < t && 0 <= j < |original[u]| ==> !IsNoteEvent(original[u][j])
        invariant forall u, j :: 0 <= u < t && 0 <= j < |original[u]| ==>
                    tracks[u][j] == TransposeEvent(original[u][j], tp)
        invariant forall u :: t <= u < |tracks| ==> tracks[u] == original[u]
      {
        var i := 0;
        while i < |tracks[t]|
          invariant 0 <= t < |tracks| == |original|
          invariant 0 <= i <= |tracks[t]|
          invariant forall u :: 0 <= u < |tracks| ==> |tracks[u]| == |original[u]|
          invariant !ShiftInRange(tp) ==> tracks == original
          invariant !ShiftInRange(tp) ==>
                      forall u, j :: 0 <= u < t && 0 <= j < |original[u]| ==> !IsNoteEvent(original[u][j])
          invariant !ShiftInRange(tp) ==> forall j :: 0 <= j < i ==> !IsNoteEvent(original[t][j])
          invariant forall u, j :: 0 <= u < t && 0 <= j < |original[u]| ==>
                      tracks[u][j] == TransposeEvent(original[u][j], tp)
          invariant forall j :: 0 <= j < i ==> tracks[t][j] == TransposeEvent(original[t][j], tp)
          invariant forall j :: i <= j < |tracks[t]| ==> tracks[t][j] == original[t][j]
          invariant forall u :: t < u < |tracks| ==> tracks[u] == original[u]
        {
          var message := tracks[t][i];
          if message.NoteOn? || message.NoteOff? {
            if !ShiftInRange(tp) {
              ok := false;
              return;
            }
            tracks := tracks[t := tracks[t][i := message.(note := TransposeNote(message.note, tp))]];
          }
          i := i + 1;
        }
        t := t + 1;
      }
      TransposeContainerIff(original, tracks, tp);
      TransposePreservesWellFormed(original, tp);
    }
  }

  /** The shift argument: a single int, or a list of them. */
  datatype Transposition = Single(shift: int) | Many(shifts: seq<int>)

  /** The shifts in the order transpose_midi tries them; a single int is a
      one-element list. */
  function ShiftList(transposition: Transposition): seq<int> {
    match transposition
    case Single(tp) => [tp]
    case Many(tps) => tps
  }

  /** The tail of an output file name: `_tp`, the shift in signed decimal,
      and `.mid`. It names no directory and does not start an extension. */
  function ShiftSuffix(tp: int): (w: string)
    ensures |w| >= 5 && w[..3] == "_tp" && w[|w| - 4..] == ".mid"
    ensures w[0] == '_' && '/' !in w
  {
    var digits := IntToString(tp);
    IntToStringLacksSlash(tp);
    SuffixShape("_tp", digits, ".mid");
    "_tp" + digits + ".mid"
  }

  /** A rendered integer holds only a sign and digits, so no '/'. */
  lemma IntToStringLacksSlash(n: int)
    ensures '/' !in IntToString(n)
  {
    var s := IntToString(n);
    forall k | 0 <= k < |s|
      ensures s[k] != '/'
    {
      if k > 0 || s[0] != '-' {
        assert IsDigit(s[k]);
      }
    }
  }

  /** The three parts of a name tail sit at its start, middle and end. */
  lemma SuffixShape(front: string, middle: string, back: string)
    ensures (front + middle + back)[..|front|] == front
    ensures (front + middle + back)[|front + middle|..] == back
    ensures '/' !in front + middle + back <==> '/' !in front && '/' !in middle && '/' !in back
  {
  }

  /** The tail round-trips: the shift can be read back from it. */
  lemma ShiftSuffixInjective(a: int, b: int)
    requires ShiftSuffix(a) == ShiftSuffix(b)
    ensures a == b
  {
    var wa, wb := ShiftSuffix(a), ShiftSuffix(b);
    assert IntToString(a) == wa[3..|wa| - 4];
    assert IntToString(b) == wb[3..|wb| - 4];
    IntToStringInjective(a, b);
  }

  /** Where the result of shift `tp` is saved: the input path without its
      extension, then the shift suffix. */
  function OutputPath(midiPath: string, tp: int): string {
    RemoveExt(midiPath) + ShiftSuffix(tp)
  }

  /** Two different shifts never write to the same output file. */
  lemma OutputPathInjective(midiPath: string, a: int, b: int)
    requires OutputPath(midiPath, a) == OutputPath(midiPath, b)
    ensures a == b
  {
    var n := |RemoveExt(midiPath)|;
    assert ShiftSuffix(a) == OutputPath(midiPath, a)[n..];
    assert ShiftSuffix(b) == OutputPath(midiPath, b)[n..];
    ShiftSuffixInjective(a, b);
  }

  /** The output file sits in the input file's directory, and its name is the
      input's name without its extension, followed by the shift suffix. */
  lemma OutputPathSplits(midiPath: string, tp: int)
    ensures Dirname(OutputPath(midiPath, tp)) == Dirname(midiPath)
    ensures Basename(OutputPath(midiPath, tp)) == NameWithoutExt(Basename(midiPath)) + ShiftSuffix(tp)
  {
    AppendToName(RemoveExt(midiPath), ShiftSuffix(tp));
    RemoveExtSplitsBack(midiPath);
  }

  /** No output file is the input file: saving never overwrites the file the
      other shifts load. */
  lemma OutputPathIsNotInput(midiPath: string, tp: int)
    ensures OutputPath(midiPath, tp) != midiPath
  {
    RemoveExtPlusSuffixIsNotPath(midiPath, ShiftSuffix(tp));
  }

  /** A file written by midi.save: its path and the container it holds. */
  datatype SavedFile = SavedFile(path: string, contents: Container)

  /** One shift on its own: the file it saves, or None when loading fails,
      transpose_note's assertion fails, or saving fails (`saves` is false). */
  function Attempt(midiPath: string, parsed: Option<Container>, tp: int, saves: bool): (r: Option<SavedFile>)
    ensures r.Some? <==> parsed.Some? && Transposable(parsed.value, tp) && saves
  {
    if parsed.None? then None
    else if !Transposable(parsed.value, tp) then None
    else if !saves then None
    else Some(SavedFile(OutputPath(midiPath, tp), TransposeContainer(parsed.value, tp)))
  }

  /** Whether one shift goes through, in the terms of transpose_midi: the file
      loads, the shift is within an octave or the file has no note event, and
      the save succeeds. */
  lemma AttemptSucceedsIff(midiPath: string, parsed: Option<Container>, tp: int, saves: bool)
    requires parsed.Some? ==> WellFormed(parsed.value)
    ensures Attempt(midiPath, parsed, tp, saves).Some? <==>
            parsed.Some? && saves && (ShiftInRange(tp) || !HasNoteEvent(parsed.value))
  {
    if parsed.Some? {
      TransposableIff(parsed.value, tp);
    }
  }

  function ValueIfPresent<T>(o: Option<T>): seq<T> {
    match o
    case Some(x) => [x]
    case None => []
  }

  /** Every option is present. */
  predicate AllPresent<T>(os: seq<Option<T>>) {
    forall k :: 0 <= k < |os| ==> os[k].Some?
  }

  /** One more option keeps every option present exactly when it is present. */
  lemma AllPresentSnoc<T>(os: seq<Option<T>>, o: Option<T>)
    ensures AllPresent(os + [o]) <==> AllPresent(os) && o.Some?
  {
    assert (os + [o])[|os|] == o;
    assert forall k :: 0 <= k < |os| ==> (os + [o])[k] == os[k];
  }

  /** The values of the present options, in order. */
  function Collect<T>(os: seq<Option<T>>): seq<T> {
    if os == [] then [] else Collect(os[..|os| - 1]) + ValueIfPresent(os[|os| - 1])
  }

  /** Each place contributes at most one value. */
  lemma {:induction false} CollectAtMostOne<T>(os: seq<Option<T>>)
    ensures |Collect(os)| <= |os|
  {
    if os != [] {
      CollectAtMostOne(os[..|os| - 1]);
    }
  }

  /** Collecting one more place appends its value, if present. */
  lemma CollectSnoc<T>(os: seq<Option<T>>, o: Option<T>)
    ensures Collect(os + [o]) == Collect(os) + ValueIfPresent(o)
  {
    assert (os + [o])[..|os|] == os;
  }

  /** A value is collected exactly when it is present at some place. */
  lemma {:induction false} CollectIff<T>(os: seq<Option<T>>, x: T)
    ensures x in Collect(os) <==> exists k :: 0 <= k < |os| && os[k] == Some(x)
  {
    if os != [] {
      var n := |os| - 1;
      CollectIff(os[..n], x);
      if exists k :: 0 <= k < |os| && os[k] == Some(x) {
        var k :| 0 <= k < |os| && os[k] == Some(x);
        if k < n {
          assert os[..n][k] == os[k];
        }
      }
    }
  }

  /** When every option is present, the collected values are all of them, in order. */
  lemma {:induction false} CollectAllPresent<T>(os: seq<Option<T>>)
    requires forall k :: 0 <= k < |os| ==> os[k].Some?
    ensures |Collect(os)| == |os|
    ensures forall k :: 0 <= k < |os| ==> Collect(os)[k] == os[k].value
  {
    if os != [] {
      var n := |os| - 1;
      assert forall k :: 0 <= k < n ==> os[..n][k] == os[k];
      CollectAllPresent(os[..n]);
    }
  }

  /** When no option is present, nothing is collected. */
  lemma {:induction false} CollectNonePresent<T>(os: seq<Option<T>>)
    requires forall k :: 0 <= k < |os| ==> os[k].None?
    ensures Collect(os) == []
  {
    if os != [] {
      CollectNonePresent(os[..|os| - 1]);
    }
  }

  /** The outcome of each shift of a run, in the order tried: shift `tps[k]`
      works on what the k-th load gave, `loads[k]`, and saves when `saves[k]`. */
  function Attempts(midiPath: string, loads: seq<Option<Container>>, tps: seq<int>, saves: seq<bool>): (r: seq<Option<SavedFile>>)
    requires |loads| == |tps| && |saves| == |tps|
    ensures |r| == |tps|
    ensures forall k :: 0 <= k < |tps| ==> r[k] == Attempt(midiPath, loads[k], tps[k], saves[k])
  {
    seq(|tps|, k requires 0 <= k < |tps| => Attempt(midiPath, loads[k], tps[k], saves[k]))
  }

  /** One more shift adds its own outcome at the end. */
  lemma AttemptsStep(midiPath: string, loads: seq<Option<Container>>, tps: seq<int>, saves: seq<bool>, k: int)
    requires |loads| == |tps| && |saves| == |tps| && 0 <= k < |tps|
    ensures Attempts(midiPath, loads[..k + 1], tps[..k + 1], saves[..k + 1]) ==
            Attempts(midiPath, loads[..k], tps[..k], saves[..k]) + [Attempt(midiPath, loads[k], tps[k], saves[k])]
  {
    var longer := Attempts(midiPath, loads[..k + 1], tps[..k + 1], saves[..k + 1]);
    var shorter := Attempts(midiPath, loads[..k], tps[..k], saves[..k]);
    var last := Attempt(midiPath, loads[k], tps[k], saves[k]);
    forall j | 0 <= j < k + 1
      ensures longer[j] == (shorter + [last])[j]
    {
      if j < k {
        assert loads[..k + 1][j] == loads[..k][j];
        assert tps[..k + 1][j] == tps[..k][j] && saves[..k + 1][j] == saves[..k][j];
      } else {
        assert loads[..k + 1][j] == loads[k];
        assert tps[..k + 1][j] == tps[k] && saves[..k + 1][j] == saves[k];
      }
    }
    assert |longer| == |shorter + [last]|;
  }

  /** The files saved by a run over the shifts `tps`, in the order saved. */
  function SavedFiles(midiPath: string, loads: seq<Option<Container>>, tps: seq<int>, saves: seq<bool>): (r: seq<SavedFile>)
    requires |loads| == |tps| && |saves| == |tps|
    ensures |r| <= |tps|
  {
    CollectAtMostOne(Attempts(midiPath, loads, tps, saves));
    Collect(Attempts(midiPath, loads, tps, saves))
  }

  /** A file is saved exactly when some shift's own attempt produces it, so a
      shift that fails keeps no other shift from being saved, and what a shift
      saves depends on its own load and that shift alone. */
  lemma SavedFilesIff(midiPath: string, loads: seq<Option<Container>>, tps: seq<int>, saves: seq<bool>, f: SavedFile)
    requires |loads| == |tps| && |saves| == |tps|
    ensures f in SavedFiles(midiPath, loads, tps, saves) <==>
            exists k :: 0 <= k < |tps| && Attempt(midiPath, loads[k], tps[k], saves[k]) == Some(f)
  {
    var os := Attempts(midiPath, loads, tps, saves);
    CollectIff(os, f);
    if exists k :: 0 <= k < |tps| && Attempt(midiPath, loads[k], tps[k], saves[k]) == Some(f) {
      var k :| 0 <= k < |tps| && Attempt(midiPath, loads[k], tps[k], saves[k]) == Some(f);
      assert os[k] == Some(f);
    }
  }

  /** When every shift succeeds, the k-th file saved is shift k's: at the
      output path of tps[k], holding the k-th loaded file transposed by tps[k]. */
  lemma SavedFilesAllSucceed(midiPath: string, loads: seq<Option<Container>>, tps: seq<int>, saves: seq<bool>)
    requires |loads| == |tps| && |saves| == |tps|
    requires forall k :: 0 <= k < |tps| ==> Attempt(midiPath, loads[k], tps[k], saves[k]).Some?
    ensures |SavedFiles(midiPath, loads, tps, saves)| == |tps|
    ensures forall k :: 0 <= k < |tps| ==>
              loads[k].Some? && Transposable(loads[k].value, tps[k]) &&
              SavedFiles(midiPath, loads, tps, saves)[k] ==
                SavedFile(OutputPath(midiPath, tps[k]), TransposeContainer(loads[k].value, tps[k]))
  {
    CollectAllPresent(Attempts(midiPath, loads, tps, saves));
  }

  /** When no load gives a file (a file that never parses), every shift fails
      and nothing is saved. */
  lemma LoadFailureSavesNothing(midiPath: string, loads: seq<Option<Container>>, tps: seq<int>, saves: seq<bool>)
    requires |loads| == |tps| && |saves| == |tps|
    requires forall k :: 0 <= k < |tps| ==> loads[k].None?
    ensures SavedFiles(midiPath, loads, tps, saves) == []
    ensures forall k :: 0 <= k < |tps| ==> Attempt(midiPath, loads[k], tps[k], saves[k]).None?
  {
    CollectNonePresent(Attempts(midiPath, loads, tps, saves));
  }

  /** A run over a single shift saves what that shift's attempt saves. */
  lemma SingleShiftRun(midiPath: string, parsed: Option<Container>, tp: int, save: bool)
    ensures AllPresent(Attempts(midiPath, [parsed], [tp], [save])) <==> Attempt(midiPath, parsed, tp, save).Some?
    ensures SavedFiles(midiPath, [parsed], [tp], [save]) == ValueIfPresent(Attempt(midiPath, parsed, tp, save))
  {
    var a := Attempt(midiPath, parsed, tp, save);
    var os := Attempts(midiPath, [parsed], [tp], [save]);
    assert os[0] == a;
    assert os == [] + [a];
    CollectSnoc([], a);
  }

  /** The body of the per-shift `try` of transpose_midi: load the file afresh,
      rewrite its notes in place, and save it under the derived name. `parsed`
      is what this load gives, None when the file does not parse. None as the
      outcome stands for any failure the bare `except` catches. */
  method TransposeOne(midiPath: string, parsed: Option<Container>, tp: int, saves: bool)
    returns (file: Option<SavedFile>)
    requires parsed.Some? ==> WellFormed(parsed.value)
    ensures file == Attempt(midiPath, parsed, tp, saves)
  {
    if parsed.None? {
      return None;
    }
    var midi := new MidiFile.Load(parsed.value);
    var rewritten := midi.TransposeNotes(tp);
    if !rewritten {
      return None;
    }
    var basepath := RemoveExt(midiPath);
    var outPath := basepath + ShiftSuffix(tp);
    if !saves {
      return None;
    }
    file := Some(SavedFile(outPath, midi.tracks));
  }

  /** The `for tp in transposition` loop of transpose_midi over the list of
      shifts `tps`. `loads[k]` is what loading the file gives at the k-th
      shift (None when it fails to load), and `saves[k]` whether saving the
      k-th shift's result succeeds. The flag stays True exactly when no shift
      failed; every shift is attempted whatever happened to the ones before it. */
  method RunShifts(midiPath: string, loads: seq<Option<Container>>, tps: seq<int>, saves: seq<bool>)
    returns (isOk: bool, saved: seq<SavedFile>)
    requires |loads| == |tps| && |saves| == |tps|
    requires forall k :: 0 <= k < |loads| && loads[k].Some? ==> WellFormed(loads[k].value)
    ensures isOk <==> forall k :: 0 <= k < |tps| ==> Attempt(midiPath, loads[k], tps[k], saves[k]).Some?
    ensures saved == SavedFiles(midiPath, loads, tps, saves)
  {
    ghost var outcomes: seq<Option<SavedFile>> := [];
    isOk := true;
    saved := [];
    for k := 0 to |tps|
      invariant outcomes == Attempts(midiPath, loads[..k], tps[..k], saves[..k])
      invariant isOk == AllPresent(outcomes)
      invariant saved == Collect(outcomes)
    {
      var file := TransposeOne(midiPath, loads[k], tps[k], saves[k]);
      AttemptsStep(midiPath, loads, tps, saves, k);
      AllPresentSnoc(outcomes, file);
      CollectSnoc(outcomes, file);
      outcomes := outcomes + [file];
      if file.None? {
        isOk := false;
      } else {
        saved := saved + [file.value];
      }
    }
    assert loads[..|tps|] == loads && tps[..|tps|] == tps && saves[..|tps|] == saves;
  }

  /** transpose_midi for one input file: a single int shift becomes a
      one-element list, then every shift of the list is run. */
  method TransposeMidi(midiPath: string, transposition: Transposition,
                       loads: seq<Option<Container>>, saves: seq<bool>)
    returns (isOk: bool, saved: seq<SavedFile>)
    requires |loads| == |ShiftList(transposition)| && |saves| == |ShiftList(transposition)|
    requires forall k :: 0 <= k < |loads| && loads[k].Some? ==> WellFormed(loads[k].value)
    ensures isOk <==> forall k :: 0 <= k < |ShiftList(transposition)| ==>
                        Attempt(midiPath, loads[k], ShiftList(transposition)[k], saves[k]).Some?
    ensures saved == SavedFiles(midiPath, loads, ShiftList(transposition), saves)
    ensures transposition.Single? ==>
              (isOk <==> Attempt(midiPath, loads[0], transposition.shift, saves[0]).Some?) &&
              saved == ValueIfPresent(Attempt(midiPath, loads[0], transposition.shift, saves[0]))
  {
    var tps := ShiftList(transposition);
    isOk, saved := RunShifts(midiPath, loads, tps, saves);
    if transposition.Single? {
      assert tps == [transposition.shift];
      assert loads == [loads[0]] && saves == [saves[0]];
      SingleShiftRun(midiPath, loads[0], transposition.shift, saves[0]);
    }
  }
}
