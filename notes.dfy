/** Note transposition (transpose_note): a MIDI note number shifted by a
    semitone offset of at most one octave, folded back into the note range
    by a single octave correction. */
module Notes {

  const LowestNote: int := 0
  const HighestNote: int := 127

  /** The note range a MIDI note number lies in. */
  predicate NoteInRange(note: int) {
    LowestNote <= note <= HighestNote
  }

  /** The shifts transpose_note accepts: at most one octave either way. */
  predicate ShiftInRange(shift: int) {
    -12 <= shift <= 12
  }

  /** Two pitches are in the same pitch class when they differ by whole octaves. */
  predicate SamePitchClass(a: int, b: int) {
    (a - b) % 12 == 0
  }

  function Abs(x: int): nat {
    if x < 0 then -x else x
  }

  /** The note shifted by `transposition`; a result below the range is raised
      by an octave, then a result above it is lowered by an octave. */
  function TransposeNote(inputNote: int, transposition: int): (r: int)
    requires NoteInRange(inputNote)
    requires ShiftInRange(transposition)
    ensures NoteInRange(r)
    ensures NoteInRange(inputNote + transposition) ==> r == inputNote + transposition
    ensures r == inputNote + transposition + 12 <==> inputNote + transposition < LowestNote
    ensures r == inputNote + transposition - 12 <==> inputNote + transposition > HighestNote
    ensures SamePitchClass(r, inputNote + transposition)
  {
    var transposed := inputNote + transposition;
    var raised := if transposed < LowestNote then transposed + 12 else transposed;
    if raised > HighestNote then raised - 12 else raised
  }

  /** Of all notes in range and in the pitch class of `note + shift`, the
      transposed note is the one closest to `note + shift`, and the only one
      at that distance. */
  lemma TransposeNoteIsNearest(note: int, shift: int, other: int)
    requires NoteInRange(note) && ShiftInRange(shift)
    requires NoteInRange(other) && SamePitchClass(other, note + shift)
    ensures Abs(TransposeNote(note, shift) - (note + shift)) <= Abs(other - (note + shift))
    ensures Abs(TransposeNote(note, shift) - (note + shift)) == Abs(other - (note + shift))
            ==> other == TransposeNote(note, shift)
  {
    var target := note + shift;
    var k := (other - target) / 12;
    assert other == target + 12 * k;
    if target < LowestNote {
      assert k >= 1;
    } else if target > HighestNote {
      assert k <= -1;
    }
  }

  /** Worked values: a no-op shift, a plain shift, and one fold at each end
      of the range. */
  lemma TransposeNoteExamples()
    ensures TransposeNote(60, 0) == 60
    ensures TransposeNote(64, 5) == 69
    ensures TransposeNote(0, -1) == 11
    ensures TransposeNote(127, 1) == 116
  {
  }
}
