/**
 The per-row notes beside the ledger: one free-text note per row, reset to
 empty strings whenever a ledger is generated and edited one row at a time.
 */
module Notes {

  /** `n` empty notes, one per row of a freshly generated ledger. */
  function EmptyNotes(n: nat): (r: seq<string>)
    ensures |r| == n
    ensures forall i :: 0 <= i < |r| ==> r[i] == ""
  {
    seq(n, _ => "")
  }

  /** Replaces the note at `index` by `value`. An index past the end grows the
      array the way a script array grows: the gap holds missing entries, which
      read back as empty notes. */
  function EditNote(notes: seq<string>, index: nat, value: string): (r: seq<string>)
    ensures |r| == if index < |notes| then |notes| else index + 1
    ensures r[index] == value
    ensures forall j :: 0 <= j < |r| && j != index ==> r[j] == (if j < |notes| then notes[j] else "")
  {
    if index < |notes| then notes[index := value]
    else notes + EmptyNotes(index - |notes|) + [value]
  }

  /** Editing a row that exists keeps the number of notes and every other note. */
  lemma EditNoteInRange(notes: seq<string>, index: nat, value: string)
    requires index < |notes|
    ensures |EditNote(notes, index, value)| == |notes|
    ensures EditNote(notes, index, value)[..index] == notes[..index]
    ensures EditNote(notes, index, value)[index + 1..] == notes[index + 1..]
  {
  }

  /** Writing back the note that is already there changes nothing, and the last
      of two edits to the same row is the one that stays. */
  lemma EditNoteOverwrites(notes: seq<string>, index: nat, first: string, second: string)
    requires index < |notes|
    ensures EditNote(notes, index, notes[index]) == notes
    ensures EditNote(EditNote(notes, index, first), index, second) == EditNote(notes, index, second)
  {
  }
}
