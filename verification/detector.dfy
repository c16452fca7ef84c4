/** The MIDI side of the piano chord detector (backend/pianomidi/pianomidi/detector.py):
    decoding Note On / Note Off channel voice messages (MIDI 1.0, "Channel Voice
    Messages"), the set of held notes they maintain, and the chroma and note names that
    `_detect` derives from it. The chord lookup is a parameter. */
module Detector {
  import opened Wrappers

  /** `NOTE_NAMES`. */
  const NoteNames: seq<string> := ["C", "C#", "D", "D#", "E", "F", "F#", "G", "G#", "A", "A#", "B"]

  // ---------------------------------------------------------------------------------------
  // Decoding a message

  /** What a message does to the held notes. */
  datatype Event = NoteOn(note: int) | NoteOff(note: int) | Ignored

  /** The high nibble of the status byte; the low nibble (the channel) is dropped. */
  function Status(message: seq<bv8>): bv8
    requires |message| > 0
  {
    message[0] & 0xF0
  }

  /** The dispatch of `midi_callback`: the status and note bytes are read
      unconditionally, so a message shorter than two bytes raises `IndexError`; a missing
      velocity byte reads as 0. Note On with a positive velocity holds the note; Note Off,
      or Note On with velocity 0, releases it; every other status does nothing. */
  function Decode(message: seq<bv8>): (r: Result<Event>)
    ensures r.Err? <==> |message| < 2
    ensures r.Err? ==> r.error == IndexError
    ensures r.Ok? ==>
              (r.value.NoteOn? <==> Status(message) == 0x90 && |message| > 2 && message[2] > 0)
    ensures r.Ok? ==>
              (r.value.NoteOff? <==>
                 Status(message) == 0x80 ||
                 (Status(message) == 0x90 && (|message| == 2 || message[2] == 0)))
    ensures r.Ok? && !r.value.Ignored? ==> r.value.note == message[1] as int
  {
    if |message| < 2 then Err(IndexError)
    else
      var status := message[0] & 0xF0;
      var note := message[1] as int;
      var velocity: int := if |message| > 2 then message[2] as int else 0;
      if status == 0x90 && velocity > 0 then Ok(NoteOn(note))
      else if status == 0x80 || (status == 0x90 && velocity == 0) then Ok(NoteOff(note))
      else Ok(Ignored)
  }

  /** Only the message type decides: changing the channel nibble changes nothing. */
  lemma DecodeIgnoresChannel(message: seq<bv8>, channel: bv8)
    requires |message| > 0 && channel < 16
    ensures Decode([(message[0] & 0xF0) | channel] + message[1..]) == Decode(message)
  {
    var m' := [(message[0] & 0xF0) | channel] + message[1..];
    assert Status(m') == Status(message);
    assert |m'| == |message|;
    if |message| >= 2 {
      assert m'[1] == message[1];
    }
    if |message| > 2 {
      assert m'[2] == message[2];
    }
  }

  /** A three-byte Note On or Note Off message on a channel. */
  function NoteMessage(on: bool, channel: bv8, note: bv8, velocity: bv8): (m: seq<bv8>)
    requires channel < 16
    ensures |m| == 3 && m[1] == note && m[2] == velocity
  {
    [(if on then 0x90 else 0x80) | channel, note, velocity]
  }

  /** Encoding a key event and decoding it gives the event back: Note On holds the
      note unless its velocity is 0, Note Off always releases it, on every channel. */
  lemma NoteMessageRoundTrip(on: bool, channel: bv8, note: bv8, velocity: bv8)
    requires channel < 16
    ensures Decode(NoteMessage(on, channel, note, velocity)) ==
              if on && velocity > 0 then Ok(NoteOn(note as int)) else Ok(NoteOff(note as int))
  {
    var m := NoteMessage(on, channel, note, velocity);
    assert Status(m) == if on then 0x90 else 0x80;
  }

  // ---------------------------------------------------------------------------------------
  // Held notes

  /** The effect of an event on the held notes: `add`, `discard`, or nothing. */
  function Apply(held: set<int>, e: Event): set<int> {
    match e
    case NoteOn(n) => held + {n}
    case NoteOff(n) => held - {n}
    case Ignored => held
  }

  /** Applying an event twice is applying it once; releasing a note that is not held,
      or holding one that is, changes nothing; an event touches only its own note. */
  lemma ApplyIdempotent(held: set<int>, e: Event, m: int)
    ensures Apply(Apply(held, e), e) == Apply(held, e)
    ensures e.NoteOff? && e.note !in held ==> Apply(held, e) == held
    ensures e.NoteOn? && e.note in held ==> Apply(held, e) == held
    ensures (e.Ignored? || m != e.note) ==> (m in Apply(held, e) <==> m in held)
  {
  }

  /** Applying events left to right. */
  function Replay(held: set<int>, events: seq<Event>): set<int>
    decreases |events|
  {
    if events == [] then held
    else Apply(Replay(held, events[..|events| - 1]), events[|events| - 1])
  }

  /** The last event in `events` that names note n, if any. */
  function LastTouch(events: seq<Event>, n: int): (r: Option<Event>)
    ensures r.Some? ==> r.value in events && !r.value.Ignored? && r.value.note == n
    decreases |events|
  {
    if events == [] then None
    else
      var e := events[|events| - 1];
      if !e.Ignored? && e.note == n then Some(e)
      else LastTouch(events[..|events| - 1], n)
  }

  /** After any stream of events a note is held exactly when the last event naming it
      was a Note On, or, if none names it, when it was held at the start. */
  lemma {:induction false} ReplayHeld(held: set<int>, events: seq<Event>, n: int)
    ensures n in Replay(held, events) <==>
              match LastTouch(events, n)
              case Some(e) => e.NoteOn?
              case None => n in held
    decreases |events|
  {
    if events != [] {
      ReplayHeld(held, events[..|events| - 1], n);
    }
  }

  /** `ChordDetector`: the MIDI note numbers currently held. */
  class ChordDetector {
    var held: set<int>

    constructor ()
      ensures held == {}
    {
      held := {};
    }

    /** `_note_on`: `held_notes.add(note)`. */
    method NoteOn(note: int)
      modifies this
      ensures held == old(held) + {note}
      ensures held == Apply(old(held), Event.NoteOn(note))
    {
      held := held + {note};
    }

    /** `_note_off`: `held_notes.discard(note)`. */
    method NoteOff(note: int)
      modifies this
      ensures held == old(held) - {note}
      ensures held == Apply(old(held), Event.NoteOff(note))
    {
      held := held - {note};
    }

    /** `midi_callback`: decode, then hold or release the note; a message shorter than
        two bytes fails with `IndexError` and changes nothing. */
    method MidiCallback(message: seq<bv8>) returns (r: Result<Event>)
      modifies this
      ensures r == Decode(message)
      ensures held == if r.Ok? then Apply(old(held), r.value) else old(held)
    {
      r := Decode(message);
      if r.Ok? {
        match r.value
        case NoteOn(n) => NoteOn(n);
        case NoteOff(n) => NoteOff(n);
        case Ignored =>
      }
    }

    /** The chroma, note names and chord `_detect` reports for the held notes, with
        `find_chords_from_notes` (already rendered with `str`) as the parameter
        `findChords`. A lookup is made only for two or more names. */
    method Detect(findChords: seq<string> -> seq<string>)
      returns (chord: Option<string>, names: seq<string>, chroma: seq<int>)
      ensures chroma == Chroma(held) && names == Names(held)
      ensures |names| < 2 ==> chord == None
      ensures chord.Some? <==> |names| >= 2 && findChords(names) != []
      ensures chord.Some? ==> chord.value == findChords(names)[0]
    {
      chroma := Chroma(held);
      names := Names(held);
      chord := None;
      if |names| >= 2 {
        var chords := findChords(names);
        if chords != [] {
          chord := Some(chords[0]);
        }
      }
    }
  }

  // ---------------------------------------------------------------------------------------
  // Chroma and names

  /** Python's `n % 12`; for a positive divisor it agrees with Dafny's Euclidean `%`. */
  function PitchClass(n: int): (r: int)
    ensures 0 <= r < 12 && (n - r) % 12 == 0
  {
    n % 12
  }

  /** `{n % 12 for n in held_notes}`. */
  function PitchClasses(held: set<int>): (r: set<int>)
    ensures forall pc :: pc in r <==> exists n :: n in held && PitchClass(n) == pc
  {
    set n | n in held :: PitchClass(n)
  }

  /** `chroma`: twelve 0/1 entries, 1 exactly at the pitch classes of held notes. */
  function Chroma(held: set<int>): (r: seq<int>)
    ensures |r| == 12
    ensures forall i :: 0 <= i < 12 ==> (r[i] == 0 || r[i] == 1)
    ensures forall i :: 0 <= i < 12 ==> (r[i] == 1 <==> exists n :: n in held && PitchClass(n) == i)
  {
    var pcs := PitchClasses(held);
    seq(12, i requires 0 <= i < 12 => if i in pcs then 1 else 0)
  }

  /** The members of `pcs` below k, ascending. */
  function Below(pcs: set<int>, k: nat): (r: seq<int>)
    ensures forall i :: 0 <= i < |r| ==> 0 <= r[i] < k && r[i] in pcs
    ensures forall a, b :: 0 <= a < b < |r| ==> r[a] < r[b]
    ensures forall x :: x in pcs && 0 <= x < k ==> x in r
    decreases k
  {
    if k == 0 then []
    else
      var prev := Below(pcs, k - 1);
      if k - 1 in pcs then prev + [k - 1] else prev
  }

  /** `sorted({n % 12 for n in held_notes})`. */
  function SortedPitchClasses(held: set<int>): (r: seq<int>)
    ensures forall i :: 0 <= i < |r| ==> 0 <= r[i] < 12
    ensures forall a, b :: 0 <= a < b < |r| ==> r[a] < r[b]
    ensures forall x :: x in r <==> x in PitchClasses(held)
  {
    Below(PitchClasses(held), 12)
  }

  /** `names`: `NOTE_NAMES` of each sorted pitch class. */
  function Names(held: set<int>): (r: seq<string>)
    ensures |r| == |SortedPitchClasses(held)|
    ensures forall k :: 0 <= k < |r| ==> r[k] == NoteNames[SortedPitchClasses(held)[k]]
  {
    var pcs := SortedPitchClasses(held);
    seq(|pcs|, k requires 0 <= k < |pcs| => NoteNames[pcs[k]])
  }

  /** The number of 1 entries among the first k of a chroma. */
  function Ones(chroma: seq<int>, k: nat): nat
    requires k <= |chroma|
  {
    if k == 0 then 0 else Ones(chroma, k - 1) + (if chroma[k - 1] == 1 then 1 else 0)
  }

  lemma {:induction false} BelowOnes(held: set<int>, k: nat)
    requires k <= 12
    ensures |Below(PitchClasses(held), k)| == Ones(Chroma(held), k)
  {
    if k > 0 {
      BelowOnes(held, k - 1);
    }
  }

  /** The names are distinct, there is one per 1 in the chroma, and the name of pitch
      class i appears exactly when the chroma has a 1 at i. */
  lemma NamesMatchChroma(held: set<int>)
    ensures |Names(held)| == Ones(Chroma(held), 12)
    ensures forall a, b :: 0 <= a < b < |Names(held)| ==> Names(held)[a] != Names(held)[b]
    ensures forall i :: 0 <= i < 12 ==> (NoteNames[i] in Names(held) <==> Chroma(held)[i] == 1)
  {
    BelowOnes(held, 12);
    var pcs := SortedPitchClasses(held);
    var names := Names(held);
    forall i | 0 <= i < 12
      ensures NoteNames[i] in names <==> Chroma(held)[i] == 1
    {
      NameOf(held, i);
    }
    forall a, b | 0 <= a < b < |names|
      ensures names[a] != names[b]
    {
      assert pcs[a] in pcs && pcs[b] in pcs;
      NoteNamesDistinct(pcs[a], pcs[b]);
    }
  }

  /** The name of pitch class i is listed exactly when the chroma has a 1 at i. */
  lemma NameOf(held: set<int>, i: int)
    requires 0 <= i < 12
    ensures NoteNames[i] in Names(held) <==> Chroma(held)[i] == 1
  {
    var pcs := SortedPitchClasses(held);
    var names := Names(held);
    if Chroma(held)[i] == 1 {
      assert i in PitchClasses(held);
      var k :| 0 <= k < |pcs| && pcs[k] == i;
      assert names[k] == NoteNames[i];
    }
    if NoteNames[i] in names {
      var k :| 0 <= k < |names| && names[k] == NoteNames[i];
      NoteNamesDistinct(i, pcs[k]);
      assert pcs[k] in pcs;
    }
  }

  /** The twelve names differ. */
  lemma NoteNamesDistinct(i: int, j: int)
    requires 0 <= i < 12 && 0 <= j < 12
    ensures NoteNames[i] == NoteNames[j] <==> i == j
  {
  }
}
