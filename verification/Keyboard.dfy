/** drivers/keyboard/keyboard.c: scancode decoding, and the event ring between the interrupt
    handler and the reader, with the handler firing between any two steps of the reader. */
module Keyboard {
  import opened Wrappers

  const KBD_BUFFER_SIZE: nat := 256
  const KEY_CTRL: nat := 0x1D
  const KEY_LSHIFT: nat := 0x2A
  const KEY_RSHIFT: nat := 0x36
  const KEY_ALT: nat := 0x38
  const KEY_CAPS: nat := 0x3A
  const EXTENDED_PREFIX: nat := 0xE0

  const SCANCODE_NORMAL: string :=
    "\0\U{1B}1234567890-=\U{08}\t" + "qwertyuiop[]\n\0" + "asdfghjkl;'`\0\\" + "zxcvbnm,./\0*\0 \0"

  const SCANCODE_SHIFT: string :=
    "\0\U{1B}!@#$%^&*()_+\U{08}\t" + "QWERTYUIOP{}\n\0" + "ASDFGHJKL:\"~\0|" + "ZXCVBNM<>?\0*\0 \0"

  datatype KeyEvent = KeyEvent(scancode: nat, ascii: char, pressed: bool, shift: bool, ctrl: bool, alt: bool, extended: bool)

  datatype Modifiers = Modifiers(shift: bool, ctrl: bool, alt: bool, caps: bool, extendedPending: bool)

  /** The tables are zero beyond the listed entries. */
  function Ascii(code: nat, useShift: bool): char {
    var table := if useShift then SCANCODE_SHIFT else SCANCODE_NORMAL;
    if code < |table| then table[code] else '\0'
  }

  /** What one scancode byte does: the new modifier state, and the event it makes, if any. */
  function Decode(m: Modifiers, byte: nat): (Modifiers, Option<KeyEvent>)
    requires byte < 256
  {
    if byte == EXTENDED_PREFIX then (m.(extendedPending := true), None)
    else
      var extended := m.extendedPending;
      var m1 := m.(extendedPending := false);
      var released := byte >= 0x80;
      var code := byte % 0x80;
      if !extended && (code == KEY_LSHIFT || code == KEY_RSHIFT) then (m1.(shift := !released), None)
      else if !extended && code == KEY_CTRL then (m1.(ctrl := !released), None)
      else if !extended && code == KEY_ALT then (m1.(alt := !released), None)
      else if !extended && code == KEY_CAPS && !released then (m1.(caps := !m1.caps), None)
      else if released then (m1, None)
      else
        var ascii := if extended then '\0' else Ascii(code, m1.shift != m1.caps);
        (m1, Some(KeyEvent(code, ascii, true, m1.shift, m1.ctrl, m1.alt, extended)))
  }

  /** Pressing and releasing a key without prefix gives at most one event, and only Caps Lock
      leaves a different modifier state than plainly releasing the key. */
  lemma PressAndRelease(m: Modifiers, code: nat)
    requires code < 0x80 && code != 0x60 && !m.extendedPending
    ensures var (m1, down) := Decode(m, code);
            var (m2, up) := Decode(m1, code + 0x80);
            && up.None? && !m2.extendedPending
            && (code == KEY_CAPS <==> m2.caps != m.caps)
            && (code == KEY_LSHIFT || code == KEY_RSHIFT <==> down.None? && m1 == m.(shift := true) && m2 == m.(shift := false))
            && (down.None? <==> code in {KEY_LSHIFT, KEY_RSHIFT, KEY_CTRL, KEY_ALT, KEY_CAPS})
  {
    assert (code + 0x80) % 0x80 == code;
  }

  // ---- the ring ----

  datatype Ring = Ring(buffer: seq<KeyEvent>, head: nat, tail: nat)

  predicate RingOk(r: Ring) {
    |r.buffer| == KBD_BUFFER_SIZE && r.head < KBD_BUFFER_SIZE && r.tail < KBD_BUFFER_SIZE
  }

  function Next(i: nat): nat {
    (i + 1) % KBD_BUFFER_SIZE
  }

  /** How many events wait in the ring. */
  function Count(r: Ring): nat
    requires RingOk(r)
  {
    if r.head <= r.tail then r.tail - r.head else r.tail + KBD_BUFFER_SIZE - r.head
  }

  function Place(head: nat, i: nat): nat
    requires head < KBD_BUFFER_SIZE && i < KBD_BUFFER_SIZE
  {
    if head + i < KBD_BUFFER_SIZE then head + i else head + i - KBD_BUFFER_SIZE
  }

  /** The events in the ring, oldest first. */
  function Queued(r: Ring): (s: seq<KeyEvent>)
    requires RingOk(r)
    ensures |s| == Count(r)
  {
    seq(Count(r), i requires 0 <= i < Count(r) => r.buffer[Place(r.head, i)])
  }

  /** The buffering statements of the handler. */
  function Put(r: Ring, e: KeyEvent): Ring
    requires RingOk(r)
  {
    if Next(r.tail) == r.head then r else Ring(r.buffer[r.tail := e], r.head, Next(r.tail))
  }

  /** The last statement of the reader. */
  function Drop(r: Ring): Ring
    requires RingOk(r)
  {
    r.(head := Next(r.head))
  }

  /** An event is appended unless 255 are waiting; then it is lost and nothing else is. */
  lemma PutAppends(r: Ring, e: KeyEvent)
    requires RingOk(r)
    ensures RingOk(Put(r, e))
    ensures Queued(Put(r, e)) == if Count(r) < KBD_BUFFER_SIZE - 1 then Queued(r) + [e] else Queued(r)
    ensures Put(r, e) == r <==> Count(r) == KBD_BUFFER_SIZE - 1
    ensures r.head != r.tail ==> Put(r, e).head != Put(r, e).tail && Put(r, e).buffer[r.head] == r.buffer[r.head]
  {
  }

  lemma DropRemovesOldest(r: Ring)
    requires RingOk(r) && r.head != r.tail
    ensures RingOk(Drop(r)) && Queued(r) == [r.buffer[r.head]] + Queued(Drop(r))
  {
  }

  // ---- handler and reader interleaved ----

  /** The reader between two of its statements: at rest, copying the event field by field
      (`fields` holds those already copied), or about to advance the head. */
  datatype Reader = AtRest | Copying(fields: seq<nat>)

  const FIELDS: nat := 7

  function Code(b: bool): nat {
    if b then 1 else 0
  }

  /** The fields of an event in the order in which they are copied. */
  function Fields(e: KeyEvent): (f: seq<nat>)
    ensures |f| == FIELDS
  {
    [e.scancode, e.ascii as nat, Code(e.pressed), Code(e.shift), Code(e.ctrl), Code(e.alt), Code(e.extended)]
  }

  datatype Machine = Machine(ring: Ring, mods: Modifiers, reader: Reader, accepted: seq<KeyEvent>, delivered: seq<seq<nat>>)

  datatype Action = Interrupt(byte: nat) | ReaderStep

  /** The interrupt handler, atomic for the reader. */
  function HandlerStep(m: Machine, byte: nat): Machine
    requires RingOk(m.ring) && byte < 256
  {
    var (mods, event) := Decode(m.mods, byte);
    match event
    case None => m.(mods := mods)
    case Some(e) =>
      m.(mods := mods, ring := Put(m.ring, e),
         accepted := if Put(m.ring, e) == m.ring then m.accepted else m.accepted + [e])
  }

  /** The next statement of `keyboard_poll`: the emptiness test, one field of the copy, or the
      advance of the head. */
  function NextStatement(m: Machine): Machine
    requires RingOk(m.ring)
  {
    match m.reader
    case AtRest => if m.ring.head == m.ring.tail then m else m.(reader := Copying([]))
    case Copying(fields) =>
      if |fields| < FIELDS
      then m.(reader := Copying(fields + [Fields(m.ring.buffer[m.ring.head])[|fields|]]))
      else m.(ring := Drop(m.ring), reader := AtRest, delivered := m.delivered + [fields])
  }

  function Act(m: Machine, a: Action): Machine
    requires RingOk(m.ring) && (a.Interrupt? ==> a.byte < 256)
  {
    match a
    case Interrupt(byte) => HandlerStep(m, byte)
    case ReaderStep => NextStatement(m)
  }

  function AllFields(es: seq<KeyEvent>): (r: seq<seq<nat>>)
    ensures |r| == |es|
  {
    seq(|es|, i requires 0 <= i < |es| => Fields(es[i]))
  }

  /** Delivered events followed by waiting ones are the accepted ones, and a copy in progress
      agrees with the slot it reads. */
  ghost predicate Sound(m: Machine) {
    && RingOk(m.ring)
    && AllFields(m.accepted) == m.delivered + AllFields(Queued(m.ring))
    && (m.reader.Copying? ==>
          && m.ring.head != m.ring.tail
          && |m.reader.fields| <= FIELDS
          && m.reader.fields == Fields(m.ring.buffer[m.ring.head])[..|m.reader.fields|])
  }

  lemma AllFieldsOfConcat(a: seq<KeyEvent>, b: seq<KeyEvent>)
    ensures AllFields(a + b) == AllFields(a) + AllFields(b)
  {
  }

  lemma HandlerKeepsSound(m: Machine, byte: nat)
    requires Sound(m) && byte < 256
    ensures Sound(HandlerStep(m, byte))
  {
    hide Queued;
    var event := Decode(m.mods, byte).1;
    if event.Some? {
      var e := event.value;
      PutAppends(m.ring, e);
      AllFieldsOfConcat(m.accepted, [e]);
      AllFieldsOfConcat(Queued(m.ring), [e]);
    }
  }

  lemma ReaderKeepsSound(m: Machine)
    requires Sound(m)
    ensures Sound(NextStatement(m))
  {
    hide Queued;
    match m.reader
    case AtRest =>
    case Copying(fields) =>
      var e := m.ring.buffer[m.ring.head];
      if |fields| < FIELDS {
        assert Fields(e)[..|fields| + 1] == Fields(e)[..|fields|] + [Fields(e)[|fields|]];
      } else {
        DropRemovesOldest(m.ring);
        assert fields == Fields(e);
        AllFieldsOfConcat([e], Queued(Drop(m.ring)));
        assert AllFields([e]) == [Fields(e)];
      }
  }

  /** The machine after a run of actions. */
  function Run(m: Machine, actions: seq<Action>): (r: Machine)
    requires RingOk(m.ring) && forall i :: 0 <= i < |actions| && actions[i].Interrupt? ==> actions[i].byte < 256
    ensures RingOk(r.ring)
  {
    if actions == [] then m
    else
      var before := Run(m, actions[..|actions| - 1]);
      var a := actions[|actions| - 1];
      assert a.Interrupt? ==> a.byte < 256;
      Act(before, a)
  }

  function Start(): Machine {
    Machine(Ring(seq(KBD_BUFFER_SIZE, _ => KeyEvent(0, '\0', false, false, false, false, false)), 0, 0),
            Modifiers(false, false, false, false, false), AtRest, [], [])
  }

  /** Whatever the interleaving of interrupts and reader statements, what the reader has
      delivered is a prefix of what the handler accepted, every delivered event is whole, and
      the slot being copied still holds the event whose copy was begun. */
  lemma {:induction false} EveryInterleavingIsSound(actions: seq<Action>)
    requires forall i :: 0 <= i < |actions| && actions[i].Interrupt? ==> actions[i].byte < 256
    ensures var m := Run(Start(), actions);
            Sound(m) && m.delivered <= AllFields(m.accepted)
  {
    if actions == [] {
      assert Queued(Start().ring) == [];
    } else {
      EveryInterleavingIsSound(actions[..|actions| - 1]);
      var m := Run(Start(), actions[..|actions| - 1]);
      match actions[|actions| - 1]
      case Interrupt(byte) => HandlerKeepsSound(m, byte);
      case ReaderStep => ReaderKeepsSound(m);
    }
  }

  // ---- the driver's globals ----

  class KeyboardDriver {
    const buffer: array<KeyEvent>
    var head: nat
    var tail: nat
    var mods: Modifiers

    constructor ()
      ensures Valid() && fresh(buffer) && State() == Start().ring && mods == Start().mods
    {
      buffer := new KeyEvent[KBD_BUFFER_SIZE](_ => KeyEvent(0, '\0', false, false, false, false, false));
      head, tail := 0, 0;
      mods := Modifiers(false, false, false, false, false);
      new;
      assert buffer[..] == Start().ring.buffer;
    }

    ghost function State(): Ring
      reads this, buffer
    {
      Ring(buffer[..], head, tail)
    }

    ghost predicate Valid()
      reads this, buffer
    {
      RingOk(State())
    }

    /** `keyboard_irq_handler` for the byte read from the data port. */
    method IrqHandler(byte: nat)
      requires Valid() && byte < 256
      modifies this, buffer
      ensures Valid()
      ensures var (m, event) := Decode(old(mods), byte);
              mods == m && State() == if event.Some? then Put(old(State()), event.value) else old(State())
    {
      if byte == EXTENDED_PREFIX {
        mods := mods.(extendedPending := true);
        return;
      }
      var extended := mods.extendedPending;
      mods := mods.(extendedPending := false);
      var released := byte >= 0x80;
      var code := byte % 0x80;
      if !extended {
        if code == KEY_LSHIFT || code == KEY_RSHIFT {
          mods := mods.(shift := !released);
          return;
        }
        if code == KEY_CTRL {
          mods := mods.(ctrl := !released);
          return;
        }
        if code == KEY_ALT {
          mods := mods.(alt := !released);
          return;
        }
        if code == KEY_CAPS && !released {
          mods := mods.(caps := !mods.caps);
          return;
        }
      }
      if released {
        return;
      }
      var useShift := mods.shift != mods.caps;
      var ascii := if !extended then Ascii(code, useShift) else '\0';
      var event := KeyEvent(code, ascii, !released, mods.shift, mods.ctrl, mods.alt, extended);
      var nextTail := (tail + 1) % KBD_BUFFER_SIZE;
      if nextTail != head {
        buffer[tail] := event;
        tail := nextTail;
      }
    }

    /** `keyboard_poll` with no interrupt in between. */
    method Poll() returns (ok: bool, event: Option<KeyEvent>)
      requires Valid()
      modifies this`head
      ensures Valid()
      ensures ok <==> old(Queued(State())) != []
      ensures ok ==> event.Some? && old(Queued(State())) == [event.value] + Queued(State())
      ensures !ok ==> event.None? && State() == old(State())
    {
      if head == tail {
        return false, None;
      }
      DropRemovesOldest(State());
      event := Some(buffer[head]);
      head := (head + 1) % KBD_BUFFER_SIZE;
      ok := true;
    }
  }
}
