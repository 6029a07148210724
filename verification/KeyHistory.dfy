/** What the keyboard handler has decoded after any history of scancode bytes, told by the bytes
    alone. */
module KeyHistory {
  import opened Wrappers
  import opened Keyboard

  type Byte = b: nat | b < 256

  const AT_BOOT: Modifiers := Modifiers(false, false, false, false, false)

  /** The modifier state after the bytes `h`. */
  function Decoded(h: seq<Byte>): Modifiers
    decreases |h|
  {
    if h == [] then AT_BOOT else Decode(Decoded(h[..|h| - 1]), h[|h| - 1]).0
  }

  /** The event that byte `i` of the history makes. */
  function EventAt(h: seq<Byte>, i: nat): Option<KeyEvent>
    requires i < |h|
  {
    Decode(Decoded(h[..i]), h[i]).1
  }

  /** Byte `i` stands alone: the byte before it is not the prefix 0xE0. */
  predicate Plain(h: seq<Byte>, i: nat)
    requires i < |h|
  {
    i == 0 || h[i - 1] != 0xE0
  }

  /** A key with one of the scancodes was pressed and none of them was released since; bytes behind
      a prefix belong to other keys. */
  ghost predicate Held(h: seq<Byte>, codes: set<Byte>) {
    exists i :: 0 <= i < |h| && Plain(h, i) && h[i] in codes && NoReleaseAfter(h, i, codes)
  }

  ghost predicate NoReleaseAfter(h: seq<Byte>, i: nat, codes: set<Byte>) {
    forall j :: i < j < |h| && Plain(h, j) && h[j] >= 0x80 ==> h[j] - 0x80 !in codes
  }

  /** How often Caps Lock was pressed. */
  function CapsPresses(h: seq<Byte>): nat
    decreases |h|
  {
    if h == [] then 0
    else CapsPresses(h[..|h| - 1]) + (if h[|h| - 1] == 0x3A && Plain(h, |h| - 1) then 1 else 0)
  }

  lemma HeldStep(h: seq<Byte>, codes: set<Byte>)
    requires h != [] && forall c :: c in codes ==> c < 0x60
    ensures var n := |h| - 1; Held(h, codes) <==> Pressed(h[n], Plain(h, n), codes, Held(h[..n], codes))
  {
    var n := |h| - 1;
    if Plain(h, n) && h[n] in codes {
      assert NoReleaseAfter(h, n, codes);
    } else {
      if Held(h, codes) {
        var i :| 0 <= i < |h| && Plain(h, i) && h[i] in codes && NoReleaseAfter(h, i, codes);
        HeldBefore(h, codes, i);
      }
      if Held(h[..n], codes) && !(Plain(h, n) && h[n] >= 0x80 && h[n] - 0x80 in codes) {
        HeldOn(h, codes);
      }
    }
  }

  lemma HeldBefore(h: seq<Byte>, codes: set<Byte>, i: nat)
    requires i < |h| - 1 && Plain(h, i) && h[i] in codes && NoReleaseAfter(h, i, codes)
    ensures Held(h[..|h| - 1], codes) && !(Plain(h, |h| - 1) && h[|h| - 1] >= 0x80 && h[|h| - 1] - 0x80 in codes)
  {
    var front := h[..|h| - 1];
    forall j | i < j < |front| && Plain(front, j) && front[j] >= 0x80
      ensures front[j] - 0x80 !in codes
    {
      assert Plain(h, j);
    }
    assert NoReleaseAfter(front, i, codes) && Plain(front, i) && front[i] in codes;
  }

  lemma HeldOn(h: seq<Byte>, codes: set<Byte>)
    requires h != [] && Held(h[..|h| - 1], codes)
    requires !(Plain(h, |h| - 1) && h[|h| - 1] >= 0x80 && h[|h| - 1] - 0x80 in codes)
    ensures Held(h, codes)
  {
    var front := h[..|h| - 1];
    var i :| 0 <= i < |front| && Plain(front, i) && front[i] in codes && NoReleaseAfter(front, i, codes);
    forall j | i < j < |h| && Plain(h, j) && h[j] >= 0x80
      ensures h[j] - 0x80 !in codes
    {
      if j < |front| {
        assert Plain(front, j) && front[j] == h[j];
      }
    }
    assert NoReleaseAfter(h, i, codes) && Plain(h, i) && h[i] in codes;
  }

  /** What a byte does to a modifier key with one of the codes. */
  predicate Pressed(b: Byte, plain: bool, codes: set<Byte>, was: bool) {
    if plain && b in codes then true else if plain && b >= 0x80 && b - 0x80 in codes then false else was
  }

  lemma PlainFlags(m: Modifiers, b: Byte)
    requires b != 0xE0 && !m.extendedPending
    ensures var r, code, down := Decode(m, b).0, if b >= 0x80 then b - 0x80 else b, b < 0x80;
            r == if code == 0x2A || code == 0x36 then m.(shift := down)
                 else if code == 0x1D then m.(ctrl := down)
                 else if code == 0x38 then m.(alt := down)
                 else if b == 0x3A then m.(caps := !m.caps)
                 else m
  {
    hide Ascii;
    assert b % 0x80 == if b >= 0x80 then b - 0x80 else b;
  }

  lemma DecodeFlags(m: Modifiers, b: Byte)
    ensures var r := Decode(m, b).0;
            && (r.extendedPending <==> b == 0xE0)
            && (r.shift <==> Pressed(b, !m.extendedPending, {0x2A, 0x36}, m.shift))
            && (r.ctrl <==> Pressed(b, !m.extendedPending, {0x1D}, m.ctrl))
            && (r.alt <==> Pressed(b, !m.extendedPending, {0x38}, m.alt))
            && (r.caps <==> (m.caps != (!m.extendedPending && b == 0x3A)))
  {
    hide Ascii;
    assert b % 0x80 == if b >= 0x80 then b - 0x80 else b;
    if b != 0xE0 && !m.extendedPending {
      PlainFlags(m, b);
      hide Decode;
    }
  }

  /** After any bytes, Shift, Ctrl and Alt are down exactly if such a key is held, Caps Lock is on
      after an odd number of presses, and a prefix is pending exactly if it was the last byte. */
  lemma {:induction false} HistoryDecides(h: seq<Byte>)
    ensures var m := Decoded(h);
            && (m.shift <==> Held(h, {0x2A, 0x36}))
            && (m.ctrl <==> Held(h, {0x1D}))
            && (m.alt <==> Held(h, {0x38}))
            && (m.caps <==> CapsPresses(h) % 2 == 1)
            && (m.extendedPending <==> h != [] && h[|h| - 1] == 0xE0)
    decreases |h|
  {
    hide Decode, Held;
    if h == [] {
      NothingHeld({0x2A, 0x36});
      NothingHeld({0x1D});
      NothingHeld({0x38});
    } else {
      var n := |h| - 1;
      HistoryDecides(h[..n]);
      PendingIsPrefixed(h);
      DecodeFlags(Decoded(h[..n]), h[n]);
      HeldStep(h, {0x2A, 0x36});
      HeldStep(h, {0x1D});
      HeldStep(h, {0x38});
      hide Pressed, Plain;
    }
  }

  lemma NothingHeld(codes: set<Byte>)
    ensures !Held([], codes)
  {
  }

  lemma PendingIsPrefixed(h: seq<Byte>)
    requires h != []
    ensures Plain(h, |h| - 1) <==> !(h[..|h| - 1] != [] && h[..|h| - 1][|h| - 2] == 0xE0)
  {
  }

  lemma DecodeEvent(m: Modifiers, b: Byte)
    ensures var e := Decode(m, b).1;
            && (e.Some? <==> b < 0x80 && (m.extendedPending || b !in {0x2A, 0x36, 0x1D, 0x38, 0x3A}))
            && (e.Some? ==>
                  e.value == KeyEvent(b, if m.extendedPending then '\0' else Ascii(b, m.shift != m.caps), true,
                                      m.shift, m.ctrl, m.alt, m.extendedPending))
  {
    hide Ascii;
  }

  /** Which bytes make an event: presses, behind a prefix or not of a modifier key.  The event
      carries the key, the modifiers held before it, and as character the one of the layout, shifted
      if exactly one of Shift and Caps Lock is in force; keys behind a prefix have none. */
  lemma EventMeans(h: seq<Byte>, i: nat)
    requires i < |h|
    ensures EventAt(h, i).Some? <==>
            h[i] < 0x80 && (!Plain(h, i) || h[i] !in {0x2A, 0x36, 0x1D, 0x38, 0x3A})
    ensures EventAt(h, i).Some? ==>
              var e, before := EventAt(h, i).value, h[..i];
              && e.scancode == h[i] && e.pressed
              && (e.extended <==> !Plain(h, i))
              && (e.shift <==> Held(before, {0x2A, 0x36})) && (e.ctrl <==> Held(before, {0x1D})) && (e.alt <==> Held(before, {0x38}))
              && e.ascii == if e.extended then '\0'
                            else Ascii(h[i], e.shift != (CapsPresses(before) % 2 == 1))
  {
    HistoryDecides(h[..i]);
    DecodeEvent(Decoded(h[..i]), h[i]);
    assert i > 0 ==> h[..i][i - 1] == h[i - 1];
    hide Held, Ascii, Decoded, Decode, CapsPresses;
  }

  // ---- handler and reader interleaved ----

  ghost predicate Bytes(actions: seq<Action>) {
    forall i :: 0 <= i < |actions| && actions[i].Interrupt? ==> actions[i].byte < 256
  }

  /** The bytes that the interrupts of a run brought. */
  ghost function BytesOf(actions: seq<Action>): seq<Byte>
    requires Bytes(actions)
    decreases |actions|
  {
    if actions == [] then []
    else
      var a := actions[|actions| - 1];
      BytesOf(actions[..|actions| - 1]) + (if a.Interrupt? then [a.byte] else [])
  }

  /** Reading events leaves the modifiers to the bytes. */
  lemma {:induction false} RunDecodes(actions: seq<Action>)
    requires Bytes(actions)
    ensures Run(Start(), actions).mods == Decoded(BytesOf(actions))
    decreases |actions|
  {
    hide Decode, Put, Drop, Fields;
    if actions != [] {
      var front, a := actions[..|actions| - 1], actions[|actions| - 1];
      RunDecodes(front);
      if a.Interrupt? {
        var h := BytesOf(actions);
        assert h[..|h| - 1] == BytesOf(front) && h[|h| - 1] == a.byte;
      } else {
        assert BytesOf(actions) == BytesOf(front);
      }
    }
  }

  /** In any state of any interleaving an interrupt accepts exactly the event that the bytes so far
      call for, unless 255 events are waiting, and leaves the reader alone. */
  lemma InterruptAccepts(actions: seq<Action>, byte: Byte)
    requires Bytes(actions)
    ensures var m, h := Run(Start(), actions), BytesOf(actions) + [byte];
            var after, e := Act(m, Interrupt(byte)), EventAt(h, |h| - 1);
            && after.delivered == m.delivered && after.reader == m.reader
            && after.accepted ==
               if e.Some? && Count(m.ring) < 255 then m.accepted + [e.value] else m.accepted
  {
    hide Decode, Decoded, Fields, Run;
    RunDecodes(actions);
    var m, h := Run(Start(), actions), BytesOf(actions) + [byte];
    assert h[..|h| - 1] == BytesOf(actions);
    var e := EventAt(h, |h| - 1);
    if e.Some? {
      PutAppends(m.ring, e.value);
    }
  }

  /** How many statements the reader still needs for the event at the head. */
  function Left(m: Machine): int {
    match m.reader
    case AtRest => 9
    case Copying(fields) => 8 - |fields|
  }

  function ReaderSteps(actions: seq<Action>): nat
    decreases |actions|
  {
    if actions == [] then 0
    else ReaderSteps(actions[..|actions| - 1]) + (if actions[|actions| - 1].ReaderStep? then 1 else 0)
  }

  lemma ActKeepsGoing(m: Machine, a: Action)
    requires Sound(m) && (a.Interrupt? ==> a.byte < 256) && m.ring.head != m.ring.tail
    ensures Sound(Act(m, a))
    ensures var r := Act(m, a);
            || |r.delivered| > |m.delivered|
            || (|r.delivered| == |m.delivered| && r.ring.head != r.ring.tail
                && Left(r) == Left(m) - (if a.ReaderStep? then 1 else 0))
  {
    hide Decode, Queued, Fields;
    match a
    case Interrupt(byte) =>
      HandlerKeepsSound(m, byte);
      var e := Decode(m.mods, byte).1;
      if e.Some? {
        PutAppends(m.ring, e.value);
      }
    case ReaderStep => ReaderKeepsSound(m);
  }

  lemma ActDelivers(m: Machine, a: Action)
    requires Sound(m) && (a.Interrupt? ==> a.byte < 256)
    ensures Sound(Act(m, a)) && |Act(m, a).delivered| >= |m.delivered|
  {
    match a
    case Interrupt(byte) => HandlerKeepsSound(m, byte);
    case ReaderStep => ReaderKeepsSound(m);
  }

  /** When an event waits, nine statements of the reader (or fewer, if a copy has begun) deliver
      one, whatever interrupts come in between. */
  lemma {:induction false} ReaderDelivers(m: Machine, actions: seq<Action>)
    requires RingOk(m.ring) && Sound(m) && Bytes(actions) && m.ring.head != m.ring.tail
    ensures var r := Run(m, actions);
            && Sound(r) && |r.delivered| >= |m.delivered|
            && (|r.delivered| > |m.delivered| ||
                (r.ring.head != r.ring.tail && Left(r) == Left(m) - ReaderSteps(actions)))
            && (ReaderSteps(actions) >= Left(m) ==> |r.delivered| > |m.delivered|)
    decreases |actions|
  {
    hide Act, Sound;
    if actions != [] {
      var front, a := actions[..|actions| - 1], actions[|actions| - 1];
      ReaderDelivers(m, front);
      var b := Run(m, front);
      if b.ring.head != b.ring.tail {
        ActKeepsGoing(b, a);
      }
      ActDelivers(b, a);
    }
    SomethingLeft(Run(m, actions));
  }

  lemma SomethingLeft(m: Machine)
    requires Sound(m)
    ensures Left(m) >= 1
  {
  }

  /** `row` stands in `table` from scancode `from` on. */
  predicate Row(table: string, from: nat, row: string) {
    from + |row| <= |table| && table[from..from + |row|] == row
  }

  /** The digit row of the layout, plain and shifted. */
  lemma DigitRow()
    ensures Row(SCANCODE_NORMAL, 0x02, "1234567890-=") && Row(SCANCODE_SHIFT, 0x02, "!@#$%^&*()_+")
  {
  }

  lemma TopRow()
    ensures Row(SCANCODE_NORMAL, 0x10, "qwertyuiop[]\n") && Row(SCANCODE_SHIFT, 0x10, "QWERTYUIOP{}\n")
  {
  }

  lemma MiddleRow()
    ensures Row(SCANCODE_NORMAL, 0x1E, "asdfghjkl;'`") && Row(SCANCODE_SHIFT, 0x1E, "ASDFGHJKL:\"~")
  {
  }

  lemma BottomRow()
    ensures Row(SCANCODE_NORMAL, 0x2C, "zxcvbnm,./") && Row(SCANCODE_SHIFT, 0x2C, "ZXCVBNM<>?")
    ensures Row(SCANCODE_NORMAL, 0x39, " \0") && Row(SCANCODE_SHIFT, 0x39, " \0")
    ensures |SCANCODE_NORMAL| == |SCANCODE_SHIFT| == 0x3B
  {
  }

  /** The layout: what the keys of each row type, plain and shifted; keys beyond the table type
      nothing. */
  lemma Layout(code: nat)
    ensures Row(SCANCODE_NORMAL, 0x02, "1234567890-=") && Row(SCANCODE_SHIFT, 0x02, "!@#$%^&*()_+")
    ensures Row(SCANCODE_NORMAL, 0x10, "qwertyuiop[]\n") && Row(SCANCODE_SHIFT, 0x10, "QWERTYUIOP{}\n")
    ensures Row(SCANCODE_NORMAL, 0x1E, "asdfghjkl;'`") && Row(SCANCODE_SHIFT, 0x1E, "ASDFGHJKL:\"~")
    ensures Row(SCANCODE_NORMAL, 0x2C, "zxcvbnm,./") && Row(SCANCODE_SHIFT, 0x2C, "ZXCVBNM<>?")
    ensures Row(SCANCODE_NORMAL, 0x39, " \0") && Row(SCANCODE_SHIFT, 0x39, " \0")
    ensures code >= 0x3B ==> Ascii(code, false) == Ascii(code, true) == '\0'
  {
    DigitRow();
    TopRow();
    MiddleRow();
    BottomRow();
    hide Row, SCANCODE_NORMAL, SCANCODE_SHIFT;
  }
}
