// The keyboard ring: an interrupt handler that produces characters and a
// reader that consumes them, interleaved at every step of the reader.
module Keyboard {
  import opened Wrappers
  import opened Bits

  const QUEUE_SIZE := 256

  // Characters by scan code, row by row of the keyboard; 0 where there is none.
  // Codes past the end have none.
  const NORMAL_DIGITS: seq<Byte> := [0, 0, 49, 50, 51, 52, 53, 54, 55, 56, 57, 48, 45, 61, 8, 9]
  const NORMAL_TOP: seq<Byte> := [113, 119, 101, 114, 116, 121, 117, 105, 111, 112, 91, 93, 10, 0]
  const NORMAL_HOME: seq<Byte> := [97, 115, 100, 102, 103, 104, 106, 107, 108, 59, 39, 96, 0, 92]
  const NORMAL_BOTTOM: seq<Byte> := [122, 120, 99, 118, 98, 110, 109, 44, 46, 47, 0, 0, 0, 32]

  const NORMAL_MAP: seq<Byte> := NORMAL_DIGITS + NORMAL_TOP + NORMAL_HOME + NORMAL_BOTTOM

  const SHIFTED_DIGITS: seq<Byte> := [0, 0, 33, 64, 35, 36, 37, 94, 38, 42, 40, 41, 95, 43, 8, 9]
  const SHIFTED_TOP: seq<Byte> := [81, 87, 69, 82, 84, 89, 85, 73, 79, 80, 123, 125, 10, 0]
  const SHIFTED_HOME: seq<Byte> := [65, 83, 68, 70, 71, 72, 74, 75, 76, 58, 34, 126, 0, 124]
  const SHIFTED_BOTTOM: seq<Byte> := [90, 88, 67, 86, 66, 78, 77, 60, 62, 63, 0, 0, 0, 32]

  const SHIFTED_MAP: seq<Byte> := SHIFTED_DIGITS + SHIFTED_TOP + SHIFTED_HOME + SHIFTED_BOTTOM

  function CharacterOf(shift: bool, scancode: Byte): Byte
  {
    var map' := if shift then SHIFTED_MAP else NORMAL_MAP;
    if scancode < |map'| then map'[scancode] else 0
  }

  // How far a call of the reader has come: it has loaded the read index, found
  // the ring non-empty, or fetched the character.
  datatype Reader = Idle | Loaded(index: Byte) | NonEmpty | Fetched(character: Byte)

  datatype Queue = Queue(ring: seq<Byte>, read: Byte, write: Byte, shift: bool, reader: Reader)

  /** What an interrupt did with its scan code. */
  datatype Outcome = Ignored | Accepted(character: Byte) | Dropped(character: Byte)

  predicate WellFormed(q: Queue) { |q.ring| == QUEUE_SIZE }

  function Succ(index: Byte): Byte { (index + 1) % QUEUE_SIZE }

  /** The interrupt handler, which runs to completion. */
  function Interrupt(q: Queue, scancode: Byte): (Queue, Outcome)
    requires WellFormed(q)
  {
    if scancode == 0x2a || scancode == 0x36 then (q.(shift := true), Ignored)
    else if scancode == 0xaa || scancode == 0xb6 then (q.(shift := false), Ignored)
    else if scancode >= 128 then (q, Ignored)
    else
      var character := CharacterOf(q.shift, scancode);
      if character == 0 then (q, Ignored)
      else if Succ(q.write) == q.read then (q, Dropped(character))
      else (q.(ring := q.ring[q.write := character], write := Succ(q.write)), Accepted(character))
  }

  /** One step of the reader, and the character it returns at its last step. */
  function ReaderStep(q: Queue): (Queue, Option<Byte>)
    requires WellFormed(q)
  {
    match q.reader
    case Idle => (q.(reader := Loaded(q.read)), None)
    case Loaded(index) => (q.(reader := if index == q.write then Idle else NonEmpty), None)
    case NonEmpty => (q.(reader := Fetched(q.ring[q.read])), None)
    case Fetched(character) => (q.(read := Succ(q.read), reader := Idle), Some(character))
  }

  datatype Event = Key(scancode: Byte) | Step

  // A queue with everything accepted and everything returned so far.
  datatype History = History(queue: Queue, accepted: seq<Byte>, returned: seq<Byte>)

  function Next(h: History, e: Event): (h': History)
    requires WellFormed(h.queue)
    ensures WellFormed(h'.queue)
  {
    match e
    case Key(scancode) =>
      var (q, outcome) := Interrupt(h.queue, scancode);
      History(q, if outcome.Accepted? then h.accepted + [outcome.character] else h.accepted, h.returned)
    case Step =>
      var (q, c) := ReaderStep(h.queue);
      History(q, h.accepted, if c.Some? then h.returned + [c.value] else h.returned)
  }

  function Run(h: History, events: seq<Event>): (h': History)
    requires WellFormed(h.queue)
    ensures WellFormed(h'.queue)
    decreases |events|
  {
    if events == [] then h else Run(Next(h, events[0]), events[1..])
  }

  function Unread(h: History): int { |h.accepted| - |h.returned| }

  /** The ring holds exactly the accepted characters not yet returned. */
  predicate Inv(h: History)
  {
    var q := h.queue;
    && WellFormed(q)
    && 0 <= Unread(h) <= QUEUE_SIZE - 1
    && h.returned == h.accepted[..|h.returned|]
    && q.read == |h.returned| % QUEUE_SIZE && q.write == |h.accepted| % QUEUE_SIZE
    && (forall i :: |h.returned| <= i < |h.accepted| ==> q.ring[i % QUEUE_SIZE] == h.accepted[i])
    && match q.reader
       case Idle => true
       case Loaded(index) => index == q.read
       case NonEmpty => Unread(h) > 0
       case Fetched(character) => Unread(h) > 0 && character == h.accepted[|h.returned|]
  }

  // Distinct unread positions use distinct cells of the ring.
  lemma RingCellsDiffer(i: nat, n: nat)
    requires i < n < i + QUEUE_SIZE
    ensures i % QUEUE_SIZE != n % QUEUE_SIZE
  {
    var q, r := i / QUEUE_SIZE, i % QUEUE_SIZE;
    if r + (n - i) < QUEUE_SIZE {
      QuotientIs(n, QUEUE_SIZE, q, r + (n - i));
    } else {
      QuotientIs(n, QUEUE_SIZE, q + 1, r + (n - i) - QUEUE_SIZE);
    }
  }

  lemma SuccWraps(w: nat)
    ensures Succ(w % QUEUE_SIZE) == (w + 1) % QUEUE_SIZE
  {
    var q, r := w / QUEUE_SIZE, w % QUEUE_SIZE;
    if r + 1 < QUEUE_SIZE {
      QuotientIs(r + 1, QUEUE_SIZE, 0, r + 1);
      QuotientIs(w + 1, QUEUE_SIZE, q, r + 1);
    } else {
      QuotientIs(r + 1, QUEUE_SIZE, 1, 0);
      QuotientIs(w + 1, QUEUE_SIZE, q + 1, 0);
    }
  }

  lemma FullRing(r: nat, w: nat)
    requires r <= w < r + QUEUE_SIZE
    ensures Succ(w % QUEUE_SIZE) == r % QUEUE_SIZE <==> w - r == QUEUE_SIZE - 1
    ensures r % QUEUE_SIZE == w % QUEUE_SIZE <==> r == w
    ensures Succ(w % QUEUE_SIZE) == (w + 1) % QUEUE_SIZE
  {
    hide Succ;
    SuccWraps(w);
    if r < w {
      RingCellsDiffer(r, w);
    }
    if w - r == QUEUE_SIZE - 1 {
      QuotientIs(w + 1, QUEUE_SIZE, r / QUEUE_SIZE + 1, r % QUEUE_SIZE);
    } else {
      RingCellsDiffer(r, w + 1);
    }
  }

  // An interrupt keeps the invariant wherever the reader is, and drops a
  // character exactly when 255 are unread.
  lemma InterruptKeeps(h: History, scancode: Byte)
    requires Inv(h)
    ensures Inv(Next(h, Key(scancode)))
    ensures Interrupt(h.queue, scancode).1.Dropped? ==> Unread(h) == QUEUE_SIZE - 1
    ensures Interrupt(h.queue, scancode).1.Accepted? ==> Unread(h) < QUEUE_SIZE - 1
  {
    hide CharacterOf, Succ;
    var w := |h.accepted|;
    FullRing(|h.returned|, w);
    if Interrupt(h.queue, scancode).1.Accepted? {
      forall i | |h.returned| <= i < w ensures i % QUEUE_SIZE != w % QUEUE_SIZE {
        RingCellsDiffer(i, w);
      }
    }
  }

  lemma ReaderKeeps(h: History)
    requires Inv(h)
    ensures Inv(Next(h, Step))
  {
    FullRing(|h.returned|, |h.accepted|);
    FullRing(|h.returned|, |h.returned|);
    if h.queue.reader.Fetched? {
      assert h.accepted[..|h.returned| + 1] == h.accepted[..|h.returned|] + [h.accepted[|h.returned|]];
    }
  }

  lemma {:induction false} RunKeeps(h: History, events: seq<Event>)
    requires Inv(h)
    ensures Inv(Run(h, events))
    decreases |events|
  {
    if events != [] {
      match events[0] {
        case Key(scancode) => InterruptKeeps(h, scancode);
        case Step => ReaderKeeps(h);
      }
      RunKeeps(Next(h, events[0]), events[1..]);
    }
  }

  function Start(ring: seq<Byte>): History
  {
    History(Queue(ring, 0, 0, false, Idle), [], [])
  }

  // However interrupts fall between the steps of the reader, the characters
  // returned are a prefix of those accepted, the rest is in the ring, and a
  // further character is dropped only if 255 are unread.
  lemma NothingLostOrReordered(ring: seq<Byte>, events: seq<Event>, scancode: Byte)
    requires |ring| == QUEUE_SIZE
    ensures var h := Run(Start(ring), events);
            && h.returned <= h.accepted
            && (forall i :: |h.returned| <= i < |h.accepted| ==> h.queue.ring[i % QUEUE_SIZE] == h.accepted[i])
            && (Interrupt(h.queue, scancode).1.Dropped? ==> Unread(h) == QUEUE_SIZE - 1)
            && (Interrupt(h.queue, scancode).1.Accepted? ==> Unread(h) < QUEUE_SIZE - 1)
  {
    RunKeeps(Start(ring), events);
    InterruptKeeps(Run(Start(ring), events), scancode);
  }

  // ---- What is typed ----

  /** The character at `i` of a row of keys. */
  function KeyIn(row: string, i: nat): nat
    requires i < |row|
  {
    row[i] as int
  }

  /** What a key without a letter types, or 0. */
  function SignOf(shift: bool, code: Byte): nat
  {
    if 2 <= code < 14 then KeyIn(if shift then "!@#$%^&*()_+" else "1234567890-=", code - 2)
    else if 26 <= code < 28 then KeyIn(if shift then "{}" else "[]", code - 26)
    else if 39 <= code < 42 then KeyIn(if shift then ":\"~" else ";'`", code - 39)
    else if code == 43 then KeyIn(if shift then "|" else "\\", 0)
    else if 51 <= code < 54 then KeyIn(if shift then "<>?" else ",./", code - 51)
    else if code == 14 then 8
    else if code == 15 then 9
    else if code == 28 then 10
    else if code == 57 then 32
    else 0
  }

  /** The lower-case letter of a key, or 0. */
  function LetterOf(code: Byte): nat
  {
    if 16 <= code < 26 then KeyIn("qwertyuiop", code - 16)
    else if 30 <= code < 39 then KeyIn("asdfghjkl", code - 30)
    else if 44 <= code < 51 then KeyIn("zxcvbnm", code - 44)
    else 0
  }

  /** What a key types: its letter, less 32 with shift down, or its sign. */
  function Typed(shift: bool, code: Byte): int
  {
    if LetterOf(code) != 0 then LetterOf(code) - (if shift then 32 else 0) else SignOf(shift, code)
  }

  lemma DigitRow(shift: bool, i: nat)
    requires i < 16
    ensures (if shift then SHIFTED_DIGITS else NORMAL_DIGITS)[i] == Typed(shift, i)
  {
  }

  lemma TopRow(shift: bool, i: nat)
    requires i < 14
    ensures (if shift then SHIFTED_TOP else NORMAL_TOP)[i] == Typed(shift, 16 + i)
  {
  }

  lemma HomeRow(shift: bool, i: nat)
    requires i < 14
    ensures (if shift then SHIFTED_HOME else NORMAL_HOME)[i] == Typed(shift, 30 + i)
  {
  }

  lemma BottomRow(shift: bool, i: nat)
    requires i < 14
    ensures (if shift then SHIFTED_BOTTOM else NORMAL_BOTTOM)[i] == Typed(shift, 44 + i)
  {
  }

  lemma RowsJoin(a: seq<Byte>, b: seq<Byte>, c: seq<Byte>, d: seq<Byte>, i: nat)
    requires |a| == 16 && |b| == 14 && |c| == 14 && |d| == 14 && i < 58
    ensures (a + b + c + d)[i] ==
            if i < 16 then a[i] else if i < 30 then b[i - 16] else if i < 44 then c[i - 30] else d[i - 44]
  {
  }

  lemma CharacterIsTyped(shift: bool, code: Byte)
    requires code < 128
    ensures CharacterOf(shift, code) == Typed(shift, code)
  {
    hide Typed;
    if code < 58 {
      RowsJoin(NORMAL_DIGITS, NORMAL_TOP, NORMAL_HOME, NORMAL_BOTTOM, code);
      RowsJoin(SHIFTED_DIGITS, SHIFTED_TOP, SHIFTED_HOME, SHIFTED_BOTTOM, code);
      if code < 16 {
        DigitRow(shift, code);
      } else if code < 30 {
        TopRow(shift, code - 16);
      } else if code < 44 {
        HomeRow(shift, code - 30);
      } else {
        BottomRow(shift, code - 44);
      }
    } else {
      NothingTyped(shift, code);
    }
  }

  lemma NothingTyped(shift: bool, code: Byte)
    requires code >= 58
    ensures Typed(shift, code) == 0
  {
  }

  // Letter keys type a lower-case letter, or its capital with shift down.
  lemma LettersShift(code: Byte)
    requires LetterOf(code) != 0
    ensures 97 <= Typed(false, code) <= 122 && Typed(true, code) == Typed(false, code) - 32
  {
  }

  /** The last of the shift codes among the keys was a press. */
  predicate ShiftHeld(events: seq<Event>)
  {
    if events == [] then false
    else
      match events[|events| - 1]
      case Step => ShiftHeld(events[..|events| - 1])
      case Key(code) =>
        if code == 0x2a || code == 0x36 then true
        else if code == 0xaa || code == 0xb6 then false
        else ShiftHeld(events[..|events| - 1])
  }

  lemma {:induction false} RunSnoc(h: History, events: seq<Event>, e: Event)
    requires WellFormed(h.queue)
    ensures Run(h, events + [e]) == Next(Run(h, events), e)
    decreases |events|
  {
    hide Next;
    if events == [] {
      assert [] + [e] == [e] && [e][1..] == [];
    } else {
      NextWellFormed(h, events[0]);
      assert (events + [e])[0] == events[0] && (events + [e])[1..] == events[1..] + [e];
      RunSnoc(Next(h, events[0]), events[1..], e);
    }
  }

  lemma NextWellFormed(h: History, e: Event)
    requires WellFormed(h.queue)
    ensures WellFormed(Next(h, e).queue)
  {
  }

  // Shift is down exactly when the last shift code was a press.
  lemma {:induction false} ShiftIsLast(ring: seq<Byte>, events: seq<Event>)
    requires |ring| == 256
    ensures Run(Start(ring), events).queue.shift <==> ShiftHeld(events)
  {
    hide CharacterOf, Succ;
    if events != [] {
      var front, last := events[..|events| - 1], events[|events| - 1];
      ShiftIsLast(ring, front);
      assert events == front + [last];
      RunSnoc(Start(ring), front, last);
    }
  }

  // Whatever came before, a key appends exactly the character it types under
  // the shift state, or nothing: if it is a shift code, a release or a key
  // without a character, or if 255 characters are unread.
  lemma KeysType(ring: seq<Byte>, events: seq<Event>, code: Byte)
    requires |ring| == 256
    ensures var h := Run(Start(ring), events);
            var h' := Run(Start(ring), events + [Key(code)]);
            var character := Typed(ShiftHeld(events), code);
            && h'.returned == h.returned
            && if code >= 128 || code == 0x2a || code == 0x36 || character == 0 || |h.accepted| - |h.returned| == 255
               then h'.accepted == h.accepted
               else 0 < character < 256 && h'.accepted == h.accepted + [character]
  {
    hide CharacterOf, Typed, Succ;
    RunKeeps(Start(ring), events);
    RunSnoc(Start(ring), events, Key(code));
    ShiftIsLast(ring, events);
    var h := Run(Start(ring), events);
    FullRing(|h.returned|, |h.accepted|);
    if code < 128 {
      CharacterIsTyped(h.queue.shift, code);
    }
  }

  // ---- The keyboard object ----

  class Device {
    const queue: array<Byte>
    var queueRead: Byte
    var queueWrite: Byte
    var shiftDown: bool

    ghost predicate Valid()
      reads this
    {
      queue.Length == QUEUE_SIZE
    }

    ghost function State(): Queue
      reads this, queue
    {
      Queue(queue[..], queueRead, queueWrite, shiftDown, Idle)
    }

    constructor ()
      ensures Valid() && fresh(queue) && State() == Start(queue[..]).queue
    {
      queue := new Byte[QUEUE_SIZE](i => 0);
      queueRead, queueWrite, shiftDown := 0, 0, false;
    }

    method HandleInterrupt(scancode: Byte)
      requires Valid()
      modifies this, queue
      ensures Valid() && State() == Interrupt(old(State()), scancode).0
    {
      if scancode == 0x2a || scancode == 0x36 {
        shiftDown := true;
        return;
      }
      if scancode == 0xaa || scancode == 0xb6 {
        shiftDown := false;
        return;
      }
      if scancode >= 128 {
        return;
      }
      var character := CharacterOf(shiftDown, scancode);
      if character == 0 {
        return;
      }
      var next := (queueWrite + 1) % QUEUE_SIZE;
      if next == queueRead {
        return;
      }
      queue[queueWrite] := character;
      queueWrite := next;
    }

    // A call of the reader with no interrupt inside it is its steps in a row.
    method Read() returns (character: Option<Byte>)
      requires Valid()
      modifies this`queueRead
      ensures Valid()
      ensures var compared := ReaderStep(ReaderStep(old(State())).0).0;
              if compared.reader == Idle then character == None && State() == compared
              else (State(), character) == ReaderStep(ReaderStep(compared).0)
    {
      if queueRead == queueWrite {
        return None;
      }
      character := Some(queue[queueRead]);
      queueRead := (queueRead + 1) % QUEUE_SIZE;
    }
  }
}
