/**
 The keyboard driver: scan codes become characters in a ring buffer that the
 interrupt handler fills and keyboard_getchar empties.

 The handler runs with interrupts off, so it is one step.  The reader can be
 interrupted between any two accesses to the volatile indexes and buffer, so
 each access is a step of its own.
 */
module Keyboard {
  import opened Machine

  const KEYBOARD_BUFFER_SIZE: nat := 128

  /** Characters without shift, by set 1 scan code; '\0' where the table has none. */
  function Plain(code: int): char {
    if 0x02 <= code <= 0x0D then "1234567890-="[code - 0x02]
    else if 0x10 <= code <= 0x19 then "qwertyuiop"[code - 0x10]
    else if 0x1E <= code <= 0x29 then "asdfghjkl;'`"[code - 0x1E]
    else if 0x2C <= code <= 0x35 then "zxcvbnm,./"[code - 0x2C]
    else if code == 0x2B then '\\'
    else if code == 0x0E then '\U{0008}'
    else if code == 0x1C then '\n'
    else if code == 0x39 then ' '
    else '\0'
  }

  /** Characters with shift. */
  function Shifted(code: int): char {
    if 0x02 <= code <= 0x0D then "!@#$%^&*()_+"[code - 0x02]
    else if 0x10 <= code <= 0x1B then "QWERTYUIOP{}"[code - 0x10]
    else if 0x1E <= code <= 0x29 then "ASDFGHJKL:\"~"[code - 0x1E]
    else if 0x2C <= code <= 0x35 then "ZXCVBNM<>?"[code - 0x2C]
    else if code == 0x2B then '|'
    else '\0'
  }

  /** The driver's static state. */
  datatype Keys = Keys(
    buffer: seq<char>, head: nat, tail: nat, leftShift: bool, rightShift: bool, capsLock: bool)

  ghost predicate KeysOk(k: Keys) {
    |k.buffer| == KEYBOARD_BUFFER_SIZE && k.head < KEYBOARD_BUFFER_SIZE && k.tail < KEYBOARD_BUFFER_SIZE
  }

  /** Characters in the buffer, oldest first. */
  ghost function Pending(k: Keys): (s: seq<char>)
    requires KeysOk(k)
    ensures |s| == (if k.head >= k.tail then k.head - k.tail else k.head + KEYBOARD_BUFFER_SIZE - k.tail)
    ensures |s| <= KEYBOARD_BUFFER_SIZE - 1
  {
    if k.head >= k.tail then k.buffer[k.tail..k.head] else k.buffer[k.tail..] + k.buffer[..k.head]
  }

  function Next(i: nat): nat {
    (i + 1) % KEYBOARD_BUFFER_SIZE
  }

  // ------------------------------------------------------------ producer

  function Put(k: Keys, c: char): Keys
    requires |k.buffer| == KEYBOARD_BUFFER_SIZE && k.head < KEYBOARD_BUFFER_SIZE
  {
    if Next(k.head) == k.tail then k else k.(buffer := k.buffer[k.head := c], head := Next(k.head))
  }

  /** A character is appended, unless 127 are pending, and then nothing changes. */
  lemma PutAppends(k: Keys, c: char)
    requires KeysOk(k)
    ensures KeysOk(Put(k, c)) && Put(k, c).tail == k.tail
    ensures |Pending(k)| == KEYBOARD_BUFFER_SIZE - 1 <==> Put(k, c) == k && Next(k.head) == k.tail
    ensures Pending(Put(k, c)) == if |Pending(k)| < KEYBOARD_BUFFER_SIZE - 1 then Pending(k) + [c] else Pending(k)
  {
    if Next(k.head) != k.tail {
      var k' := Put(k, c);
      if k.head == KEYBOARD_BUFFER_SIZE - 1 {
        assert k'.head == 0;
        assert k'.buffer[k.tail..] == k.buffer[k.tail..k.head] + [c];
        assert Pending(k') == k'.buffer[k.tail..] + [];
      } else if k.head >= k.tail {
        assert k'.buffer[k.tail..k'.head] == k.buffer[k.tail..k.head] + [c];
      } else {
        assert k'.buffer[k.tail..] == k.buffer[k.tail..];
        assert k'.buffer[..k'.head] == k.buffer[..k.head] + [c];
      }
    }
  }

  predicate IsLetterKey(scancode: Byte) {
    'a' <= Plain(scancode) <= 'z'
  }

  /** Whether the upper table applies: for letters caps lock inverts shift, other keys ignore it. */
  predicate UpperLevel(k: Keys, scancode: Byte) {
    var shift := k.leftShift || k.rightShift;
    if IsLetterKey(scancode) then shift != k.capsLock else shift
  }

  /** The character a key stands for: its upper table entry where that level applies and has one, or its lower one. */
  function KeyCharacter(k: Keys, scancode: Byte): char {
    if scancode >= 0x80 then '\0'
    else if UpperLevel(k, scancode) && Shifted(scancode) != '\0' then Shifted(scancode)
    else Plain(scancode)
  }

  /** The two tables agree on letters, which is why arithmetic on the lower one will do. */
  lemma LettersAgree(scancode: Byte)
    requires IsLetterKey(scancode)
    ensures Shifted(scancode) == Plain(scancode) - 'a' + 'A'
  {
  }

  /**
   What a key gives: nothing for a release; a letter in upper case exactly when
   shift differs from caps lock; the same with and without caps lock for every
   other key; and no character exactly when no table maps the key at its level.
   */
  lemma KeyMeaning(k: Keys, scancode: Byte)
    ensures scancode >= 0x80 ==> KeyCharacter(k, scancode) == '\0'
    ensures scancode < 0x80 && IsLetterKey(scancode) ==>
              var shift := k.leftShift || k.rightShift;
              if shift != k.capsLock then 'A' <= KeyCharacter(k, scancode) <= 'Z'
              else 'a' <= KeyCharacter(k, scancode) <= 'z'
    ensures !IsLetterKey(scancode) ==>
              KeyCharacter(k, scancode) == KeyCharacter(k.(capsLock := !k.capsLock), scancode)
    ensures scancode < 0x80 ==>
              (KeyCharacter(k, scancode) == '\0' <==>
                 Plain(scancode) == '\0' && !((k.leftShift || k.rightShift) && Shifted(scancode) != '\0'))
  {
    if IsLetterKey(scancode) {
      LettersAgree(scancode);
    }
    hide Plain, Shifted;
  }

  /** What the keys of a US keyboard print, without and with shift; '\0' for a level without a character. */
  function UsKey(code: int): (char, char) {
    match code
    case 0x02 => ('1', '!') case 0x03 => ('2', '@') case 0x04 => ('3', '#') case 0x05 => ('4', '$')
    case 0x06 => ('5', '%') case 0x07 => ('6', '^') case 0x08 => ('7', '&') case 0x09 => ('8', '*')
    case 0x0A => ('9', '(') case 0x0B => ('0', ')') case 0x0C => ('-', '_') case 0x0D => ('=', '+')
    case 0x10 => ('q', 'Q') case 0x11 => ('w', 'W') case 0x12 => ('e', 'E') case 0x13 => ('r', 'R')
    case 0x14 => ('t', 'T') case 0x15 => ('y', 'Y') case 0x16 => ('u', 'U') case 0x17 => ('i', 'I')
    case 0x18 => ('o', 'O') case 0x19 => ('p', 'P') case 0x1E => ('a', 'A') case 0x1F => ('s', 'S')
    case 0x20 => ('d', 'D') case 0x21 => ('f', 'F') case 0x22 => ('g', 'G') case 0x23 => ('h', 'H')
    case 0x24 => ('j', 'J') case 0x25 => ('k', 'K') case 0x26 => ('l', 'L') case 0x27 => (';', ':')
    case 0x28 => ('\'', '\"') case 0x29 => ('`', '~') case 0x2B => ('\\', '|') case 0x2C => ('z', 'Z')
    case 0x2D => ('x', 'X') case 0x2E => ('c', 'C') case 0x2F => ('v', 'V') case 0x30 => ('b', 'B')
    case 0x31 => ('n', 'N') case 0x32 => ('m', 'M') case 0x33 => (',', '<') case 0x34 => ('.', '>')
    case 0x35 => ('/', '?')
    case 0x1A => ('\0', '{') case 0x1B => ('\0', '}')
    case 0x1C => ('\n', '\0') case 0x39 => (' ', '\0') case 0x0E => ('\U{0008}', '\0')
    case _ => ('\0', '\0')
  }

  /** The tables are those of a US keyboard, which lack the two brackets. */
  lemma TablesAreUs(code: int)
    ensures UsKey(code) == (Plain(code), Shifted(code))
  {
    if 0x02 <= code <= 0x0D {
      DigitRow(code);
    } else if 0x10 <= code <= 0x1B {
      TopRow(code);
    } else if 0x1E <= code <= 0x29 {
      HomeRow(code);
    } else if 0x2B <= code <= 0x35 {
      BottomRow(code);
    }
  }

  lemma DigitRow(code: int)
    requires 0x02 <= code <= 0x0D
    ensures UsKey(code) == (Plain(code), Shifted(code))
  {
  }

  lemma TopRow(code: int)
    requires 0x10 <= code <= 0x1B
    ensures UsKey(code) == (Plain(code), Shifted(code))
  {
  }

  lemma HomeRow(code: int)
    requires 0x1E <= code <= 0x29
    ensures UsKey(code) == (Plain(code), Shifted(code))
  {
  }

  lemma BottomRow(code: int)
    requires 0x2B <= code <= 0x35
    ensures UsKey(code) == (Plain(code), Shifted(code))
  {
  }

  /**
   What pressing a key types: the character printed on it, for letters the upper
   one exactly when shift differs from caps lock, for others the upper one with
   shift if it has one.
   */
  lemma KeyTypes(k: Keys, scancode: Byte)
    requires scancode < 0x80
    ensures var (lower, upper) := UsKey(scancode);
            var shift := k.leftShift || k.rightShift;
            KeyCharacter(k, scancode)
            == if 'a' <= lower <= 'z' then (if shift != k.capsLock then upper else lower)
               else if shift && upper != '\0' then upper else lower
  {
    TablesAreUs(scancode);
    if IsLetterKey(scancode) {
      LettersAgree(scancode);
    }
    hide Plain, Shifted, UsKey;
  }

  /** The modifiers after a scan code. */
  function Modified(k: Keys, scancode: Byte): Keys {
    var code := scancode % 0x80;
    if code == 0x2A then k.(leftShift := scancode < 0x80)
    else if code == 0x36 then k.(rightShift := scancode < 0x80)
    else if code == 0x3A then (if scancode < 0x80 then k.(capsLock := !k.capsLock) else k)
    else k
  }

  predicate IsModifier(scancode: Byte) {
    scancode % 0x80 in {0x2A, 0x36, 0x3A}
  }

  /** The character a scan code types, '\0' for releases, modifiers and unmapped keys. */
  function Typed(k: Keys, scancode: Byte): char {
    if IsModifier(scancode) || scancode >= 0x80 then '\0' else KeyCharacter(k, scancode)
  }

  /** keyboard_irq */
  function Irq(k: Keys, scancode: Byte): Keys
    requires |k.buffer| == KEYBOARD_BUFFER_SIZE && k.head < KEYBOARD_BUFFER_SIZE
  {
    if IsModifier(scancode) then Modified(k, scancode)
    else if Typed(k, scancode) != '\0' then Put(k, Typed(k, scancode))
    else k
  }

  lemma IrqKeeps(k: Keys, scancode: Byte)
    requires KeysOk(k)
    ensures var k', c := Irq(k, scancode), Typed(k, scancode);
            && KeysOk(k') && k'.tail == k.tail
            && Pending(k')
              == (if c != '\0' && |Pending(k)| < KEYBOARD_BUFFER_SIZE - 1 then Pending(k) + [c] else Pending(k))
  {
    if !IsModifier(scancode) && Typed(k, scancode) != '\0' {
      PutAppends(k, Typed(k, scancode));
    }
  }

  // ------------------------------------------------------------ consumer

  /** Where an interrupted keyboard_getchar is, between two accesses. */
  datatype Reader =
    | Idle
    | HeadRead(head: nat)
    | TailRead(tail: nat)
    | Fetch
    | FetchAt(tail: nat)
    | Fetched(c: char)
    | Advance(c: char, tail: nat)

  /**
   The driver, the reader, and the history: characters typed, accepted into
   the buffer and delivered, the number dropped, and for the call in progress
   whether the buffer was empty when its head was read.
   */
  datatype System = System(
    keys: Keys, reader: Reader, typed: seq<char>, accepted: seq<char>, delivered: seq<char>, dropped: nat,
    sawEmpty: bool, results: seq<Result>)

  /** A finished call: what it returned and whether it had seen the buffer empty. */
  datatype Result = Result(c: char, sawEmpty: bool)

  /** One interrupt, or one access by the reader; a fresh call reads either index first. */
  datatype Event = Interrupt(scancode: Byte) | Access(headFirst: bool)

  function Interrupted(s: System, scancode: Byte): System
    requires |s.keys.buffer| == KEYBOARD_BUFFER_SIZE && s.keys.head < KEYBOARD_BUFFER_SIZE
  {
    var c, k := Typed(s.keys, scancode), Irq(s.keys, scancode);
    if c == '\0' then s.(keys := k)
    else if k.head == s.keys.head then s.(keys := k, typed := s.typed + [c], dropped := s.dropped + 1)
    else s.(keys := k, typed := s.typed + [c], accepted := s.accepted + [c])
  }

  /** The two indexes have been compared. */
  function Compared(s: System, head: nat, tail: nat, sawEmpty: bool): System {
    if head == tail then s.(reader := Idle, sawEmpty := false, results := s.results + [Result('\0', sawEmpty)])
    else s.(reader := Fetch)
  }

  function Accessed(s: System, headFirst: bool): System {
    var k := s.keys;
    var empty := k.head == k.tail;
    match s.reader
    case Idle => if headFirst then s.(reader := HeadRead(k.head), sawEmpty := empty) else s.(reader := TailRead(k.tail))
    case HeadRead(head) => Compared(s, head, k.tail, s.sawEmpty)
    case TailRead(tail) => Compared(s.(sawEmpty := empty), k.head, tail, empty)
    case Fetch => s.(reader := FetchAt(k.tail))
    case FetchAt(tail) => if tail < |k.buffer| then s.(reader := Fetched(k.buffer[tail])) else s
    case Fetched(c) => s.(reader := Advance(c, k.tail))
    case Advance(c, tail) =>
      s.(keys := k.(tail := Next(tail)), reader := Idle, delivered := s.delivered + [c], sawEmpty := false,
         results := s.results + [Result(c, s.sawEmpty)])
  }

  /** The returned characters that are not the empty marker. */
  function Returned(results: seq<Result>): seq<char> {
    if results == [] then []
    else
      var last := results[|results| - 1];
      Returned(results[..|results| - 1]) + if last.c == '\0' then [] else [last.c]
  }

  /** a is left of b when some elements of b are dropped. */
  predicate IsSubsequence(a: seq<char>, b: seq<char>) {
    if a == [] then true
    else if b == [] then false
    else
      var front := b[..|b| - 1];
      (a[|a| - 1] == b[|b| - 1] && IsSubsequence(a[..|a| - 1], front)) || IsSubsequence(a, front)
  }

  /** Appending to both, or to the longer alone, keeps a subsequence. */
  lemma SubsequenceMore(a: seq<char>, b: seq<char>, c: char)
    requires IsSubsequence(a, b)
    ensures IsSubsequence(a + [c], b + [c]) && IsSubsequence(a, b + [c])
  {
    assert (a + [c])[..|a|] == a && (b + [c])[..|b|] == b;
  }

  ghost predicate ReaderOk(s: System)
    requires KeysOk(s.keys)
  {
    var p := Pending(s.keys);
    match s.reader
    case Idle => true
    case HeadRead(head) => (head == s.keys.tail <==> s.sawEmpty) && (head != s.keys.tail ==> p != [])
    case TailRead(tail) => tail == s.keys.tail
    case Fetch => p != [] && !s.sawEmpty
    case FetchAt(tail) => p != [] && !s.sawEmpty && tail == s.keys.tail
    case Fetched(c) => p != [] && !s.sawEmpty && c == p[0]
    case Advance(c, tail) => p != [] && !s.sawEmpty && c == p[0] && tail == s.keys.tail
  }

  ghost predicate Inv(s: System) {
    && KeysOk(s.keys) && ReaderOk(s)
    && s.accepted == s.delivered + Pending(s.keys)
    && |s.typed| == |s.accepted| + s.dropped && (s.dropped == 0 ==> s.accepted == s.typed)
    && IsSubsequence(s.accepted, s.typed)
    && (forall i :: 0 <= i < |s.accepted| ==> s.accepted[i] != '\0')
    && s.delivered == Returned(s.results)
    && (forall i :: 0 <= i < |s.results| ==> (s.results[i].c == '\0' <==> s.results[i].sawEmpty))
  }

  /** What an interrupt does to the indexes and the pending characters. */
  lemma IrqEffect(k: Keys, scancode: Byte)
    requires KeysOk(k)
    ensures var k', c := Irq(k, scancode), Typed(k, scancode);
            && KeysOk(k') && k'.tail == k.tail
            && if c == '\0' then k'.head == k.head && Pending(k') == Pending(k)
               else if |Pending(k)| < KEYBOARD_BUFFER_SIZE - 1 then k'.head != k.head && Pending(k') == Pending(k) + [c]
               else k' == k
  {
    hide KeyCharacter, Pending;
    IrqKeeps(k, scancode);
    if Typed(k, scancode) != '\0' {
      PutAppends(k, Typed(k, scancode));
      NextIs(k.head);
    }
  }

  /** An interrupt keeps the invariant; it drops a character only when 127 are pending. */
  lemma InterruptKeeps(s: System, scancode: Byte)
    requires Inv(s)
    ensures Inv(Interrupted(s, scancode))
    ensures Interrupted(s, scancode).dropped > s.dropped ==> |Pending(s.keys)| == KEYBOARD_BUFFER_SIZE - 1
    ensures Interrupted(s, scancode).delivered == s.delivered
  {
    hide IsSubsequence, Irq, Typed, Pending, Returned, ReaderOk, KeysOk;
    KeysShape(s.keys);
    var s', c := Interrupted(s, scancode), Typed(s.keys, scancode);
    IrqEffect(s.keys, scancode);
    ReaderStill(s, s', c);
    if c == '\0' || |Pending(s.keys)| == KEYBOARD_BUFFER_SIZE - 1 {
      NothingAccepted(s, s', c);
    } else {
      OneAccepted(s, s', c);
    }
  }

  lemma NothingAccepted(s: System, s': System, c: char)
    requires Inv(s) && KeysOk(s'.keys) && ReaderOk(s') && Pending(s'.keys) == Pending(s.keys)
    requires s' == s.(keys := s'.keys) || s' == s.(keys := s'.keys, typed := s.typed + [c], dropped := s.dropped + 1)
    ensures Inv(s')
  {
    hide IsSubsequence, Pending, Returned, ReaderOk, KeysOk;
    SubsequenceMore(s.accepted, s.typed, c);
  }

  lemma OneAccepted(s: System, s': System, c: char)
    requires Inv(s) && KeysOk(s'.keys) && ReaderOk(s') && Pending(s'.keys) == Pending(s.keys) + [c] && c != '\0'
    requires s' == s.(keys := s'.keys, typed := s.typed + [c], accepted := s.accepted + [c])
    ensures Inv(s')
  {
    hide IsSubsequence, Pending, Returned, ReaderOk, KeysOk;
    SubsequenceMore(s.accepted, s.typed, c);
    assert s.delivered + (Pending(s.keys) + [c]) == s.accepted + [c];
  }

  lemma KeysShape(k: Keys)
    requires KeysOk(k)
    ensures |k.buffer| == KEYBOARD_BUFFER_SIZE && k.head < KEYBOARD_BUFFER_SIZE
  {
  }

  /** A reader keeps what it knows when characters are only appended. */
  lemma ReaderStill(s: System, s': System, c: char)
    requires KeysOk(s.keys) && KeysOk(s'.keys) && ReaderOk(s) && s'.reader == s.reader && s'.sawEmpty == s.sawEmpty
    requires s'.keys.tail == s.keys.tail
    requires Pending(s'.keys) == Pending(s.keys) || Pending(s'.keys) == Pending(s.keys) + [c]
    ensures ReaderOk(s')
  {
    hide Pending, KeysOk;
  }

  lemma ReturnedMore(results: seq<Result>, r: Result)
    ensures Returned(results + [r]) == Returned(results) + if r.c == '\0' then [] else [r.c]
  {
    assert (results + [r])[..|results|] == results;
  }

  lemma NextIs(i: nat)
    requires i < KEYBOARD_BUFFER_SIZE
    ensures Next(i) == if i == KEYBOARD_BUFFER_SIZE - 1 then 0 else i + 1
  {
  }

  /** Moving the tail on drops the oldest pending character. */
  lemma AdvanceTakesFirst(k: Keys)
    requires KeysOk(k) && Pending(k) != []
    ensures var k' := k.(tail := Next(k.tail)); KeysOk(k') && Pending(k') == Pending(k)[1..]
    ensures Pending(k)[0] == k.buffer[k.tail]
  {
    NextIs(k.tail);
    hide Next;
    var b, t := k.buffer, k.tail;
    if k.head > t {
      assert b[t..k.head] == [b[t]] + b[t + 1..k.head];
    } else if t == KEYBOARD_BUFFER_SIZE - 1 {
      assert b[t..] == [b[t]];
      assert ([b[t]] + b[..k.head])[1..] == b[..k.head] == b[0..k.head];
    } else {
      assert b[t..] == [b[t]] + b[t + 1..];
      assert ([b[t]] + b[t + 1..] + b[..k.head])[1..] == b[t + 1..] + b[..k.head];
    }
  }

  lemma EmptyPending(k: Keys)
    requires KeysOk(k)
    ensures Pending(k) == [] <==> k.head == k.tail
  {
  }

  /** The access that moves the tail delivers the oldest pending character. */
  lemma AdvanceKeeps(s: System, headFirst: bool)
    requires Inv(s) && s.reader.Advance?
    ensures Inv(Accessed(s, headFirst))
  {
    hide IsSubsequence, Pending, Returned, Next;
    var k, s', c := s.keys, Accessed(s, headFirst), s.reader.c;
    AdvanceTakesFirst(k);
    assert s'.keys == k.(tail := Next(k.tail));
    ReturnedMore(s.results, Result(c, s.sawEmpty));
    assert c == s.accepted[|s.delivered|];
    assert s.delivered + [c] + Pending(k)[1..] == s.accepted;
  }

  /** Comparing the indexes ends the call on an empty buffer, or finds a character pending. */
  lemma ComparingKeeps(s: System, headFirst: bool)
    requires Inv(s) && (s.reader.HeadRead? || s.reader.TailRead?)
    ensures Inv(Accessed(s, headFirst))
  {
    hide IsSubsequence, Pending, Returned, Next;
    EmptyPending(s.keys);
    ReturnedMore(s.results, Result('\0', s.sawEmpty));
    ReturnedMore(s.results, Result('\0', s.keys.head == s.keys.tail));
  }

  lemma AccessKeeps(s: System, headFirst: bool)
    requires Inv(s)
    ensures Inv(Accessed(s, headFirst))
  {
    hide IsSubsequence, Pending, Returned, Next;
    if s.reader.Advance? {
      AdvanceKeeps(s, headFirst);
    } else if s.reader.HeadRead? || s.reader.TailRead? {
      ComparingKeeps(s, headFirst);
    } else {
      EmptyPending(s.keys);
      if Pending(s.keys) != [] {
        AdvanceTakesFirst(s.keys);
      }
    }
  }

  ghost function Run(s: System, events: seq<Event>): (r: System)
    requires Inv(s)
    ensures Inv(r)
    decreases |events|
  {
    if events == [] then s
    else
      match events[0]
      case Interrupt(scancode) =>
        InterruptKeeps(s, scancode);
        Run(Interrupted(s, scancode), events[1..])
      case Access(headFirst) =>
        AccessKeeps(s, headFirst);
        Run(Accessed(s, headFirst), events[1..])
  }

  /** The driver as init_keyboard leaves it, over any buffer contents. */
  function Start(buffer: seq<char>): System {
    System(Keys(buffer, 0, 0, false, false, false), Idle, [], [], [], 0, false, [])
  }

  /**
   However interrupts and accesses interleave: the characters delivered are a
   prefix of those accepted, the rest being exactly what is pending, at most
   127; the accepted are those typed with the dropped ones left out, in order,
   and without a drop all that was typed; and a call returns 0 exactly when the buffer was empty when it read the head.
   */
  lemma DeliveredInOrder(buffer: seq<char>, events: seq<Event>)
    requires |buffer| == KEYBOARD_BUFFER_SIZE
    ensures Inv(Start(buffer))
    ensures var s := Run(Start(buffer), events);
            && s.delivered <= s.accepted && s.accepted == s.delivered + Pending(s.keys)
            && |Pending(s.keys)| <= 127
            && |s.typed| == |s.accepted| + s.dropped && (s.dropped == 0 ==> s.accepted == s.typed)
            && IsSubsequence(s.accepted, s.typed)
            && s.delivered == Returned(s.results)
            && forall i :: 0 <= i < |s.results| ==> (s.results[i].c == '\0' <==> s.results[i].sawEmpty)
  {
  }

  // ------------------------------------------------- an undisturbed call

  /** keyboard_getchar with no interrupt inside. */
  function GetChar(k: Keys): (r: (Keys, char))
    requires |k.buffer| == KEYBOARD_BUFFER_SIZE && k.tail < KEYBOARD_BUFFER_SIZE
  {
    if k.head == k.tail then (k, '\0') else (k.(tail := Next(k.tail)), k.buffer[k.tail])
  }

  /** The oldest pending character is never the empty marker. */
  lemma FirstPending(s: System)
    requires Inv(s)
    ensures KeysOk(s.keys) && (s.keys.head != s.keys.tail ==> s.keys.buffer[s.keys.tail] != '\0')
  {
    hide IsSubsequence, Pending, Returned;
    EmptyPending(s.keys);
    if s.keys.head != s.keys.tail {
      AdvanceTakesFirst(s.keys);
      assert s.accepted[|s.delivered|] == Pending(s.keys)[0];
    }
  }

  /** Six accesses in a row, or two on an empty buffer, are one undisturbed call. */
  lemma UndisturbedCall(s: System, headFirst: bool)
    requires Inv(s) && s.reader == Idle
    ensures KeysOk(s.keys)
    ensures var (k, c) := GetChar(s.keys);
            var steps := if c == '\0' then 2 else 6;
            var r := Run(s, seq(steps, _ => Access(headFirst)));
            r.keys == k && r.reader == Idle && r.results == s.results + [Result(c, c == '\0')]
  {
    hide Inv, Run, Next;
    FirstPending(s);
    var a := Access(headFirst);
    var s1 := Accessed(s, headFirst);
    AccessKeeps(s, headFirst);
    var s2 := Accessed(s1, headFirst);
    AccessKeeps(s1, headFirst);
    RunTwo(s, a, 0);
    if GetChar(s.keys).1 != '\0' {
      RunTwo(s, a, 4);
      FetchingCall(s2, headFirst);
    }
  }

  /** The four accesses that fetch a character once the buffer is known not to be empty. */
  lemma FetchingCall(s: System, headFirst: bool)
    requires Inv(s) && s.reader == Fetch && KeysOk(s.keys)
    ensures var r := Run(s, seq(4, _ => Access(headFirst)));
            && r.keys == s.keys.(tail := Next(s.keys.tail)) && r.reader == Idle
            && r.results == s.results + [Result(s.keys.buffer[s.keys.tail], false)]
  {
    hide Inv, Run, Next;
    FetchSawCharacter(s);
    var s1 := Accessed(s, headFirst);
    AccessKeeps(s, headFirst);
    var s2 := Accessed(s1, headFirst);
    AccessKeeps(s1, headFirst);
    var s3 := Accessed(s2, headFirst);
    AccessKeeps(s2, headFirst);
    AccessKeeps(s3, headFirst);
    var a := Access(headFirst);
    RunTwo(s, a, 2);
    RunTwo(s2, a, 0);
  }

  lemma FetchSawCharacter(s: System)
    requires Inv(s) && s.reader == Fetch
    ensures !s.sawEmpty
  {
  }

  /** Two accesses and then n more. */
  lemma RunTwo(s: System, a: Event, n: nat)
    requires Inv(s) && a.Access? && Inv(Accessed(s, a.headFirst))
    requires Inv(Accessed(Accessed(s, a.headFirst), a.headFirst))
    ensures Run(s, seq(n + 2, _ => a)) == Run(Accessed(Accessed(s, a.headFirst), a.headFirst), seq(n, _ => a))
    ensures n == 0 ==> Run(s, seq(n + 2, _ => a)) == Accessed(Accessed(s, a.headFirst), a.headFirst)
  {
    hide Inv, Accessed, Run;
    RunMore(s, a, n + 1);
    RunMore(Accessed(s, a.headFirst), a, n);
  }

  lemma RunMore(s: System, a: Event, n: nat)
    requires Inv(s) && a.Access? && Inv(Accessed(s, a.headFirst))
    ensures Run(s, seq(n + 1, _ => a)) == Run(Accessed(s, a.headFirst), seq(n, _ => a))
    ensures n == 0 ==> Run(s, seq(n + 1, _ => a)) == Accessed(s, a.headFirst)
  {
    hide Inv, Accessed;
    assert seq(n + 1, _ => a)[1..] == seq(n, _ => a);
  }

  // ------------------------------------------------------------ modifiers

  /** The driver state after a list of scan codes with no reader. */
  function Pressed(k: Keys, codes: seq<Byte>): (r: Keys)
    requires |k.buffer| == KEYBOARD_BUFFER_SIZE && k.head < KEYBOARD_BUFFER_SIZE
    ensures |r.buffer| == KEYBOARD_BUFFER_SIZE && r.head < KEYBOARD_BUFFER_SIZE
  {
    if codes == [] then k else Irq(Pressed(k, codes[..|codes| - 1]), codes[|codes| - 1])
  }

  /** Whether a key's last event in codes was a press; before given when it has none. */
  function HeldDown(codes: seq<Byte>, key: Byte, before: bool): bool {
    if codes == [] then before
    else
      var last := codes[|codes| - 1];
      if last % 0x80 == key then last < 0x80 else HeldDown(codes[..|codes| - 1], key, before)
  }

  /** How often a key is pressed in codes. */
  function Presses(codes: seq<Byte>, key: Byte): nat {
    if codes == [] then 0
    else Presses(codes[..|codes| - 1], key) + if codes[|codes| - 1] == key then 1 else 0
  }

  /** Shift state is whether the key is held; caps lock is the parity of its presses. */
  lemma {:induction false} ModifiersFollowKeys(k: Keys, codes: seq<Byte>)
    requires |k.buffer| == KEYBOARD_BUFFER_SIZE && k.head < KEYBOARD_BUFFER_SIZE
    ensures var r := Pressed(k, codes);
            && r.leftShift == HeldDown(codes, 0x2A, k.leftShift)
            && r.rightShift == HeldDown(codes, 0x36, k.rightShift)
            && r.capsLock == (k.capsLock != (Presses(codes, 0x3A) % 2 == 1))
  {
    hide Typed;
    if codes != [] {
      ModifiersFollowKeys(k, codes[..|codes| - 1]);
    }
  }

  // ------------------------------------------------------------ the class

  class Driver {
    const buffer: array<char>
    var head: nat
    var tail: nat
    var leftShift: bool
    var rightShift: bool
    var capsLock: bool

    constructor ()
      ensures fresh(buffer) && Valid() && Pending(View()) == []
    {
      buffer := new char[KEYBOARD_BUFFER_SIZE](_ => '\0');
      head, tail := 0, 0;
      leftShift, rightShift, capsLock := false, false, false;
    }

    ghost predicate Valid()
      reads this
    {
      buffer.Length == KEYBOARD_BUFFER_SIZE && head < KEYBOARD_BUFFER_SIZE && tail < KEYBOARD_BUFFER_SIZE
    }

    ghost function View(): (k: Keys)
      requires Valid()
      reads this, buffer
      ensures KeysOk(k)
    {
      Keys(buffer[..], head, tail, leftShift, rightShift, capsLock)
    }

    /** init_keyboard, without the interrupt mask. */
    method Init()
      requires Valid()
      modifies this`leftShift, this`rightShift, this`capsLock
      ensures Valid() && View() == old(View()).(leftShift := false, rightShift := false, capsLock := false)
    {
      leftShift, rightShift, capsLock := false, false, false;
    }

    method GetChar() returns (c: char)
      requires Valid()
      modifies this`tail
      ensures Valid()
      ensures var p := old(Pending(View()));
              if p == [] then c == '\0' && View() == old(View())
              else c == p[0] && Pending(View()) == p[1..] && View() == old(View()).(tail := tail)
    {
      if head == tail {
        return '\0';
      }
      AdvanceTakesFirst(View());
      c := buffer[tail];
      tail := (tail + 1) % KEYBOARD_BUFFER_SIZE;
    }

    method BufferPut(c: char)
      requires Valid()
      modifies this`head, buffer
      ensures Valid() && View() == Put(old(View()), c)
    {
      var next := (head + 1) % KEYBOARD_BUFFER_SIZE;
      if next == tail {
        return;
      }
      buffer[head] := c;
      head := next;
    }

    method ScancodeToAscii(scancode: Byte) returns (value: char)
      requires Valid()
      ensures value == KeyCharacter(View(), scancode)
    {
      hide Plain, Shifted;
      if IsLetterKey(scancode) {
        LettersAgree(scancode);
      }
      var upper := leftShift || rightShift;
      if scancode >= 0x80 {
        return '\0';
      }
      value := Plain(scancode);
      if 'a' <= value <= 'z' {
        if capsLock {
          upper := !upper;
        }
        if upper {
          value := value - 'a' + 'A';
        }
      } else if upper && Shifted(scancode % 0x80) != '\0' {
        value := Shifted(scancode % 0x80);
      }
    }

    method HandleIrq(scancode: Byte)
      requires Valid()
      modifies this`head, this`leftShift, this`rightShift, this`capsLock, buffer
      ensures Valid() && View() == Irq(old(View()), scancode)
    {
      hide KeyCharacter, Put;
      var code := scancode % 0x80;
      if code == 0x2A {
        leftShift := scancode < 0x80;
        return;
      }
      if code == 0x36 {
        rightShift := scancode < 0x80;
        return;
      }
      if code == 0x3A {
        if scancode < 0x80 {
          capsLock := !capsLock;
        }
        return;
      }
      if scancode < 0x80 {
        var c := ScancodeToAscii(code);
        if c != '\0' {
          BufferPut(c);
        }
      }
    }
  }
}
