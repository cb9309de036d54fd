/**
  The keyboard driver (`drivers/kbd_driver.c`): scancode decoding on the
  interrupt side and a 256-slot ring that a polling consumer empties.

  An interrupt may come between any two steps of the consumer. The consumer's
  test, read and index update are separate steps of a state machine; the class
  at the end shows that the driver's code takes these steps.
 */
module KeyboardRing {
  import opened Common

  const SIZE: nat := 256

  // --------------------------------------------------------------- decoding

  const LSHIFT: nat := 0x2A
  const RSHIFT: nat := 0x36

  /** `keyboard_map` and `keyboard_map_shift` side by side; codes without a key are 0 in both. */
  function KeyPair(code: nat): (char, char) {
    match code
    case 1 => ('\U{1b}', '\U{1b}') case 2 => ('1', '!') case 3 => ('2', '@') case 4 => ('3', '#') case 5 => ('4', '$')
    case 6 => ('5', '%') case 7 => ('6', '^') case 8 => ('7', '&') case 9 => ('8', '*') case 10 => ('9', '(')
    case 11 => ('0', ')') case 12 => ('[', '{') case 13 => (']', '}') case 14 => ('\U{8}', '\U{8}')
    case 15 => ('\t', '\t') case 16 => ('\'', '\"') case 17 => (',', '<') case 18 => ('.', '>') case 19 => ('p', 'P')
    case 20 => ('y', 'Y') case 21 => ('f', 'F') case 22 => ('g', 'G') case 23 => ('c', 'C') case 24 => ('r', 'R')
    case 25 => ('l', 'L') case 26 => ('/', '?') case 27 => ('=', '+') case 28 => ('\n', '\n') case 30 => ('a', 'A')
    case 31 => ('o', 'O') case 32 => ('e', 'E') case 33 => ('u', 'U') case 34 => ('i', 'I') case 35 => ('d', 'D')
    case 36 => ('h', 'H') case 37 => ('t', 'T') case 38 => ('n', 'N') case 39 => ('s', 'S') case 40 => ('-', '_')
    case 41 => ('`', '~') case 43 => ('\\', '|') case 44 => (';', ':') case 45 => ('q', 'Q') case 46 => ('j', 'J')
    case 47 => ('k', 'K') case 48 => ('x', 'X') case 49 => ('b', 'B') case 50 => ('m', 'M') case 51 => ('w', 'W')
    case 52 => ('v', 'V') case 53 => ('z', 'Z') case 55 => ('*', '*') case 57 => (' ', ' ') case 74 => ('-', '-')
    case 78 => ('+', '+')
    case _ => ('\0', '\0')
  }

  function Mapped(code: nat, shift: bool): int {
    (if shift then KeyPair(code).1 else KeyPair(code).0) as int
  }

  type Scancode = c: nat | c < 256

  function Special(code: nat): Option<int> {
    if code == 0x48 then Some(ARROW_UP) else if code == 0x50 then Some(ARROW_DOWN)
    else if code == 0x4B then Some(ARROW_LEFT) else if code == 0x4D then Some(ARROW_RIGHT)
    else if code == 0x47 then Some(KEY_HOME) else if code == 0x4F then Some(KEY_END)
    else if code == 0x49 then Some(KEY_PAGE_UP) else if code == 0x51 then Some(KEY_PAGE_DOWN)
    else if code == 0x53 then Some(KEY_DEL)
    else if code == 0x0E then Some(8) else if code == 0x1C then Some(10)
    else None
  }

  function ShiftAfter(code: Scancode, shift: bool): bool {
    if code == 0xAA || code == 0xB6 then false else if code == LSHIFT || code == RSHIFT then true else shift
  }

  /** The key code an interrupt offers to the ring, if any. */
  function Offered(code: Scancode, shift: bool): Option<int> {
    if code >= 0x80 || code == LSHIFT || code == RSHIFT then None
    else if Special(code).Some? then Special(code)
    else if Mapped(code, shift) != 0 then Some(Mapped(code, shift)) else None
  }

  /** A 7-bit character or one of the nine codes from 1000 on; never 0 and never EOF. */
  predicate IsKey(k: int) {
    1 <= k < 128 || ARROW_UP <= k <= KEY_DEL
  }

  /** Nothing else reaches the ring. */
  lemma OfferedRange(code: Scancode, shift: bool)
    ensures Offered(code, shift).Some? ==> IsKey(Offered(code, shift).value)
  {
    MapsAgree(code);
    hide Mapped;
  }

  /** Both maps name the same keys, and shift turns each letter into its capital. */
  lemma MapsAgree(code: nat)
    ensures 0 <= Mapped(code, false) < 128 && 0 <= Mapped(code, true) < 128
    ensures Mapped(code, false) == 0 <==> Mapped(code, true) == 0
    ensures 'a' as int <= Mapped(code, false) <= 'z' as int ==> Mapped(code, true) == Mapped(code, false) - 32
  {}

  /** The keys a stream of scancodes means, starting with the shift state `shift`. */
  function Decoded(codes: seq<Scancode>, shift: bool): seq<int> {
    if codes == [] then []
    else
      var rest := Decoded(codes[1..], ShiftAfter(codes[0], shift));
      match Offered(codes[0], shift) case None => rest case Some(k) => [k] + rest
  }

  function ShiftOver(codes: seq<Scancode>, shift: bool): bool {
    if codes == [] then shift else ShiftOver(codes[1..], ShiftAfter(codes[0], shift))
  }

  /** The keyboard's four rows, Dvorak, plain and shifted. */
  lemma KeyRows(i: nat)
    ensures i < 12 ==> Offered(2 + i, false) == Some("1234567890[]"[i] as int)
                       && Offered(2 + i, true) == Some("!@#$%^&*(){}"[i] as int)
    ensures i < 12 ==> Offered(16 + i, false) == Some("',.pyfgcrl/="[i] as int)
                       && Offered(16 + i, true) == Some("\"<>PYFGCRL?+"[i] as int)
    ensures i < 12 ==> Offered(30 + i, false) == Some("aoeuidhtns-`"[i] as int)
                       && Offered(30 + i, true) == Some("AOEUIDHTNS_~"[i] as int)
    ensures i < 11 ==> Offered(43 + i, false) == Some("\\;qjkxbmwvz"[i] as int)
                       && Offered(43 + i, true) == Some("|:QJKXBMWVZ"[i] as int)
  {
    if i < 12 { KeyRow1(i); KeyRow2(i); KeyRow3(i); }
    if i < 11 { KeyRow4(i); }
  }

  lemma KeyRow1(i: nat)
    requires i < 12
    ensures Offered(2 + i, false) == Some("1234567890[]"[i] as int)
    ensures Offered(2 + i, true) == Some("!@#$%^&*(){}"[i] as int)
  {}

  lemma KeyRow2(i: nat)
    requires i < 12
    ensures Offered(16 + i, false) == Some("',.pyfgcrl/="[i] as int)
    ensures Offered(16 + i, true) == Some("\"<>PYFGCRL?+"[i] as int)
  {}

  lemma KeyRow3(i: nat)
    requires i < 12
    ensures Offered(30 + i, false) == Some("aoeuidhtns-`"[i] as int)
    ensures Offered(30 + i, true) == Some("AOEUIDHTNS_~"[i] as int)
  {}

  lemma KeyRow4(i: nat)
    requires i < 11
    ensures Offered(43 + i, false) == Some("\\;qjkxbmwvz"[i] as int)
    ensures Offered(43 + i, true) == Some("|:QJKXBMWVZ"[i] as int)
  {}

  /** The keys outside the rows mean the same with and without shift; all other scancodes offer nothing. */
  lemma OtherKeys(code: Scancode, shift: bool)
    requires code < 2 || 14 <= code < 16 || 28 <= code < 30 || code == 42 || code >= 54
    ensures Offered(code, shift) ==
            if code == 1 then Some(27) else if code == 14 then Some(8) else if code == 15 then Some(9)
            else if code == 28 then Some(10) else if code == 55 then Some(42) else if code == 57 then Some(32)
            else if code == 74 then Some(45) else if code == 78 then Some(43)
            else if code == 72 then Some(1000) else if code == 80 then Some(1001)
            else if code == 75 then Some(1002) else if code == 77 then Some(1003)
            else if code == 71 then Some(1004) else if code == 79 then Some(1005)
            else if code == 73 then Some(1006) else if code == 81 then Some(1007)
            else if code == 83 then Some(1008) else None
  {}

  lemma {:induction false} DecodedRange(codes: seq<Scancode>, shift: bool)
    ensures forall k :: k in Decoded(codes, shift) ==> IsKey(k)
  {
    if codes != [] {
      OfferedRange(codes[0], shift);
      DecodedRange(codes[1..], ShiftAfter(codes[0], shift));
    }
  }

  lemma {:induction false} DecodedNext(codes: seq<Scancode>, c: Scancode, shift: bool)
    ensures ShiftOver(codes + [c], shift) == ShiftAfter(c, ShiftOver(codes, shift))
    ensures Decoded(codes + [c], shift) == Decoded(codes, shift) +
            match Offered(c, ShiftOver(codes, shift)) case None => [] case Some(k) => [k]
  {
    if codes == [] {
      assert [c][1..] == [] && [] + [c] == [c];
    } else {
      assert (codes + [c])[1..] == codes[1..] + [c];
      DecodedNext(codes[1..], c, ShiftAfter(codes[0], shift));
    }
  }

  /** Scancodes to come add keys after those decoded so far. */
  lemma {:induction false} DecodedPrefix(codes: seq<Scancode>, n: nat, shift: bool)
    requires n <= |codes|
    ensures Decoded(codes[..n], shift) <= Decoded(codes, shift)
    decreases |codes| - n
  {
    if n == |codes| {
      assert codes[..n] == codes;
    } else {
      assert codes[..n + 1] == codes[..n] + [codes[n]];
      DecodedNext(codes[..n], codes[n], shift);
      DecodedPrefix(codes, n + 1, shift);
    }
  }

  predicate IsShiftPress(code: Scancode) {
    code == 0x2A || code == 0x36
  }

  predicate IsShiftRelease(code: Scancode) {
    code == 0xAA || code == 0xB6
  }

  /** A shift key went down and none came up since, or none came up and shift was held before. */
  ghost predicate Held(codes: seq<Scancode>, shift: bool) {
    (exists i :: 0 <= i < |codes| && IsShiftPress(codes[i])
                 && forall j :: i < j < |codes| ==> !IsShiftRelease(codes[j]))
    || (shift && forall j :: 0 <= j < |codes| ==> !IsShiftRelease(codes[j]))
  }

  lemma HeldNext(codes: seq<Scancode>, c: Scancode, shift: bool)
    ensures Held(codes + [c], shift) <==> IsShiftPress(c) || (Held(codes, shift) && !IsShiftRelease(c))
  {
    var all := codes + [c];
    var n := |codes|;
    assert all[n] == c && forall i :: 0 <= i < n ==> all[i] == codes[i];
    if IsShiftPress(c) {
      assert Held(all, shift);
    } else if Held(all, shift) {
      assert !IsShiftRelease(all[n]);
    }
  }

  /** Over every stream of scancodes the shift state is what the shift keys say. */
  lemma {:induction false} ShiftIsHeld(codes: seq<Scancode>, shift: bool)
    ensures ShiftOver(codes, shift) <==> Held(codes, shift)
    decreases |codes|
  {
    if codes != [] {
      var n := |codes| - 1;
      assert codes == codes[..n] + [codes[n]];
      ShiftIsHeld(codes[..n], shift);
      DecodedNext(codes[..n], codes[n], shift);
      HeldNext(codes[..n], codes[n], shift);
    }
  }

  /** A letter's key decodes to the capital exactly while shift is held. */
  lemma LetterDecodes(codes: seq<Scancode>, code: Scancode, shift: bool, letter: int)
    requires Offered(code, false) == Some(letter) && 'a' as int <= letter <= 'z' as int
    ensures Decoded(codes + [code], shift) ==
            Decoded(codes, shift) + [if Held(codes, shift) then letter - 32 else letter]
  {
    DecodedNext(codes, code, shift);
    ShiftIsHeld(codes, shift);
    MapsAgree(code);
    hide Decoded, ShiftOver, Held, Mapped;
  }

  // --------------------------------------------------------------- the ring

  datatype Ring = Ring(buf: seq<int>, read: nat, write: nat)

  predicate Shaped(r: Ring) {
    |r.buf| == SIZE && r.read < SIZE && r.write < SIZE
  }

  predicate Full(r: Ring) {
    (r.write + 1) % SIZE == r.read
  }

  /** The keys waiting in the ring, oldest first. */
  function Pending(r: Ring): seq<int>
    requires Shaped(r)
  {
    if r.read <= r.write then r.buf[r.read..r.write] else r.buf[r.read..] + r.buf[..r.write]
  }

  function Push(r: Ring, code: int): Ring
    requires Shaped(r)
  {
    if Full(r) then r else Ring(r.buf[r.write := code], r.read, (r.write + 1) % SIZE)
  }

  function Advance(r: Ring): Ring {
    r.(read := (r.read + 1) % SIZE)
  }

  /** A push appends unless 255 keys are waiting, and leaves every waiting slot alone. */
  lemma PushAppends(r: Ring, code: int)
    requires Shaped(r)
    ensures Shaped(Push(r, code)) && |Pending(r)| < SIZE
    ensures Full(r) <==> |Pending(r)| == SIZE - 1
    ensures Pending(Push(r, code)) == if Full(r) then Pending(r) else Pending(r) + [code]
    ensures Pending(r) != [] ==> Push(r, code).buf[r.read] == r.buf[r.read]
  {
    var s := Push(r, code);
    if Full(r) {
    } else if r.read > r.write {
      assert s.write == r.write + 1;
      assert s.buf[r.read..] == r.buf[r.read..] && s.buf[..s.write] == r.buf[..r.write] + [code];
    } else if r.write == SIZE - 1 {
      assert s.write == 0 && s.buf[..0] == [];
      assert s.buf[r.read..] == r.buf[r.read..SIZE - 1] + [code];
    } else {
      assert s.write == r.write + 1;
      assert s.buf[r.read..s.write] == r.buf[r.read..r.write] + [code];
    }
  }

  lemma AdvanceDrops(r: Ring)
    requires Shaped(r) && Pending(r) != []
    ensures Shaped(Advance(r)) && Pending(r)[0] == r.buf[r.read]
    ensures Pending(Advance(r)) == Pending(r)[1..]
  {
    var s := Advance(r);
    if r.read > r.write && s.read == 0 {
      assert r.buf[SIZE - 1..] == [r.buf[SIZE - 1]] && s.buf[0..s.write] == r.buf[..r.write];
    } else if r.read > r.write {
      assert s.read == r.read + 1 && r.buf[r.read..] == [r.buf[r.read]] + s.buf[s.read..];
    } else {
      assert s.read == r.read + 1 && r.buf[r.read..r.write] == [r.buf[r.read]] + s.buf[s.read..s.write];
    }
  }

  /** The ring after an interrupt. */
  function Arrived(r: Ring, code: Scancode, shift: bool): Ring
    requires Shaped(r)
  {
    match Offered(code, shift) case None => r case Some(k) => Push(r, k)
  }

  function OfferedKeys(code: Scancode, shift: bool): seq<int> {
    match Offered(code, shift) case None => [] case Some(k) => [k]
  }

  lemma PendingNone(r: Ring)
    requires Shaped(r)
    ensures r.read == r.write <==> Pending(r) == []
  {}

  /** An interrupt while nothing waits leaves just the key it offers. */
  lemma ArrivalPends(r: Ring, code: Scancode, shift: bool)
    requires Shaped(r) && Pending(r) == []
    ensures Shaped(Arrived(r, code, shift)) && Pending(Arrived(r, code, shift)) == OfferedKeys(code, shift)
  {
    hide Offered, Push, Pending;
    if k :| Offered(code, shift) == Some(k) { PushAppends(r, k); }
  }

  lemma NothingDecoded(arrivals: seq<Scancode>, shift: bool)
    ensures Decoded(arrivals[..0], shift) == [] && ShiftOver(arrivals[..0], shift) == shift
  {}

  /** While nothing has been decoded there is an arrival left, and this is what it adds. */
  lemma AllDecoded(arrivals: seq<Scancode>, n: nat, shift: bool)
    requires Decoded(arrivals, shift) != [] && n <= |arrivals| && Decoded(arrivals[..n], shift) == []
    ensures n < |arrivals|
    ensures var s := ShiftOver(arrivals[..n], shift);
            && ShiftOver(arrivals[..n + 1], shift) == ShiftAfter(arrivals[n], s)
            && Decoded(arrivals[..n + 1], shift) == OfferedKeys(arrivals[n], s)
  {
    assert arrivals[..|arrivals|] == arrivals;
    DecodedNext(arrivals[..n], arrivals[n], shift);
    assert arrivals[..n + 1] == arrivals[..n] + [arrivals[n]];
  }

  // ---------------------------------------- the interleaved state machine

  /** Where the consumer is inside `kbd_getchar`. */
  datatype Consumer = Polling | Ready | Holding(c: int)

  datatype State = State(
    ring: Ring, shift: bool, at: Consumer,
    codes: seq<Scancode>, accepted: seq<int>, dropped: nat, received: seq<int>)

  datatype Step = Interrupt(code: Scancode) | Poll | Read | Update

  predicate Start(s: State) {
    Shaped(s.ring) && s.ring.read == s.ring.write == 0 && !s.shift && s.at == Polling
    && s.codes == [] && s.accepted == [] && s.dropped == 0 && s.received == []
  }

  /** A step the machine can take here: interrupts always, the consumer's steps in program order. */
  predicate Enabled(s: State, t: Step) {
    match t
    case Interrupt(_) => true
    case Poll => s.at == Polling
    case Read => s.at == Ready
    case Update => s.at.Holding?
  }

  function Next(s: State, t: Step): State
    requires Shaped(s.ring) && Enabled(s, t)
  {
    match t
    case Interrupt(code) =>
      var d := s.(shift := ShiftAfter(code, s.shift), codes := s.codes + [code]);
      (match Offered(code, s.shift)
       case None => d
       case Some(k) =>
         if Full(s.ring) then d.(dropped := s.dropped + 1)
         else d.(ring := Push(s.ring, k), accepted := s.accepted + [k]))
    case Poll => if s.ring.read == s.ring.write then s else s.(at := Ready)
    case Read => s.(at := Holding(s.ring.buf[s.ring.read]))
    case Update => s.(ring := Advance(s.ring), at := Polling, received := s.received + [s.at.c])
  }

  /** `a` is `b` with some keys left out. */
  predicate Within(a: seq<int>, b: seq<int>)
    decreases |b|
  {
    a == [] ||
    (b != [] &&
     ((a[|a| - 1] == b[|b| - 1] && Within(a[..|a| - 1], b[..|b| - 1])) || Within(a, b[..|b| - 1])))
  }

  lemma WithinNext(a: seq<int>, b: seq<int>, k: int)
    requires Within(a, b)
    ensures Within(a + [k], b + [k]) && Within(a, b + [k])
  {
    assert (a + [k])[..|a|] == a && (b + [k])[..|b|] == b;
  }

  /** The accepted keys are the decoded ones but for those dropped. */
  predicate Accounts(codes: seq<Scancode>, accepted: seq<int>, dropped: nat) {
    && |Decoded(codes, false)| == |accepted| + dropped
    && (dropped == 0 ==> accepted == Decoded(codes, false))
    && Within(accepted, Decoded(codes, false))
  }

  lemma AccountsNext(codes: seq<Scancode>, accepted: seq<int>, dropped: nat, code: Scancode)
    requires Accounts(codes, accepted, dropped)
    ensures match Offered(code, ShiftOver(codes, false))
            case None => Accounts(codes + [code], accepted, dropped)
            case Some(k) =>
              Accounts(codes + [code], accepted + [k], dropped) && Accounts(codes + [code], accepted, dropped + 1)
  {
    DecodedNext(codes, code, false);
    hide Decoded, ShiftOver, Offered, Within;
    match Offered(code, ShiftOver(codes, false))
    case None => assert Decoded(codes, false) + [] == Decoded(codes, false);
    case Some(k) => WithinNext(accepted, Decoded(codes, false), k);
  }

  /** What holds in every reachable state. */
  predicate Inv(s: State) {
    && Shaped(s.ring)
    && s.accepted == s.received + Pending(s.ring)
    && (s.at != Polling ==> Pending(s.ring) != [])
    && (s.at.Holding? ==> s.at.c == s.ring.buf[s.ring.read])
    && s.shift == ShiftOver(s.codes, false)
    && Accounts(s.codes, s.accepted, s.dropped)
  }

  lemma StartInv(s: State)
    requires Start(s)
    ensures Inv(s)
  {
    assert Decoded([], false) == [];
  }

  lemma InterruptKeeps(s: State, code: Scancode)
    requires Inv(s)
    ensures var t := Next(s, Interrupt(code));
            Inv(t) && (t.dropped > s.dropped ==> |Pending(s.ring)| == SIZE - 1)
            && (s.at != Polling ==> t.ring.buf[s.ring.read] == s.ring.buf[s.ring.read])
  {
    DecodedNext(s.codes, code, false);
    hide Accounts, Decoded, ShiftOver, Offered, Pending, ShiftAfter;
    AccountsNext(s.codes, s.accepted, s.dropped, code);
    match Offered(code, s.shift)
    case None =>
    case Some(k) =>
      PushAppends(s.ring, k);
      assert s.received + (Pending(s.ring) + [k]) == s.accepted + [k];
  }

  /** Every step of either side keeps the invariant; an interrupt drops a key only when 255 are waiting. */
  lemma StepKeeps(s: State, t: Step)
    requires Inv(s) && Enabled(s, t)
    ensures Inv(Next(s, t))
    ensures Next(s, t).dropped > s.dropped ==> t.Interrupt? && |Pending(s.ring)| == 255
    ensures s.at != Polling && t.Interrupt? ==> Next(s, t).ring.buf[s.ring.read] == s.ring.buf[s.ring.read]
  {
    hide Decoded, ShiftOver, Offered, ShiftAfter, Accounts;
    match t
    case Interrupt(code) =>
      InterruptKeeps(s, code);
    case Poll =>
    case Read =>
    case Update =>
      hide Pending;
      AdvanceDrops(s.ring);
      assert s.received + Pending(s.ring) == (s.received + [s.at.c]) + Pending(s.ring)[1..];
  }

  predicate Run(ss: seq<State>, ts: seq<Step>) {
    |ss| == |ts| + 1 && Start(ss[0])
    && forall i, j :: 0 <= i < |ts| && j == i + 1 ==>
         Shaped(ss[i].ring) && Enabled(ss[i], ts[i]) && ss[j] == Next(ss[i], ts[i])
  }

  /**
    Under every interleaving: what the consumer has received is a prefix, in
    order, of what was accepted, the rest is waiting, at most 255 keys wait, the
    accepted keys are decoded scancodes in order with only the dropped ones
    missing, and while nothing was dropped they are all of them.
   */
  lemma {:induction false} RunDelivers(ss: seq<State>, ts: seq<Step>, k: nat)
    requires Run(ss, ts) && k < |ss|
    ensures Inv(ss[k]) && ss[k].received <= ss[k].accepted
    ensures ss[k].accepted == ss[k].received + Pending(ss[k].ring) && |Pending(ss[k].ring)| <= 255
    ensures Within(ss[k].accepted, Decoded(ss[k].codes, false))
    ensures |Decoded(ss[k].codes, false)| == |ss[k].accepted| + ss[k].dropped
    ensures ss[k].dropped == 0 ==> ss[k].received <= Decoded(ss[k].codes, false)
  {
    hide Decoded, ShiftOver, Offered, Pending, Within;
    if k == 0 {
      StartInv(ss[0]);
    } else {
      RunDelivers(ss, ts, k - 1);
      var s, t := ss[k - 1], ss[k];
      assert Enabled(s, ts[k - 1]);
      StepKeeps(s, ts[k - 1]);
    }
    PushAppends(ss[k].ring, 0);
  }

  // -------------------------------------------------------------- the driver

  class Keyboard {
    const buf: array<int>
    var read: nat
    var write: nat
    var shiftHeld: bool

    ghost predicate Valid()
      reads this, buf
    {
      buf.Length == SIZE && read < SIZE && write < SIZE
    }

    ghost function View(): (r: Ring)
      requires Valid()
      reads this, buf
      ensures Shaped(r)
    {
      Ring(buf[..], read, write)
    }

    constructor ()
      ensures Valid() && fresh(buf) && read == write == 0 && !shiftHeld
    {
      buf := new int[SIZE](_ => 0);
      read, write, shiftHeld := 0, 0, false;
    }

    /** `kbd_push`. */
    method PushKey(code: int)
      requires Valid()
      modifies this`write, buf
      ensures Valid() && View() == Push(old(View()), code)
    {
      if (write + 1) % SIZE == read {
        return;
      }
      buf[write] := code;
      write := (write + 1) % SIZE;
    }

    /** `int c = kbd_buf[kbd_buf_read]`. */
    method ReadKey() returns (c: int)
      requires Valid()
      ensures c == View().buf[View().read]
    {
      c := buf[read];
    }

    /** The index update of `kbd_getchar`. */
    method UpdateIndex()
      requires Valid()
      modifies this`read
      ensures Valid() && View() == Advance(old(View()))
    {
      read := (read + 1) % SIZE;
    }

    /** `kbd_handler_main` after it has read a scancode. */
    method HandleInterrupt(code: Scancode)
      requires Valid() && code < 256
      modifies this`write, this`shiftHeld, buf
      ensures Valid() && shiftHeld == ShiftAfter(code, old(shiftHeld))
      ensures View() == Arrived(old(View()), code, old(shiftHeld))
    {
      if code == 0xAA || code == 0xB6 {
        shiftHeld := false;
        return;
      }
      if code >= 0x80 {
        return;
      }
      if code == LSHIFT || code == RSHIFT {
        shiftHeld := true;
        return;
      }
      match Special(code) {
        case Some(k) =>
          PushKey(k);
          return;
        case None =>
      }
      var c := Mapped(code, shiftHeld);
      if c != 0 {
        PushKey(c);
      }
    }

    /** The waiting loop of `kbd_getchar`; `arrivals` are the scancodes whose interrupts come while it polls. */
    method Await(arrivals: seq<Scancode>) returns (used: nat)
      requires Valid() && Pending(View()) + Decoded(arrivals, shiftHeld) != []
      modifies this`write, this`shiftHeld, buf
      ensures Valid() && used <= |arrivals| && (used > 0 ==> Pending(old(View())) == [])
      ensures shiftHeld == ShiftOver(arrivals[..used], old(shiftHeld))
      ensures Pending(View()) == Pending(old(View())) + Decoded(arrivals[..used], old(shiftHeld)) != []
    {
      hide Decoded, Offered, ShiftAfter, ShiftOver, Pending, Arrived;
      ghost var first, shift := Pending(View()), shiftHeld;
      used := 0;
      NothingDecoded(arrivals, shift);
      PendingNone(View());
      while read == write
        invariant Valid() && 0 <= used <= |arrivals| && (used > 0 ==> first == [])
        invariant shiftHeld == ShiftOver(arrivals[..used], shift)
        invariant Pending(View()) == first + Decoded(arrivals[..used], shift)
        invariant read == write <==> Pending(View()) == []
        decreases |arrivals| - used
      {
        AllDecoded(arrivals, used, shift);
        ArrivalPends(View(), arrivals[used], shiftHeld);
        HandleInterrupt(arrivals[used]);
        PendingNone(View());
        used := used + 1;
      }
    }

    /** `kbd_getchar`: takes the oldest key, which is the first to arrive if none is waiting. */
    method GetChar(arrivals: seq<Scancode>) returns (c: int, used: nat)
      requires Valid() && Pending(View()) + Decoded(arrivals, shiftHeld) != []
      modifies this`read, this`write, this`shiftHeld, buf
      ensures Valid() && used <= |arrivals| && (used > 0 ==> Pending(old(View())) == [])
      ensures shiftHeld == ShiftOver(arrivals[..used], old(shiftHeld))
      ensures [c] + Pending(View()) == Pending(old(View())) + Decoded(arrivals[..used], old(shiftHeld))
      ensures c == (Pending(old(View())) + Decoded(arrivals, old(shiftHeld)))[0]
    {
      hide Decoded, ShiftOver, Offered, ShiftAfter;
      DecodedPrefix(arrivals, 0, shiftHeld);
      ghost var first, shift := Pending(View()), shiftHeld;
      used := Await(arrivals);
      DecodedPrefix(arrivals, used, shift);
      AdvanceDrops(View());
      c := ReadKey();
      UpdateIndex();
    }
  }
}
