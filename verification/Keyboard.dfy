/**
 The keyboard driver: scancodes become characters in the ring buffer.
 */
module Keyboard {
  import opened Bytes
  import opened KeyboardRing

  // ---------------------------------------------------------------- scancode tables

  function Row(s: string, i: nat): byte
    requires i < |s| && forall j :: 0 <= j < |s| ==> (s[j] as int) < 256
  {
    s[i] as int
  }

  /** scan_code_map_normal and scan_code_map_shift differ only in the printable rows. */
  function KeyChar(sc: nat, shift: bool): byte {
    if 2 <= sc <= 13 then Row(if shift then "!@#$%^&*()_+" else "1234567890-=", sc - 2)
    else if sc == 14 then 8
    else if sc == 15 then 9
    else if 16 <= sc <= 27 then Row(if shift then "QWERTYUIOP{}" else "qwertyuiop[]", sc - 16)
    else if sc == 28 then 10
    else if 30 <= sc <= 41 then Row(if shift then "ASDFGHJKL:\"~" else "asdfghjkl;'`", sc - 30)
    else if sc == 43 then Row(if shift then "|" else "\\", 0)
    else if 44 <= sc <= 53 then Row(if shift then "ZXCVBNM<>?" else "zxcvbnm,./", sc - 44)
    else if sc == 55 then 42
    else if sc == 57 then 32
    else if 71 <= sc <= 83 then Row("789-456+1230.", sc - 71)
    else 0
  }

  // ---------------------------------------------------------------- the scancode state machine

  datatype Keys = Keys(lshift: bool, rshift: bool, lctrl: bool, rctrl: bool, lalt: bool, ralt: bool,
                       e0: bool, down: seq<bool>)

  const RELEASED: Keys := Keys(false, false, false, false, false, false, false, seq(128, _ => false))

  /** With control held, letters become control characters. */
  function Control(c: byte, ctrl: bool): byte {
    if ctrl && 97 <= c <= 122 then c - 97 + 1 else if ctrl && 65 <= c <= 90 then c - 65 + 1 else c
  }

  /** What one scancode does: the new key state and the character pushed, 0 for none. */
  function Handle(k: Keys, sc: nat): (r: (Keys, byte))
    requires |k.down| == 128 && sc < 256
    ensures |r.0.down| == 128
  {
    if sc == 0xE0 then (k.(e0 := true), 0)
    else if k.e0 then HandleExtended(k.(e0 := false), sc)
    else if ModifierCode(sc) then (SetModifier(k, sc), 0)
    else if sc >= 0x80 then (k.(down := k.down[sc - 0x80 := false]), 0)
    else if k.down[sc] then (k, 0)
    else (k.(down := k.down[sc := true]), Control(KeyChar(sc, k.lshift || k.rshift), k.lctrl || k.rctrl))
  }

  /** Make and break codes of the shift, control and alt keys without prefix. */
  predicate ModifierCode(sc: nat) {
    sc == 0x2A || sc == 0x36 || sc == 0xAA || sc == 0xB6 || sc == 0x1D || sc == 0x9D || sc == 0x38 || sc == 0xB8
  }

  function SetModifier(k: Keys, sc: nat): (r: Keys)
    ensures r.down == k.down && r.e0 == k.e0
  {
    k.(lshift := MakeBreak(sc, 0x2A, k.lshift), rshift := MakeBreak(sc, 0x36, k.rshift),
       lctrl := MakeBreak(sc, 0x1D, k.lctrl), lalt := MakeBreak(sc, 0x38, k.lalt))
  }

  /** A key is down after its make code, up after its break code, and else as it was. */
  function MakeBreak(sc: nat, make: nat, was: bool): bool {
    if sc == make then true else if sc == make + 0x80 then false else was
  }

  function HandleExtended(k: Keys, sc: nat): (r: (Keys, byte))
    ensures r.0.down == k.down && r.0.e0 == k.e0
  {
    (k.(rctrl := MakeBreak(sc, 0x1D, k.rctrl), ralt := MakeBreak(sc, 0x38, k.ralt)), Arrow(sc))
  }

  function Arrow(sc: nat): byte {
    if sc == 0x48 then 0x11
    else if sc == 0x50 then 0x12
    else if sc == 0x4B then 0x13
    else if sc == 0x4D then 0x14
    else 0
  }

  function RunKeys(k: Keys, scs: seq<nat>): (r: Keys)
    requires |k.down| == 128 && forall sc :: sc in scs ==> sc < 256
    ensures |r.down| == 128
    decreases |scs|
  {
    if scs == [] then k
    else
      assert scs[0] in scs && forall sc :: sc in scs[1..] ==> sc in scs;
      RunKeys(Handle(k, scs[0]).0, scs[1..])
  }

  /** Scancodes among which key sc is not released. */
  ghost predicate Unreleased(scs: seq<nat>, sc: nat) {
    forall x :: x in scs ==> x < 256 && x != sc + 0x80
  }

  lemma KeyStaysDown(k: Keys, x: nat, sc: nat)
    requires |k.down| == 128 && sc < 0x80 && k.down[sc] && x < 256 && x != sc + 0x80
    ensures Handle(k, x).0.down[sc]
  {
    hide KeyChar, Control, SetModifier, HandleExtended, ModifierCode;
    var r := Handle(k, x).0;
    if x == 0xE0 || k.e0 || ModifierCode(x) {
      assert r.down == k.down;
    } else if x >= 0x80 {
      assert r.down == k.down[x - 0x80 := false];
    } else {
      assert r.down == k.down || r.down == k.down[x := true];
    }
  }

  /**
   Auto-repeat is silent: once a plain key is down, no later make code of that key
   pushes a character until its break code has been seen.
   */
  lemma {:induction false} HeldKeyIsSilent(k: Keys, scs: seq<nat>, sc: nat)
    requires |k.down| == 128 && sc < 0x80 && !ModifierCode(sc) && k.down[sc] && Unreleased(scs, sc)
    ensures RunKeys(k, scs).down[sc]
    ensures !RunKeys(k, scs).e0 ==> Handle(RunKeys(k, scs), sc).1 == 0
    decreases |scs|
  {
    hide KeyChar, HandleExtended, SetModifier, Control;
    if scs != [] {
      assert scs[0] in scs && forall x :: x in scs[1..] ==> x in scs;
      KeyStaysDown(k, scs[0], sc);
      HeldKeyIsSilent(Handle(k, scs[0]).0, scs[1..], sc);
    }
  }

  // ---------------------------------------------------------------- which keys are down

  /** The codes of the run that follow no E0 prefix, and those that follow one. */
  function Plain(e0: bool, scs: seq<nat>): seq<nat>
    decreases |scs|
  {
    if scs == [] then []
    else if scs[0] == 0xE0 then Plain(true, scs[1..])
    else (if e0 then [] else [scs[0]]) + Plain(false, scs[1..])
  }

  function Prefixed(e0: bool, scs: seq<nat>): seq<nat>
    decreases |scs|
  {
    if scs == [] then []
    else if scs[0] == 0xE0 then Prefixed(true, scs[1..])
    else (if e0 then [scs[0]] else []) + Prefixed(false, scs[1..])
  }

  /** Whether the last make or break code of a key among `codes` is a make; `was` if there is none. */
  function LastIsMake(codes: seq<nat>, make: nat, was: bool): bool {
    if codes == [] then was
    else if codes[|codes| - 1] == make then true
    else if codes[|codes| - 1] == make + 0x80 then false
    else LastIsMake(codes[..|codes| - 1], make, was)
  }

  lemma {:induction false} LastIsMakeCons(c: nat, codes: seq<nat>, make: nat, was: bool)
    ensures LastIsMake([c] + codes, make, was) ==
            LastIsMake(codes, make, if c == make then true else if c == make + 0x80 then false else was)
    decreases |codes|
  {
    if codes == [] {
      assert [c] + codes == [c] && [c][..0] == [];
    } else {
      var n := |codes| - 1;
      assert ([c] + codes)[..n + 1] == [c] + codes[..n];
      LastIsMakeCons(c, codes[..n], make, was);
    }
  }

  /** One code, seen by the lists of plain and of prefixed codes. */
  lemma CodeStep(e0: bool, scs: seq<nat>, make: nat, was: bool)
    requires scs != [] && make < 0x80
    ensures var c := scs[0];
            && LastIsMake(Plain(e0, scs), make, was) ==
                 LastIsMake(Plain(c == 0xE0, scs[1..]), make,
                            if c != 0xE0 && !e0 && c == make then true
                            else if c != 0xE0 && !e0 && c == make + 0x80 then false else was)
            && LastIsMake(Prefixed(e0, scs), make, was) ==
                 LastIsMake(Prefixed(c == 0xE0, scs[1..]), make,
                            if c != 0xE0 && e0 && c == make then true
                            else if c != 0xE0 && e0 && c == make + 0x80 then false else was)
  {
    hide LastIsMake;
    var c := scs[0];
    LastIsMakeCons(c, Plain(false, scs[1..]), make, was);
    LastIsMakeCons(c, Prefixed(false, scs[1..]), make, was);
    assert [] + Plain(false, scs[1..]) == Plain(false, scs[1..]);
    assert [] + Prefixed(false, scs[1..]) == Prefixed(false, scs[1..]);
  }

  /** What one code does to the prefix, the shift, the control and the alt keys. */
  lemma HandlePrefix(k: Keys, c: nat)
    requires |k.down| == 128 && c < 256
    ensures Handle(k, c).0.e0 == (c == 0xE0)
  {
    hide KeyChar, Control, SetModifier, HandleExtended, ModifierCode;
  }

  lemma HandleShift(k: Keys, c: nat)
    requires |k.down| == 128 && c < 256
    ensures var r, plain := Handle(k, c).0, c != 0xE0 && !k.e0;
            && r.lshift == (if plain && c == 0x2A then true else if plain && c == 0xAA then false else k.lshift)
            && r.rshift == (if plain && c == 0x36 then true else if plain && c == 0xB6 then false else k.rshift)
  {
    hide KeyChar, Control;
  }

  lemma HandleCtrl(k: Keys, c: nat)
    requires |k.down| == 128 && c < 256
    ensures var r, plain, ext := Handle(k, c).0, c != 0xE0 && !k.e0, c != 0xE0 && k.e0;
            && r.lctrl == (if plain && c == 0x1D then true else if plain && c == 0x9D then false else k.lctrl)
            && r.rctrl == (if ext && c == 0x1D then true else if ext && c == 0x9D then false else k.rctrl)
  {
    hide KeyChar, Control;
  }

  lemma HandleAlt(k: Keys, c: nat)
    requires |k.down| == 128 && c < 256
    ensures var r, plain, ext := Handle(k, c).0, c != 0xE0 && !k.e0, c != 0xE0 && k.e0;
            && r.lalt == (if plain && c == 0x38 then true else if plain && c == 0xB8 then false else k.lalt)
            && r.ralt == (if ext && c == 0x38 then true else if ext && c == 0xB8 then false else k.ralt)
  {
    hide KeyChar, Control;
  }

  lemma HandleDown(k: Keys, c: nat, sc: nat)
    requires |k.down| == 128 && c < 256 && sc < 0x80 && !ModifierCode(sc)
    ensures Handle(k, c).0.down[sc] ==
            if c != 0xE0 && !k.e0 && c == sc then true
            else if c != 0xE0 && !k.e0 && c == sc + 0x80 then false else k.down[sc]
  {
    hide KeyChar, Control, SetModifier, HandleExtended, ModifierCode;
    var r := Handle(k, c).0;
    ModifierCodes(sc);
    if c == 0xE0 || k.e0 || ModifierCode(c) {
      assert r.down == k.down;
    } else if c >= 0x80 {
      assert r.down == k.down[c - 0x80 := false];
    } else {
      assert r.down == k.down[c := true] || (r.down == k.down && k.down[c]);
    }
  }

  lemma ModifierCodes(sc: nat)
    requires sc < 0x80
    ensures ModifierCode(sc) <==> ModifierCode(sc + 0x80)
  {
  }

  lemma {:induction false} RunPrefix(k: Keys, scs: seq<nat>)
    requires |k.down| == 128 && forall sc :: sc in scs ==> sc < 256
    ensures scs != [] ==>
              && scs[0] < 256 && (forall sc :: sc in scs[1..] ==> sc < 256)
              && RunKeys(k, scs) == RunKeys(Handle(k, scs[0]).0, scs[1..])
  {
    if scs != [] {
      assert scs[0] in scs && forall sc :: sc in scs[1..] ==> sc in scs;
    }
  }

  /**
   For every run of scancodes: a plain key counts as down exactly if the last make or break code
   of it that followed no prefix was a make.
   */
  lemma {:induction false} DownIsLastCode(k: Keys, scs: seq<nat>, sc: nat)
    requires |k.down| == 128 && (forall x :: x in scs ==> x < 256) && sc < 0x80
    requires sc != 0x2A && sc != 0x36 && sc != 0x1D && sc != 0x38
    ensures RunKeys(k, scs).down[sc] == LastIsMake(Plain(k.e0, scs), sc, k.down[sc])
    decreases |scs|
  {
    hide Handle, LastIsMake;
    RunPrefix(k, scs);
    if scs == [] {
      NoCodes(sc, k.down[sc]);
    } else {
      HandlePrefix(k, scs[0]);
      HandleDown(k, scs[0], sc);
      CodeStep(k.e0, scs, sc, k.down[sc]);
      DownIsLastCode(Handle(k, scs[0]).0, scs[1..], sc);
    }
  }

  lemma NoCodes(make: nat, was: bool)
    ensures LastIsMake([], make, was) == was
  {
  }

  /** The same law for the two shift keys. */
  lemma {:induction false} ShiftIsLastCode(k: Keys, scs: seq<nat>)
    requires |k.down| == 128 && forall x :: x in scs ==> x < 256
    ensures RunKeys(k, scs).lshift == LastIsMake(Plain(k.e0, scs), 0x2A, k.lshift)
    ensures RunKeys(k, scs).rshift == LastIsMake(Plain(k.e0, scs), 0x36, k.rshift)
    decreases |scs|
  {
    hide Handle, LastIsMake, Plain, Prefixed;
    RunPrefix(k, scs);
    if scs == [] {
      NoScancodes(k.e0);
      NoCodes(0x2A, k.lshift);
      NoCodes(0x36, k.rshift);
    } else {
      HandlePrefix(k, scs[0]);
      HandleShift(k, scs[0]);
      CodeStep(k.e0, scs, 0x2A, k.lshift);
      CodeStep(k.e0, scs, 0x36, k.rshift);
      ShiftIsLastCode(Handle(k, scs[0]).0, scs[1..]);
    }
  }

  /** For the control keys: the right one is the prefixed one. */
  lemma {:induction false} CtrlIsLastCode(k: Keys, scs: seq<nat>)
    requires |k.down| == 128 && forall x :: x in scs ==> x < 256
    ensures RunKeys(k, scs).lctrl == LastIsMake(Plain(k.e0, scs), 0x1D, k.lctrl)
    ensures RunKeys(k, scs).rctrl == LastIsMake(Prefixed(k.e0, scs), 0x1D, k.rctrl)
    decreases |scs|
  {
    hide Handle, LastIsMake, Plain, Prefixed;
    RunPrefix(k, scs);
    if scs == [] {
      NoScancodes(k.e0);
      NoCodes(0x1D, k.lctrl);
      NoCodes(0x1D, k.rctrl);
    } else {
      HandlePrefix(k, scs[0]);
      HandleCtrl(k, scs[0]);
      CodeStep(k.e0, scs, 0x1D, k.lctrl);
      CodeStep(k.e0, scs, 0x1D, k.rctrl);
      CtrlIsLastCode(Handle(k, scs[0]).0, scs[1..]);
    }
  }

  /** And for the alt keys. */
  lemma {:induction false} AltIsLastCode(k: Keys, scs: seq<nat>)
    requires |k.down| == 128 && forall x :: x in scs ==> x < 256
    ensures RunKeys(k, scs).lalt == LastIsMake(Plain(k.e0, scs), 0x38, k.lalt)
    ensures RunKeys(k, scs).ralt == LastIsMake(Prefixed(k.e0, scs), 0x38, k.ralt)
    decreases |scs|
  {
    hide Handle, LastIsMake, Plain, Prefixed;
    RunPrefix(k, scs);
    if scs == [] {
      NoScancodes(k.e0);
      NoCodes(0x38, k.lalt);
      NoCodes(0x38, k.ralt);
    } else {
      HandlePrefix(k, scs[0]);
      HandleAlt(k, scs[0]);
      CodeStep(k.e0, scs, 0x38, k.lalt);
      CodeStep(k.e0, scs, 0x38, k.ralt);
      AltIsLastCode(Handle(k, scs[0]).0, scs[1..]);
    }
  }

  lemma NoScancodes(e0: bool)
    ensures Plain(e0, []) == [] && Prefixed(e0, []) == []
  {
  }

  // ---------------------------------------------------------------- what a key press pushes

  /** The scancodes of the letters, from A to Z. */
  const LETTER_KEYS: seq<nat> := [30, 48, 46, 32, 18, 33, 34, 35, 23, 36, 37, 38, 50, 49, 24, 25, 16, 19, 31, 20,
                                  22, 47, 17, 45, 21, 44]

  /** Key sc is pressed: it is up, and its code follows no prefix. */
  predicate Presses(k: Keys, sc: nat) {
    && |k.down| == 128 && sc < 0x80 && !k.e0 && !k.down[sc]
    && sc != 0x2A && sc != 0x36 && sc != 0x1D && sc != 0x38
  }

  /** A character comes only from a key press, or from an arrow key after a prefix. */
  lemma OnlyPressesPush(k: Keys, sc: nat)
    requires |k.down| == 128 && sc < 256 && Handle(k, sc).1 != 0
    ensures Presses(k, sc) || (k.e0 && (sc == 0x48 || sc == 0x50 || sc == 0x4B || sc == 0x4D))
  {
    hide KeyChar, Control, SetModifier;
  }

  /** Letter i is typed as itself, with shift as the capital 32 below it, with control as its place in the alphabet. */
  lemma LetterTyped(k: Keys, i: nat)
    requires i < 26 && Presses(k, LETTER_KEYS[i])
    ensures Handle(k, LETTER_KEYS[i]).1 ==
            if k.lctrl || k.rctrl then i + 1 else if k.lshift || k.rshift then 97 + i - 32 else 97 + i
  {
    LetterChar(i);
  }

  lemma LetterChar(i: nat)
    requires i < 26
    ensures KeyChar(LETTER_KEYS[i], false) == 97 + i && KeyChar(LETTER_KEYS[i], true) == 65 + i
  {
    hide KeyChar;
    if i < 5 {
      LettersAToE(i);
    } else if i < 10 {
      LettersFToJ(i);
    } else if i < 15 {
      LettersKToO(i);
    } else if i < 20 {
      LettersPToT(i);
    } else {
      LettersUToZ(i);
    }
  }

  lemma LettersAToE(i: nat)
    requires 0 <= i < 5
    ensures KeyChar(LETTER_KEYS[i], false) == 97 + i && KeyChar(LETTER_KEYS[i], true) == 65 + i
  {
  }

  lemma LettersFToJ(i: nat)
    requires 5 <= i < 10
    ensures KeyChar(LETTER_KEYS[i], false) == 97 + i && KeyChar(LETTER_KEYS[i], true) == 65 + i
  {
  }

  lemma LettersKToO(i: nat)
    requires 10 <= i < 15
    ensures KeyChar(LETTER_KEYS[i], false) == 97 + i && KeyChar(LETTER_KEYS[i], true) == 65 + i
  {
  }

  lemma LettersPToT(i: nat)
    requires 15 <= i < 20
    ensures KeyChar(LETTER_KEYS[i], false) == 97 + i && KeyChar(LETTER_KEYS[i], true) == 65 + i
  {
  }

  lemma LettersUToZ(i: nat)
    requires 20 <= i < 26
    ensures KeyChar(LETTER_KEYS[i], false) == 97 + i && KeyChar(LETTER_KEYS[i], true) == 65 + i
  {
  }

  /** The keys above the letters: the digits, or with shift the signs on them. */
  lemma DigitTyped(k: Keys, sc: nat)
    requires 2 <= sc <= 11 && Presses(k, sc)
    ensures Handle(k, sc).1 ==
            if k.lshift || k.rshift then [33, 64, 35, 36, 37, 94, 38, 42, 40, 41][sc - 2] else 48 + (sc - 1) % 10
  {
  }

  /** The keys with punctuation on them. */
  const SIGN_KEYS: seq<nat> := [12, 13, 26, 27, 39, 40, 41, 43, 51, 52, 53]

  lemma SignTyped(k: Keys, i: nat)
    requires i < 11 && Presses(k, SIGN_KEYS[i])
    ensures Handle(k, SIGN_KEYS[i]).1 ==
            if k.lshift || k.rshift then [95, 43, 123, 125, 58, 34, 126, 124, 60, 62, 63][i]
            else [45, 61, 91, 93, 59, 39, 96, 92, 44, 46, 47][i]
  {
  }

  /** The number pad, whatever the modifiers. */
  lemma PadTyped(k: Keys, sc: nat)
    requires 71 <= sc <= 83 && Presses(k, sc)
    ensures Handle(k, sc).1 == [55, 56, 57, 45, 52, 53, 54, 43, 49, 50, 51, 48, 46][sc - 71]
  {
  }

  /** Every other key has no character. */
  lemma OtherKeysSilent(k: Keys, sc: nat)
    requires Presses(k, sc)
    ensures Handle(k, sc).1 == 0 <==> sc < 2 || 58 <= sc <= 70 || sc > 83
  {
  }

  /** Backspace, tab, enter, asterisk and space, whatever the modifiers. */
  lemma ControlKeysTyped(k: Keys)
    ensures Presses(k, 14) ==> Handle(k, 14).1 == 8
    ensures Presses(k, 15) ==> Handle(k, 15).1 == 9
    ensures Presses(k, 28) ==> Handle(k, 28).1 == 10
    ensures Presses(k, 55) ==> Handle(k, 55).1 == 42
    ensures Presses(k, 57) ==> Handle(k, 57).1 == 32
  {
  }

  /** The arrow keys after a prefix: up, down, left and right, as often as they are pressed. */
  lemma ArrowsTyped(k: Keys)
    requires |k.down| == 128 && k.e0
    ensures Handle(k, 0x48).1 == 0x11 && Handle(k, 0x50).1 == 0x12
    ensures Handle(k, 0x4B).1 == 0x13 && Handle(k, 0x4D).1 == 0x14
  {
  }

  /** Pressing a key with a character pushes exactly one, which is accepted if fewer than 127 wait. */
  lemma PressPushesOne(k: Keys, s: State, sc: byte)
    requires Presses(k, sc) && Inv(s) && KeyChar(sc, k.lshift || k.rshift) != 0
    ensures var (k', s') := Happen(k, s, Scan(sc));
            var c := Handle(k, sc).1;
            c != 0 && s'.popped == s.popped && s'.accepted == s.accepted + if Queued(s) < 127 then [c] else []
  {
    hide KeyChar;
    PushKeeps(s, Handle(k, sc).1);
  }

  // ---------------------------------------------------------------- scancodes against pops

  /** An interrupt with a scancode, or one step of the pop in progress. */
  datatype Happening = Scan(code: byte) | PopMove

  /** What one happening does to key state and ring: an interrupt pushes at most one character. */
  function Happen(k: Keys, s: State, h: Happening): (r: (Keys, State))
    requires |k.down| == 128 && Shaped(s)
    ensures |r.0.down| == 128 && Shaped(r.1)
  {
    match h
    case Scan(code) =>
      var (k', c) := Handle(k, code);
      (k', if c == 0 then s else PushEffect(s, c))
    case PopMove => (k, PopEffect(s))
  }

  function RunAll(k: Keys, s: State, hs: seq<Happening>): (r: (Keys, State))
    requires |k.down| == 128 && Shaped(s)
    ensures |r.0.down| == 128 && Shaped(r.1)
    decreases |hs|
  {
    if hs == [] then (k, s) else var (k', s') := Happen(k, s, hs[0]); RunAll(k', s', hs[1..])
  }

  /** The ring events behind the happenings. */
  function Events(k: Keys, hs: seq<Happening>): seq<Event>
    requires |k.down| == 128
    decreases |hs|
  {
    if hs == [] then []
    else match hs[0]
      case Scan(code) =>
        var (k', c) := Handle(k, code);
        (if c == 0 then [] else [Push(c)]) + Events(k', hs[1..])
      case PopMove => [PopStep] + Events(k, hs[1..])
  }

  lemma RunCons(s: State, e: Event, es: seq<Event>)
    requires Shaped(s)
    ensures Run(s, [e] + es) == Run(Step(s, e), es)
  {
    assert ([e] + es)[1..] == es && ([e] + es)[0] == e;
  }

  /** Handling scancodes between pop steps is a run of the ring in which no 0 is pushed. */
  lemma {:induction false} RunAllIsRun(k: Keys, s: State, hs: seq<Happening>)
    requires |k.down| == 128 && Shaped(s)
    ensures RunAll(k, s, hs).1 == Run(s, Events(k, hs))
    ensures forall e :: e in Events(k, hs) ==> e.PopStep? || e.c != 0
    decreases |hs|
  {
    hide Handle, PushEffect, PopEffect, Run;
    if hs == [] {
      RunNothing(s);
    } else {
      var (k', s') := Happen(k, s, hs[0]);
      RunAllIsRun(k', s', hs[1..]);
      var es := Events(k', hs[1..]);
      match hs[0] {
        case Scan(code) =>
          var c := Handle(k, code).1;
          if c == 0 {
            assert [] + es == es;
          } else {
            RunCons(s, Push(c), es);
          }
        case PopMove => RunCons(s, PopStep, es);
      }
    }
  }

  lemma RunNothing(s: State)
    requires Shaped(s)
    ensures Run(s, []) == s
  {
  }

  /**
   Every run of the keyboard, scancodes arriving between any two steps of a pop, from the empty
   buffer: characters are delivered in the order of acceptance, at most 127 wait, and none is 0.
   */
  lemma RunsOfTheKeyboard(hs: seq<Happening>)
    ensures var r := RunAll(RELEASED, INITIAL, hs).1;
            && r.popped <= r.accepted && 0 <= Queued(r) <= 127 && 0 !in r.popped
            && (r.head == r.tail <==> r.popped == r.accepted)
            && (r.pop.SlotRead? ==> r.pop.c == r.buf[r.tail])
  {
    hide RunAll, Events, Run;
    RunAllIsRun(RELEASED, INITIAL, hs);
    RunsOfTheDriver(Events(RELEASED, hs));
  }

  // ---------------------------------------------------------------- the driver

  class Driver {
    const buf: array<byte>
    var head: nat
    var tail: nat
    var keys: Keys
    ghost var accepted: seq<byte>
    ghost var popped: seq<byte>

    /** The shared state as the interleaving model sees it when no pop is in progress. */
    ghost function Abs(): State
      reads this, buf
    {
      State(buf[..], head, tail, Idle, accepted, popped)
    }

    ghost predicate Valid()
      reads this, buf
    {
      Inv(Abs()) && |keys.down| == 128 && 0 !in accepted
    }

    constructor ()
      ensures Valid() && accepted == [] && popped == [] && keys == RELEASED && fresh(buf)
    {
      buf := new byte[SIZE](_ => 0);
      head, tail, keys, accepted, popped := 0, 0, RELEASED, [], [];
      new;
      assert Slot(0, 0) == 0;
    }

    method BufferPush(c: byte)
      requires Valid() && c != 0
      modifies buf, this`head, this`accepted
      ensures Valid() && Abs() == PushEffect(old(Abs()), c)
      ensures accepted == old(accepted) + (if |old(accepted)| - |popped| < 127 then [c] else [])
    {
      PushKeeps(Abs(), c);
      var next := (head + 1) % SIZE;
      if next != tail {
        buf[head] := c;
        head := next;
        accepted := accepted + [c];
      }
    }

    /** An uninterrupted pop: two steps of the interleaving model when empty, four otherwise. */
    method BufferPop() returns (c: byte)
      requires Valid()
      modifies this`tail, this`popped
      ensures Valid()
      ensures c == 0 <==> old(popped) == accepted
      ensures c == 0 ==> Abs() == Run(old(Abs()), [PopStep, PopStep])
      ensures c != 0 ==> popped == old(popped) + [c] && Abs() == Run(old(Abs()), [PopStep, PopStep, PopStep, PopStep])
    {
      ghost var s := Abs();
      EmptyTest(s);
      FourSteps(s);
      if head == tail {
        return 0;
      }
      c := buf[tail];
      tail := (tail + 1) % SIZE;
      popped := popped + [c];
    }

    lemma FourSteps(s: State)
      requires Inv(s) && s.pop.Idle?
      ensures s.head == s.tail ==> Run(s, [PopStep, PopStep]) == s
      ensures s.head != s.tail ==>
                var r := s.(tail := (s.tail + 1) % SIZE, popped := s.popped + [s.buf[s.tail]]);
                && Run(s, [PopStep, PopStep, PopStep, PopStep]) == r && Inv(r)
                && |s.popped| < |s.accepted| && s.buf[s.tail] == s.accepted[|s.popped|]
    {
      PopKeeps(s);
      var s1 := PopEffect(s);
      PopKeeps(s1);
      var s2 := PopEffect(s1);
      assert Run(s, [PopStep, PopStep]) == Run(s1, [PopStep]) == Run(s2, []);
      if s.head != s.tail {
        PopKeeps(s2);
        var s3 := PopEffect(s2);
        PopKeeps(s3);
        assert Run(s2, [PopStep, PopStep]) == Run(s3, [PopStep]) == Run(PopEffect(s3), []);
        var four := [PopStep, PopStep, PopStep, PopStep];
        assert four[1..] == [PopStep, PopStep, PopStep] && four[1..][1..] == [PopStep, PopStep];
        assert Run(s, four) == Run(s1, four[1..]) == Run(s2, four[1..][1..]);
      }
    }

    /** keyboard_handler for a scancode: the table-driven state change and at most one push. */
    method Handler(sc: nat)
      requires Valid() && sc < 256
      modifies this`head, this`keys, this`accepted, buf
      ensures Valid() && keys == Handle(old(keys), sc).0
      ensures var c := Handle(old(keys), sc).1;
              Abs() == if c == 0 then old(Abs()) else PushEffect(old(Abs()), c)
    {
      hide KeyChar, Inv, PushEffect, SetModifier, HandleExtended, Control, ModifierCode;
      if sc == 0xE0 {
        keys := keys.(e0 := true);
      } else if keys.e0 {
        keys := keys.(e0 := false);
        Extended(sc);
      } else {
        var modifier := SetModifiers(sc);
        if !modifier {
          PlainKey(sc);
        }
      }
    }

    /** A make or break code without prefix that belongs to no modifier. */
    method PlainKey(sc: nat)
      requires Valid() && sc < 256 && sc != 0xE0 && !keys.e0 && !ModifierCode(sc)
      modifies this`head, this`keys, this`accepted, buf
      ensures Valid() && keys == Handle(old(keys), sc).0
      ensures var c := Handle(old(keys), sc).1;
              Abs() == if c == 0 then old(Abs()) else PushEffect(old(Abs()), c)
    {
      hide KeyChar, Inv, PushEffect, Control, ModifierCode;
      if sc < 0x80 {
        if !keys.down[sc] {
          keys := keys.(down := keys.down[sc := true]);
          PushKey(sc);
        }
      } else {
        keys := keys.(down := keys.down[sc - 0x80 := false]);
      }
    }

    method SetModifiers(sc: nat) returns (modifier: bool)
      modifies this`keys
      ensures modifier == ModifierCode(sc) && keys == SetModifier(old(keys), sc)
      ensures !modifier ==> keys == old(keys)
    {
      modifier := true;
      if sc == 0x2A { keys := keys.(lshift := true); }
      else if sc == 0x36 { keys := keys.(rshift := true); }
      else if sc == 0xAA { keys := keys.(lshift := false); }
      else if sc == 0xB6 { keys := keys.(rshift := false); }
      else if sc == 0x1D { keys := keys.(lctrl := true); }
      else if sc == 0x9D { keys := keys.(lctrl := false); }
      else if sc == 0x38 { keys := keys.(lalt := true); }
      else if sc == 0xB8 { keys := keys.(lalt := false); }
      else { modifier := false; }
    }

    /** The character of a plain key, as a control character if control is held. */
    method PushKey(sc: nat)
      requires Valid()
      modifies this`head, this`accepted, buf
      ensures Valid()
      ensures var c := Control(KeyChar(sc, keys.lshift || keys.rshift), keys.lctrl || keys.rctrl);
              Abs() == if c == 0 then old(Abs()) else PushEffect(old(Abs()), c)
    {
      hide KeyChar, Inv, PushEffect;
      var c := KeyChar(sc, keys.lshift || keys.rshift);
      var ctrl := keys.lctrl || keys.rctrl;
      if ctrl && 97 <= c <= 122 {
        c := c - 97 + 1;
      } else if ctrl && 65 <= c <= 90 {
        c := c - 65 + 1;
      }
      if c != 0 {
        BufferPush(c);
      }
    }

    /** The scancode after an E0 prefix: arrow keys and the right-hand modifiers. */
    method Extended(sc: nat)
      requires Valid()
      modifies this`head, this`keys, this`accepted, buf
      ensures Valid() && keys == HandleExtended(old(keys), sc).0
      ensures var c := HandleExtended(old(keys), sc).1;
              Abs() == if c == 0 then old(Abs()) else PushEffect(old(Abs()), c)
    {
      hide Inv, PushEffect, KeyChar;
      if sc == 0x48 {
        BufferPush(0x11);
      } else if sc == 0x50 {
        BufferPush(0x12);
      } else if sc == 0x4B {
        BufferPush(0x13);
      } else if sc == 0x4D {
        BufferPush(0x14);
      } else {
        SetRightModifiers(sc);
      }
    }

    method SetRightModifiers(sc: nat)
      requires sc != 0x48 && sc != 0x50 && sc != 0x4B && sc != 0x4D
      modifies this`keys
      ensures keys == HandleExtended(old(keys), sc).0 && HandleExtended(old(keys), sc).1 == 0
    {
      if sc == 0x1D { keys := keys.(rctrl := true); }
      else if sc == 0x9D { keys := keys.(rctrl := false); }
      else if sc == 0x38 { keys := keys.(ralt := true); }
      else if sc == 0xB8 { keys := keys.(ralt := false); }
    }
  }
}
