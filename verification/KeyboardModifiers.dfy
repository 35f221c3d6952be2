/** Modifier tracking in the keyboard interrupt handler (drivers/keyboard.c). */
module KeyboardModifiers {

  /** A modifier key, by side; bits of `kbd_held`. */
  datatype Key = LShift | RShift | LCtrl | RCtrl | LAlt | RAlt | Caps | Other

  /** Bits of `kbd_mods`. */
  datatype Mod = Shift | Ctrl | Alt | CapsLock

  /** `kbd_held`, `kbd_mods` and `kbd_extended`; the bit masks are sets. */
  datatype State = State(held: set<Key>, mods: set<Mod>, extended: bool)

  const INITIAL := State({}, {}, false)

  /** The key with an id; bit 8 of the id marks a prefixed scancode. */
  function KeyOf(id: nat): Key {
    if id == 0x2A then LShift else if id == 0x36 then RShift
    else if id == 0x1D then LCtrl else if id == 0x11D then RCtrl
    else if id == 0x38 then LAlt else if id == 0x138 then RAlt
    else if id == 0x3A then Caps else Other
  }

  class Keyboard {
    var held: set<Key>
    var mods: set<Mod>
    var extended: bool

    ghost function Value(): State
      reads this
    {
      State(held, mods, extended)
    }

    constructor ()
      ensures Value() == INITIAL
    {
      held, mods, extended := {}, {}, false;
    }

    /** The part of `keyboard_handler` that tracks modifiers. */
    method Scancode(scancode: nat)
      requires scancode < 256
      modifies this
      ensures Value() == Step(old(Value()), scancode)
    {
      hide KeyOf, Derived;
      if scancode == 0xE0 {
        extended := true;
        return;
      }
      var released := scancode >= 0x80;
      var id := scancode % 0x80 + (if extended then 0x100 else 0);
      extended := false;
      var key := KeyOf(id);
      if key == Caps {
        if !released {
          if Caps !in held {
            mods := if CapsLock in mods then mods - {CapsLock} else mods + {CapsLock};
            held := held + {Caps};
          }
        } else {
          held := held - {Caps};
        }
      } else if key != Other {
        held := if released then held - {key} else held + {key};
      }
      assert held == Step(old(Value()), scancode).held;
      Derive();
    }

    /** The public bit mask, derived from the keys that are held. */
    method Derive()
      modifies this`mods
      ensures mods == Derived(held, CapsLock in old(mods))
    {
      mods := mods * {CapsLock};
      if LShift in held || RShift in held {
        mods := mods + {Shift};
      }
      if LCtrl in held || RCtrl in held {
        mods := mods + {Ctrl};
      }
      if LAlt in held || RAlt in held {
        mods := mods + {Alt};
      }
    }
  }

  /** The modifiers implied by the held keys, with the Caps toggle. */
  function Derived(held: set<Key>, caps: bool): set<Mod> {
    (if caps then {CapsLock} else {})
    + (if LShift in held || RShift in held then {Shift} else {})
    + (if LCtrl in held || RCtrl in held then {Ctrl} else {})
    + (if LAlt in held || RAlt in held then {Alt} else {})
  }

  function Step(s: State, scancode: nat): State {
    if scancode == 0xE0 then s.(extended := true)
    else
      var released := scancode >= 0x80;
      var key := KeyOf(scancode % 0x80 + (if s.extended then 0x100 else 0));
      var toggles := key == Caps && !released && Caps !in s.held;
      var held := if key == Other then s.held else if released then s.held - {key} else s.held + {key};
      State(held, Derived(held, (CapsLock in s.mods) != toggles), false)
  }

  function After(bytes: seq<nat>): State {
    if bytes == [] then INITIAL
    else Step(After(bytes[..|bytes| - 1]), bytes[|bytes| - 1])
  }

  // ---- The history ------------------------------------------------------------

  /** Byte i is a scancode of key k: a make or a break of that key. */
  ghost predicate About(bytes: seq<nat>, i: nat, k: Key)
    requires i < |bytes|
  {
    && bytes[i] != 0xE0
    && KeyOf(bytes[i] % 0x80 + (if i > 0 && bytes[i - 1] == 0xE0 then 0x100 else 0)) == k
  }

  ghost predicate MakeOf(bytes: seq<nat>, i: nat, k: Key)
    requires i < |bytes|
  {
    About(bytes, i, k) && bytes[i] < 0x80
  }

  /** The make and break byte of each modifier key, and whether 0xE0 precedes it. */
  lemma ScancodeTable(bytes: seq<nat>, i: nat, prefixed: bool)
    requires i < |bytes| && bytes[i] < 256 && (prefixed <==> i > 0 && bytes[i - 1] == 0xE0)
    ensures About(bytes, i, LShift) <==> !prefixed && bytes[i] in {0x2A, 0xAA}
    ensures MakeOf(bytes, i, LShift) <==> !prefixed && bytes[i] == 0x2A
    ensures About(bytes, i, RShift) <==> !prefixed && bytes[i] in {0x36, 0xB6}
    ensures MakeOf(bytes, i, RShift) <==> !prefixed && bytes[i] == 0x36
    ensures About(bytes, i, LCtrl) <==> !prefixed && bytes[i] in {0x1D, 0x9D}
    ensures MakeOf(bytes, i, LCtrl) <==> !prefixed && bytes[i] == 0x1D
    ensures About(bytes, i, RCtrl) <==> prefixed && bytes[i] in {0x1D, 0x9D}
    ensures MakeOf(bytes, i, RCtrl) <==> prefixed && bytes[i] == 0x1D
    ensures About(bytes, i, LAlt) <==> !prefixed && bytes[i] in {0x38, 0xB8}
    ensures MakeOf(bytes, i, LAlt) <==> !prefixed && bytes[i] == 0x38
    ensures About(bytes, i, RAlt) <==> prefixed && bytes[i] in {0x38, 0xB8}
    ensures MakeOf(bytes, i, RAlt) <==> prefixed && bytes[i] == 0x38
    ensures About(bytes, i, Caps) <==> !prefixed && bytes[i] in {0x3A, 0xBA}
    ensures MakeOf(bytes, i, Caps) <==> !prefixed && bytes[i] == 0x3A
  {
  }

  /** The last make or break of k in the history was a make. */
  ghost predicate Down(bytes: seq<nat>, k: Key) {
    exists i: nat | i < |bytes| ::
      MakeOf(bytes, i, k) && forall j: nat | i < j < |bytes| :: !About(bytes, j, k)
  }

  /** Caps makes that are not repeats: Caps was up before them. */
  ghost function CapsPresses(bytes: seq<nat>): nat {
    if bytes == [] then 0
    else
      var n := |bytes| - 1;
      CapsPresses(bytes[..n]) + (if MakeOf(bytes, n, Caps) && !Down(bytes[..n], Caps) then 1 else 0)
  }

  lemma AboutPrefix(bytes: seq<nat>, b: nat, i: nat, k: Key)
    requires i < |bytes|
    ensures About(bytes + [b], i, k) == About(bytes, i, k)
    ensures MakeOf(bytes + [b], i, k) == MakeOf(bytes, i, k)
  {
    hide KeyOf;
  }

  lemma DownBackward(bytes: seq<nat>, b: nat, k: Key)
    requires Down(bytes + [b], k)
    ensures if About(bytes + [b], |bytes|, k) then b < 0x80 else Down(bytes, k)
  {
    var all, n := bytes + [b], |bytes|;
    assert MakeOf(all, n, k) <==> About(all, n, k) && b < 0x80;
    hide About, MakeOf;
    var i: nat :| i < n + 1 && MakeOf(all, i, k) && forall j: nat | i < j < n + 1 :: !About(all, j, k);
    if i < n {
      AboutPrefix(bytes, b, i, k);
      forall j: nat | i < j < n
        ensures !About(bytes, j, k)
      {
        AboutPrefix(bytes, b, j, k);
      }
    }
  }

  lemma DownForward(bytes: seq<nat>, b: nat, k: Key)
    requires if About(bytes + [b], |bytes|, k) then b < 0x80 else Down(bytes, k)
    ensures Down(bytes + [b], k)
  {
    var all, n := bytes + [b], |bytes|;
    assert MakeOf(all, n, k) <==> About(all, n, k) && b < 0x80;
    hide About, MakeOf;
    if !About(all, n, k) {
      var i: nat :| i < n && MakeOf(bytes, i, k) && forall j: nat | i < j < n :: !About(bytes, j, k);
      AboutPrefix(bytes, b, i, k);
      forall j: nat | i < j < n + 1
        ensures !About(all, j, k)
      {
        if j < n {
          AboutPrefix(bytes, b, j, k);
        }
      }
    }
  }

  lemma DownStep(bytes: seq<nat>, b: nat, k: Key)
    ensures Down(bytes + [b], k) <==>
            if About(bytes + [b], |bytes|, k) then b < 0x80 else Down(bytes, k)
  {
    if Down(bytes + [b], k) {
      DownBackward(bytes, b, k);
    }
    if if About(bytes + [b], |bytes|, k) then b < 0x80 else Down(bytes, k) {
      DownForward(bytes, b, k);
    }
  }

  lemma {:induction false} ExtendedIsPrefix(bytes: seq<nat>)
    ensures After(bytes).extended <==> bytes != [] && bytes[|bytes| - 1] == 0xE0
  {
    hide KeyOf, Derived;
  }

  /** The key a step changes is the key its byte is about. */
  lemma StepKey(bytes: seq<nat>, b: nat, k: Key)
    requires k != Other
    ensures var s, s' := After(bytes), After(bytes + [b]);
            && (k in s'.held <==> if About(bytes + [b], |bytes|, k) then b < 0x80 else k in s.held)
            && (CapsLock in s'.mods <==>
                (CapsLock in s.mods) != (MakeOf(bytes + [b], |bytes|, Caps) && Caps !in s.held))
  {
    hide KeyOf;
    ExtendedIsPrefix(bytes);
    assert (bytes + [b])[..|bytes|] == bytes;
  }

  /** After any byte stream a modifier key is held exactly when its last make or
      break was a make, and the Caps bit is the parity of the Caps presses that
      were not repeats. */
  lemma {:induction false} HeldIsHistory(bytes: seq<nat>, k: Key)
    requires k != Other
    ensures k in After(bytes).held <==> Down(bytes, k)
    ensures CapsLock in After(bytes).mods <==> CapsPresses(bytes) % 2 == 1
    decreases |bytes|
  {
    if bytes != [] {
      var n := |bytes| - 1;
      var init, b := bytes[..n], bytes[n];
      assert init + [b] == bytes;
      HeldIsHistory(init, k);
      HeldIsHistory(init, Caps);
      hide After, Down, About, MakeOf;
      StepKey(init, b, k);
      DownStep(init, b, k);
    }
  }

  lemma {:induction false} ModsAreDerived(bytes: seq<nat>)
    ensures var s := After(bytes);
            s.mods == Derived(s.held, CapsLock in s.mods)
  {
    hide KeyOf;
    if bytes != [] {
      ModsAreDerived(bytes[..|bytes| - 1]);
    }
  }

  /** Each modifier bit is set exactly when one of its sides is down. */
  lemma ModifiersAreHistory(bytes: seq<nat>)
    ensures var mods := After(bytes).mods;
            && (Shift in mods <==> Down(bytes, LShift) || Down(bytes, RShift))
            && (Ctrl in mods <==> Down(bytes, LCtrl) || Down(bytes, RCtrl))
            && (Alt in mods <==> Down(bytes, LAlt) || Down(bytes, RAlt))
            && (CapsLock in mods <==> CapsPresses(bytes) % 2 == 1)
  {
    hide After, Down, CapsPresses;
    ModsAreDerived(bytes);
    HeldIsHistory(bytes, LShift);
    HeldIsHistory(bytes, RShift);
    HeldIsHistory(bytes, LCtrl);
    HeldIsHistory(bytes, RCtrl);
    HeldIsHistory(bytes, LAlt);
    HeldIsHistory(bytes, RAlt);
  }
}
