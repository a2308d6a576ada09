/**
  The keyboard state (`KEY_CODES`, `KEY_STATUS` and the `onkeydown` / `onkeyup`
  handlers).

  Five key codes are mapped to action names; the status of every action starts
  released; a key event sets or clears the status of the action its code maps to
  and nothing else. Suppressing the browser's default handling is not modelled.
*/
module KeyInput {

  datatype Action = Space | Left | Up | Right | Down

  /** `KEY_CODES`: space bar and the four arrow keys. */
  const KeyCodes: map<int, Action> :=
    map[32 := Space, 37 := Left, 38 := Up, 39 := Right, 40 := Down]

  /** `KEY_STATUS`: whether each action is currently held. */
  type KeyStatus = map<Action, bool>

  /** The two fields of a keyboard event the handlers read. A missing code is 0. */
  datatype KeyEvent = KeyEvent(keyCode: int, charCode: int)

  /** A delivered event: `onkeydown` or `onkeyup`. */
  datatype Input = KeyPress(event: KeyEvent) | KeyRelease(event: KeyEvent)

  /** The code of the key table for each action. */
  function CodeOf(a: Action): (code: int)
  {
    match a
    case Space => 32
    case Left => 37
    case Up => 38
    case Right => 39
    case Down => 40
  }

  /** `KEY_CODES` and `CodeOf` are inverse: every action has exactly one code. */
  lemma KeyCodesInverse(a: Action, code: int)
    ensures CodeOf(a) in KeyCodes && KeyCodes[CodeOf(a)] == a
    ensures code in KeyCodes ==> CodeOf(KeyCodes[code]) == code
  {
  }

  /** The status built by the loop over `KEY_CODES`: every action released. */
  function InitialStatus(): (s: KeyStatus)
    ensures forall a: Action :: a in s && !s[a]
  {
    assert forall a: Action :: a in KeyCodes.Values by {
      forall a: Action
        ensures a in KeyCodes.Values
      {
        assert CodeOf(a) in KeyCodes && KeyCodes[CodeOf(a)] == a;
      }
    }
    map a | a in KeyCodes.Values :: false
  }

  /** The code the handlers use: `keyCode`, or `charCode` when `keyCode` is 0
      (the browsers that report the key in `charCode`). */
  function Code(e: KeyEvent): (code: int)
    ensures e.keyCode != 0 ==> code == e.keyCode
    ensures code == e.keyCode || code == e.charCode
    ensures code == 0 <==> e.keyCode == 0 && e.charCode == 0
  {
    if e.keyCode != 0 then e.keyCode else e.charCode
  }

  /** Shared body of both handlers: a mapped code sets its action to `held`. */
  function SetStatus(s: KeyStatus, e: KeyEvent, held: bool): (r: KeyStatus)
  {
    var code := Code(e);
    if code in KeyCodes then s[KeyCodes[code] := held] else s
  }

  /** `onkeydown`: the action of a mapped key becomes held; no other entry
      changes; an unmapped key changes nothing. */
  function KeyDown(s: KeyStatus, e: KeyEvent): (r: KeyStatus)
    ensures r.Keys == if Code(e) in KeyCodes then s.Keys + {KeyCodes[Code(e)]} else s.Keys
    ensures Code(e) in KeyCodes ==> r[KeyCodes[Code(e)]]
    ensures forall a :: a in s && (Code(e) !in KeyCodes || a != KeyCodes[Code(e)]) ==> r[a] == s[a]
  {
    SetStatus(s, e, true)
  }

  /** `onkeyup`: the action of a mapped key becomes released; no other entry
      changes; an unmapped key changes nothing. */
  function KeyUp(s: KeyStatus, e: KeyEvent): (r: KeyStatus)
    ensures r.Keys == if Code(e) in KeyCodes then s.Keys + {KeyCodes[Code(e)]} else s.Keys
    ensures Code(e) in KeyCodes ==> !r[KeyCodes[Code(e)]]
    ensures forall a :: a in s && (Code(e) !in KeyCodes || a != KeyCodes[Code(e)]) ==> r[a] == s[a]
  {
    SetStatus(s, e, false)
  }

  /** Whether an action is held; a missing entry reads as `undefined`, which is falsy. */
  predicate Held(s: KeyStatus, a: Action)
  {
    a in s && s[a]
  }

  /** The firefox fallback: an event with `keyCode` 0 acts exactly like one that
      carries its `charCode` as `keyCode`. */
  lemma CharCodeFallback(s: KeyStatus, charCode: int)
    ensures KeyDown(s, KeyEvent(0, charCode)) == KeyDown(s, KeyEvent(charCode, 0))
    ensures KeyUp(s, KeyEvent(0, charCode)) == KeyUp(s, KeyEvent(charCode, 0))
  {
  }

  /** Releasing a key undoes pressing it, when its action was released before;
      pressing twice is pressing once. */
  lemma PressThenRelease(s: KeyStatus, e: KeyEvent)
    requires forall a: Action :: a in s
    requires Code(e) in KeyCodes ==> !s[KeyCodes[Code(e)]]
    ensures KeyUp(KeyDown(s, e), e) == s
    ensures KeyDown(KeyDown(s, e), e) == KeyDown(s, e)
  {
  }

  function Handle(s: KeyStatus, input: Input): (r: KeyStatus)
  {
    match input
    case KeyPress(e) => KeyDown(s, e)
    case KeyRelease(e) => KeyUp(s, e)
  }

  /** The status after a run of events, starting from `InitialStatus`. */
  function Replay(inputs: seq<Input>): (s: KeyStatus)
  {
    if inputs == [] then InitialStatus()
    else Handle(Replay(inputs[..|inputs| - 1]), inputs[|inputs| - 1])
  }

  /** Reference definition: an action is held when the latest event whose key
      maps to it was a press. */
  function LastPress(inputs: seq<Input>, a: Action): (held: bool)
  {
    if inputs == [] then false
    else
      var e := inputs[|inputs| - 1].event;
      if Code(e) in KeyCodes && KeyCodes[Code(e)] == a then inputs[|inputs| - 1].KeyPress?
      else LastPress(inputs[..|inputs| - 1], a)
  }

  /** After any run of events every action still has an entry, and it is held
      exactly when the latest event for its key was a press. */
  lemma {:induction false} ReplayIsLastPress(inputs: seq<Input>)
    ensures forall a: Action :: a in Replay(inputs) && (Replay(inputs)[a] <==> LastPress(inputs, a))
  {
    if inputs != [] {
      ReplayIsLastPress(inputs[..|inputs| - 1]);
    }
  }
}
