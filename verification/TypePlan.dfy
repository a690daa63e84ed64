/**
 The keystroke-schedule compiler (src/TypePlan.h, src/TypePlan.cpp): a plan of chords becomes
 a stream of key events that holds shared modifiers across consecutive chords.
 */
module TypePlan {
  import opened Machine
  import Collections

  type KeyCode = u16

  datatype KeyChord = KeyChord(modifiers: seq<KeyCode>, key: KeyCode)
  datatype KeyEvent = KeyEvent(key: KeyCode, down: bool)

  function Keys(q: seq<KeyCode>): set<KeyCode> {
    set k | k in q
  }

  // ---- The compiler ----

  /** Held modifiers a chord does not want come up, newest first. */
  function Releases(held: seq<KeyCode>, wanted: seq<KeyCode>): seq<KeyEvent> {
    if held == [] then []
    else
      var newest := held[|held| - 1];
      (if newest in wanted then [] else [KeyEvent(newest, false)]) + Releases(held[..|held| - 1], wanted)
  }

  function Kept(held: seq<KeyCode>, wanted: seq<KeyCode>): seq<KeyCode> {
    if held == [] then []
    else
      var newest := held[|held| - 1];
      Kept(held[..|held| - 1], wanted) + (if newest in wanted then [newest] else [])
  }

  /** Wanted modifiers that are not down yet go down, in order. */
  function Presses(held: seq<KeyCode>, wanted: seq<KeyCode>): seq<KeyEvent>
    decreases wanted
  {
    if wanted == [] then []
    else if wanted[0] in held then Presses(held, wanted[1..])
    else [KeyEvent(wanted[0], true)] + Presses(held + [wanted[0]], wanted[1..])
  }

  function HeldWith(held: seq<KeyCode>, wanted: seq<KeyCode>): seq<KeyCode>
    decreases wanted
  {
    if wanted == [] then held
    else if wanted[0] in held then HeldWith(held, wanted[1..])
    else HeldWith(held + [wanted[0]], wanted[1..])
  }

  /** The modifiers held after typing `chords`. */
  function Held(chords: seq<KeyChord>): seq<KeyCode> {
    if chords == [] then []
    else
      var c := chords[|chords| - 1];
      HeldWith(Kept(Held(chords[..|chords| - 1]), c.modifiers), c.modifiers)
  }

  function ModifierEvents(held: seq<KeyCode>, wanted: seq<KeyCode>): seq<KeyEvent> {
    Releases(held, wanted) + Presses(Kept(held, wanted), wanted)
  }

  /** The events of `chords` before the final release. */
  function Typed(chords: seq<KeyChord>): seq<KeyEvent> {
    if chords == [] then []
    else
      var c := chords[|chords| - 1];
      var before := chords[..|chords| - 1];
      Typed(before) + ModifierEvents(Held(before), c.modifiers) + [KeyEvent(c.key, true), KeyEvent(c.key, false)]
  }

  function Schedule(chords: seq<KeyChord>): seq<KeyEvent> {
    Typed(chords) + Releases(Held(chords), [])
  }

  method ReleaseUnwanted(events0: seq<KeyEvent>, held0: seq<KeyCode>, wanted: seq<KeyCode>)
    returns (events: seq<KeyEvent>, held: seq<KeyCode>)
    ensures events == events0 + Releases(held0, wanted)
    ensures held == Kept(held0, wanted)
  {
    events, held := events0, held0;
    ghost var kept: seq<KeyCode> := [];
    assert held0[..|held0|] == held0;
    var i := |held|;
    while i > 0
      invariant 0 <= i <= |held0|
      invariant held == held0[..i] + kept
      invariant Kept(held0[..i], wanted) + kept == Kept(held0, wanted)
      invariant events + Releases(held0[..i], wanted) == events0 + Releases(held0, wanted)
    {
      i := i - 1;
      assert held0[..i + 1][..i] == held0[..i];
      if held[i] !in wanted {
        events := events + [KeyEvent(held[i], false)];
        held := held[..i] + held[i + 1..];
      } else {
        kept := [held[i]] + kept;
      }
    }
  }

  method PressWanted(events0: seq<KeyEvent>, held0: seq<KeyCode>, wanted: seq<KeyCode>)
    returns (events: seq<KeyEvent>, held: seq<KeyCode>)
    ensures events == events0 + Presses(held0, wanted)
    ensures held == HeldWith(held0, wanted)
  {
    events, held := events0, held0;
    assert wanted[0..] == wanted;
    for j := 0 to |wanted|
      invariant HeldWith(held, wanted[j..]) == HeldWith(held0, wanted)
      invariant events + Presses(held, wanted[j..]) == events0 + Presses(held0, wanted)
    {
      var modifier := wanted[j];
      assert wanted[j..][1..] == wanted[j + 1..];
      if modifier !in held {
        events := events + [KeyEvent(modifier, true)];
        held := held + [modifier];
      }
    }
  }

  lemma TypedStep(chords: seq<KeyChord>, n: nat)
    requires n < |chords|
    ensures var c, held := chords[n], Held(chords[..n]);
      && Typed(chords[..n + 1]) == Typed(chords[..n]) + Releases(held, c.modifiers)
           + Presses(Kept(held, c.modifiers), c.modifiers) + [KeyEvent(c.key, true)] + [KeyEvent(c.key, false)]
      && Held(chords[..n + 1]) == HeldWith(Kept(held, c.modifiers), c.modifiers)
  {
    assert chords[..n + 1][..n] == chords[..n];
  }

  method BuildTypeSchedule(chords: seq<KeyChord>) returns (events: seq<KeyEvent>)
    ensures events == Schedule(chords)
  {
    events := [];
    var held: seq<KeyCode> := [];
    for n := 0 to |chords|
      invariant events == Typed(chords[..n]) && held == Held(chords[..n])
    {
      var chord := chords[n];
      TypedStep(chords, n);
      events, held := ReleaseUnwanted(events, held, chord.modifiers);
      events, held := PressWanted(events, held, chord.modifiers);
      events := events + [KeyEvent(chord.key, true)];
      events := events + [KeyEvent(chord.key, false)];
    }
    assert chords[..|chords|] == chords;
    events, held := ReleaseUnwanted(events, held, []);
  }

  // ---- The receiver ----

  /** The keys down after `events`; None once a key is pressed while down or released while up. */
  function Replay(events: seq<KeyEvent>, down: set<KeyCode>): Option<set<KeyCode>> {
    if events == [] then Some(down)
    else
      var e := events[0];
      if e.down == (e.key in down) then None
      else Replay(events[1..], if e.down then down + {e.key} else down - {e.key})
  }

  lemma {:induction false} ReplayConcat(a: seq<KeyEvent>, b: seq<KeyEvent>, down: set<KeyCode>)
    ensures Replay(a + b, down) ==
      if Replay(a, down).None? then None else Replay(b, Replay(a, down).value)
  {
    if a == [] {
      assert a + b == b;
    } else {
      var e := a[0];
      assert (a + b)[1..] == a[1..] + b;
      if e.down != (e.key in down) {
        ReplayConcat(a[1..], b, if e.down then down + {e.key} else down - {e.key});
      }
    }
  }

  ghost predicate Distinct(q: seq<KeyCode>) {
    forall i, j | 0 <= i < j < |q| :: q[i] != q[j]
  }

  lemma {:induction false} KeptMembers(held: seq<KeyCode>, wanted: seq<KeyCode>)
    ensures forall k :: k in Kept(held, wanted) <==> k in held && k in wanted
    ensures |Releases(held, wanted)| + |Kept(held, wanted)| == |held|
  {
    if held != [] {
      var n := |held| - 1;
      KeptMembers(held[..n], wanted);
      assert held == held[..n] + [held[n]];
    }
  }

  lemma {:induction false} KeptDistinct(held: seq<KeyCode>, wanted: seq<KeyCode>)
    requires Distinct(held)
    ensures Distinct(Kept(held, wanted))
  {
    if held != [] {
      var n := |held| - 1;
      KeptDistinct(held[..n], wanted);
      KeptMembers(held[..n], wanted);
      assert held[n] !in held[..n];
    }
  }

  lemma KeptFacts(held: seq<KeyCode>, wanted: seq<KeyCode>)
    requires Distinct(held)
    ensures Distinct(Kept(held, wanted))
    ensures Keys(Kept(held, wanted)) == Keys(held) * Keys(wanted)
    ensures |Releases(held, wanted)| + |Kept(held, wanted)| == |held|
  {
    KeptMembers(held, wanted);
    KeptDistinct(held, wanted);
  }

  lemma {:induction false} ReplayReleases(held: seq<KeyCode>, wanted: seq<KeyCode>, others: set<KeyCode>)
    requires Distinct(held) && Keys(held) !! others
    ensures Replay(Releases(held, wanted), Keys(held) + others) == Some(Keys(Kept(held, wanted)) + others)
  {
    if held != [] {
      var n := |held| - 1;
      var newest := held[n];
      assert held == held[..n] + [newest];
      assert newest !in held[..n];
      assert Keys(held) == Keys(held[..n]) + {newest};
      KeptFacts(held[..n], wanted);
      if newest in wanted {
        assert Releases(held, wanted) == Releases(held[..n], wanted);
        ReplayReleases(held[..n], wanted, others + {newest});
        assert Keys(held) + others == Keys(held[..n]) + (others + {newest});
        assert Keys(Kept(held, wanted)) + others == Keys(Kept(held[..n], wanted)) + (others + {newest});
      } else {
        ReplayReleases(held[..n], wanted, others);
        assert Keys(held) + others - {newest} == Keys(held[..n]) + others;
        assert Releases(held, wanted)[1..] == Releases(held[..n], wanted);
        assert Kept(held, wanted) == Kept(held[..n], wanted);
      }
    }
  }

  lemma {:induction false} ReplayPresses(held: seq<KeyCode>, wanted: seq<KeyCode>)
    requires Distinct(held)
    ensures Replay(Presses(held, wanted), Keys(held)) == Some(Keys(held) + Keys(wanted))
    ensures Distinct(HeldWith(held, wanted))
    ensures Keys(HeldWith(held, wanted)) == Keys(held) + Keys(wanted)
    ensures |HeldWith(held, wanted)| == |held| + |Presses(held, wanted)|
    decreases wanted
  {
    if wanted == [] {
      assert Keys(held) + Keys(wanted) == Keys(held);
    } else {
      var m := wanted[0];
      assert wanted == [m] + wanted[1..];
      if m in held {
        ReplayPresses(held, wanted[1..]);
        assert Keys(held) + Keys(wanted) == Keys(held) + Keys(wanted[1..]);
      } else {
        ReplayPresses(held + [m], wanted[1..]);
        assert Keys(held + [m]) == Keys(held) + {m};
        assert Keys(held) + Keys(wanted) == Keys(held + [m]) + Keys(wanted[1..]);
        assert Presses(held, wanted)[1..] == Presses(held + [m], wanted[1..]);
      }
    }
  }

  function LastModifiers(chords: seq<KeyChord>): set<KeyCode> {
    if chords == [] then {} else Keys(chords[|chords| - 1].modifiers)
  }

  lemma {:induction false} HeldFacts(chords: seq<KeyChord>)
    ensures Distinct(Held(chords)) && Keys(Held(chords)) == LastModifiers(chords)
  {
    if chords != [] {
      var before, c := chords[..|chords| - 1], chords[|chords| - 1];
      HeldFacts(before);
      KeptFacts(Held(before), c.modifiers);
      ReplayPresses(Kept(Held(before), c.modifiers), c.modifiers);
      assert Keys(Held(before)) * Keys(c.modifiers) + Keys(c.modifiers) == Keys(c.modifiers);
    }
  }

  lemma ReplayModifiers(chords: seq<KeyChord>, wanted: seq<KeyCode>)
    ensures Replay(ModifierEvents(Held(chords), wanted), LastModifiers(chords)) == Some(Keys(wanted))
  {
    var held := Held(chords);
    HeldFacts(chords);
    KeptFacts(held, wanted);
    ReplayReleases(held, wanted, {});
    ReplayPresses(Kept(held, wanted), wanted);
    assert Keys(held) + {} == Keys(held) && Keys(Kept(held, wanted)) + {} == Keys(Kept(held, wanted));
    ReplayConcat(Releases(held, wanted), Presses(Kept(held, wanted), wanted), Keys(held));
    assert Keys(Kept(held, wanted)) + Keys(wanted) == Keys(wanted);
  }

  /** No chord asks for its own key as a modifier. */
  predicate KeysApart(chords: seq<KeyChord>) {
    forall i | 0 <= i < |chords| :: chords[i].key !in chords[i].modifiers
  }

  lemma {:induction false} ReplayTyped(chords: seq<KeyChord>)
    ensures Replay(Typed(chords), {}) ==
      if KeysApart(chords) then Some(LastModifiers(chords)) else None
  {
    if chords != [] {
      var before, c := chords[..|chords| - 1], chords[|chords| - 1];
      var changes := ModifierEvents(Held(before), c.modifiers);
      var tap := [KeyEvent(c.key, true), KeyEvent(c.key, false)];
      assert chords == before + [c];
      assert KeysApart(chords) <==> KeysApart(before) && c.key !in c.modifiers;
      ReplayTyped(before);
      ReplayModifiers(before, c.modifiers);
      ReplayConcat(Typed(before) + changes, tap, {});
      ReplayConcat(Typed(before), changes, {});
      ReplayTap(c.key, Keys(c.modifiers));
    }
  }

  lemma ReplayTap(key: KeyCode, down: set<KeyCode>)
    ensures Replay([KeyEvent(key, true), KeyEvent(key, false)], down) == if key in down then None else Some(down)
  {
    var tap := [KeyEvent(key, true), KeyEvent(key, false)];
    assert tap[1..] == [KeyEvent(key, false)] && tap[1..][1..] == [];
    if key !in down {
      assert Replay(tap[1..][1..], down + {key} - {key}) == Some(down + {key} - {key});
      assert down + {key} - {key} == down;
    }
  }

  /**
   The whole stream replays legally -- no key pressed while down or released while up, and
   nothing down at the end -- exactly when no chord's key is one of its own modifiers.
   */
  lemma ReplayIsLegal(chords: seq<KeyChord>)
    ensures Replay(Schedule(chords), {}) == Some({}) <==> KeysApart(chords)
    ensures !KeysApart(chords) ==> Replay(Schedule(chords), {}) == None
  {
    var held := Held(chords);
    ReplayTyped(chords);
    HeldFacts(chords);
    ReplayReleases(held, [], {});
    KeptFacts(held, []);
    assert Keys(held) + {} == Keys(held);
    assert Keys(held) * Keys([]) + {} == {};
    ReplayConcat(Typed(chords), Releases(held, []), {});
  }

  /** Where chord i's character goes down. */
  function CharacterAt(chords: seq<KeyChord>, i: nat): (pos: nat)
    requires i < |chords|
  {
    |Typed(chords[..i + 1])| - 2
  }

  lemma {:induction false} TypedPrefix(chords: seq<KeyChord>, n: nat)
    requires n <= |chords|
    ensures Typed(chords[..n]) <= Typed(chords)
  {
    if n < |chords| {
      TypedPrefix(chords[..|chords| - 1], n);
      assert chords[..|chords| - 1][..n] == chords[..n];
    } else {
      assert chords[..n] == chords;
    }
  }

  /**
   Typing preserves meaning: chord i's character goes down, and straight up, at a position of
   its own, in plan order, with exactly the chord's modifiers down at that moment.
   */
  lemma CharactersTyped(chords: seq<KeyChord>, i: nat)
    requires KeysApart(chords) && i < |chords|
    ensures var events, pos := Schedule(chords), CharacterAt(chords, i);
      && pos + 1 < |events|
      && events[pos] == KeyEvent(chords[i].key, true) && events[pos + 1] == KeyEvent(chords[i].key, false)
      && Replay(events[..pos], {}) == Some(Keys(chords[i].modifiers))
      && (i > 0 ==> CharacterAt(chords, i - 1) + 1 < pos)
  {
    var upTo, c := chords[..i + 1], chords[i];
    TypedPrefix(chords, i + 1);
    var events, pos := Schedule(chords), CharacterAt(chords, i);
    assert upTo[..i] == chords[..i];
    var changes := ModifierEvents(Held(chords[..i]), c.modifiers);
    assert Typed(upTo) == Typed(chords[..i]) + changes + [KeyEvent(c.key, true), KeyEvent(c.key, false)];
    assert events[..pos + 2] == Typed(upTo);
    assert events[..pos] == Typed(chords[..i]) + changes;
    assert events[pos] == Typed(upTo)[pos] && events[pos + 1] == Typed(upTo)[pos + 1];
    ReplayTyped(chords[..i]);
    ReplayModifiers(chords[..i], c.modifiers);
    ReplayConcat(Typed(chords[..i]), changes, {});
  }

  ghost predicate IsCharacterEvent(chords: seq<KeyChord>, k: nat) {
    exists i: nat :: i < |chords| && (k == CharacterAt(chords, i) || k == CharacterAt(chords, i) + 1)
  }

  ghost predicate IsModifierOfPlan(chords: seq<KeyChord>, key: KeyCode) {
    exists i: nat :: i < |chords| && key in chords[i].modifiers
  }

  /** Every other event moves a modifier some chord asked for. */
  lemma {:induction false} OtherEventsAreModifiers(chords: seq<KeyChord>, k: nat)
    requires k < |Typed(chords)|
    ensures IsCharacterEvent(chords, k) || IsModifierOfPlan(chords, Typed(chords)[k].key)
  {
    var before, c := chords[..|chords| - 1], chords[|chords| - 1];
    assert chords == before + [c];
    if k < |Typed(before)| {
      OtherEventsAreModifiers(before, k);
      if IsCharacterEvent(before, k) {
        CharacterEventLifts(before, c, k);
      }
    } else if k < |Typed(chords)| - 2 {
      ChordModifierEvents(before, c, k);
    } else {
      assert chords[..|before| + 1] == chords;
      assert k == CharacterAt(chords, |before|) || k == CharacterAt(chords, |before|) + 1;
    }
  }

  lemma CharacterEventLifts(before: seq<KeyChord>, c: KeyChord, k: nat)
    requires IsCharacterEvent(before, k)
    ensures IsCharacterEvent(before + [c], k)
  {
    var i: nat :| i < |before| && (k == CharacterAt(before, i) || k == CharacterAt(before, i) + 1);
    assert (before + [c])[..i + 1] == before[..i + 1];
    assert k == CharacterAt(before + [c], i) || k == CharacterAt(before + [c], i) + 1;
  }

  lemma ChordModifierEvents(before: seq<KeyChord>, c: KeyChord, k: nat)
    requires |Typed(before)| <= k < |Typed(before + [c])| - 2
    ensures IsModifierOfPlan(before + [c], Typed(before + [c])[k].key)
  {
    var chords := before + [c];
    assert chords[..|before|] == before;
    var changes := ModifierEvents(Held(before), c.modifiers);
    var e := changes[k - |Typed(before)|];
    HeldFacts(before);
    ModifierEventKeys(Held(before), c.modifiers, k - |Typed(before)|);
    assert Typed(chords)[k] == e;
    if e.key in c.modifiers {
      assert e.key in chords[|before|].modifiers;
    } else {
      assert e.key in Keys(Held(before));
      assert e.key in chords[|before| - 1].modifiers;
    }
  }

  lemma ModifierEventKeys(held: seq<KeyCode>, wanted: seq<KeyCode>, k: nat)
    requires k < |ModifierEvents(held, wanted)|
    ensures ModifierEvents(held, wanted)[k].key in held || ModifierEvents(held, wanted)[k].key in wanted
  {
    if k < |Releases(held, wanted)| {
      ReleaseKeys(held, wanted, k);
    } else {
      PressKeys(Kept(held, wanted), wanted, k - |Releases(held, wanted)|);
    }
  }

  lemma {:induction false} ReleaseKeys(held: seq<KeyCode>, wanted: seq<KeyCode>, k: nat)
    requires k < |Releases(held, wanted)|
    ensures Releases(held, wanted)[k].key in held
  {
    var n := |held| - 1;
    if held[n] in wanted {
      ReleaseKeys(held[..n], wanted, k);
    } else if k > 0 {
      ReleaseKeys(held[..n], wanted, k - 1);
    }
  }

  lemma {:induction false} PressKeys(held: seq<KeyCode>, wanted: seq<KeyCode>, k: nat)
    requires k < |Presses(held, wanted)|
    ensures Presses(held, wanted)[k].key in wanted
    decreases wanted
  {
    if wanted[0] in held {
      PressKeys(held, wanted[1..], k);
    } else if k > 0 {
      PressKeys(held + [wanted[0]], wanted[1..], k - 1);
    }
  }

  // ---- In which order ----

  predicate PressedIn(events: seq<KeyEvent>, from: int, to: int, key: KeyCode)
    requires to <= |events|
  {
    exists x :: 0 <= x && from < x < to && events[x] == KeyEvent(key, true)
  }

  /** `newer` went down, and `older` has not gone down since. */
  ghost predicate NewerThan(events: seq<KeyEvent>, newer: KeyCode, older: KeyCode) {
    exists a | 0 <= a < |events| :: events[a] == KeyEvent(newer, true) && !PressedIn(events, a, |events|, older)
  }

  /** The held keys are in the order in which they went down. */
  ghost predicate InPressOrder(events: seq<KeyEvent>, held: seq<KeyCode>) {
    forall p, q | 0 <= p < q < |held| :: NewerThan(events, held[q], held[p])
  }

  lemma NewerStays(events: seq<KeyEvent>, more: seq<KeyEvent>, newer: KeyCode, older: KeyCode)
    requires NewerThan(events, newer, older) && forall e | e in more :: e != KeyEvent(older, true)
    ensures NewerThan(events + more, newer, older)
  {
    var a :| 0 <= a < |events| && events[a] == KeyEvent(newer, true) && !PressedIn(events, a, |events|, older);
    var all := events + more;
    assert all[a] == events[a];
    assert forall x | |events| <= x < |all| :: all[x] in more;
  }

  lemma OrderStays(events: seq<KeyEvent>, more: seq<KeyEvent>, held: seq<KeyCode>)
    requires InPressOrder(events, held) && forall e | e in more && e.down :: e.key !in held
    ensures InPressOrder(events + more, held)
  {
    forall p, q | 0 <= p < q < |held| ensures NewerThan(events + more, held[q], held[p]) {
      NewerStays(events, more, held[q], held[p]);
    }
  }

  lemma {:induction false} KeptOrder(events: seq<KeyEvent>, held: seq<KeyCode>, wanted: seq<KeyCode>)
    requires InPressOrder(events, held)
    ensures InPressOrder(events, Kept(held, wanted))
  {
    if held != [] {
      var init, last := held[..|held| - 1], held[|held| - 1];
      KeptOrder(events, init, wanted);
      KeptMembers(init, wanted);
      var k := Kept(init, wanted);
      forall p | 0 <= p < |k| ensures NewerThan(events, last, k[p]) {
        assert k[p] in init;
        var i :| 0 <= i < |init| && init[i] == k[p];
        assert NewerThan(events, held[|init|], held[i]);
      }
    }
  }

  lemma NewKeyLast(events: seq<KeyEvent>, held: seq<KeyCode>, m: KeyCode)
    requires InPressOrder(events, held) && m !in held
    ensures InPressOrder(events + [KeyEvent(m, true)], held + [m])
  {
    var all, h := events + [KeyEvent(m, true)], held + [m];
    OrderStays(events, [KeyEvent(m, true)], held);
    forall p, q | 0 <= p < q < |h| ensures NewerThan(all, h[q], h[p]) {
      if q == |held| {
        assert all[|events|] == KeyEvent(m, true) && !PressedIn(all, |events|, |all|, h[p]);
      }
    }
  }

  lemma {:induction false} PressOrder(events: seq<KeyEvent>, held: seq<KeyCode>, wanted: seq<KeyCode>)
    requires InPressOrder(events, held)
    ensures InPressOrder(events + Presses(held, wanted), HeldWith(held, wanted))
    decreases wanted
  {
    if wanted == [] {
      assert events + [] == events;
    } else if wanted[0] in held {
      PressOrder(events, held, wanted[1..]);
    } else {
      var press := [KeyEvent(wanted[0], true)];
      NewKeyLast(events, held, wanted[0]);
      PressOrder(events + press, held + [wanted[0]], wanted[1..]);
      assert events + press + Presses(held + [wanted[0]], wanted[1..]) == events + Presses(held, wanted);
    }
  }

  lemma {:induction false} OnlyReleases(held: seq<KeyCode>, wanted: seq<KeyCode>)
    ensures forall e | e in Releases(held, wanted) :: !e.down && e.key in held
  {
    if held != [] {
      OnlyReleases(held[..|held| - 1], wanted);
    }
  }

  /** What is held after typing is held in the order in which it went down. */
  lemma {:induction false} HeldInOrder(chords: seq<KeyChord>)
    requires KeysApart(chords)
    ensures InPressOrder(Typed(chords), Held(chords))
  {
    if chords != [] {
      var before, c := chords[..|chords| - 1], chords[|chords| - 1];
      assert chords == before + [c];
      assert forall i | 0 <= i < |before| :: before[i] == chords[i];
      HeldInOrder(before);
      var held := Held(before);
      var releases, kept := Releases(held, c.modifiers), Kept(held, c.modifiers);
      KeptOrder(Typed(before), held, c.modifiers);
      OnlyReleases(held, c.modifiers);
      OrderStays(Typed(before), releases, kept);
      PressOrder(Typed(before) + releases, kept, c.modifiers);
      TapOrder(Typed(before), releases, Presses(kept, c.modifiers), HeldWith(kept, c.modifiers), chords, c);
    }
  }

  lemma {:induction false} TapOrder(typed: seq<KeyEvent>, releases: seq<KeyEvent>, presses: seq<KeyEvent>, held: seq<KeyCode>,
                 chords: seq<KeyChord>, c: KeyChord)
    requires chords != [] && c == chords[|chords| - 1] && c.key !in c.modifiers
    requires typed == Typed(chords[..|chords| - 1]) && held == Held(chords)
    requires releases + presses == ModifierEvents(Held(chords[..|chords| - 1]), c.modifiers)
    requires InPressOrder(typed + releases + presses, held)
    ensures InPressOrder(Typed(chords), held)
  {
    var tap := [KeyEvent(c.key, true), KeyEvent(c.key, false)];
    HeldFacts(chords);
    assert c.key !in Keys(held);
    OrderStays(typed + releases + presses, tap, held);
    assert typed + releases + presses + tap == Typed(chords);
  }

  lemma {:induction false} ReleaseOrder(held: seq<KeyCode>, wanted: seq<KeyCode>, i: nat, j: nat) returns (q: nat, p: nat)
    requires i < j < |Releases(held, wanted)|
    ensures p < q < |held| && Releases(held, wanted)[i] == KeyEvent(held[q], false)
         && Releases(held, wanted)[j] == KeyEvent(held[p], false)
  {
    var n := |held| - 1;
    if held[n] in wanted {
      q, p := ReleaseOrder(held[..n], wanted, i, j);
    } else if i == 0 {
      q := n;
      p := ReleaseOf(held[..n], wanted, j - 1);
    } else {
      q, p := ReleaseOrder(held[..n], wanted, i - 1, j - 1);
    }
  }

  lemma {:induction false} ReleaseOf(held: seq<KeyCode>, wanted: seq<KeyCode>, k: nat) returns (p: nat)
    requires k < |Releases(held, wanted)|
    ensures p < |held| && Releases(held, wanted)[k] == KeyEvent(held[p], false)
  {
    var n := |held| - 1;
    if held[n] in wanted {
      p := ReleaseOf(held[..n], wanted, k);
    } else if k == 0 {
      p := n;
    } else {
      p := ReleaseOf(held[..n], wanted, k - 1);
    }
  }

  /** What comes up before chord n, or at the end. */
  function ReleasedBefore(chords: seq<KeyChord>, n: nat): seq<KeyEvent>
    requires n <= |chords|
  {
    Releases(Held(chords[..n]), if n < |chords| then chords[n].modifiers else [])
  }

  /**
   Modifiers come up newest first: of two released together before chord n, or at the end, the one
   released first went down after the other last did.
   */
  lemma {:induction false} NewestReleasedFirst(chords: seq<KeyChord>, n: nat, typed: seq<KeyEvent>, r: seq<KeyEvent>,
                                               i: nat, j: nat)
    requires KeysApart(chords) && n <= |chords|
    requires typed == Typed(chords[..n]) && r == ReleasedBefore(chords, n) && i < j < |r|
    ensures var at := |typed|; var events := Schedule(chords);
      && at + |r| <= |events| && events[at..at + |r|] == r
      && !events[at + i].down && !events[at + j].down
      && NewerThan(events[..at], events[at + i].key, events[at + j].key)
  {
    var wanted := if n < |chords| then chords[n].modifiers else [];
    ApartPrefix(chords, n);
    NewerReleased(chords[..n], wanted, i, j);
    ReleasesStand(chords, n, wanted);
    InPlace(Schedule(chords), typed, r, i, j);
  }

  lemma ApartPrefix(chords: seq<KeyChord>, n: nat)
    requires KeysApart(chords) && n <= |chords|
    ensures KeysApart(chords[..n])
  {
    forall k | 0 <= k < n ensures chords[..n][k].key !in chords[..n][k].modifiers {
      assert chords[..n][k] == chords[k];
    }
  }

  lemma InPlace(events: seq<KeyEvent>, typed: seq<KeyEvent>, r: seq<KeyEvent>, i: nat, j: nat)
    requires |typed| + |r| <= |events| && events[..|typed|] == typed && events[|typed|..|typed| + |r|] == r
    requires i < j < |r| && !r[i].down && !r[j].down && NewerThan(typed, r[i].key, r[j].key)
    ensures !events[|typed| + i].down && !events[|typed| + j].down
    ensures NewerThan(events[..|typed|], events[|typed| + i].key, events[|typed| + j].key)
  {
    assert events[|typed| + i] == r[i] && events[|typed| + j] == r[j];
  }

  lemma {:induction false} NewerReleased(before: seq<KeyChord>, wanted: seq<KeyCode>, i: nat, j: nat)
    requires KeysApart(before) && i < j < |Releases(Held(before), wanted)|
    ensures var r := Releases(Held(before), wanted);
      !r[i].down && !r[j].down && NewerThan(Typed(before), r[i].key, r[j].key)
  {
    var q, p := ReleaseOrder(Held(before), wanted, i, j);
    HeldInOrder(before);
  }

  lemma {:induction false} ReleasesStand(chords: seq<KeyChord>, n: nat, wanted: seq<KeyCode>)
    requires n <= |chords| && wanted == if n < |chords| then chords[n].modifiers else []
    ensures var at, r := |Typed(chords[..n])|, Releases(Held(chords[..n]), wanted); var events := Schedule(chords);
      at + |r| <= |events| && events[..at] == Typed(chords[..n]) && events[at..at + |r|] == r
  {
    var typed, r := Typed(chords[..n]), Releases(Held(chords[..n]), wanted);
    if n < |chords| {
      TypedPrefix(chords, n + 1);
      TypedStep(chords, n);
      Stands(Schedule(chords), typed, r, Typed(chords[..n + 1]));
    } else {
      assert chords[..n] == chords;
      Stands(Schedule(chords), typed, r, typed + r);
    }
  }

  lemma Stands(events: seq<KeyEvent>, typed: seq<KeyEvent>, r: seq<KeyEvent>, upTo: seq<KeyEvent>)
    requires upTo <= events && typed + r <= upTo
    ensures |typed| + |r| <= |events| && events[..|typed|] == typed && events[|typed|..|typed| + |r|] == r
  {
    assert events[..|typed| + |r|] == typed + r;
    assert events[|typed|..|typed| + |r|] == (typed + r)[|typed|..];
  }

  // ---- How many events ----

  /** A modifier wanted by every chord of [from, to) and by neither neighbour. */
  datatype ModifierRun = ModifierRun(from: nat, to: nat, key: KeyCode)

  predicate Wants(chords: seq<KeyChord>, i: int, key: KeyCode) {
    0 <= i < |chords| && key in chords[i].modifiers
  }

  predicate IsMaximalRun(chords: seq<KeyChord>, r: ModifierRun) {
    && r.from < r.to <= |chords|
    && (forall i | r.from <= i < r.to :: Wants(chords, i, r.key))
    && !Wants(chords, r.from - 1, r.key) && !Wants(chords, r.to, r.key)
  }

  /** The (chord, modifier) pairs at which a run starts. */
  function RunStarts(chords: seq<KeyChord>): set<(nat, KeyCode)> {
    set i: nat, k | i < |chords| && k in chords[i].modifiers && !Wants(chords, i - 1, k) :: (i, k)
  }

  /** The chords from i on that go on wanting `key`. */
  function RunEnd(chords: seq<KeyChord>, i: nat, key: KeyCode): (end: nat)
    requires i <= |chords|
    ensures i <= end <= |chords|
    ensures forall j | i <= j < end :: Wants(chords, j, key)
    ensures !Wants(chords, end, key)
    decreases |chords| - i
  {
    if Wants(chords, i, key) then RunEnd(chords, i + 1, key) else i
  }

  function MaximalRuns(chords: seq<KeyChord>): set<ModifierRun> {
    set s | s in RunStarts(chords) :: ModifierRun(s.0, RunEnd(chords, s.0, s.1), s.1)
  }

  /** The set above holds the maximal runs, all of them, one for each start. */
  lemma MaximalRunsExact(chords: seq<KeyChord>)
    ensures forall r :: r in MaximalRuns(chords) <==> IsMaximalRun(chords, r)
    ensures |MaximalRuns(chords)| == |RunStarts(chords)|
  {
    forall r ensures r in MaximalRuns(chords) <==> IsMaximalRun(chords, r) {
      if IsMaximalRun(chords, r) {
        assert Wants(chords, r.from, r.key);
        assert (r.from, r.key) in RunStarts(chords);
        RunEndUnique(chords, r);
      }
    }
    var f := (s: (nat, KeyCode)) requires s.0 <= |chords| => ModifierRun(s.0, RunEnd(chords, s.0, s.1), s.1);
    Collections.ImageSize(RunStarts(chords), f, MaximalRuns(chords));
  }

  lemma RunEndUnique(chords: seq<KeyChord>, r: ModifierRun)
    requires IsMaximalRun(chords, r)
    ensures RunEnd(chords, r.from, r.key) == r.to
  {}

  function StartsAt(n: nat, keys: set<KeyCode>): set<(nat, KeyCode)> {
    set k | k in keys :: (n, k)
  }

  lemma StartsAtSize(n: nat, keys: set<KeyCode>)
    ensures |StartsAt(n, keys)| == |keys|
  {
    var at: KeyCode -> (nat, KeyCode) := k => (n, k);
    Collections.ImageSize(keys, at, StartsAt(n, keys));
  }

  lemma RunStartsSplit(before: seq<KeyChord>, c: KeyChord)
    ensures RunStarts(before + [c])
         == RunStarts(before) + StartsAt(|before|, Keys(c.modifiers) - LastModifiers(before))
  {}

  lemma RunStartsStep(before: seq<KeyChord>, c: KeyChord)
    ensures |RunStarts(before + [c])| == |RunStarts(before)| + |Keys(c.modifiers) - LastModifiers(before)|
  {
    var added := Keys(c.modifiers) - LastModifiers(before);
    RunStartsSplit(before, c);
    StartsAtSize(|before|, added);
    assert RunStarts(before) !! StartsAt(|before|, added);
  }

  lemma {:induction false} TypedLength(chords: seq<KeyChord>)
    ensures |Typed(chords)| + |Held(chords)| == 2 * |chords| + 2 * |RunStarts(chords)|
  {
    if chords == [] {
      assert RunStarts(chords) == {};
    } else {
      var before, c := chords[..|chords| - 1], chords[|chords| - 1];
      assert chords == before + [c];
      var held := Held(before);
      var kept := Kept(held, c.modifiers);
      TypedLength(before);
      RunStartsStep(before, c);
      HeldFacts(before);
      KeptFacts(held, c.modifiers);
      ReplayPresses(kept, c.modifiers);
      PressCount(kept, c.modifiers);
      assert Keys(c.modifiers) - Keys(kept) == Keys(c.modifiers) - LastModifiers(before);
    }
  }

  /** Pressing one more key leaves one fewer to press. */
  lemma KeysLeft(held: seq<KeyCode>, m: KeyCode, rest: seq<KeyCode>)
    ensures Keys([m] + rest) == {m} + Keys(rest) && Keys(held + [m]) == Keys(held) + {m}
    ensures m in held ==> Keys([m] + rest) - Keys(held) == Keys(rest) - Keys(held)
    ensures m !in held ==> |Keys([m] + rest) - Keys(held)| == |Keys(rest) - Keys(held + [m])| + 1
  {
    assert m in [m] + rest && forall k | k in rest :: k in [m] + rest;
    assert m in held + [m] && forall k | k in held :: k in held + [m];
    assert Keys([m] + rest) == {m} + Keys(rest);
    assert Keys(held + [m]) == Keys(held) + {m};
    if m !in held {
      assert Keys([m] + rest) - Keys(held) == Keys(rest) - Keys(held + [m]) + {m};
    }
  }

  lemma {:induction false} PressCount(held: seq<KeyCode>, wanted: seq<KeyCode>)
    ensures |Presses(held, wanted)| == |Keys(wanted) - Keys(held)|
    decreases wanted
  {
    if wanted == [] {
      assert Keys(wanted) - Keys(held) == {};
    } else {
      var m := wanted[0];
      assert wanted == [m] + wanted[1..];
      KeysLeft(held, m, wanted[1..]);
      PressCount(if m in held then held else held + [m], wanted[1..]);
    }
  }

  lemma EmptyKeys(q: seq<KeyCode>)
    ensures Keys(q) == {} <==> q == []
  {
    if q != [] {
      assert q[0] in Keys(q);
    }
  }

  /** Two events per chord, plus two per maximal run of consecutive chords sharing a modifier. */
  lemma ScheduleLength(chords: seq<KeyChord>)
    ensures |Schedule(chords)| == 2 * |chords| + 2 * |MaximalRuns(chords)|
  {
    TypedLength(chords);
    HeldFacts(chords);
    KeptFacts(Held(chords), []);
    MaximalRunsExact(chords);
    EmptyKeys(Kept(Held(chords), []));
  }
}
