/**
 * The local input encoder of src/input.rs: the keyboard state sampled once per
 * tick is packed into one byte per local player, one bit per action, and the
 * simulation reads the bits back.
 */
module Input {

  /** The keys the encoder looks at; every other key is `Other`. */
  datatype Key = Up | Down | Left | Right | W | A | S | D | Space | Return | Other(code: nat)

  /** The five discrete actions, one bit each. */
  datatype Action = RotateUp | RotateDown | RotateLeft | RotateRight | Fire

  const ROTATE_UP: bv8 := 1 << 0
  const ROTATE_DOWN: bv8 := 1 << 1
  const ROTATE_LEFT: bv8 := 1 << 2
  const ROTATE_RIGHT: bv8 := 1 << 3
  const FIRE: bv8 := 1 << 4

  const AllActions: set<Action> := {RotateUp, RotateDown, RotateLeft, RotateRight, Fire}

  /** The bit an action occupies in the encoded byte: a single bit below bit 5. */
  function Flag(a: Action): (f: bv8)
    ensures f != 0 && f & (f - 1) == 0
    ensures f < 32
  {
    match a
    case RotateUp => ROTATE_UP
    case RotateDown => ROTATE_DOWN
    case RotateLeft => ROTATE_LEFT
    case RotateRight => ROTATE_RIGHT
    case Fire => FIRE
  }

  /** The two keys bound to an action; either one triggers it. */
  function Bindings(a: Action): (Key, Key) {
    match a
    case RotateUp => (Up, W)
    case RotateDown => (Down, S)
    case RotateLeft => (Left, A)
    case RotateRight => (Right, D)
    case Fire => (Space, Return)
  }

  /** Bevy's `any_pressed` over a two-key array. */
  predicate AnyPressed(pressed: set<Key>, keys: (Key, Key)) {
    keys.0 in pressed || keys.1 in pressed
  }

  /** The actions the keyboard state asks for, independently of any bit layout. */
  ghost function Requested(pressed: set<Key>): set<Action> {
    set a | a in AllActions && AnyPressed(pressed, Bindings(a))
  }

  /** The actions whose bits are set in an encoded byte. */
  ghost function Decode(input: bv8): set<Action> {
    set a | a in AllActions && input & Flag(a) != 0
  }

  function SetIf(input: bv8, cond: bool, flag: bv8): bv8 {
    if cond then input | flag else input
  }

  /**
   * The byte one local player sends for this tick: starting from zero, each
   * action's flag is or-ed in when one of its two keys is held.
   */
  function Encode(pressed: set<Key>): (input: bv8)
    ensures input < 32
    ensures forall a :: a in AllActions ==> (input & Flag(a) != 0 <==> AnyPressed(pressed, Bindings(a)))
  {
    var i0: bv8 := 0;
    var i1 := SetIf(i0, AnyPressed(pressed, (Up, W)), ROTATE_UP);
    var i2 := SetIf(i1, AnyPressed(pressed, (Down, S)), ROTATE_DOWN);
    var i3 := SetIf(i2, AnyPressed(pressed, (Left, A)), ROTATE_LEFT);
    var i4 := SetIf(i3, AnyPressed(pressed, (Right, D)), ROTATE_RIGHT);
    SetIf(i4, AnyPressed(pressed, (Space, Return)), FIRE)
  }

  /** Whether an encoded input asks to fire. */
  function IsFiring(input: bv8): (r: bool)
    ensures r <==> Fire in Decode(input)
  {
    input & FIRE != 0
  }

  /** The five flags are pairwise disjoint bits, so no two actions share a bit. */
  lemma FlagsDisjoint(a: Action, b: Action)
    requires a != b
    ensures Flag(a) & Flag(b) == 0
    ensures Flag(a) != Flag(b)
  {
  }

  /** Decoding the encoded byte gives back exactly the requested actions. */
  lemma DecodeEncode(pressed: set<Key>)
    ensures Decode(Encode(pressed)) == Requested(pressed)
  {
  }

  /** The encoding loses nothing: two encodable bytes with the same actions are equal. */
  lemma DecodeInjective(x: bv8, y: bv8)
    requires x < 32 && y < 32
    requires Decode(x) == Decode(y)
    ensures x == y
  {
    forall a | a in AllActions
      ensures x & Flag(a) == y & Flag(a)
    {
      assert a in Decode(x) <==> a in Decode(y);
    }
    assert x & 1 == y & 1;
    assert x & 2 == y & 2;
    assert x & 4 == y & 4;
    assert x & 8 == y & 8;
    assert x & 16 == y & 16;
  }

  /** Holding none of the bound keys yields the zero byte, and only then. */
  lemma EncodeZero(pressed: set<Key>)
    ensures Encode(pressed) == 0 <==> Requested(pressed) == {}
  {
    DecodeEncode(pressed);
    var x := Encode(pressed);
    if x != 0 {
      if x & 1 != 0 {
        assert RotateUp in Decode(x);
      } else if x & 2 != 0 {
        assert RotateDown in Decode(x);
      } else if x & 4 != 0 {
        assert RotateLeft in Decode(x);
      } else if x & 8 != 0 {
        assert RotateRight in Decode(x);
      } else {
        assert Fire in Decode(x);
      }
    } else {
      assert Decode(x) == {};
    }
  }

  /** Firing is read back iff Space or Return is held, whatever the rotate keys. */
  lemma FireRoundTrip(pressed: set<Key>)
    ensures IsFiring(Encode(pressed)) <==> (Space in pressed || Return in pressed)
  {
  }

  /** `fire` looks at bit 4 only: flipping any other bits leaves it unchanged. */
  lemma FireReadsOnlyBit4(x: bv8, mask: bv8)
    requires mask & FIRE == 0
    ensures IsFiring(x ^ mask) == IsFiring(x)
  {
  }

  /**
   * `read_local_inputs`: every local handle gets an entry, and every entry
   * holds the byte encoded from this tick's keyboard state.
   */
  method ReadLocalInputs(pressed: set<Key>, localHandles: seq<nat>) returns (inputs: map<nat, bv8>)
    ensures inputs.Keys == set h | h in localHandles
    ensures forall h :: h in inputs ==> inputs[h] == Encode(pressed)
  {
    inputs := map[];
    var k := 0;
    while k < |localHandles|
      invariant k <= |localHandles|
      invariant inputs.Keys == set h | h in localHandles[..k]
      invariant forall h :: h in inputs ==> inputs[h] == Encode(pressed)
    {
      var input := Encode(pressed);
      inputs := inputs[localHandles[k] := input];
      k := k + 1;
    }
    assert localHandles[..k] == localHandles;
  }

  /** The unnormalised rotation direction of `_direction`, before `normalize_or_zero`. */
  datatype Direction = Direction(x: int, y: int)

  /** +1 when the positive flag is set, -1 for the negative one; both cancel. */
  function Axis(input: bv8, positive: bv8, negative: bv8): int {
    (if input & positive != 0 then 1 else 0) - (if input & negative != 0 then 1 else 0)
  }

  function RawDirection(input: bv8): (d: Direction)
    ensures -1 <= d.x <= 1 && -1 <= d.y <= 1
    ensures input & 15 == 0 ==> d == Direction(0, 0)
  {
    Direction(Axis(input, ROTATE_RIGHT, ROTATE_LEFT), Axis(input, ROTATE_UP, ROTATE_DOWN))
  }

  /** +1, -1 or 0 for a pair of opposing requests. */
  function Opposing(plus: bool, minus: bool): int {
    if plus == minus then 0 else if plus then 1 else -1
  }

  /** The direction read from an encoded keyboard state is the key-level difference of opposing keys. */
  lemma DirectionOfEncode(pressed: set<Key>)
    ensures RawDirection(Encode(pressed)) == Direction(
      Opposing(AnyPressed(pressed, (Right, D)), AnyPressed(pressed, (Left, A))),
      Opposing(AnyPressed(pressed, (Up, W)), AnyPressed(pressed, (Down, S))))
  {
  }
}
