/**
 * The `[Flags]` enumeration of directions a search may skip. Its
 * underlying type is a 32-bit integer; each member is one bit.
 */
module ExcludeDirection {

  type Flags = bv32

  const Right: Flags := 1
  const Left: Flags := 1 << 2
  const Up: Flags := 1 << 3
  const Down: Flags := 1 << 4
  const DownLeft: Flags := 1 << 5
  const DownRight: Flags := 1 << 6
  const UpLeft: Flags := 1 << 7
  const UpRight: Flags := 1 << 8

  /** The members in declaration order. */
  const Members: seq<Flags> := [Right, Left, Up, Down, DownLeft, DownRight, UpLeft, UpRight]

  /** A single bit is set. */
  predicate IsPowerOfTwo(f: Flags)
  {
    f != 0 && f & (f - 1) == 0
  }

  /**
   * The OR of the members picked by `mask`: mask[i] says whether
   * Members[i] is part of the combination.
   */
  function Combine(mask: seq<bool>): Flags
    requires |mask| <= |Members|
    decreases |mask|
  {
    if mask == [] then 0
    else Combine(mask[..|mask| - 1]) | (if mask[|mask| - 1] then Members[|mask| - 1] else 0)
  }

  /** Every member is a single power of two. */
  lemma MembersArePowersOfTwo()
    ensures |Members| == 8
    ensures forall i :: 0 <= i < |Members| ==> IsPowerOfTwo(Members[i])
  {
  }

  /** Distinct members share no bit. */
  lemma {:induction false} MembersDisjoint(i: int, j: int)
    requires 0 <= i < |Members| && 0 <= j < |Members| && i != j
    ensures Members[i] & Members[j] == 0
  {
  }

  /** Bit value 2 is skipped: Right is 1 and Left is 4. */
  lemma BitTwoUnused()
    ensures Right == 1 && Left == 4
    ensures forall i :: 0 <= i < |Members| ==> Members[i] & 2 == 0
  {
  }

  /** The value with every member set is 509, which fits in nine bits. */
  lemma AllMembers()
    ensures Combine([true, true, true, true, true, true, true, true]) == 509
    ensures 509 < 512
  {
    var all := [true, true, true, true, true, true, true, true];
    assert Combine(all[..1]) == 1;
    assert all[..2][..1] == all[..1];
    assert Combine(all[..2]) == 5;
    assert all[..3][..2] == all[..2];
    assert Combine(all[..3]) == 13;
    assert all[..4][..3] == all[..3];
    assert Combine(all[..4]) == 29;
    assert all[..5][..4] == all[..4];
    assert Combine(all[..5]) == 61;
    assert all[..6][..5] == all[..5];
    assert Combine(all[..6]) == 125;
    assert all[..7][..6] == all[..6];
    assert Combine(all[..7]) == 253;
    assert all[..8][..7] == all[..7];
    assert Combine(all[..8]) == 509;
    assert all[..8] == all;
  }
}
