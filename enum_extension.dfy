/** The bit test used on `ExcludeDirection` values. */
module EnumExtension {
  import opened ExcludeDirection

  /** The two flag values share at least one bit. */
  predicate HasFlagFast(exclusion: Flags, direction: Flags)
  {
    exclusion & direction != 0
  }

  /** No flag is present in the empty combination. */
  lemma EmptyHasNoFlag(d: Flags)
    ensures !HasFlagFast(0, d)
  {
  }

  /** The test does not depend on the order of its arguments. */
  lemma HasFlagFastSymmetric(e: Flags, d: Flags)
    ensures HasFlagFast(e, d) == HasFlagFast(d, e)
  {
  }

  /** Adding a nonzero flag to any value makes the test succeed for it. */
  lemma HasAddedFlag(e: Flags, d: Flags)
    requires d != 0
    ensures HasFlagFast(e | d, d)
  {
  }

  /** Two different members never test positive for each other. */
  lemma DistinctMembersExclusive(i: int, j: int)
    requires 0 <= i < |Members| && 0 <= j < |Members| && i != j
    ensures !HasFlagFast(Members[i], Members[j])
  {
    MembersDisjoint(i, j);
  }

  /** A flag meets an OR exactly when it meets one of its operands. */
  lemma OrMeets(a: Flags, b: Flags, m: Flags)
    ensures HasFlagFast(a | b, m) <==> HasFlagFast(a, m) || HasFlagFast(b, m)
  {
    assert (a | b) & m == (a & m) | (b & m);
    OrNonzero(a & m, b & m);
  }

  lemma OrNonzero(x: Flags, y: Flags)
    ensures x | y != 0 <==> x != 0 || y != 0
  {
  }

  /** A nonzero flag meets itself. */
  lemma MeetsItself(f: Flags)
    requires f != 0
    ensures HasFlagFast(f, f)
  {
  }

  /** The member picked, or nothing, at position n of a mask. */
  function Picked(mask: seq<bool>, n: int): Flags
    requires 0 <= n < |mask| && n < |Members|
  {
    if mask[n] then Members[n] else 0
  }

  /** Whether the bit added at position n of a mask meets Members[i]. */
  lemma PickedMeets(mask: seq<bool>, n: int, i: int)
    requires 0 <= n < |mask| && n < |Members| && 0 <= i < |Members|
    ensures HasFlagFast(Picked(mask, n), Members[i]) <==> n == i && mask[n]
  {
    if !mask[n] {
      EmptyHasNoFlag(Members[i]);
    } else if n == i {
      MembersArePowersOfTwo();
      MeetsItself(Members[i]);
    } else {
      DistinctMembersExclusive(n, i);
    }
  }

  /** A non-empty mask combines the rest of the mask with its last pick. */
  lemma CombineLast(mask: seq<bool>)
    requires 0 < |mask| <= |Members|
    ensures Combine(mask) == Combine(mask[..|mask| - 1]) | Picked(mask, |mask| - 1)
  {
  }

  /** A non-empty mask meets a flag exactly when the rest of the mask or its last pick does. */
  lemma CombineLastMeets(mask: seq<bool>, m: Flags)
    requires 0 < |mask| <= |Members|
    ensures HasFlagFast(Combine(mask), m) <==>
      HasFlagFast(Combine(mask[..|mask| - 1]), m) || HasFlagFast(Picked(mask, |mask| - 1), m)
  {
    CombineLast(mask);
    OrMeets(Combine(mask[..|mask| - 1]), Picked(mask, |mask| - 1), m);
  }

  /** One step of the decoding: the last pick of a mask decides about its own member only. */
  lemma CombineDecodesStep(mask: seq<bool>, i: int)
    requires 0 < |mask| <= |Members| && 0 <= i < |Members|
    requires HasFlagFast(Combine(mask[..|mask| - 1]), Members[i]) <==> i < |mask| - 1 && mask[i]
    ensures HasFlagFast(Combine(mask), Members[i]) <==> i < |mask| && mask[i]
  {
    CombineLastMeets(mask, Members[i]);
    PickedMeets(mask, |mask| - 1, i);
  }

  /** A combination contains exactly the members its mask picked. */
  lemma {:induction false} CombineDecodes(mask: seq<bool>, i: int)
    requires |mask| <= |Members| && 0 <= i < |Members|
    ensures HasFlagFast(Combine(mask), Members[i]) <==> i < |mask| && mask[i]
    decreases |mask|
  {
    if mask == [] {
      EmptyHasNoFlag(Members[i]);
    } else {
      CombineDecodes(mask[..|mask| - 1], i);
      CombineDecodesStep(mask, i);
    }
  }

  /** Bit value 2 is never part of a combination of members. */
  lemma {:induction false} CombineSkipsBitTwo(mask: seq<bool>)
    requires |mask| <= |Members|
    ensures !HasFlagFast(Combine(mask), 2)
    decreases |mask|
  {
    if mask != [] {
      CombineSkipsBitTwo(mask[..|mask| - 1]);
      BitTwoUnused();
    }
  }

  /** Different choices of members give different values: a combination decodes uniquely. */
  lemma CombineInjective(m1: seq<bool>, m2: seq<bool>)
    requires |m1| == |Members| && |m2| == |Members|
    requires Combine(m1) == Combine(m2)
    ensures m1 == m2
  {
    forall i | 0 <= i < |Members|
      ensures m1[i] == m2[i]
    {
      CombineDecodes(m1, i);
      CombineDecodes(m2, i);
    }
  }
}
