/**
 * The badge decoder of index.js: `getBadges` turns Discord's `public_flags`
 * bitfield into the list of badge names, one per known flag that is set,
 * in ascending order of the flag's value.
 */
module Badges {
  import opened Wrappers

  /** One row of the decoder's table: the flag `1 << shift` and its badge name. */
  datatype Flag = Flag(shift: nat, name: string)

  /**
   * The fixed table. Its keys are the integers `1 << shift`, so enumerating
   * the object's keys visits them in ascending numeric order: the order below.
   */
  const TABLE: seq<Flag> := [
    Flag(0, "discord_staff"),
    Flag(1, "discord_partner"),
    Flag(2, "hypesquad_events"),
    Flag(3, "bug_hunter_level_1"),
    Flag(6, "house_bravery"),
    Flag(7, "house_brilliance"),
    Flag(8, "house_balance"),
    Flag(9, "early_supporter"),
    Flag(14, "bug_hunter_level_2"),
    Flag(17, "verified_bot"),
    Flag(18, "verified_developer")
  ]

  /** The value of `1 << n`. */
  function Pow2(n: nat): (r: nat)
    ensures r >= 1
  {
    if n == 0 then 1 else 2 * Pow2(n - 1)
  }

  /** Bit `n` of `flags` is set, that is, `flags & (1 << n)` is not zero. */
  predicate HasBit(flags: nat, n: nat)
  {
    if n == 0 then flags % 2 == 1 else HasBit(flags / 2, n - 1)
  }

  /** `flags | (1 << n)`. */
  function SetBit(flags: nat, n: nat): (r: nat)
  {
    if HasBit(flags, n) then flags else flags + Pow2(n)
  }

  /** The names of the rows of `t` whose flag is set in `flags`, in row order. */
  function Collect(flags: nat, t: seq<Flag>): (names: seq<string>)
  {
    if t == [] then []
    else
      var last := t[|t| - 1];
      Collect(flags, t[..|t| - 1]) + (if HasBit(flags, last.shift) then [last.name] else [])
  }

  /** What `getBadges(flags)` returns. */
  function Decode(flags: nat): (names: seq<string>)
  {
    Collect(flags, TABLE)
  }

  /** `u.flags?.bitfield || 0`: a missing bitfield reads as no flags. */
  function BitfieldOrZero(bitfield: Option<nat>): (flags: nat)
  {
    match bitfield
    case None => 0
    case Some(f) => f
  }

  /**
   * `getBadges`: walks the table in key order and pushes the name of every
   * row whose flag is set.
   */
  method GetBadges(flags: nat) returns (badges: seq<string>)
    ensures badges == Decode(flags)
    ensures forall k :: 0 <= k < |TABLE| ==> (TABLE[k].name in badges <==> HasBit(flags, TABLE[k].shift))
  {
    badges := [];
    for i := 0 to |TABLE|
      invariant badges == Collect(flags, TABLE[..i])
    {
      if HasBit(flags, TABLE[i].shift) {
        badges := badges + [TABLE[i].name];
      }
      assert TABLE[..i + 1][..i] == TABLE[..i];
    }
    assert TABLE[..|TABLE|] == TABLE;
    DecodeMembership(flags);
  }

  // ---------------------------------------------------------------------
  // The table
  // ---------------------------------------------------------------------

  predicate IsBadgeName(name: string)
  {
    exists k :: 0 <= k < |TABLE| && TABLE[k].name == name
  }

  /** Rows are in strictly ascending flag order and no name occurs twice. */
  lemma TableWellFormed()
    ensures forall i, j :: 0 <= i < j < |TABLE| ==> TABLE[i].shift < TABLE[j].shift
    ensures forall i, j :: 0 <= i < j < |TABLE| ==> TABLE[i].name != TABLE[j].name
  {
  }

  /** The table row that carries `name`. */
  ghost function Position(name: string): (k: nat)
    requires IsBadgeName(name)
    ensures k < |TABLE| && TABLE[k].name == name
  {
    var k :| 0 <= k < |TABLE| && TABLE[k].name == name; k
  }

  /** The flag value `1 << shift` of the badge called `name`. */
  ghost function FlagValue(name: string): (value: nat)
    requires IsBadgeName(name)
  {
    Pow2(TABLE[Position(name)].shift)
  }

  // ---------------------------------------------------------------------
  // Properties of the decoder
  // ---------------------------------------------------------------------

  lemma {:induction false} CollectZero(t: seq<Flag>)
    ensures Collect(0, t) == []
  {
    if t != [] {
      CollectZero(t[..|t| - 1]);
      assert !HasBit(0, t[|t| - 1].shift) by { NoBitOfZero(t[|t| - 1].shift); }
    }
  }

  lemma {:induction false} NoBitOfZero(n: nat)
    ensures !HasBit(0, n)
  {
    if n > 0 {
      NoBitOfZero(n - 1);
    }
  }

  /** No flags, no badges; a missing bitfield gives no badges either. */
  lemma ZeroHasNoBadges(bitfield: Option<nat>)
    requires bitfield.None? || bitfield == Some(0)
    ensures Decode(BitfieldOrZero(bitfield)) == []
  {
    CollectZero(TABLE);
  }

  lemma {:induction false} CollectPrefixMembership(flags: nat, i: nat)
    requires i <= |TABLE|
    ensures forall name :: name in Collect(flags, TABLE[..i]) <==>
      exists k :: 0 <= k < i && TABLE[k].name == name && HasBit(flags, TABLE[k].shift)
  {
    if i > 0 {
      CollectPrefixMembership(flags, i - 1);
      assert TABLE[..i][..i - 1] == TABLE[..i - 1];
    }
  }

  /**
   * A badge name is in the output exactly when the flag of its row is set;
   * nothing but table names is ever output.
   */
  lemma DecodeMembership(flags: nat)
    ensures forall name :: name in Decode(flags) <==>
      exists k :: 0 <= k < |TABLE| && TABLE[k].name == name && HasBit(flags, TABLE[k].shift)
    ensures forall name :: name in Decode(flags) ==> IsBadgeName(name)
  {
    CollectPrefixMembership(flags, |TABLE|);
    assert TABLE[..|TABLE|] == TABLE;
  }

  lemma {:induction false} CollectPrefixOrdered(flags: nat, i: nat)
    requires i <= |TABLE|
    ensures forall a :: 0 <= a < |Collect(flags, TABLE[..i])| ==>
      IsBadgeName(Collect(flags, TABLE[..i])[a]) && Position(Collect(flags, TABLE[..i])[a]) < i
    ensures forall a, b :: 0 <= a < b < |Collect(flags, TABLE[..i])| ==>
      Position(Collect(flags, TABLE[..i])[a]) < Position(Collect(flags, TABLE[..i])[b])
  {
    if i > 0 {
      CollectPrefixOrdered(flags, i - 1);
      assert TABLE[..i][..i - 1] == TABLE[..i - 1];
      TableWellFormed();
      var r := Collect(flags, TABLE[..i - 1]);
      if HasBit(flags, TABLE[i - 1].shift) {
        var name := TABLE[i - 1].name;
        assert IsBadgeName(name);
        assert Position(name) == i - 1;
        assert Collect(flags, TABLE[..i]) == r + [name];
      } else {
        assert Collect(flags, TABLE[..i]) == r;
      }
    }
  }

  lemma {:induction false} Pow2Increasing(m: nat, n: nat)
    requires m < n
    ensures Pow2(m) < Pow2(n)
  {
    if m < n - 1 {
      Pow2Increasing(m, n - 1);
    }
  }

  /**
   * The names come out in strictly ascending order of their flag value,
   * so in particular no name is output twice.
   */
  lemma DecodeAscending(flags: nat)
    ensures forall a :: 0 <= a < |Decode(flags)| ==> IsBadgeName(Decode(flags)[a])
    ensures forall a, b :: 0 <= a < b < |Decode(flags)| ==>
      FlagValue(Decode(flags)[a]) < FlagValue(Decode(flags)[b])
    ensures forall a, b :: 0 <= a < b < |Decode(flags)| ==> Decode(flags)[a] != Decode(flags)[b]
  {
    CollectPrefixOrdered(flags, |TABLE|);
    assert TABLE[..|TABLE|] == TABLE;
    TableWellFormed();
    var r := Decode(flags);
    forall a, b | 0 <= a < b < |r|
      ensures FlagValue(r[a]) < FlagValue(r[b])
    {
      Pow2Increasing(TABLE[Position(r[a])].shift, TABLE[Position(r[b])].shift);
    }
  }

  lemma {:induction false} CollectAgrees(f: nat, g: nat, i: nat)
    requires i <= |TABLE|
    requires forall k :: 0 <= k < i ==> (HasBit(f, TABLE[k].shift) <==> HasBit(g, TABLE[k].shift))
    ensures Collect(f, TABLE[..i]) == Collect(g, TABLE[..i])
  {
    if i > 0 {
      CollectAgrees(f, g, i - 1);
      assert TABLE[..i][..i - 1] == TABLE[..i - 1];
    }
  }

  /** The output depends only on the bits that the table names. */
  lemma DecodeOnlyReadsTableBits(f: nat, g: nat)
    requires forall k :: 0 <= k < |TABLE| ==> (HasBit(f, TABLE[k].shift) <==> HasBit(g, TABLE[k].shift))
    ensures Decode(f) == Decode(g)
  {
    CollectAgrees(f, g, |TABLE|);
    assert TABLE[..|TABLE|] == TABLE;
  }

  /** Setting bit `n` sets bit `n` and no other. */
  lemma {:induction false} HasBitOfSetBit(f: nat, n: nat, m: nat)
    ensures HasBit(SetBit(f, n), m) <==> m == n || HasBit(f, m)
  {
    if !HasBit(f, n) {
      if n == 0 {
        if m > 0 {
          assert (f + 1) / 2 == f / 2;
        }
      } else {
        if m > 0 {
          assert (f + Pow2(n)) / 2 == f / 2 + Pow2(n - 1);
          assert SetBit(f / 2, n - 1) == f / 2 + Pow2(n - 1);
          HasBitOfSetBit(f / 2, n - 1, m - 1);
        }
      }
    }
  }

  /** A flag the table does not know, such as `1 << 4`, never adds a badge. */
  lemma UnknownFlagIgnored(flags: nat, n: nat)
    requires forall k :: 0 <= k < |TABLE| ==> TABLE[k].shift != n
    ensures Decode(SetBit(flags, n)) == Decode(flags)
  {
    forall k | 0 <= k < |TABLE|
      ensures HasBit(SetBit(flags, n), TABLE[k].shift) <==> HasBit(flags, TABLE[k].shift)
    {
      HasBitOfSetBit(flags, n, TABLE[k].shift);
    }
    DecodeOnlyReadsTableBits(SetBit(flags, n), flags);
  }

  /** Taking one more row of the table. */
  lemma CollectStep(flags: nat, i: nat)
    requires i < |TABLE|
    ensures Collect(flags, TABLE[..i + 1]) ==
      Collect(flags, TABLE[..i]) + (if HasBit(flags, TABLE[i].shift) then [TABLE[i].name] else [])
  {
    assert TABLE[..i + 1][..i] == TABLE[..i];
  }

  /** `getBadges(64 | 1)` is `["discord_staff", "house_bravery"]`. */
  lemma DecodeExample()
    ensures Decode(65) == ["discord_staff", "house_bravery"]
  {
    assert Collect(65, TABLE[..0]) == [];
    assert HasBit(65, 0) && !HasBit(65, 1) && !HasBit(65, 2) && !HasBit(65, 3);
    assert HasBit(65, 6) && !HasBit(65, 7) && !HasBit(65, 8) && !HasBit(65, 9);
    assert !HasBit(65, 14) && !HasBit(65, 17) && !HasBit(65, 18);
    for i := 0 to |TABLE|
      invariant Collect(65, TABLE[..i]) ==
        (if i == 0 then [] else if i <= 4 then ["discord_staff"] else ["discord_staff", "house_bravery"])
    {
      CollectStep(65, i);
    }
    assert TABLE[..|TABLE|] == TABLE;
  }
}
