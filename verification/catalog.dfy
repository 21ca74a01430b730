/** The static table of monster archetypes a game's dungeon row is drawn from. */
module Catalog {
  import opened Wrappers

  /** Number of monsters in the dungeon row of one game. */
  const MONSTER_DECK_SIZE: nat := 13

  /** The largest base strength in the catalog. */
  const MAX_STRENGTH: nat := 5

  /** Hit markers a monster must collect before it dies. */
  datatype ToSlay = Melee | Range | Move

  /** Special abilities of some monsters. */
  datatype Ability = Noxious | Rally | Reign

  /** One catalog row: name, base strength (a `u8`), ability and three kill-requirement slots. */
  datatype MonsterStats = MonsterStats(
    name: string,
    strength: nat,
    ability: Option<Ability>,
    toSlay: seq<Option<ToSlay>>)

  const MONSTER_STATS: seq<MonsterStats> := [
    MonsterStats("Banshee",    1, None,          [Some(ToSlay.Melee), Some(ToSlay.Range), None]),
    MonsterStats("Beholder",   1, None,          [Some(ToSlay.Range), Some(ToSlay.Range), Some(ToSlay.Range)]),
    MonsterStats("Bug",        1, None,          [Some(ToSlay.Range), None, None]),
    MonsterStats("Demon",      5, None,          [Some(ToSlay.Melee), Some(ToSlay.Range), None]),
    MonsterStats("Dragon",     5, Some(Reign),   [Some(ToSlay.Move), Some(ToSlay.Melee), Some(ToSlay.Range)]),
    MonsterStats("Elemental",  2, None,          [Some(ToSlay.Melee), Some(ToSlay.Range), None]),
    MonsterStats("Ghost",      0, Some(Noxious), [Some(ToSlay.Move), None, None]),
    MonsterStats("Golem",      3, Some(Reign),   [Some(ToSlay.Melee), None, None]),
    MonsterStats("Hellhound",  2, None,          [Some(ToSlay.Range), None, None]),
    MonsterStats("Howler",     4, Some(Rally),   [Some(ToSlay.Melee), None, None]),
    MonsterStats("Imp",        0, None,          [Some(ToSlay.Move), Some(ToSlay.Move), None]),
    MonsterStats("Lich",       4, Some(Reign),   [Some(ToSlay.Range), None, None]),
    MonsterStats("Scorpion",   1, Some(Noxious), [Some(ToSlay.Melee), Some(ToSlay.Range), None]),
    MonsterStats("Skeleton",   2, None,          [Some(ToSlay.Move), Some(ToSlay.Melee), None]),
    MonsterStats("Spider",     1, Some(Noxious), [Some(ToSlay.Range), Some(ToSlay.Range), None]),
    MonsterStats("Troglodyte", 1, Some(Rally),   [Some(ToSlay.Move), Some(ToSlay.Melee), None]),
    MonsterStats("Troll",      3, None,          [Some(ToSlay.Move), Some(ToSlay.Range), None]),
    MonsterStats("Werewolf",   2, None,          [Some(ToSlay.Melee), Some(ToSlay.Melee), None])
  ]

  /** The filled kill-requirement slots, in slot order: the `filter(is_some).map(unwrap)` of monster set-up. */
  function KillRequirements(slots: seq<Option<ToSlay>>): (r: seq<ToSlay>)
    ensures |r| <= |slots|
    ensures forall k :: 0 <= k < |r| ==> Some(r[k]) in slots
  {
    if slots == [] then []
    else
      var rest := KillRequirements(slots[1..]);
      if slots[0].Some? then [slots[0].value] + rest else rest
  }

  /** Each requirement kind occurs as often as the slots hold it. */
  lemma {:induction false} KillRequirementsCount(slots: seq<Option<ToSlay>>)
    ensures forall t :: multiset(KillRequirements(slots))[t] == multiset(slots)[Some(t)]
  {
    if slots != [] {
      KillRequirementsCount(slots[1..]);
      assert slots == [slots[0]] + slots[1..];
    }
  }

  /** No requirement is left exactly when every slot is empty. */
  lemma {:induction false} KillRequirementsEmpty(slots: seq<Option<ToSlay>>)
    ensures (forall k :: 0 <= k < |slots| ==> slots[k] == None) <==> KillRequirements(slots) == []
  {
    if slots != [] {
      KillRequirementsEmpty(slots[1..]);
      if forall k :: 0 <= k < |slots| ==> slots[k] == None {
        assert forall k :: 0 <= k < |slots| - 1 ==> slots[1..][k] == slots[k + 1];
      }
    }
  }

  /** Every archetype has a base strength of at most MAX_STRENGTH and between one and three kill
      requirements, and the catalog is large enough to fill a dungeon row with distinct archetypes. */
  lemma CatalogShape()
    ensures MONSTER_DECK_SIZE <= |MONSTER_STATS| == 18
    ensures forall k :: 0 <= k < |MONSTER_STATS| ==>
      && MONSTER_STATS[k].strength <= MAX_STRENGTH
      && |MONSTER_STATS[k].toSlay| == 3
      && 1 <= |KillRequirements(MONSTER_STATS[k].toSlay)| <= 3
  {
    forall k | 0 <= k < |MONSTER_STATS|
      ensures MONSTER_STATS[k].strength <= MAX_STRENGTH && |MONSTER_STATS[k].toSlay| == 3
      ensures 1 <= |KillRequirements(MONSTER_STATS[k].toSlay)|
    {
      var st := MONSTER_STATS[k];
      assert st.strength <= MAX_STRENGTH && |st.toSlay| == 3 && st.toSlay[0].Some?;
    }
  }
}
