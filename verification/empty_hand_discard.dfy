/**
 * The Noxious discard on an empty hand. A Move that spends the last card of the hand and lands
 * on a living Noxious monster asks for a random card of a hand that is now empty; the remainder
 * by the hand's length is then a remainder by zero.
 */
module EmptyHandDiscard {
  import opened Wrappers
  import opened Catalog
  import opened Cards
  import opened Rules
  import opened Properties

  /**
   * A session satisfying the invariant that triggers it: the character on the first square holds
   * a single card worth 2, and a Move to the right with it lands on a Ghost (catalog entry 6,
   * Noxious). Both selection slots are already filled, so the Move fires on any further click.
   */
  function PanicExample(): (s: Session)
    ensures Board(s)
  {
    var indexes := [0, 1, 6, 2, 3, 4, 5, 7, 8, 9, 10, 11, 12];
    Session(Playing, RowOf(indexes), 0, Regular, 0, CompanionKind.Melee,
            [], [2], REGULAR_HAND_LIMIT, Some(Action.Move(Character, Right)), Some(0), false, PAYMENTS, 0)
  }

  /**
   * The Move arm as written, with the played card already removed: None stands for the panic of
   * the discard on an empty hand. Wherever it does not panic, it resolves like the corrected
   * `ResolveMove`.
   */
  function ResolveMoveAsWritten(s: Session, e: Entity, d: Direction, num: nat, roll: nat): (r: Option<Resolution>)
    requires Board(s)
    ensures r.None? <==> IsNoxious(s.monsters, MoveTarget(EntityIndex(s, e), d, num)) && s.hand == []
    ensures r.Some? ==> r.value == ResolveMove(s, e, d, num, roll)
  {
    var index := MoveTarget(EntityIndex(s, e), d, num);
    var moved := WithEntityIndex(s, e, index).(monsters := AddHit(s.monsters, index, ToSlay.Move));
    var exact := num == EffectiveStrength(s.monsters, index);
    if IsNoxious(s.monsters, index) then
      match NoxiousDiscardAsWritten(moved.hand, roll)
      case None => None
      case Some(hand) => Some(Resolution(moved.(hand := hand, discarded := true), Some(index), false, exact))
    else
      Some(Resolution(moved, Some(index), false, exact))
  }

  /**
   * As written: a Move that plays the last card panics exactly when it lands on a living Noxious
   * monster, because the discard then takes a remainder by the length of the emptied hand.
   */
  lemma LastCardOntoNoxiousPanics(s: Session, e: Entity, d: Direction, roll: nat)
    requires Inv(s) && s.currentAction == Some(Action.Move(e, d)) && s.currentCard == Some(0)
    requires |s.hand| == 1
    ensures NoxiousDiscardAsWritten(Play(s, 0).hand, roll) == None
    ensures ResolveMoveAsWritten(Play(s, 0), e, d, s.hand[0], roll).None?
        <==> IsNoxious(s.monsters, MoveTarget(EntityIndex(s, e), d, s.hand[0]))
  {
    var played := Play(s, 0);
    assert played.hand == [];
    assert played.monsters == s.monsters && EntityIndex(played, e) == EntityIndex(s, e);
  }

  /** ... and a session poised on that Move satisfies the invariant `update` keeps. */
  lemma NoxiousPanicPoised()
    ensures var s := PanicExample();
      && Inv(s) && s.currentAction == Some(Action.Move(Character, Right)) && s.currentCard == Some(0)
      && |s.hand| == 1 && IsNoxious(s.monsters, MoveTarget(EntityIndex(s, Character), Right, s.hand[0]))
  {
    var s := PanicExample();
    assert MoveTarget(0, Right, 2) == 2;
    assert MONSTER_STATS[6].ability == Some(Noxious);
    assert Slain(s.monsters.alive) == {};
  }

  /** Corrected: wherever the code as written does not panic, the corrected discard does the same. */
  lemma NoxiousDiscardAgrees(hand: seq<nat>, roll: nat)
    ensures NoxiousDiscard(hand, roll).1 <==> NoxiousDiscardAsWritten(hand, roll).Some?
    ensures NoxiousDiscard(hand, roll).1 ==> Some(NoxiousDiscard(hand, roll).0) == NoxiousDiscardAsWritten(hand, roll)
    ensures !NoxiousDiscard(hand, roll).1 ==> NoxiousDiscard(hand, roll).0 == hand
  {
  }

  /**
   * Corrected: with the empty-hand discard skipped, the same Move ends like any play of the last
   * card. Nothing is discarded, the player turns Monstrous and draws a hand of up to six.
   */
  lemma LastCardOntoNoxiousUpgrades(s: Session, e: Entity, d: Direction, roll: nat)
    requires Inv(s) && s.currentAction == Some(Action.Move(e, d)) && s.currentCard == Some(0)
    requires |s.hand| == 1 && IsNoxious(s.monsters, MoveTarget(EntityIndex(s, e), d, s.hand[0]))
    ensures Upgraded(Step(s, Elsewhere, roll), s.deck) && !Step(s, Elsewhere, roll).discarded
  {
    assert Select(s, Elsewhere) == s;
    ResolveSpendsSelectedCard(s, roll);
    HandExhaustionUpgrades(s, Elsewhere, roll);
    StepPreservesInv(s, Elsewhere, roll);
  }
}
