/** What one call of `update` promises, stated and proved over the functions of `Rules`. */
module Properties {
  import opened Wrappers
  import opened Catalog
  import opened Cards
  import opened Rules

  // ---------------------------------------------------------------------------
  // Kill check

  /** Removing the hits one for one empties the requirements exactly when the hits cover them as a multiset. */
  lemma KilledIffCovered(toSlay: seq<ToSlay>, hits: seq<ToSlay>)
    ensures Remaining(toSlay, hits) == [] <==> multiset(toSlay) <= multiset(hits)
  {
    var r := Remaining(toSlay, hits);
    if multiset(toSlay) <= multiset(hits) {
      assert multiset(r) == multiset{};
    } else {
      var t :| multiset(toSlay)[t] > multiset(hits)[t];
      assert t in multiset(r);
    }
  }

  /** The blow on `target` kills: the monster there is alive and its hits cover its requirements. */
  predicate Kills(s: Session, target: Option<nat>)
    requires Board(s) && (target.Some? ==> target.value < N)
  {
    && target.Some? && s.monsters.alive[target.value]
    && multiset(s.monsters.toSlays[target.value]) <= multiset(s.monsters.currentHits[target.value])
  }

  /** The kill check only kills, only the living target, exactly when its hits cover its requirements. */
  lemma KillCheckSpec(s: Session, target: Option<nat>, exact: bool)
    requires Board(s) && (target.Some? ==> target.value < N)
    ensures Board(KillCheck(s, target, exact))
    ensures Kills(s, target) ==>
      KillCheck(s, target, exact)
        == s.(monsters := s.monsters.(alive := s.monsters.alive[target.value := false],
                                      currentHits := s.monsters.currentHits[target.value := []]),
              trophies := if exact then s.trophies + 1 else s.trophies)
    ensures !Kills(s, target) ==> KillCheck(s, target, exact) == s
  {
    if Kills(s, target) {
      KillCheckKills(s, target, exact);
    } else {
      KillCheckSpares(s, target, exact);
    }
  }

  /** On a living target, the blow kills exactly when no requirement remains once its hits are removed. */
  lemma KillsIffNothingRemains(s: Session, t: nat)
    requires Board(s) && t < N
    ensures Kills(s, Some(t)) <==> s.monsters.alive[t] && Remaining(s.monsters.toSlays[t], s.monsters.currentHits[t]) == []
  {
    KilledIffCovered(s.monsters.toSlays[t], s.monsters.currentHits[t]);
  }

  /** A blow that kills marks the target dead, clears its hits and, when exact, earns a trophy. */
  lemma KillCheckKills(s: Session, target: Option<nat>, exact: bool)
    requires Board(s) && (target.Some? ==> target.value < N) && Kills(s, target)
    ensures KillCheck(s, target, exact)
      == s.(monsters := s.monsters.(alive := s.monsters.alive[target.value := false],
                                    currentHits := s.monsters.currentHits[target.value := []]),
            trophies := if exact then s.trophies + 1 else s.trophies)
  {
    KilledIffCovered(s.monsters.toSlays[target.value], s.monsters.currentHits[target.value]);
  }

  /** Any other blow leaves the session as it was. */
  lemma KillCheckSpares(s: Session, target: Option<nat>, exact: bool)
    requires Board(s) && (target.Some? ==> target.value < N) && !Kills(s, target)
    ensures KillCheck(s, target, exact) == s
  {
    if target.Some? && s.monsters.alive[target.value] {
      KilledIffCovered(s.monsters.toSlays[target.value], s.monsters.currentHits[target.value]);
    }
  }

  /** What the kill check leaves to the rest of the update, field by field. */
  lemma KillCheckFields(s: Session, target: Option<nat>, exact: bool)
    requires Board(s) && (target.Some? ==> target.value < N)
    ensures var r := KillCheck(s, target, exact);
      var killed := Kills(s, target);
      && Board(r)
      && (killed ==> !r.monsters.alive[target.value] && r.monsters.currentHits[target.value] == [])
      && (forall i :: 0 <= i < N && (!killed || i != target.value) ==>
            r.monsters.alive[i] == s.monsters.alive[i] && r.monsters.currentHits[i] == s.monsters.currentHits[i])
      && r.trophies == (if killed && exact then s.trophies + 1 else s.trophies)
      && (killed ==> r.monsters.alive == s.monsters.alive[target.value := false])
      && r == s.(monsters := r.monsters, trophies := r.trophies)
      && r.monsters == s.monsters.(alive := r.monsters.alive, currentHits := r.monsters.currentHits)
  {
    KillCheckSpec(s, target, exact);
  }

  // ---------------------------------------------------------------------------
  // Rally

  /** The recomputed adjustment of position `i` is the number of living Rally monsters at `i - 1` and `i + 1`. */
  lemma RallyAdjustmentCounts(m: Row, i: nat)
    requires WellFormed(m) && i < N
    ensures RallyAdjustments(m)[i] == |set j: int | j in {i - 1, i + 1} && Rallies(m, j)|
  {
    var near := set j: int | j in {i - 1, i + 1} && Rallies(m, j);
    var lo, hi := Rallies(m, i - 1), Rallies(m, i + 1);
    if lo && hi {
      assert near == {i - 1, i + 1};
    } else if lo {
      assert near == {i - 1};
    } else if hi {
      assert near == {i + 1};
    } else {
      assert near == {};
    }
  }

  /** The recompute reads only abilities and alive flags, so running it twice changes nothing more. */
  lemma RecomputeIdempotent(s: Session)
    requires Board(s)
    ensures Recompute(Recompute(s)) == Recompute(s)
  {
  }

  /** When a living Rally monster at `k` dies, each neighbour's adjustment drops by one and nothing else moves. */
  lemma RallyDeathLowersNeighbours(m: Row, k: nat)
    requires WellFormed(m) && k < N && Rallies(m, k)
    ensures var after := m.(alive := m.alive[k := false]);
      WellFormed(after)
      && forall i :: 0 <= i < N ==>
           RallyAdjustments(after)[i] == if i + 1 == k || i == k + 1 then RallyAdjustments(m)[i] - 1 else RallyAdjustments(m)[i]
  {
  }

  // ---------------------------------------------------------------------------
  // Resolving the selection

  /** The hit marker an action records. */
  function Marker(a: Action): ToSlay {
    match a
    case Move(_, _) => ToSlay.Move
    case Range(_, _) => ToSlay.Range
    case _ => ToSlay.Melee
  }

  function Other(e: Entity): Entity {
    match e
    case Character => Companion
    case Companion => Character
  }

  /** Selection complete with an action that spends a card (Move, Swap, Range or Melee). */
  predicate CardActionSelected(s: Session) {
    && s.currentAction.Some? && s.currentAction.value != EndTurn
    && s.currentCard.Some? && s.currentCard.value < |s.hand|
  }

  /** The row after a hit on `target`, if there is one. */
  function HitIfAny(m: Row, target: Option<nat>, t: ToSlay): Row
    requires target.Some? ==> target.value < |m.currentHits|
  {
    if target.Some? then AddHit(m, target.value, t) else m
  }

  /** `ResolveRange` spelled out field by field. */
  lemma RangeResolved(s: Session, e: Entity, d: Direction, i: nat, target: Option<nat>, exact: bool)
    requires Board(s) && i < |s.hand|
    requires target == RangeTarget(EntityIndex(s, e), d, s.hand[i])
    requires exact == (target.Some? && s.hand[i] == EffectiveStrength(s.monsters, target.value))
    ensures ResolveRange(Play(s, i), e, d, s.hand[i]) == Resolution(
      Session(s.state, HitIfAny(s.monsters, target, ToSlay.Range), s.playerIndex, s.playerKind, s.companionIndex,
              s.companionKind, s.deck, RemoveAt(s.hand, i), s.handLimit, None, None, s.discarded, s.payments, s.trophies),
      target, false, exact)
  {
  }

  /** `ResolveMove` spelled out field by field, for the method that updates the fields one at a time. */
  lemma MoveResolved(s: Session, e: Entity, d: Direction, i: nat, roll: nat,
                     index: nat, player: nat, companion: nat, left: seq<nat>, punished: bool)
    requires Board(s) && i < |s.hand|
    requires index == MoveTarget(EntityIndex(s, e), d, s.hand[i])
    requires player == (if e == Character then index else s.playerIndex)
    requires companion == (if e == Character then s.companionIndex else index)
    requires var l := RemoveAt(s.hand, i);
      if IsNoxious(s.monsters, index) && |l| != 0 then left == RemoveAt(l, roll % |l|) && punished
      else left == l && punished == s.discarded
    ensures ResolveMove(Play(s, i), e, d, s.hand[i], roll) == Resolution(
      Session(s.state, HitIfAny(s.monsters, Some(index), ToSlay.Move), player, s.playerKind, companion, s.companionKind,
              s.deck, left, s.handLimit, None, None, punished, s.payments, s.trophies),
      Some(index), false, s.hand[i] == EffectiveStrength(s.monsters, index))
  {
  }

  /**
   * A card action spends exactly the selected card whether or not it hits, and clears both
   * selection slots; only a Move onto a living Noxious monster discards one more card, the one at
   * `roll` modulo the remaining hand, and only when a card remains.
   */
  lemma ResolveSpendsSelectedCard(s: Session, roll: nat)
    requires Board(s) && !s.discarded && CardActionSelected(s)
    ensures var r := Resolve(s, roll);
      var spent := RemoveAt(s.hand, s.currentCard.value);
      && r.session.currentAction == None && r.session.currentCard == None && !r.endTurn
      && (r.session.discarded <==>
            s.currentAction.value.Move? && r.target.Some? && IsNoxious(s.monsters, r.target.value) && spent != [])
      && r.session.hand == (if r.session.discarded then RemoveAt(spent, roll % |spent|) else spent)
  {
    var i := s.currentCard.value;
    var played := Play(s, i);
    match s.currentAction.value
    case Move(e, d) =>
      assert Resolve(s, roll) == ResolveMove(played, e, d, s.hand[i], roll);
      var index := MoveTarget(EntityIndex(s, e), d, s.hand[i]);
      var spent := RemoveAt(s.hand, i);
      var punish := IsNoxious(s.monsters, index) && spent != [];
      MoveResolved(s, e, d, i, roll, index,
                   if e == Character then index else s.playerIndex,
                   if e == Character then s.companionIndex else index,
                   if punish then RemoveAt(spent, roll % |spent|) else spent, punish);
    case Range(e, d) =>
      assert Resolve(s, roll) == ResolveRange(played, e, d, s.hand[i]);
    case Melee(e) =>
      assert Resolve(s, roll) == ResolveMelee(played, e, s.hand[i]);
    case Swap =>
    case EndTurn =>
  }

  /**
   * Resolution leaves the deck, the counters, the kinds, the state and every alive flag alone;
   * only a Swap toggles the companion and only EndTurn asks for a reset.
   */
  lemma ResolveFrame(s: Session, roll: nat)
    requires Board(s) && (s.currentCard.Some? ==> s.currentCard.value < |s.hand|)
    ensures var r := Resolve(s, roll);
      && r.session.deck == s.deck && r.session.trophies == s.trophies && r.session.payments == s.payments
      && r.session.handLimit == s.handLimit && r.session.playerKind == s.playerKind && r.session.state == s.state
      && r.session.monsters == s.monsters.(currentHits := r.session.monsters.currentHits)
      && (r.target.Some? ==> CardActionSelected(s) && s.currentAction.value != Swap)
      && (r.session.companionKind == s.companionKind <==> s.currentAction != Some(Swap) || s.currentCard.None?)
      && (r.endTurn <==> s.currentAction == Some(EndTurn))
      && (r.endTurn ==> r.session.currentCard == None)
      && (!r.endTurn && !CardActionSelected(s) ==> r.session == s)
  {
    if CardActionSelected(s) {
      var i := s.currentCard.value;
      var played := Play(s, i);
      match s.currentAction.value
      case Move(e, d) =>
        assert Resolve(s, roll) == ResolveMove(played, e, d, s.hand[i], roll);
      case Range(e, d) =>
        assert Resolve(s, roll) == ResolveRange(played, e, d, s.hand[i]);
      case Melee(e) =>
        assert Resolve(s, roll) == ResolveMelee(played, e, s.hand[i]);
      case Swap =>
        assert Resolve(s, roll) == Resolution(played.(companionKind := Toggled(s.companionKind)), None, false, false);
      case EndTurn =>
    } else if s.currentAction == Some(EndTurn) {
      assert Resolve(s, roll) == Resolution(s.(currentAction := None, currentCard := None), None, true, false);
    } else {
      assert Resolve(s, roll) == Resolution(s, None, false, false);
    }
  }

  /** Resolution adds at most one hit marker, of the action's own kind, on the monster it reports as hit. */
  lemma ResolveRecordsOneHit(s: Session, roll: nat)
    requires Board(s) && (s.currentCard.Some? ==> s.currentCard.value < |s.hand|)
    ensures var r := Resolve(s, roll);
      r.session.monsters.currentHits ==
        if r.target.Some? then
          s.monsters.currentHits[r.target.value := s.monsters.currentHits[r.target.value] + [Marker(s.currentAction.value)]]
        else s.monsters.currentHits
  {
    ResolveFrame(s, roll);
    if CardActionSelected(s) {
      var i := s.currentCard.value;
      var played := Play(s, i);
      match s.currentAction.value
      case Move(e, d) =>
        assert Resolve(s, roll) == ResolveMove(played, e, d, s.hand[i], roll);
      case Range(e, d) =>
        assert Resolve(s, roll) == ResolveRange(played, e, d, s.hand[i]);
      case Melee(e) =>
        assert Resolve(s, roll) == ResolveMelee(played, e, s.hand[i]);
      case Swap =>
      case EndTurn =>
    }
  }

  function Max0(x: int): nat {
    if x < 0 then 0 else x
  }

  /**
   * Move relocates only the chosen piece: to the left it stops at position 0, to the right at the
   * last position; it always records a hit where it lands, and the hit is exact when the card equals
   * that monster's effective strength.
   */
  lemma MoveClamps(s: Session, roll: nat, e: Entity, d: Direction)
    requires Board(s) && !s.discarded && CardActionSelected(s) && s.currentAction.value == Action.Move(e, d)
    ensures var r := Resolve(s, roll);
      var num := s.hand[s.currentCard.value];
      var from := EntityIndex(s, e);
      var to := if d == Left then Max0(from - num) else (if from + num < N then from + num else N - 1);
      && to < N
      && r.target == Some(to)
      && EntityIndex(r.session, e) == to
      && EntityIndex(r.session, Other(e)) == EntityIndex(s, Other(e))
      && r.session.monsters.currentHits[to] == s.monsters.currentHits[to] + [ToSlay.Move]
      && r.exact == (num == EffectiveStrength(s.monsters, to))
  {
  }

  /**
   * Range hits the position `num` squares away only when it lies inside the row; otherwise nothing
   * is hit, no trophy is possible and the row is unchanged, though the card is spent.
   */
  lemma RangeHitsOnlyInsideRow(s: Session, roll: nat, e: Entity, d: Direction)
    requires Board(s) && CardActionSelected(s) && s.currentAction.value == Action.Range(e, d)
    ensures var r := Resolve(s, roll);
      var num := s.hand[s.currentCard.value];
      var aim: int := if d == Left then EntityIndex(s, e) - num else EntityIndex(s, e) + num;
      && (r.target.Some? <==> 0 <= aim < N)
      && (r.target.Some? ==> r.target.value == aim && r.exact == (num == EffectiveStrength(s.monsters, aim)))
      && (r.target.None? ==> !r.exact && r.session.monsters == s.monsters)
      && r.session.hand == RemoveAt(s.hand, s.currentCard.value)
      && r.session.playerIndex == s.playerIndex && r.session.companionIndex == s.companionIndex
  {
  }

  /**
   * Melee hits the monster under the chosen piece exactly when the card reaches its effective
   * strength, and the hit is exact exactly when the card equals it.
   */
  lemma MeleeHitIffStrongEnough(s: Session, roll: nat, e: Entity)
    requires Board(s) && CardActionSelected(s) && s.currentAction.value == Action.Melee(e)
    ensures var r := Resolve(s, roll);
      var num := s.hand[s.currentCard.value];
      var strength := EffectiveStrength(s.monsters, EntityIndex(s, e));
      && (r.target.Some? <==> num >= strength)
      && (r.target.Some? ==> r.target.value == EntityIndex(s, e))
      && (r.exact <==> num == strength)
      && r.session.playerIndex == s.playerIndex && r.session.companionIndex == s.companionIndex
  {
  }

  /** Resolution only ever removes cards from the hand, and keeps the selected card index valid. */
  lemma ResolveKeepsHandValid(s: Session, roll: nat)
    requires Board(s) && !s.discarded && (s.currentCard.Some? ==> s.currentCard.value < |s.hand|)
    ensures var r := Resolve(s, roll);
      && multiset(r.session.hand) <= multiset(s.hand)
      && (r.session.currentCard.Some? ==> r.session.hand == s.hand && r.session.currentCard == s.currentCard)
      && (r.session.discarded ==> r.target.Some?)
  {
    var r := Resolve(s, roll);
    if CardActionSelected(s) {
      ResolveSpendsSelectedCard(s, roll);
      var spent := RemoveAt(s.hand, s.currentCard.value);
      if r.session.discarded {
        SpentHandShrinks(s.hand, s.currentCard.value, roll % |spent|, r.session.hand);
      } else {
        SpentHandShrinks(s.hand, s.currentCard.value, 0, spent);
      }
    } else {
      ResolveFrame(s, roll);
      assert r.session.hand == s.hand;
    }
  }

  /** Spending card `i`, and perhaps discarding card `j` of what is left, only removes cards. */
  lemma SpentHandShrinks(hand: seq<nat>, i: nat, j: nat, hand': seq<nat>)
    requires i < |hand|
    requires hand' == RemoveAt(hand, i) || (j < |hand| - 1 && hand' == RemoveAt(RemoveAt(hand, i), j))
    ensures multiset(hand') <= multiset(hand)
  {
  }

  // ---------------------------------------------------------------------------
  // Hand lifecycle

  /**
   * The end of `update`: an empty hand with no Noxious discard turns the player Monstrous with a
   * hand limit of 6; on that or an EndTurn the hand is thrown away and refilled with up to
   * hand-limit cards popped off the deck, and every monster's hits are cleared; the game ends
   * exactly when hand and deck are then both empty; the discard flag is always cleared.
   */
  lemma FinishSpec(s: Session, endTurn: bool)
    requires Board(s)
    ensures var r := Finish(s, endTurn);
      var exhausted := |s.hand| == 0 && !s.discarded;
      var limit := if exhausted then MONSTROUS_HAND_LIMIT else s.handLimit;
      var k := Min(limit, |s.deck|);
      && r.handLimit == limit
      && r.playerKind == (if exhausted then Monstrous else s.playerKind)
      && (endTurn || exhausted ==>
            && r.hand == Popped(s.deck, k) && r.deck == s.deck[..|s.deck| - k]
            && forall i :: 0 <= i < N ==> r.monsters.currentHits[i] == [])
      && (!endTurn && !exhausted ==> r.hand == s.hand && r.deck == s.deck && r.monsters == s.monsters)
      && (r.state == EndGame <==> s.state == EndGame || (r.hand == [] && r.deck == []))
      && (r.state != EndGame ==> r.state == s.state)
      && r == s.(hand := r.hand, deck := r.deck, handLimit := r.handLimit, playerKind := r.playerKind,
                 state := r.state, discarded := false, monsters := r.monsters)
      && r.monsters == s.monsters.(currentHits := r.monsters.currentHits)
  {
  }

  // ---------------------------------------------------------------------------
  // One whole update

  /** A Reset click only moves the game to the Reset state. */
  lemma ResetShortCircuits(s: Session, roll: nat)
    requires Inv(s)
    ensures Step(s, RequestReset, roll) == s.(state := Reset)
  {
  }

  /** No card appears from nowhere between (`hand`, `deck`) and (`hand'`, `deck'`), and the deck only loses its top. */
  predicate NoCardCreated(hand: seq<nat>, deck: seq<nat>, hand': seq<nat>, deck': seq<nat>) {
    multiset(hand') + multiset(deck') <= multiset(hand) + multiset(deck) && deck' <= deck
  }

  /** Drawing the top `k` cards into a fresh hand gives up the old hand and keeps a prefix of the deck. */
  lemma RefillConserves(hand: seq<nat>, deck: seq<nat>, k: nat, hand': seq<nat>, deck': seq<nat>)
    requires k <= |deck| && hand' == Popped(deck, k) && deck' == deck[..|deck| - k]
    ensures NoCardCreated(hand, deck, hand', deck')
  {
    PoppedConserves(deck, k);
  }

  /** Keeping hand and deck creates no card. */
  lemma NoCardCreatedWhenKept(hand: seq<nat>, deck: seq<nat>, hand': seq<nat>, deck': seq<nat>)
    requires hand' == hand && deck' == deck
    ensures NoCardCreated(hand, deck, hand', deck')
  {
  }

  /** The end of an update, assembled from its parts: limit and kind, the new hand and deck, the row. */
  lemma FinishAssembled(s: Session, endTurn: bool, limit: nat, kind: PlayerKind, h: seq<nat>, d: seq<nat>, m: Row)
    requires Board(s)
    requires var exhausted := |s.hand| == 0 && !s.discarded;
      && limit == (if exhausted then MONSTROUS_HAND_LIMIT else s.handLimit)
      && kind == (if exhausted then Monstrous else s.playerKind)
      && (endTurn || exhausted ==>
            && h == Popped(s.deck, Min(limit, |s.deck|)) && d == s.deck[..|s.deck| - Min(limit, |s.deck|)]
            && m == s.monsters.(currentHits := seq(N, i => [])))
      && (!endTurn && !exhausted ==> h == s.hand && d == s.deck && m == s.monsters)
    ensures Finish(s, endTurn)
      == s.(handLimit := limit, playerKind := kind, hand := h, deck := d, monsters := m,
            state := if |h| == 0 && |d| == 0 then EndGame else s.state, discarded := false)
  {
  }

  /** The end of an update either keeps hand and deck or refills the hand from the top of the deck. */
  lemma FinishDraws(s: Session, endTurn: bool)
    requires Board(s)
    ensures var r := Finish(s, endTurn);
      var exhausted := |s.hand| == 0 && !s.discarded;
      var k := Min(if exhausted then MONSTROUS_HAND_LIMIT else s.handLimit, |s.deck|);
      && (endTurn || exhausted ==> r.hand == Popped(s.deck, k) && r.deck == s.deck[..|s.deck| - k])
      && (!endTurn && !exhausted ==> r.hand == s.hand && r.deck == s.deck)
  {
  }

  /** The end of an update never creates a card. */
  lemma FinishConservesCards(s: Session, endTurn: bool)
    requires Board(s)
    ensures var r := Finish(s, endTurn); NoCardCreated(s.hand, s.deck, r.hand, r.deck)
  {
    var r := Finish(s, endTurn);
    FinishDraws(s, endTurn);
    var exhausted := |s.hand| == 0 && !s.discarded;
    if endTurn || exhausted {
      var k := Min(if exhausted then MONSTROUS_HAND_LIMIT else s.handLimit, |s.deck|);
      RefillConserves(s.hand, s.deck, k, r.hand, r.deck);
    } else {
      NoCardCreatedWhenKept(s.hand, s.deck, r.hand, r.deck);
    }
  }

  /** One update, phase by phase. */
  lemma StepPhases(s: Session, click: Click, roll: nat)
    requires Inv(s) && ClickAllowed(s, click) && !click.RequestReset?
    ensures var resolved := Resolve(Select(s, click), roll);
      var fought := Recompute(KillCheck(resolved.session, resolved.target, resolved.exact));
      && Step(s, click, roll) == Finish(fought, resolved.endTurn)
      && fought == resolved.session.(monsters := fought.monsters, trophies := fought.trophies)
  {
  }

  /** Cards are never created: hand and deck together only lose cards, and the deck only loses its top. */
  lemma StepConservesCards(s: Session, click: Click, roll: nat)
    requires Inv(s) && ClickAllowed(s, click)
    ensures var r := Step(s, click, roll); NoCardCreated(s.hand, s.deck, r.hand, r.deck)
  {
    if !click.RequestReset? {
      var s1 := Select(s, click);
      var resolved := Resolve(s1, roll);
      var fought := Recompute(KillCheck(resolved.session, resolved.target, resolved.exact));
      assert Step(s, click, roll) == Finish(fought, resolved.endTurn) by {
        StepPhases(s, click, roll);
      }
      assert fought.deck == s.deck && multiset(fought.hand) <= multiset(s.hand) by {
        ResolveFrame(s1, roll);
        ResolveKeepsHandValid(s1, roll);
      }
      var r := Finish(fought, resolved.endTurn);
      assert NoCardCreated(fought.hand, s.deck, r.hand, r.deck) by {
        FinishConservesCards(fought, resolved.endTurn);
      }
      NoCardCreatedFromLess(s.hand, fought.hand, s.deck, r.hand, r.deck);
    }
  }

  /** Starting from fewer cards in hand, still no card is created. */
  lemma NoCardCreatedFromLess(hand: seq<nat>, fewer: seq<nat>, deck: seq<nat>, hand': seq<nat>, deck': seq<nat>)
    requires multiset(fewer) <= multiset(hand) && NoCardCreated(fewer, deck, hand', deck')
    ensures NoCardCreated(hand, deck, hand', deck')
  {
  }

  /** Trophies grow by at most one per update, and only for an exact-strength blow that killed a living monster. */
  lemma TrophyOnlyForExactKill(s: Session, click: Click, roll: nat)
    requires Inv(s) && ClickAllowed(s, click) && !click.RequestReset?
    ensures var r := Step(s, click, roll);
      var resolved := Resolve(Select(s, click), roll);
      && (r.trophies == s.trophies || r.trophies == s.trophies + 1)
      && (r.trophies == s.trophies + 1 <==>
            && resolved.exact && resolved.target.Some?
            && s.monsters.alive[resolved.target.value] && !r.monsters.alive[resolved.target.value])
  {
    var s1 := Select(s, click);
    var resolved := Resolve(s1, roll);
    ResolveFrame(s1, roll);
    KillCheckFields(resolved.session, resolved.target, resolved.exact);
    var fought := Recompute(KillCheck(resolved.session, resolved.target, resolved.exact));
    assert Step(s, click, roll) == Finish(fought, resolved.endTurn) by {
      StepPhases(s, click, roll);
    }
    FinishSpec(fought, resolved.endTurn);
  }

  /** A slain monster stays slain: no update brings one back. */
  lemma StepNeverRevives(s: Session, click: Click, roll: nat)
    requires Inv(s) && ClickAllowed(s, click) && !click.RequestReset?
    ensures var r := Step(s, click, roll);
      forall i :: 0 <= i < N && !s.monsters.alive[i] ==> !r.monsters.alive[i]
  {
    var s1 := Select(s, click);
    var resolved := Resolve(s1, roll);
    ResolveFrame(s1, roll);
    KillCheckFields(resolved.session, resolved.target, resolved.exact);
    var fought := Recompute(KillCheck(resolved.session, resolved.target, resolved.exact));
    assert Step(s, click, roll) == Finish(fought, resolved.endTurn) by {
      StepPhases(s, click, roll);
    }
    FinishSpec(fought, resolved.endTurn);
  }

  /** After every update the strength adjustments are exactly the from-scratch Rally recompute, each at most 2. */
  lemma StepRecomputesRally(s: Session, click: Click, roll: nat)
    requires Inv(s) && ClickAllowed(s, click) && !click.RequestReset?
    ensures var r := Step(s, click, roll);
      && r.monsters.strengthAdjustments == RallyAdjustments(r.monsters)
      && forall i :: 0 <= i < N ==> r.monsters.strengthAdjustments[i] <= 2
  {
    var s1 := Select(s, click);
    var resolved := Resolve(s1, roll);
    var fought := Recompute(KillCheck(resolved.session, resolved.target, resolved.exact));
    assert Step(s, click, roll) == Finish(fought, resolved.endTurn) by {
      StepPhases(s, click, roll);
    }
    var r := Finish(fought, resolved.endTurn);
    assert r.monsters == fought.monsters.(currentHits := r.monsters.currentHits) by {
      FinishSpec(fought, resolved.endTurn);
    }
    RallyIgnoresHits(fought.monsters, r.monsters.currentHits);
  }

  /** The Rally recompute depends on abilities and alive flags only, not on the hits. */
  lemma RallyIgnoresHits(m: Row, hits: seq<seq<ToSlay>>)
    requires WellFormed(m) && |hits| == N
    ensures RallyAdjustments(m.(currentHits := hits)) == RallyAdjustments(m)
  {
    var m' := m.(currentHits := hits);
    assert forall i :: 0 <= i < N ==> RallyBonus(m', i) == RallyBonus(m, i);
  }

  /** The Monstrous upgrade and the hand limit never revert, and a game that ended stays ended until reset. */
  lemma StepMonotone(s: Session, click: Click, roll: nat)
    requires Inv(s) && ClickAllowed(s, click)
    ensures var r := Step(s, click, roll);
      && s.handLimit <= r.handLimit
      && (s.playerKind == Monstrous ==> r.playerKind == Monstrous)
      && (s.state == EndGame ==> r.state == EndGame || click.RequestReset?)
      && (r.state == Playing ==> s.state == Playing)
      && !r.discarded
  {
    if !click.RequestReset? {
      var s1 := Select(s, click);
      var resolved := Resolve(s1, roll);
      var fought := Recompute(KillCheck(resolved.session, resolved.target, resolved.exact));
      assert fought.handLimit == s.handLimit && fought.playerKind == s.playerKind && fought.state == s.state by {
        ResolveFrame(s1, roll);
      }
      assert Step(s, click, roll) == Finish(fought, resolved.endTurn) by {
        StepPhases(s, click, roll);
      }
      FinishSpec(fought, resolved.endTurn);
    }
  }

  /** Killing a living monster adds exactly its position to the slain ones. */
  lemma SlainAfterKill(alive: seq<bool>, t: nat)
    requires t < |alive| && alive[t]
    ensures |Slain(alive[t := false])| == |Slain(alive)| + 1
  {
    assert Slain(alive[t := false]) == Slain(alive) + {t};
  }

  /** Cards drawn from valid hand and deck are valid, and there are no more of them. */
  lemma SubCardsValid(a: seq<nat>, b: seq<nat>, c: seq<nat>, d: seq<nat>)
    requires ValidCards(a) && ValidCards(b)
    requires multiset(c) + multiset(d) <= multiset(a) + multiset(b)
    ensures ValidCards(c) && ValidCards(d)
    ensures |c| + |d| <= |a| + |b|
  {
    var small, big := multiset(c) + multiset(d), multiset(a) + multiset(b);
    forall k | 0 <= k < |c| ensures ValidCard(c[k]) {
      assert c[k] in small;
      assert c[k] in multiset(a) || c[k] in multiset(b);
    }
    forall k | 0 <= k < |d| ensures ValidCard(d[k]) {
      assert d[k] in small;
      assert d[k] in multiset(a) || d[k] in multiset(b);
    }
    assert big == small + (big - small);
    assert |big| == |small| + |big - small|;
  }

  /** A click the presentation layer can produce keeps the invariant. */
  lemma SelectKeepsInv(s: Session, click: Click)
    requires Inv(s) && ClickAllowed(s, click)
    ensures Inv(Select(s, click))
  {
  }

  /** Resolution keeps the invariant, except that the discard flag may now be set. */
  lemma ResolveKeepsInv(s: Session, roll: nat)
    requires Inv(s)
    ensures var r := Resolve(s, roll);
      && Inv(r.session.(discarded := false))
      && (r.endTurn ==> r.session.currentCard == None)
  {
    var r := Resolve(s, roll);
    ResolveFrame(s, roll);
    ResolveKeepsHandValid(s, roll);
    SubCardsValid(s.hand, s.deck, r.session.hand, r.session.deck);
  }

  /** The kill check keeps the invariant: a trophy always comes with a newly slain monster. */
  lemma KillCheckKeepsInv(s: Session, target: Option<nat>, exact: bool)
    requires Inv(s.(discarded := false)) && (target.Some? ==> target.value < N)
    ensures Inv(Recompute(KillCheck(s, target, exact)).(discarded := false))
  {
    KillCheckFields(s, target, exact);
    var r := KillCheck(s, target, exact);
    if r != s {
      SlainAfterKill(s.monsters.alive, target.value);
    }
  }

  /** The end of `update` restores the whole invariant. */
  lemma FinishKeepsInv(s: Session, endTurn: bool)
    requires Inv(s.(discarded := false)) && (endTurn ==> s.currentCard == None)
    ensures Inv(Finish(s, endTurn))
  {
    var r := Finish(s, endTurn);
    FinishSpec(s, endTurn);
    FinishConservesCards(s, endTurn);
    SubCardsValid(s.hand, s.deck, r.hand, r.deck);
  }

  /** Every update keeps the session invariant: bounds, hand limit, selection, cards and trophies. */
  lemma StepPreservesInv(s: Session, click: Click, roll: nat)
    requires Inv(s) && ClickAllowed(s, click)
    ensures Inv(Step(s, click, roll))
  {
    if !click.RequestReset? {
      var s1 := Select(s, click);
      SelectKeepsInv(s, click);
      var resolved := Resolve(s1, roll);
      ResolveKeepsInv(s1, roll);
      KillCheckKeepsInv(resolved.session, resolved.target, resolved.exact);
      var fought := Recompute(KillCheck(resolved.session, resolved.target, resolved.exact));
      assert fought.currentCard == resolved.session.currentCard;
      StepPhases(s, click, roll);
      FinishKeepsInv(fought, resolved.endTurn);
    }
  }

  /**
   * Playing the last card without a Noxious discard makes the player Monstrous, raises the hand
   * limit to 6, deals up to six cards off the top of the deck and clears every monster's hits.
   */
  lemma HandExhaustionUpgrades(s: Session, click: Click, roll: nat)
    requires Inv(s) && ClickAllowed(s, click) && !click.RequestReset?
    requires var resolved := Resolve(Select(s, click), roll);
      resolved.session.hand == [] && !resolved.session.discarded
    ensures Upgraded(Step(s, click, roll), s.deck)
  {
    var s1 := Select(s, click);
    var resolved := Resolve(s1, roll);
    var fought := Recompute(KillCheck(resolved.session, resolved.target, resolved.exact));
    assert fought.hand == [] && !fought.discarded && fought.deck == s.deck by {
      ResolveFrame(s1, roll);
    }
    assert Step(s, click, roll) == Finish(fought, resolved.endTurn) by {
      StepPhases(s, click, roll);
    }
    FinishAfterExhaustion(fought, resolved.endTurn, s.deck);
  }

  /**
   * `r` is the session of a Monstrous player with hand limit 6, whose hand is up to six cards
   * popped off `deck`, whose deck is the rest, and whose monsters carry no hits.
   */
  predicate Upgraded(r: Session, deck: seq<nat>) {
    var k := Min(MONSTROUS_HAND_LIMIT, |deck|);
    && r.playerKind == Monstrous && r.handLimit == MONSTROUS_HAND_LIMIT
    && r.hand == Popped(deck, k) && r.deck == deck[..|deck| - k]
    && |r.monsters.currentHits| == N && forall i :: 0 <= i < N ==> r.monsters.currentHits[i] == []
  }

  /** The end of an update that starts with an empty hand and nothing discarded. */
  lemma FinishAfterExhaustion(s: Session, endTurn: bool, deck: seq<nat>)
    requires Board(s) && s.hand == [] && !s.discarded && s.deck == deck
    ensures Upgraded(Finish(s, endTurn), deck)
  {
    FinishSpec(s, endTurn);
  }

  /** After an update that is not a reset, the game is over exactly when hand and deck are both empty. */
  lemma EndGameIffNoCards(s: Session, click: Click, roll: nat)
    requires Inv(s) && ClickAllowed(s, click) && !click.RequestReset?
    ensures var r := Step(s, click, roll);
      r.state == EndGame <==> r.hand == [] && r.deck == []
  {
    var s1 := Select(s, click);
    var resolved := Resolve(s1, roll);
    var fought := Recompute(KillCheck(resolved.session, resolved.target, resolved.exact));
    assert fought.state == EndGame ==> fought.hand == [] && fought.deck == [] by {
      ResolveFrame(s1, roll);
      ResolveKeepsHandValid(s1, roll);
    }
    assert Step(s, click, roll) == Finish(fought, resolved.endTurn) by {
      StepPhases(s, click, roll);
    }
    FinishEndsExactlyWhenEmpty(fought, resolved.endTurn);
  }

  /** The end of `update` kills nobody and awards nothing. */
  lemma FinishKeepsTally(s: Session, endTurn: bool)
    requires Board(s)
    ensures var r := Finish(s, endTurn);
      r.monsters.alive == s.monsters.alive && r.trophies == s.trophies && r.payments == s.payments
  {
  }

  /** The end of `update` leaves the game over exactly when hand and deck are empty, if an ended game had no cards. */
  lemma FinishEndsExactlyWhenEmpty(s: Session, endTurn: bool)
    requires Board(s) && (s.state == EndGame ==> s.hand == [] && s.deck == [])
    ensures var r := Finish(s, endTurn);
      r.state == EndGame <==> r.hand == [] && r.deck == []
  {
    FinishSpec(s, endTurn);
  }

  /**
   * A Melee whose card equals the effective strength of a living monster under the chosen piece,
   * when that hit completes its requirements, kills it and earns exactly one trophy.
   */
  lemma ExactMeleeKillEarnsTrophy(s: Session, roll: nat, e: Entity)
    requires Inv(s) && CardActionSelected(s) && s.currentAction.value == Action.Melee(e)
    requires var t := EntityIndex(s, e);
      && s.hand[s.currentCard.value] == EffectiveStrength(s.monsters, t)
      && s.monsters.alive[t]
      && multiset(s.monsters.toSlays[t]) <= multiset(s.monsters.currentHits[t] + [ToSlay.Melee])
    ensures SlainForTrophy(Step(s, Elsewhere, roll), EntityIndex(s, e), s.trophies)
  {
    ExactMeleeKills(s, roll, e);
    assert Select(s, Elsewhere) == s;
    StepKeepsSlain(s, Elsewhere, roll, EntityIndex(s, e), s.trophies);
  }

  /** In `r` the monster at `t` is dead and the trophies number one more than `before`. */
  predicate SlainForTrophy(r: Session, t: nat, before: nat) {
    t < |r.monsters.alive| && !r.monsters.alive[t] && r.trophies == before + 1
  }

  /** A kill and its trophy from the kill check of an update are still there when the update ends. */
  lemma StepKeepsSlain(s: Session, click: Click, roll: nat, t: nat, before: nat)
    requires Inv(s) && ClickAllowed(s, click) && !click.RequestReset?
    requires var resolved := Resolve(Select(s, click), roll);
      SlainForTrophy(Recompute(KillCheck(resolved.session, resolved.target, resolved.exact)), t, before)
    ensures SlainForTrophy(Step(s, click, roll), t, before)
  {
    var resolved := Resolve(Select(s, click), roll);
    StepPhases(s, click, roll);
    FinishKeepsSlain(Recompute(KillCheck(resolved.session, resolved.target, resolved.exact)), resolved.endTurn, t, before);
  }

  /** The end of an update keeps a kill and its trophy. */
  lemma FinishKeepsSlain(s: Session, endTurn: bool, t: nat, before: nat)
    requires Board(s) && SlainForTrophy(s, t, before)
    ensures SlainForTrophy(Finish(s, endTurn), t, before)
  {
    FinishKeepsTally(s, endTurn);
  }

  /** The kill-check half of the lemma above. */
  lemma ExactMeleeKills(s: Session, roll: nat, e: Entity)
    requires Board(s) && !s.discarded && CardActionSelected(s) && s.currentAction.value == Action.Melee(e)
    requires var t := EntityIndex(s, e);
      && s.hand[s.currentCard.value] == EffectiveStrength(s.monsters, t)
      && s.monsters.alive[t]
      && multiset(s.monsters.toSlays[t]) <= multiset(s.monsters.currentHits[t] + [ToSlay.Melee])
    ensures var resolved := Resolve(s, roll);
      SlainForTrophy(Recompute(KillCheck(resolved.session, resolved.target, resolved.exact)), EntityIndex(s, e), s.trophies)
  {
    var t := EntityIndex(s, e);
    var resolved := Resolve(s, roll);
    assert resolved.target == Some(t) && resolved.exact by {
      MeleeHitIffStrongEnough(s, roll, e);
    }
    var hit := resolved.session;
    assert hit.monsters.alive[t] && hit.trophies == s.trophies
           && multiset(hit.monsters.toSlays[t]) <= multiset(hit.monsters.currentHits[t]) by {
      ResolveRecordsOneHit(s, roll);
      ResolveFrame(s, roll);
    }
    KillCheckFields(hit, resolved.target, resolved.exact);
  }

  // ---------------------------------------------------------------------------
  // Scoring

  /** At the end of the game no cards are left, so the score is payments times 3 plus trophies times 2. */
  lemma ScoreAtEndGame(s: Session)
    requires Inv(s) && s.state == EndGame
    ensures Score(s) == s.payments * 3 + s.trophies * 2
  {
  }

  /** The score is bounded by the deck size and the row length, far inside the `u32` it is computed in. */
  lemma ScoreFitsU32(s: Session)
    requires Inv(s)
    ensures Score(s) <= 3 * DECK_SIZE + 2 * N < 0x1_0000_0000
  {
    SlainBound(s.monsters.alive);
  }

  /** No more monsters can be slain than there are positions. */
  lemma {:induction false} SlainBound(alive: seq<bool>)
    ensures |Slain(alive)| <= |alive|
  {
    if alive != [] {
      var n := |alive| - 1;
      SlainBound(alive[..n]);
      var before := Slain(alive[..n]);
      if alive[n] {
        assert Slain(alive) == before;
      } else {
        assert Slain(alive) == before + {n};
      }
    }
  }

  // ---------------------------------------------------------------------------
  // Set-up

  /**
   * A new game: 40 cards of which one payment is set aside and five are dealt, leaving 34 in the
   * deck; no card is lost except the payment, and the session satisfies the invariant.
   */
  lemma InitialSessionValid(indexes: seq<nat>, companionKind: CompanionKind, shuffled: seq<nat>)
    requires ValidIndexes(indexes) && |shuffled| == DECK_SIZE
    requires multiset(shuffled) == multiset(FRESH_DECK)
    ensures var s := InitialSession(indexes, companionKind, shuffled);
      && Inv(s)
      && |s.deck| == 34 && |s.hand| == REGULAR_HAND_LIMIT && s.payments == PAYMENTS
      && multiset(s.hand) + multiset(s.deck) + multiset{shuffled[DECK_SIZE - 1]} == multiset(shuffled)
      && s.state == Playing && s.trophies == 0
  {
    var s := InitialSession(indexes, companionKind, shuffled);
    assert ValidCards(shuffled) by {
      FreshDeckValid();
      SubCardsValid(FRESH_DECK, [], shuffled, []);
    }
    FirstDeal(shuffled, s.hand, s.deck);
  }

  lemma SplitLast(s: seq<nat>)
    requires s != []
    ensures multiset(s) == multiset(s[..|s| - 1]) + multiset{s[|s| - 1]}
  {
    assert s == s[..|s| - 1] + [s[|s| - 1]];
  }

  /** The cards of the first deal: the top five of the deck after the payment. */
  lemma FirstDeal(shuffled: seq<nat>, hand: seq<nat>, deck: seq<nat>)
    requires |shuffled| == DECK_SIZE && ValidCards(shuffled)
    requires hand == Popped(shuffled[..DECK_SIZE - PAYMENTS], REGULAR_HAND_LIMIT)
    requires deck == shuffled[..DECK_SIZE - PAYMENTS][..DECK_SIZE - PAYMENTS - REGULAR_HAND_LIMIT]
    ensures ValidCards(hand) && ValidCards(deck)
    ensures multiset(hand) + multiset(deck) + multiset{shuffled[DECK_SIZE - 1]} == multiset(shuffled)
  {
    var paid := shuffled[..DECK_SIZE - PAYMENTS];
    assert multiset(hand) + multiset(deck) + multiset{shuffled[DECK_SIZE - 1]} == multiset(shuffled) by {
      SplitLast(shuffled);
      PoppedConserves(paid, REGULAR_HAND_LIMIT);
    }
    SubCardsValid(shuffled, [], hand, deck);
  }
}
