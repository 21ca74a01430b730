/**
 * The stateful objects of the game: the monster row (`Monsters`) and the game itself (`Game`),
 * whose fields the set-up code and `update` change in place. Every method is proved to change the
 * fields exactly as the pure functions of `Rules` say, so the properties proved in `Properties`
 * hold of the objects too.
 */
module Maverick {
  import opened Wrappers
  import opened Catalog
  import opened Cards
  import opened Rules
  import opened Properties

  // ---------------------------------------------------------------------------
  // Drawing the thirteen monsters

  predicate Distinct(s: seq<nat>) {
    forall i, j :: 0 <= i < j < |s| ==> s[i] != s[j]
  }

  predicate InCatalog(s: seq<nat>) {
    forall k :: 0 <= k < |s| ==> s[k] < |MONSTER_STATS|
  }

  /**
   * Rejection sampling of catalog entries: each random number in `rolls`, taken modulo the catalog
   * size, is kept unless it was drawn before; drawing stops once `acc` holds a full row.
   */
  function RejectionDraw(rolls: seq<nat>, acc: seq<nat>): (r: seq<nat>)
    ensures InCatalog(acc) ==> InCatalog(r)
    decreases |rolls|
  {
    if |acc| >= N || rolls == [] then acc
    else
      var index := rolls[0] % |MONSTER_STATS|;
      RejectionDraw(rolls[1..], if index in acc then acc else acc + [index])
  }

  /**
   * The draw only extends what was drawn, never repeats a monster, stays within the catalog and
   * the row size, and stops short of a full row only when every roll has been used.
   */
  lemma {:induction false} DrawShape(rolls: seq<nat>, acc: seq<nat>)
    requires Distinct(acc) && InCatalog(acc) && |acc| <= N
    ensures var r := RejectionDraw(rolls, acc);
      && acc <= r && Distinct(r) && InCatalog(r) && |r| <= N
      && (|r| < N ==> forall k :: 0 <= k < |rolls| ==> rolls[k] % |MONSTER_STATS| in r)
    decreases |rolls|
  {
    if |acc| < N && rolls != [] {
      var index := rolls[0] % |MONSTER_STATS|;
      var next := if index in acc then acc else acc + [index];
      DrawShape(rolls[1..], next);
      var r := RejectionDraw(rolls, acc);
      assert r == RejectionDraw(rolls[1..], next);
      if |r| < N {
        forall k | 0 <= k < |rolls| ensures rolls[k] % |MONSTER_STATS| in r {
          if k == 0 {
            assert index in next;
            assert next == r[..|next|];
          } else {
            assert rolls[k] == rolls[1..][k - 1];
          }
        }
      }
    }
  }

  /** A completed draw is a row of catalog indexes. */
  lemma FullDrawValid(rolls: seq<nat>)
    requires |RejectionDraw(rolls, [])| == N
    ensures ValidIndexes(RejectionDraw(rolls, [])) && Distinct(RejectionDraw(rolls, []))
  {
    DrawShape(rolls, []);
  }

  /** The draw loop of `Monsters::init`, consuming `rolls` in order. */
  method SelectMonsterIndexes(rolls: seq<nat>) returns (indexes: seq<nat>)
    ensures indexes == RejectionDraw(rolls, [])
    ensures Distinct(indexes) && InCatalog(indexes) && |indexes| <= N
    ensures |indexes| < N ==> forall k :: 0 <= k < |rolls| ==> rolls[k] % |MONSTER_STATS| in indexes
  {
    indexes := [];
    var next := 0;
    while |indexes| < N && next < |rolls|
      invariant 0 <= next <= |rolls|
      invariant RejectionDraw(rolls[next..], indexes) == RejectionDraw(rolls, [])
      decreases |rolls| - next
    {
      assert rolls[next..][0] == rolls[next] && rolls[next..][1..] == rolls[next + 1..];
      var index := rolls[next] % |MONSTER_STATS|;
      if index !in indexes {
        indexes := indexes + [index];
      }
      next := next + 1;
    }
    DrawShape(rolls, []);
  }

  /** The set-up shuffle of a fresh deck: one swap step per pair of random numbers, in order. */
  method ShuffleDeck(swaps: seq<(nat, nat)>) returns (deck: seq<nat>)
    ensures deck == ShuffledDeck(swaps)
    ensures |deck| == DECK_SIZE && multiset(deck) == multiset(FRESH_DECK)
  {
    FreshDeckContents();
    deck := FRESH_DECK;
    for k := 0 to |swaps|
      invariant deck == ShuffledDeck(swaps[..k])
    {
      assert swaps[..k + 1][..k] == swaps[..k];
      var x := swaps[k].0 % |deck|;
      var y := swaps[k].1 % |deck|;
      if x != y {
        deck := deck[x := deck[y]][y := deck[x]];
      }
    }
    assert swaps[..|swaps|] == swaps;
    ShuffleIsPermutation(swaps);
  }

  /**
   * Sets the payment aside from the end of the shuffled deck, then pops the opening hand; the
   * deck, the hand and the payment together hold every card of `shuffled`.
   */
  method DealOpeningHand(shuffled: seq<nat>) returns (deck: seq<nat>, hand: seq<nat>)
    requires |shuffled| == DECK_SIZE
    ensures var paid := shuffled[..DECK_SIZE - PAYMENTS];
      hand == Popped(paid, REGULAR_HAND_LIMIT) && deck == paid[..|paid| - REGULAR_HAND_LIMIT]
    ensures multiset(hand) + multiset(deck) + multiset(shuffled[DECK_SIZE - PAYMENTS..]) == multiset(shuffled)
  {
    deck := shuffled;
    for k := 0 to PAYMENTS
      invariant deck == shuffled[..DECK_SIZE - k]
    {
      deck := deck[..|deck| - 1];
    }
    ghost var paid := deck;
    hand := [];
    for k := 0 to REGULAR_HAND_LIMIT
      invariant hand == Popped(paid, k) && deck == paid[..|paid| - k]
    {
      hand := hand + [deck[|deck| - 1]];
      deck := deck[..|deck| - 1];
    }
    PoppedConserves(paid, REGULAR_HAND_LIMIT);
    assert shuffled == paid + shuffled[DECK_SIZE - PAYMENTS..];
  }

  /** Shuffles a fresh deck with `swaps`, sets the payment aside and deals the opening hand. */
  method OpeningDeck(swaps: seq<(nat, nat)>) returns (deck: seq<nat>, hand: seq<nat>)
    ensures var paid := ShuffledDeck(swaps)[..DECK_SIZE - PAYMENTS];
      hand == Popped(paid, REGULAR_HAND_LIMIT) && deck == paid[..|paid| - REGULAR_HAND_LIMIT]
  {
    var shuffled := ShuffleDeck(swaps);
    deck, hand := DealOpeningHand(shuffled);
  }

  /**
   * Every opening the set-up can produce satisfies the invariant `update` keeps; `deck` and `hand`
   * are what is left of the shuffled deck and the opening hand.
   */
  lemma OpeningValid(rolls: seq<nat>, coin: nat, swaps: seq<(nat, nat)>, deck: seq<nat>, hand: seq<nat>)
    requires |RejectionDraw(rolls, [])| == N
    requires var paid := ShuffledDeck(swaps)[..DECK_SIZE - PAYMENTS];
      hand == Popped(paid, REGULAR_HAND_LIMIT) && deck == paid[..|paid| - REGULAR_HAND_LIMIT]
    ensures var s := InitialSession(RejectionDraw(rolls, []), CompanionFor(coin), ShuffledDeck(swaps));
      && s == Session(Playing, RowOf(RejectionDraw(rolls, [])), 0, Regular, 0, CompanionFor(coin),
                      deck, hand, REGULAR_HAND_LIMIT, None, None, false, PAYMENTS, 0)
      && Inv(s)
  {
    ShuffleIsPermutation(swaps);
    InitialSessionValid(RejectionDraw(rolls, []), CompanionFor(coin), ShuffledDeck(swaps));
  }

  /** `rand::random::<u8>() & 1` picks the companion. */
  function CompanionFor(coin: nat): (k: CompanionKind)
    ensures k == CompanionKind.Melee <==> coin % 2 == 0
  {
    if coin % 2 == 0 then CompanionKind.Melee else CompanionKind.Range
  }

  /** The refill loop: pops up to `limit` cards off the end of `deck`, stopping when it runs out. */
  method DrawUpTo(deck: seq<nat>, limit: nat) returns (hand: seq<nat>, rest: seq<nat>)
    ensures var k := Min(limit, |deck|); hand == Popped(deck, k) && rest == deck[..|deck| - k]
  {
    hand, rest := [], deck;
    for k := 0 to limit
      invariant hand == Popped(deck, Min(k, |deck|)) && rest == deck[..|deck| - Min(k, |deck|)]
    {
      if |rest| > 0 {
        hand := hand + [rest[|rest| - 1]];
        rest := rest[..|rest| - 1];
      }
    }
  }

  /** The adjustment position `i` has after the Rally pass has visited positions below `k`. */
  ghost function RallyBonusBefore(m: Row, i: nat, k: nat): nat
    requires WellFormed(m)
  {
    (if i < k + 1 && Rallies(m, i - 1) then 1 else 0) + (if i + 1 < k && Rallies(m, i + 1) then 1 else 0)
  }

  /** Growing every parallel vector by one entry. */
  lemma Extended(m: Row, k: nat)
    requires WellFormed(m) && k < N
    ensures m.names[..k + 1] == m.names[..k] + [m.names[k]]
    ensures m.strengths[..k + 1] == m.strengths[..k] + [m.strengths[k]]
    ensures m.strengthAdjustments[..k + 1] == m.strengthAdjustments[..k] + [m.strengthAdjustments[k]]
    ensures m.abilities[..k + 1] == m.abilities[..k] + [m.abilities[k]]
    ensures m.toSlays[..k + 1] == m.toSlays[..k] + [m.toSlays[k]]
    ensures m.currentHits[..k + 1] == m.currentHits[..k] + [m.currentHits[k]]
    ensures m.alive[..k + 1] == m.alive[..k] + [m.alive[k]]
  {
  }

  // ---------------------------------------------------------------------------
  // The monster row

  class Monsters {
    var names: seq<string>
    var strengths: seq<nat>
    var strengthAdjustments: seq<nat>
    var abilities: seq<Option<Ability>>
    var toSlays: seq<seq<ToSlay>>
    var currentHits: seq<seq<ToSlay>>
    var alive: seq<bool>

    function Snapshot(): Row
      reads this
    {
      Row(names, strengths, strengthAdjustments, abilities, toSlays, currentHits, alive)
    }

    /** `Monsters::init`: draws the row with `rolls`, then fills the parallel vectors from the catalog. */
    constructor (rolls: seq<nat>)
      requires |RejectionDraw(rolls, [])| == N
      ensures Snapshot() == RowOf(RejectionDraw(rolls, []))
    {
      var indexes := SelectMonsterIndexes(rolls);
      ghost var m := RowOf(indexes);
      var ns, ss, adj, abs, slays, hits, live := [], [], [], [], [], [], [];
      for k := 0 to N
        invariant ns == m.names[..k] && ss == m.strengths[..k] && adj == m.strengthAdjustments[..k]
        invariant abs == m.abilities[..k] && slays == m.toSlays[..k]
        invariant hits == m.currentHits[..k] && live == m.alive[..k]
      {
        var stats := MONSTER_STATS[indexes[k]];
        ns := ns + [stats.name];
        ss := ss + [stats.strength];
        adj := adj + [0];
        abs := abs + [stats.ability];
        live := live + [true];
        slays := slays + [KillRequirements(stats.toSlay)];
        hits := hits + [[]];
        Extended(m, k);
      }
      names, strengths, strengthAdjustments, abilities := ns, ss, adj, abs;
      toSlays, currentHits, alive := slays, hits, live;
      assert ns == m.names && ss == m.strengths && adj == m.strengthAdjustments;
      assert abs == m.abilities && slays == m.toSlays && hits == m.currentHits && live == m.alive;
    }

    /** Records one hit of kind `t` on the monster at `index`. */
    method Hit(index: nat, t: ToSlay)
      requires index < |currentHits|
      modifies this
      ensures Snapshot() == AddHit(old(Snapshot()), index, t)
    {
      currentHits := currentHits[index := currentHits[index] + [t]];
    }

    /**
     * The requirements of the monster at `index` that its current hits do not cover, each hit
     * removing one matching requirement.
     */
    method RemainingRequirements(index: nat) returns (left: seq<ToSlay>)
      requires index < |toSlays| && index < |currentHits|
      ensures left == Remaining(toSlays[index], currentHits[index])
      ensures multiset(left) == multiset(toSlays[index]) - multiset(currentHits[index])
    {
      var hits := currentHits[index];
      left := toSlays[index];
      for k := 0 to |hits|
        invariant Remaining(left, hits[k..]) == Remaining(toSlays[index], hits)
      {
        assert hits[k..][0] == hits[k] && hits[k..][1..] == hits[k + 1..];
        left := RemoveItem(left, hits[k]);
      }
    }

    /** The monster at `index` dies and its hits are cleared. */
    method Kill(index: nat)
      requires index < |alive| && index < |currentHits|
      modifies this
      ensures Snapshot() == old(Snapshot()).(alive := old(alive)[index := false],
                                             currentHits := old(currentHits)[index := []])
    {
      alive := alive[index := false];
      currentHits := currentHits[index := []];
    }

    /** Resets every adjustment, then adds one to each neighbour of a living Rally monster. */
    method RecomputeAdjustments()
      requires WellFormed(Snapshot())
      modifies this
      ensures Snapshot() == old(Snapshot()).(strengthAdjustments := RallyAdjustments(old(Snapshot())))
    {
      ghost var m := Snapshot();
      var adjustments := strengthAdjustments;
      for index := 0 to N
        invariant |adjustments| == N
        invariant forall i :: 0 <= i < index ==> adjustments[i] == 0
      {
        adjustments := adjustments[index := 0];
      }
      for index := 0 to N
        invariant |adjustments| == N
        invariant forall i :: 0 <= i < N ==> adjustments[i] == RallyBonusBefore(m, i, index)
      {
        if abilities[index] == Some(Rally) && alive[index] {
          assert Rallies(m, index);
          if index > 0 {
            adjustments := adjustments[index - 1 := adjustments[index - 1] + 1];
          }
          if index < N - 1 {
            adjustments := adjustments[index + 1 := adjustments[index + 1] + 1];
          }
        } else {
          assert !Rallies(m, index);
        }
      }
      assert adjustments == RallyAdjustments(m);
      strengthAdjustments := adjustments;
    }

    /** Clears the hits of every monster. */
    method ClearHits()
      requires |currentHits| == N
      modifies this
      ensures Snapshot() == old(Snapshot()).(currentHits := seq(N, i => []))
    {
      var hits := currentHits;
      for k := 0 to |hits|
        invariant |hits| == N
        invariant forall i :: 0 <= i < k ==> hits[i] == []
      {
        hits := hits[k := []];
      }
      assert hits == seq(N, i => []);
      currentHits := hits;
    }
  }

  // ---------------------------------------------------------------------------
  // The game

  class Game {
    var state: State
    const monsters: Monsters
    var playerIndex: nat
    var playerKind: PlayerKind
    var companionIndex: nat
    var companionKind: CompanionKind
    var deck: seq<nat>
    var hand: seq<nat>
    var handLimit: nat
    var currentAction: Option<Action>
    var currentCard: Option<nat>
    var discarded: bool
    var payments: nat
    var trophies: nat

    /** The fields `update` reads and writes, as a session value. */
    function Model(): Session
      reads this, monsters
    {
      Session(state, monsters.Snapshot(), playerIndex, playerKind, companionIndex, companionKind,
              deck, hand, handLimit, currentAction, currentCard, discarded, payments, trophies)
    }

    predicate Valid()
      reads this, monsters
    {
      Inv(Model())
    }

    /**
     * `Game::init`: draws the row with `rolls`, picks the companion with `coin`, shuffles the
     * fresh deck with `swaps`, sets one payment aside and deals five cards.
     */
    constructor (rolls: seq<nat>, coin: nat, swaps: seq<(nat, nat)>)
      requires |RejectionDraw(rolls, [])| == N && |swaps| == SHUFFLE_SWAPS
      ensures Valid()
      ensures Model() == InitialSession(RejectionDraw(rolls, []), CompanionFor(coin), ShuffledDeck(swaps))
    {
      var d, h := OpeningDeck(swaps);
      state, playerIndex, companionIndex, playerKind := Playing, 0, 0, Regular;
      companionKind := CompanionFor(coin);
      deck, hand, handLimit := d, h, REGULAR_HAND_LIMIT;
      currentAction, currentCard, discarded := None, None, false;
      payments, trophies := PAYMENTS, 0;
      monsters := new Monsters(rolls);
      new;
      assert Model() == Session(Playing, RowOf(RejectionDraw(rolls, [])), 0, Regular, 0, CompanionFor(coin),
                                d, h, REGULAR_HAND_LIMIT, None, None, false, PAYMENTS, 0);
      OpeningValid(rolls, coin, swaps, d, h);
    }

    /** `update`: one click, resolved to the end; `roll` is the random number of a Noxious discard. */
    method Update(click: Click, roll: nat)
      requires Valid() && ClickAllowed(Model(), click)
      modifies this, monsters
      ensures Valid()
      ensures Model() == Step(old(Model()), click, roll)
    {
      StepPreservesInv(Model(), click, roll);
      if click.RequestReset? {
        state := Reset;
      } else {
        TakeTurn(click, roll);
      }
    }

    /** Everything `update` does for a click other than a reset request: select, resolve, kill, finish. */
    method TakeTurn(click: Click, roll: nat)
      requires Valid() && ClickAllowed(Model(), click) && !click.RequestReset?
      modifies this, monsters
      ensures Model() == Step(old(Model()), click, roll)
    {
      ghost var s := Model();
      SelectFrom(click);
      var target, endTurn, exact := ResolveSelection(roll);
      ghost var resolved := Model();
      CheckKill(target, exact);
      monsters.RecomputeAdjustments();
      ghost var fought := Model();
      assert fought == Recompute(KillCheck(resolved, target, exact));
      FinishTurn(endTurn);
      assert Step(s, click, roll) == Finish(fought, endTurn) by {
        StepPhases(s, click, roll);
      }
    }

    /** A click on an action or a card fills the matching selection slot. */
    method SelectFrom(click: Click)
      requires !click.RequestReset?
      modifies this
      ensures Model() == Select(old(Model()), click)
    {
      match click {
        case SelectAction(a) => currentAction := Some(a);
        case SelectCard(i) => currentCard := Some(i);
        case Elsewhere =>
      }
    }

    /** The `match (current_action, current_card)`: performs the selected action with the selected card. */
    method ResolveSelection(roll: nat) returns (target: Option<nat>, endTurn: bool, exact: bool)
      requires Board(Model()) && (currentCard.Some? ==> currentCard.value < |hand|)
      modifies this, monsters
      ensures Resolution(Model(), target, endTurn, exact) == Resolve(old(Model()), roll)
    {
      target, endTurn, exact := None, false, false;
      match (currentAction, currentCard) {
        case (Some(Move(e, d)), Some(i)) =>
          target, exact := MovePiece(e, d, i, roll);
        case (Some(Swap), Some(i)) =>
          hand := RemoveAt(hand, i);
          companionKind := match companionKind {
            case Melee => CompanionKind.Range
            case Range => CompanionKind.Melee
          };
          currentCard, currentAction := None, None;
        case (Some(Range(e, d)), Some(i)) =>
          target, exact := Shoot(e, d, i);
        case (Some(Melee(e)), Some(i)) =>
          target, exact := Strike(e, i);
        case (Some(EndTurn), _) =>
          endTurn := true;
          currentCard, currentAction := None, None;
        case _ =>
      }
    }

    /** Move of the character or the companion by the value of card `i`. */
    method MovePiece(e: Entity, d: Direction, i: nat, roll: nat) returns (target: Option<nat>, exact: bool)
      requires Board(Model()) && i < |hand|
      modifies this, monsters
      ensures Resolution(Model(), target, false, exact) == ResolveMove(Play(old(Model()), i), e, d, old(hand)[i], roll)
    {
      ghost var s := Model();
      var num := hand[i];
      var index := MoveTarget(if e == Character then playerIndex else companionIndex, d, num);
      var row := monsters.Snapshot();
      exact := num == EffectiveStrength(row, index);
      var left, punished := RemoveAt(hand, i), discarded;
      if IsNoxious(row, index) && |left| != 0 {
        left, punished := RemoveAt(left, roll % |left|), true;
      }
      var player := if e == Character then index else playerIndex;
      var companion := if e == Character then companionIndex else index;
      Commit(Some(index), ToSlay.Move, player, companion, left, punished);
      target := Some(index);
      MoveResolved(s, e, d, i, roll, index, player, companion, left, punished);
    }

    /**
     * The writes that end a card action: the hit on `target` if there is one, the pieces'
     * positions, the hand left after the card, the discard flag and both selection slots cleared.
     */
    method Commit(target: Option<nat>, t: ToSlay, player: nat, companion: nat, left: seq<nat>, punished: bool)
      requires Board(Model()) && (target.Some? ==> target.value < N)
      modifies this, monsters
      ensures Model() == Session(old(state), HitIfAny(old(monsters.Snapshot()), target, t), player, old(playerKind),
        companion, old(companionKind), old(deck), left, old(handLimit), None, None, punished, old(payments), old(trophies))
    {
      if target.Some? {
        monsters.Hit(target.value, t);
      }
      Place(player, companion);
      hand, discarded, currentCard, currentAction := left, punished, None, None;
    }

    /** The squares of the character and of the companion after a card action. */
    method Place(player: nat, companion: nat)
      modifies this
      ensures Model() == old(Model()).(playerIndex := player, companionIndex := companion)
    {
      playerIndex, companionIndex := player, companion;
    }

    /** Range attack of the value of card `i`; it hits only a position inside the row. */
    method Shoot(e: Entity, d: Direction, i: nat) returns (target: Option<nat>, exact: bool)
      requires Board(Model()) && i < |hand|
      modifies this, monsters
      ensures Resolution(Model(), target, false, exact) == ResolveRange(Play(old(Model()), i), e, d, old(hand)[i])
    {
      ghost var s := Model();
      var num := hand[i];
      var from := if e == Character then playerIndex else companionIndex;
      target, exact := None, false;
      match d {
        case Left =>
          if num <= from && from - num < N {
            target := Some(from - num);
          }
        case Right =>
          if from + num < N {
            target := Some(from + num);
          }
      }
      if target.Some? {
        exact := num == EffectiveStrength(monsters.Snapshot(), target.value);
      }
      Commit(target, ToSlay.Range, playerIndex, companionIndex, RemoveAt(hand, i), discarded);
      RangeResolved(s, e, d, i, target, exact);
    }

    /** Melee attack of the value of card `i` on the monster the entity stands on. */
    method Strike(e: Entity, i: nat) returns (target: Option<nat>, exact: bool)
      requires Board(Model()) && i < |hand|
      modifies this, monsters
      ensures Resolution(Model(), target, false, exact) == ResolveMelee(Play(old(Model()), i), e, old(hand)[i])
    {
      var num := hand[i];
      hand := RemoveAt(hand, i);
      currentCard, currentAction := None, None;
      var index := if e == Character then playerIndex else companionIndex;
      var strength := EffectiveStrength(monsters.Snapshot(), index);
      target, exact := None, false;
      if num >= strength {
        monsters.Hit(index, ToSlay.Melee);
        target := Some(index);
        exact := num == strength;
      }
    }

    /** The kill check on the monster just hit. */
    method CheckKill(target: Option<nat>, exact: bool)
      requires Board(Model()) && (target.Some? ==> target.value < N)
      modifies this, monsters
      ensures Model() == KillCheck(old(Model()), target, exact)
    {
      ghost var s := Model();
      if target.Some? && monsters.alive[target.value] {
        var index := target.value;
        var toSlays := monsters.RemainingRequirements(index);
        KillsIffNothingRemains(s, index);
        if |toSlays| == 0 {
          KillCheckKills(s, target, exact);
          Slay(index, exact);
        } else {
          KillCheckSpares(s, target, exact);
        }
      } else {
        KillCheckSpares(s, target, exact);
      }
    }

    /** The writes of a kill: the monster at `index` dies with its hits cleared; an exact blow earns a trophy. */
    method Slay(index: nat, exact: bool)
      requires Board(Model()) && index < N
      modifies this, monsters
      ensures Model() == old(Model()).(monsters := old(monsters.Snapshot()).(alive := old(monsters.alive)[index := false],
                                                                          currentHits := old(monsters.currentHits)[index := []]),
                                       trophies := if exact then old(trophies) + 1 else old(trophies))
    {
      monsters.Kill(index);
      if exact {
        trophies := trophies + 1;
      }
    }

    /** The end of `update`: hand exhaustion, refill, end of game, discard flag. */
    method FinishTurn(endTurn: bool)
      requires Board(Model())
      modifies this, monsters
      ensures Model() == Finish(old(Model()), endTurn)
    {
      ghost var s := Model();
      var exhausted := |hand| == 0 && !discarded;
      var limit, kind := handLimit, playerKind;
      if exhausted {
        limit, kind := MONSTROUS_HAND_LIMIT, Monstrous;
      }
      var h, d := hand, deck;
      if endTurn || exhausted {
        h, d := DrawUpTo(deck, limit);
        monsters.ClearHits();
      }
      ghost var m := monsters.Snapshot();
      FinishAssembled(s, endTurn, limit, kind, h, d, m);
      Store(limit, kind, h, d);
    }

    /** The last writes of `update`: limit and kind, the new hand and deck, the end of game, the discard flag. */
    method Store(limit: nat, kind: PlayerKind, h: seq<nat>, d: seq<nat>)
      modifies this
      ensures Model() == old(Model()).(handLimit := limit, playerKind := kind, hand := h, deck := d,
                                       state := if |h| == 0 && |d| == 0 then EndGame else old(state), discarded := false)
    {
      StoreCards(h, d);
      handLimit, playerKind, discarded := limit, kind, false;
    }

    /** The new hand and deck; the game ends when both are empty. */
    method StoreCards(h: seq<nat>, d: seq<nat>)
      modifies this
      ensures Model() == old(Model()).(hand := h, deck := d, state := if |h| == 0 && |d| == 0 then EndGame else old(state))
    {
      var st := if |h| == 0 && |d| == 0 then EndGame else state;
      hand, deck, state := h, d, st;
    }
  }
}
