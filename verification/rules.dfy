/**
 * The turn-resolution engine of the game as pure functions over a session value.
 * `Step` is one call of `Game::update`; the class `Maverick.Game` is proved to
 * change its fields exactly as `Step` says.
 */
module Rules {
  import opened Wrappers
  import opened Catalog
  import opened Cards

  /** Which piece an action is performed with. */
  datatype Entity = Character | Companion

  /** Direction along the dungeon row. */
  datatype Direction = Left | Right

  /** Actions the player can select. */
  datatype Action =
    | Range(entity: Entity, direction: Direction)
    | Melee(entity: Entity)
    | Move(entity: Entity, direction: Direction)
    | Swap
    | EndTurn

  datatype PlayerKind = Regular | Monstrous

  datatype CompanionKind = Melee | Range

  datatype State = Playing | EndGame | Reset

  /** The logical input of one `update` call: what the click location hit, if anything. */
  datatype Click = SelectAction(action: Action) | SelectCard(index: nat) | RequestReset | Elsewhere

  const N: nat := MONSTER_DECK_SIZE

  /** Number of cards in a fresh deck. */
  const DECK_SIZE: nat := 40

  /** The dungeon row: one entry per position in each of the parallel vectors of `Monsters`. */
  datatype Row = Row(
    names: seq<string>,
    strengths: seq<nat>,
    strengthAdjustments: seq<nat>,
    abilities: seq<Option<Ability>>,
    toSlays: seq<seq<ToSlay>>,
    currentHits: seq<seq<ToSlay>>,
    alive: seq<bool>)

  predicate WellFormed(m: Row) {
    && |m.names| == N && |m.strengths| == N && |m.strengthAdjustments| == N
    && |m.abilities| == N && |m.toSlays| == N && |m.currentHits| == N && |m.alive| == N
    && (forall i :: 0 <= i < N ==> m.strengths[i] <= MAX_STRENGTH)
    && (forall i :: 0 <= i < N ==> m.strengthAdjustments[i] <= 2)
  }

  predicate ValidIndexes(indexes: seq<nat>) {
    |indexes| == N && forall k :: 0 <= k < |indexes| ==> indexes[k] < |MONSTER_STATS|
  }

  /** The row built from the catalog entries at `indexes`: all alive, no hits, no adjustment. */
  function RowOf(indexes: seq<nat>): (m: Row)
    requires ValidIndexes(indexes)
    ensures WellFormed(m)
    ensures forall i :: 0 <= i < N ==>
      && m.alive[i] && m.currentHits[i] == [] && m.strengthAdjustments[i] == 0
    ensures forall i :: 0 <= i < N ==>
      && m.names[i] == MONSTER_STATS[indexes[i]].name && m.strengths[i] == MONSTER_STATS[indexes[i]].strength
      && m.abilities[i] == MONSTER_STATS[indexes[i]].ability
      && m.toSlays[i] == KillRequirements(MONSTER_STATS[indexes[i]].toSlay)
  {
    CatalogShape();
    Row(
      seq(N, i requires 0 <= i < N => MONSTER_STATS[indexes[i]].name),
      seq(N, i requires 0 <= i < N => MONSTER_STATS[indexes[i]].strength),
      seq(N, i => 0),
      seq(N, i requires 0 <= i < N => MONSTER_STATS[indexes[i]].ability),
      seq(N, i requires 0 <= i < N => KillRequirements(MONSTER_STATS[indexes[i]].toSlay)),
      seq(N, i => []),
      seq(N, i => true))
  }

  /** Strength a card must reach: base strength plus the Rally adjustment, as a `u8` sum. */
  function EffectiveStrength(m: Row, i: nat): (r: nat)
    requires WellFormed(m) && i < N
    ensures r <= MAX_STRENGTH + 2 < 256
  {
    m.strengths[i] + m.strengthAdjustments[i]
  }

  /** Positions whose monster is dead. */
  function Slain(alive: seq<bool>): set<nat> {
    set i: nat | i < |alive| && !alive[i]
  }

  /** The whole state `update` reads and writes (rendering fields left out). */
  datatype Session = Session(
    state: State,
    monsters: Row,
    playerIndex: nat,
    playerKind: PlayerKind,
    companionIndex: nat,
    companionKind: CompanionKind,
    deck: seq<nat>,
    hand: seq<nat>,
    handLimit: nat,
    currentAction: Option<Action>,
    currentCard: Option<nat>,
    discarded: bool,
    payments: nat,
    trophies: nat)

  predicate Board(s: Session) {
    WellFormed(s.monsters) && s.playerIndex < N && s.companionIndex < N
  }

  /** What holds of a session between two calls of `update`. */
  predicate Inv(s: Session) {
    && Board(s)
    && (s.playerKind == Regular ==> s.handLimit == REGULAR_HAND_LIMIT)
    && (s.playerKind == Monstrous ==> s.handLimit == MONSTROUS_HAND_LIMIT)
    && |s.hand| <= s.handLimit
    && (s.currentCard.Some? ==> s.currentCard.value < |s.hand|)
    && !s.discarded
    && (s.state == EndGame ==> s.hand == [] && s.deck == [])
    && s.trophies <= |Slain(s.monsters.alive)|
    && s.payments + |s.hand| + |s.deck| <= DECK_SIZE
    && ValidCards(s.hand) && ValidCards(s.deck)
  }

  /** The presentation layer only offers the cards that are in the hand. */
  predicate ClickAllowed(s: Session, click: Click) {
    click.SelectCard? ==> click.index < |s.hand|
  }

  /** The session a new game starts in: `indexes` from the monster draw, `shuffled` the shuffled deck. */
  function InitialSession(indexes: seq<nat>, companionKind: CompanionKind, shuffled: seq<nat>): (s: Session)
    requires ValidIndexes(indexes) && |shuffled| == DECK_SIZE
    ensures s.state == Playing && s.trophies == 0 && s.payments == PAYMENTS && !s.discarded
    ensures s.playerIndex == 0 && s.companionIndex == 0 && s.playerKind == Regular
    ensures s.handLimit == REGULAR_HAND_LIMIT && |s.hand| == REGULAR_HAND_LIMIT
    ensures |s.deck| == DECK_SIZE - PAYMENTS - REGULAR_HAND_LIMIT
    ensures s.currentAction == None && s.currentCard == None
  {
    var paid := shuffled[..|shuffled| - PAYMENTS];
    Session(Playing, RowOf(indexes), 0, Regular, 0, companionKind,
            paid[..|paid| - REGULAR_HAND_LIMIT], Popped(paid, REGULAR_HAND_LIMIT), REGULAR_HAND_LIMIT,
            None, None, false, PAYMENTS, 0)
  }

  // ---------------------------------------------------------------------------
  // Selection

  /** Fills the action slot or the card slot. */
  function Select(s: Session, click: Click): (r: Session)
    ensures r == s.(currentAction := r.currentAction, currentCard := r.currentCard)
    ensures r.currentAction == if click.SelectAction? then Some(click.action) else s.currentAction
    ensures r.currentCard == if click.SelectCard? then Some(click.index) else s.currentCard
  {
    match click
    case SelectAction(a) => s.(currentAction := Some(a))
    case SelectCard(i) => s.(currentCard := Some(i))
    case _ => s
  }

  // ---------------------------------------------------------------------------
  // Resolving the selected action

  function EntityIndex(s: Session, e: Entity): nat {
    match e
    case Character => s.playerIndex
    case Companion => s.companionIndex
  }

  function WithEntityIndex(s: Session, e: Entity, index: nat): Session {
    match e
    case Character => s.(playerIndex := index)
    case Companion => s.(companionIndex := index)
  }

  /** Where a Move of `num` squares lands: `saturating_sub` to the left, clamped to the last position to the right. */
  function MoveTarget(from: nat, d: Direction, num: nat): (r: nat)
    requires from < N
    ensures r < N
  {
    match d
    case Left => if num <= from then from - num else 0
    case Right => if from + num >= N then N - 1 else from + num
  }

  /** The position a Range shot of `num` squares hits, or None when it would leave the row. */
  function RangeTarget(from: nat, d: Direction, num: nat): (r: Option<nat>)
    ensures r.Some? ==> r.value < N
  {
    match d
    case Left => if num <= from && from - num < N then Some(from - num) else None
    case Right => if from + num < N then Some(from + num) else None
  }

  function AddHit(m: Row, i: nat, t: ToSlay): Row
    requires i < |m.currentHits|
  {
    m.(currentHits := m.currentHits[i := m.currentHits[i] + [t]])
  }

  predicate IsNoxious(m: Row, i: nat)
    requires WellFormed(m) && i < N
  {
    m.abilities[i] == Some(Noxious) && m.alive[i]
  }

  /**
   * The Noxious punishment as written: `hand.remove(rand % hand.len())`, where None stands for
   * the panic of a remainder by zero when the hand is already empty.
   */
  function NoxiousDiscardAsWritten(hand: seq<nat>, roll: nat): (r: Option<seq<nat>>)
    ensures r.None? <==> hand == []
    ensures r.Some? ==> |r.value| + 1 == |hand| && multiset(r.value) < multiset(hand)
  {
    if |hand| == 0 then None else Some(RemoveAt(hand, roll % |hand|))
  }

  /**
   * The Noxious punishment used by the model: one card chosen by `roll` is discarded when there is
   * one; with an empty hand nothing is discarded. The flag says whether a card was discarded.
   */
  function NoxiousDiscard(hand: seq<nat>, roll: nat): (r: (seq<nat>, bool))
    ensures r.1 <==> hand != []
    ensures |r.0| == if r.1 then |hand| - 1 else |hand|
    ensures multiset(r.0) <= multiset(hand)
  {
    if |hand| == 0 then (hand, false) else (RemoveAt(hand, roll % |hand|), true)
  }

  /** What resolving the selection leaves: the session, the monster hit, an EndTurn, an exact-strength hit. */
  datatype Resolution = Resolution(session: Session, target: Option<nat>, endTurn: bool, exact: bool)

  /** Spends the selected card and clears both selection slots. */
  function Play(s: Session, i: nat): (r: Session)
    requires i < |s.hand|
  {
    s.(hand := RemoveAt(s.hand, i), currentAction := None, currentCard := None)
  }

  function ResolveMove(s: Session, e: Entity, d: Direction, num: nat, roll: nat): (r: Resolution)
    requires Board(s)
    ensures Board(r.session) && (r.target.Some? ==> r.target.value < N)
  {
    var index := MoveTarget(EntityIndex(s, e), d, num);
    var moved := WithEntityIndex(s, e, index).(monsters := AddHit(s.monsters, index, ToSlay.Move));
    var exact := num == EffectiveStrength(s.monsters, index);
    if IsNoxious(s.monsters, index) then
      var punished := NoxiousDiscard(moved.hand, roll);
      Resolution(moved.(hand := punished.0, discarded := moved.discarded || punished.1), Some(index), false, exact)
    else
      Resolution(moved, Some(index), false, exact)
  }

  function ResolveRange(s: Session, e: Entity, d: Direction, num: nat): (r: Resolution)
    requires Board(s)
    ensures Board(r.session) && (r.target.Some? ==> r.target.value < N)
  {
    match RangeTarget(EntityIndex(s, e), d, num)
    case None => Resolution(s, None, false, false)
    case Some(t) =>
      Resolution(s.(monsters := AddHit(s.monsters, t, ToSlay.Range)), Some(t), false,
                 num == EffectiveStrength(s.monsters, t))
  }

  function ResolveMelee(s: Session, e: Entity, num: nat): (r: Resolution)
    requires Board(s)
    ensures Board(r.session) && (r.target.Some? ==> r.target.value < N)
  {
    var t := EntityIndex(s, e);
    var strength := EffectiveStrength(s.monsters, t);
    if num >= strength then
      Resolution(s.(monsters := AddHit(s.monsters, t, ToSlay.Melee)), Some(t), false, num == strength)
    else
      Resolution(s, None, false, false)
  }

  function Toggled(k: CompanionKind): CompanionKind {
    match k
    case Melee => CompanionKind.Range
    case Range => CompanionKind.Melee
  }

  /** The `match (current_action, current_card)` of `update`. */
  function Resolve(s: Session, roll: nat): (r: Resolution)
    requires Board(s)
    requires s.currentCard.Some? ==> s.currentCard.value < |s.hand|
    ensures Board(r.session)
    ensures r.target.Some? ==> r.target.value < N
  {
    match (s.currentAction, s.currentCard)
    case (Some(Move(e, d)), Some(i)) => ResolveMove(Play(s, i), e, d, s.hand[i], roll)
    case (Some(Swap), Some(i)) =>
      Resolution(Play(s, i).(companionKind := Toggled(s.companionKind)), None, false, false)
    case (Some(Range(e, d)), Some(i)) => ResolveRange(Play(s, i), e, d, s.hand[i])
    case (Some(Melee(e)), Some(i)) => ResolveMelee(Play(s, i), e, s.hand[i])
    case (Some(EndTurn), _) => Resolution(s.(currentAction := None, currentCard := None), None, true, false)
    case _ => Resolution(s, None, false, false)
  }

  // ---------------------------------------------------------------------------
  // Kill check

  /** `Vec::remove_item`: drops the first occurrence of `x`, if any. */
  function RemoveItem(s: seq<ToSlay>, x: ToSlay): (r: seq<ToSlay>)
    ensures multiset(r) == multiset(s) - multiset{x}
  {
    if s == [] then []
    else if s[0] == x then (assert s == [s[0]] + s[1..]; s[1..])
    else (assert s == [s[0]] + s[1..]; [s[0]] + RemoveItem(s[1..], x))
  }

  /** The kill requirements left after removing each current hit one for one. */
  function Remaining(toSlay: seq<ToSlay>, hits: seq<ToSlay>): (r: seq<ToSlay>)
    ensures multiset(r) == multiset(toSlay) - multiset(hits)
    decreases |hits|
  {
    if hits == [] then toSlay
    else
      assert hits == [hits[0]] + hits[1..];
      Remaining(RemoveItem(toSlay, hits[0]), hits[1..])
  }

  /** A living monster whose hits cover its requirements dies; an exact-strength killing blow earns a trophy. */
  function KillCheck(s: Session, target: Option<nat>, exact: bool): (r: Session)
    requires Board(s) && (target.Some? ==> target.value < N)
    ensures Board(r)
    ensures r == s.(monsters := r.monsters, trophies := r.trophies)
    ensures r.trophies == s.trophies || (exact && r.trophies == s.trophies + 1)
  {
    if target.Some? && s.monsters.alive[target.value]
       && Remaining(s.monsters.toSlays[target.value], s.monsters.currentHits[target.value]) == []
    then
      var t := target.value;
      s.(monsters := s.monsters.(alive := s.monsters.alive[t := false],
                                 currentHits := s.monsters.currentHits[t := []]),
         trophies := if exact then s.trophies + 1 else s.trophies)
    else s
  }

  // ---------------------------------------------------------------------------
  // Rally

  /** Position `j` holds a living Rally monster. */
  predicate Rallies(m: Row, j: int)
    requires WellFormed(m)
  {
    0 <= j < N && m.abilities[j] == Some(Rally) && m.alive[j]
  }

  function RallyBonus(m: Row, i: nat): nat
    requires WellFormed(m)
  {
    (if Rallies(m, i - 1) then 1 else 0) + (if Rallies(m, i + 1) then 1 else 0)
  }

  /** Strength adjustments recomputed from scratch: one per living Rally neighbour. */
  function RallyAdjustments(m: Row): (r: seq<nat>)
    requires WellFormed(m)
    ensures |r| == N
    ensures forall i :: 0 <= i < N ==> r[i] <= 2
  {
    seq(N, i requires 0 <= i < N => RallyBonus(m, i))
  }

  function Recompute(s: Session): (r: Session)
    requires Board(s)
    ensures Board(r)
  {
    s.(monsters := s.monsters.(strengthAdjustments := RallyAdjustments(s.monsters)))
  }

  // ---------------------------------------------------------------------------
  // Hand lifecycle

  /** Clears the hand, deals up to the hand limit from the end of the deck and clears every monster's hits. */
  function Refill(s: Session): (r: Session)
    requires Board(s)
    ensures Board(r)
  {
    var k := Min(s.handLimit, |s.deck|);
    s.(hand := Popped(s.deck, k), deck := s.deck[..|s.deck| - k],
       monsters := s.monsters.(currentHits := seq(N, i => [])))
  }

  /** End of `update` after the fight: hand exhaustion, refill, end of game, discard flag. */
  function Finish(s: Session, endTurn: bool): (r: Session)
    requires Board(s)
    ensures Board(r)
  {
    var exhausted := |s.hand| == 0 && !s.discarded;
    var upgraded := if exhausted then s.(handLimit := MONSTROUS_HAND_LIMIT, playerKind := Monstrous) else s;
    var refilled := if endTurn || exhausted then Refill(upgraded) else upgraded;
    var ended := if |refilled.hand| == 0 && |refilled.deck| == 0 then refilled.(state := EndGame) else refilled;
    ended.(discarded := false)
  }

  /** One call of `update` with the logical input `click`; `roll` is the random number of a Noxious discard. */
  function Step(s: Session, click: Click, roll: nat): (r: Session)
    requires Inv(s) && ClickAllowed(s, click)
    ensures Board(r)
  {
    if click.RequestReset? then s.(state := Reset)
    else
      var resolved := Resolve(Select(s, click), roll);
      var fought := KillCheck(resolved.session, resolved.target, resolved.exact);
      Finish(Recompute(fought), resolved.endTurn)
  }

  /** End-of-game total: 3 per payment, 2 per trophy, 1 per card left in hand or deck. */
  function Score(s: Session): (r: nat)
    ensures |s.hand| + |s.deck| <= r
    ensures s.hand == [] && s.deck == [] ==> r == s.payments * 3 + s.trophies * 2
  {
    s.payments * 3 + s.trophies * 2 + |s.hand| + |s.deck|
  }
}
