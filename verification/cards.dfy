/** Action cards: the fixed deck, removing a card from the hand and popping cards off the deck. */
module Cards {

  /** The unshuffled deck: eight cards of each value from 1 to 5. */
  const FRESH_DECK: seq<nat> :=
    Copies(1, PER_VALUE) + Copies(2, PER_VALUE) + Copies(3, PER_VALUE) + Copies(4, PER_VALUE) + Copies(5, PER_VALUE)

  /** Cards of each value in the deck. */
  const PER_VALUE: nat := 8

  /** One row of the deck literal: `n` copies of `v`. */
  function Copies(v: nat, n: nat): (r: seq<nat>)
    ensures |r| == n
  {
    if n == 0 then [] else Copies(v, n - 1) + [v]
  }

  /** `n` copies of `v` and nothing else. */
  lemma {:induction false} CopiesCount(v: nat, n: nat, w: nat)
    ensures multiset(Copies(v, n))[w] == if w == v then n else 0
  {
    if n > 0 {
      CopiesCount(v, n - 1, w);
    }
  }

  /** Cards withheld before the first deal; each is worth 3 points at the end. */
  const PAYMENTS: nat := 1

  /** Hand limit of a regular player, also the size of the first deal. */
  const REGULAR_HAND_LIMIT: nat := 5

  /** Hand limit once the player has turned Monstrous. */
  const MONSTROUS_HAND_LIMIT: nat := 6

  predicate ValidCard(c: nat) {
    1 <= c <= 5
  }

  predicate ValidCards(s: seq<nat>) {
    forall k :: 0 <= k < |s| ==> ValidCard(s[k])
  }

  /** The fresh deck holds 40 cards, eight of each value from 1 to 5 and nothing else. */
  lemma FreshDeckContents()
    ensures |FRESH_DECK| == 40
    ensures forall v :: multiset(FRESH_DECK)[v] == if 1 <= v <= 5 then 8 else 0
  {
    forall v ensures multiset(FRESH_DECK)[v] == if 1 <= v <= 5 then 8 else 0 {
      FreshDeckCount(v);
    }
  }

  lemma FreshDeckCount(v: nat)
    ensures multiset(FRESH_DECK)[v] == if 1 <= v <= 5 then 8 else 0
  {
    CopiesCount(1, PER_VALUE, v);
    CopiesCount(2, PER_VALUE, v);
    CopiesCount(3, PER_VALUE, v);
    CopiesCount(4, PER_VALUE, v);
    CopiesCount(5, PER_VALUE, v);
    RowsCount(Copies(1, PER_VALUE), Copies(2, PER_VALUE), Copies(3, PER_VALUE),
              Copies(4, PER_VALUE), Copies(5, PER_VALUE), v);
  }

  /** Five rows of eight, one per value from 1 to 5, hold eight of each of those values and nothing else. */
  lemma RowsCount(a: seq<nat>, b: seq<nat>, c: seq<nat>, d: seq<nat>, e: seq<nat>, v: nat)
    requires multiset(a)[v] == (if v == 1 then 8 else 0) && multiset(b)[v] == (if v == 2 then 8 else 0)
    requires multiset(c)[v] == (if v == 3 then 8 else 0) && multiset(d)[v] == (if v == 4 then 8 else 0)
    requires multiset(e)[v] == (if v == 5 then 8 else 0)
    ensures multiset(a + b + c + d + e)[v] == if 1 <= v <= 5 then 8 else 0
  {
  }

  lemma FreshDeckValid()
    ensures ValidCards(FRESH_DECK)
  {
    FreshDeckContents();
    OnlyValidValues(FRESH_DECK);
  }

  /** A deck whose multiset holds only the values 1 to 5 holds only valid cards. */
  lemma OnlyValidValues(d: seq<nat>)
    requires forall v :: !ValidCard(v) ==> multiset(d)[v] == 0
    ensures ValidCards(d)
  {
    forall k | 0 <= k < |d| ensures ValidCard(d[k]) {
      assert d[k] in multiset(d);
    }
  }

  /** `Vec::remove`: the hand without its card at index `i`, later cards shifted down by one. */
  function RemoveAt(s: seq<nat>, i: nat): (r: seq<nat>)
    requires i < |s|
    ensures |r| == |s| - 1
    ensures multiset(r) == multiset(s) - multiset{s[i]}
    ensures forall k :: 0 <= k < i ==> r[k] == s[k]
    ensures forall k :: i <= k < |r| ==> r[k] == s[k + 1]
  {
    assert s == s[..i] + [s[i]] + s[i + 1..];
    s[..i] + s[i + 1..]
  }

  /** The first `k` cards popped off the end of `deck`, in the order they were popped. */
  function Popped(deck: seq<nat>, k: nat): (r: seq<nat>)
    requires k <= |deck|
    ensures |r| == k
    ensures forall j :: 0 <= j < k ==> r[j] == deck[|deck| - 1 - j]
  {
    if k == 0 then [] else Popped(deck, k - 1) + [deck[|deck| - k]]
  }

  /** `s` read from its last element to its first. */
  function Reversed(s: seq<nat>): (r: seq<nat>)
    ensures |r| == |s|
  {
    if s == [] then [] else Reversed(s[1..]) + [s[0]]
  }

  /** Reversing a pile keeps its cards. */
  lemma {:induction false} ReversedKeepsCards(s: seq<nat>)
    ensures multiset(Reversed(s)) == multiset(s)
  {
    if s != [] {
      ReversedKeepsCards(s[1..]);
      assert s == [s[0]] + s[1..];
    }
  }

  /** The `k` cards popped are the top `k` cards of the deck, last card first. */
  lemma {:induction false} PoppedIsReversedTop(deck: seq<nat>, k: nat)
    requires k <= |deck|
    ensures Popped(deck, k) == Reversed(deck[|deck| - k..])
  {
    if k > 0 {
      var top := deck[|deck| - k..];
      assert top[1..] == deck[|deck| - (k - 1)..];
      PoppedIsReversedTop(deck, k - 1);
    }
  }

  /** Popping `k` cards moves them from the deck to the hand: no card is lost or created. */
  lemma PoppedConserves(deck: seq<nat>, k: nat)
    requires k <= |deck|
    ensures multiset(Popped(deck, k)) + multiset(deck[..|deck| - k]) == multiset(deck)
  {
    PoppedIsReversedTop(deck, k);
    ReversedKeepsCards(deck[|deck| - k..]);
    assert deck == deck[..|deck| - k] + deck[|deck| - k..];
  }

  function Min(a: nat, b: nat): nat {
    if a <= b then a else b
  }

  /** Number of random swaps the set-up shuffle performs. */
  const SHUFFLE_SWAPS: nat := 1000

  /** One shuffle step: positions `x % |deck|` and `y % |deck|` trade places unless they coincide. */
  function SwapStep(deck: seq<nat>, x: nat, y: nat): (r: seq<nat>)
    requires deck != []
    ensures |r| == |deck|
    ensures forall k :: 0 <= k < |deck| && k != x % |deck| && k != y % |deck| ==> r[k] == deck[k]
    ensures r[x % |deck|] == deck[y % |deck|] && r[y % |deck|] == deck[x % |deck|]
  {
    var i, j := x % |deck|, y % |deck|;
    if i == j then deck else deck[i := deck[j]][j := deck[i]]
  }

  /** The fresh deck after one swap step per pair of random numbers in `swaps`, in order. */
  function ShuffledDeck(swaps: seq<(nat, nat)>): (r: seq<nat>)
    ensures |r| == 40
  {
    FreshDeckContents();
    if swaps == [] then FRESH_DECK
    else
      var last := swaps[|swaps| - 1];
      SwapStep(ShuffledDeck(swaps[..|swaps| - 1]), last.0, last.1)
  }

  /** However the random numbers fall, the shuffled deck is a permutation of the fresh deck. */
  lemma {:induction false} ShuffleIsPermutation(swaps: seq<(nat, nat)>)
    ensures multiset(ShuffledDeck(swaps)) == multiset(FRESH_DECK)
  {
    if swaps != [] {
      var last := swaps[|swaps| - 1];
      ShuffleIsPermutation(swaps[..|swaps| - 1]);
      SwapPermutes(ShuffledDeck(swaps[..|swaps| - 1]), last.0, last.1);
    }
  }

  /** A swap step only reorders the deck. */
  lemma SwapPermutes(deck: seq<nat>, x: nat, y: nat)
    requires deck != []
    ensures multiset(SwapStep(deck, x, y)) == multiset(deck)
  {
  }
}
