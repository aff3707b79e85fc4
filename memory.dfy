/**
 * The memory match page: sixteen face-down cards, two of each of eight
 * emojis, flipped two at a time. A matching pair stays up; a mismatched pair
 * is turned back down by a timeout 800 ms later. The timeouts are modelled as
 * an explicit `Resolve` step.
 */
module Memory {
  import opened Wrappers

  /** `emojiList`: apple, rocket, rainbow, die, cat, headphones, brain, game controller. */
  const EmojiList: seq<string> := [
    "\U{1F34E}", "\U{1F680}", "\U{1F308}", "\U{1F3B2}",
    "\U{1F431}", "\U{1F3A7}", "\U{1F9E0}", "\U{1F3AE}"
  ]

  /** `[...emojiList, ...emojiList]`, the deck before shuffling. */
  const Pairs: seq<string> := EmojiList + EmojiList

  /** No element occurs twice. */
  predicate Distinct<T(==)>(s: seq<T>)
  {
    forall i, j :: 0 <= i < j < |s| ==> s[i] != s[j]
  }

  /** In a sequence without repeats, every element occurs exactly once. */
  lemma {:induction false} DistinctOccursOnce<T>(s: seq<T>, k: int)
    requires Distinct(s) && 0 <= k < |s|
    ensures multiset(s)[s[k]] == 1
    decreases |s|
  {
    var n := |s| - 1;
    assert s == s[..n] + [s[n]];
    if k == n {
      assert s[n] !in s[..n];
    } else {
      assert Distinct(s[..n]);
      DistinctOccursOnce(s[..n], k);
      assert s[..n][k] == s[k];
    }
  }

  lemma EmojiListDistinct()
    ensures Distinct(EmojiList)
  {
  }

  /**
   * A deck that is a permutation of the pairs holds every emoji exactly twice
   * and nothing else.
   */
  lemma PairsEachTwice(deck: seq<string>)
    requires multiset(deck) == multiset(Pairs)
    ensures forall k :: 0 <= k < |EmojiList| ==> multiset(deck)[EmojiList[k]] == 2
    ensures forall e :: e in deck ==> e in EmojiList
  {
    EmojiListDistinct();
    forall k | 0 <= k < |EmojiList|
      ensures multiset(deck)[EmojiList[k]] == 2
    {
      DistinctOccursOnce(EmojiList, k);
    }
    forall e | e in deck
      ensures e in EmojiList
    {
      assert e in multiset(deck);
    }
  }

  /** Exchanging two positions keeps the multiset. */
  lemma SwapKeepsMultiset<T>(s: seq<T>, i: int, j: int)
    requires 0 <= i < |s| && 0 <= j < |s|
    ensures multiset(s[i := s[j]][j := s[i]]) == multiset(s)
  {
  }

  /**
   * `shuffleArray`: Fisher-Yates on a copy, swapping each position `i`, from
   * the last down to 1, with a position `j` in `[0, i]`. The random index is
   * an arbitrary choice. The input is left alone and the result is a
   * permutation of it.
   */
  method Shuffle(items: seq<string>) returns (shuffled: seq<string>)
    ensures |shuffled| == |items|
    ensures multiset(shuffled) == multiset(items)
  {
    var a := new string[|items|](k requires 0 <= k < |items| => items[k]);
    assert a[..] == items;
    var i := a.Length - 1;
    while i > 0
      invariant -1 <= i < a.Length
      invariant multiset(a[..]) == multiset(items)
    {
      var j :| 0 <= j <= i;
      ghost var before := a[..];
      a[i], a[j] := a[j], a[i];
      assert a[..] == before[i := before[j]][j := before[i]];
      SwapKeepsMultiset(before, i, j);
      i := i - 1;
    }
    shuffled := a[..];
  }

  /** `CardType`. */
  datatype Card = Card(id: int, emoji: string, flipped: bool, matched: bool)

  /** The cards of `emojiPairs.map(...)`: ids 0..n-1, all face down and unmatched. */
  function DealCards(emojis: seq<string>): (cards: seq<Card>)
    ensures |cards| == |emojis|
    ensures forall i :: 0 <= i < |cards| ==> cards[i] == Card(i, emojis[i], false, false)
  {
    seq(|emojis|, i requires 0 <= i < |emojis| => Card(i, emojis[i], false, false))
  }

  /** The emojis of a deck, in order. */
  function Emojis(cards: seq<Card>): (s: seq<string>)
    ensures |s| == |cards| && forall i :: 0 <= i < |cards| ==> s[i] == cards[i].emoji
  {
    seq(|cards|, i requires 0 <= i < |cards| => cards[i].emoji)
  }

  /** Dealing keeps the order of the emojis. */
  lemma DealCardsEmojis(emojis: seq<string>)
    ensures Emojis(DealCards(emojis)) == emojis
  {
  }

  /** The positions of the matched cards. */
  function MatchedSet(cards: seq<Card>): set<int>
  {
    set i | 0 <= i < |cards| && cards[i].matched
  }

  /** A set of positions in `[0, n)` has at most `n` elements, and `n` exactly when it is all of them. */
  lemma {:induction false} PositionsBound(s: set<int>, n: nat)
    requires forall x :: x in s ==> 0 <= x < n
    ensures |s| <= n
    ensures |s| == n <==> forall x :: 0 <= x < n ==> x in s
    decreases n
  {
    if n == 0 {
      forall x | x in s
        ensures false
      {
      }
      assert s == {};
    } else {
      var rest := s - {n - 1};
      PositionsBound(rest, n - 1);
      if n - 1 in s {
        assert s == rest + {n - 1};
      } else {
        assert s == rest;
      }
    }
  }

  /** At most every card is matched, and all of them exactly when the count says so. */
  lemma MatchedSetBound(cards: seq<Card>)
    ensures |MatchedSet(cards)| <= |cards|
    ensures |MatchedSet(cards)| == |cards| <==> forall i :: 0 <= i < |cards| ==> cards[i].matched
  {
    var m := MatchedSet(cards);
    PositionsBound(m, |cards|);
    assert forall x :: 0 <= x < |cards| ==> (x in m <==> cards[x].matched);
  }

  /** Turning a face-down card up and marking two cards matched. */
  function FlipUp(cards: seq<Card>, i: int): (r: seq<Card>)
    requires 0 <= i < |cards|
  {
    cards[i := cards[i].(flipped := true)]
  }

  function MarkMatched(cards: seq<Card>, first: int, second: int): (r: seq<Card>)
    requires 0 <= first < |cards| && 0 <= second < |cards|
  {
    var c := cards[first := cards[first].(matched := true)];
    c[second := c[second].(matched := true)]
  }

  /** The mismatch timeout: both cards of a deck turned face down again. */
  function UnflipBoth(cards: seq<Card>, first: int, second: int): (r: seq<Card>)
    requires 0 <= first < |cards| && 0 <= second < |cards|
  {
    var c := cards[first := cards[first].(flipped := false)];
    c[second := c[second].(flipped := false)]
  }

  /** Marking two unmatched cards matched adds exactly those two positions. */
  lemma MarkMatchedSet(cards: seq<Card>, first: int, second: int)
    requires 0 <= first < |cards| && 0 <= second < |cards| && first != second
    requires !cards[first].matched && !cards[second].matched
    ensures MatchedSet(MarkMatched(cards, first, second)) == MatchedSet(cards) + {first, second}
    ensures |MatchedSet(MarkMatched(cards, first, second))| == |MatchedSet(cards)| + 2
  {
    var r := MarkMatched(cards, first, second);
    assert MatchedSet(r) == MatchedSet(cards) + {first, second};
    assert MatchedSet(cards) + {first, second} == (MatchedSet(cards) + {first}) + {second};
  }

  /** Sixteen cards with ids 0..15, and matched cards stay face up. */
  predicate DeckOk(cards: seq<Card>)
  {
    |cards| == 16 && forall i :: 0 <= i < |cards| ==> cards[i].id == i && (cards[i].matched ==> cards[i].flipped)
  }

  /** Turning a card up keeps the deck well formed. */
  lemma FlipUpDeckOk(cards: seq<Card>, i: int)
    requires DeckOk(cards) && 0 <= i < |cards|
    ensures DeckOk(FlipUp(cards, i))
  {
  }

  /** Matching two face-up cards keeps the deck well formed. */
  lemma MarkMatchedDeckOk(cards: seq<Card>, first: int, second: int)
    requires DeckOk(cards) && 0 <= first < |cards| && 0 <= second < |cards|
    requires cards[first].flipped && cards[second].flipped
    ensures DeckOk(MarkMatched(cards, first, second))
  {
    var r := MarkMatched(cards, first, second);
    forall i | 0 <= i < |r|
      ensures r[i].id == i && (r[i].matched ==> r[i].flipped)
    {
      if i == first || i == second {
        assert r[i].id == cards[i].id && r[i].flipped == cards[i].flipped;
      } else {
        assert r[i] == cards[i];
      }
    }
  }

  /** Turning two unmatched cards down keeps the deck well formed. */
  lemma UnflipBothDeckOk(cards: seq<Card>, first: int, second: int)
    requires DeckOk(cards) && 0 <= first < |cards| && 0 <= second < |cards|
    requires !cards[first].matched && !cards[second].matched
    ensures DeckOk(UnflipBoth(cards, first, second))
  {
    var r := UnflipBoth(cards, first, second);
    forall i | 0 <= i < |r|
      ensures r[i].id == i && (r[i].matched ==> r[i].flipped)
    {
      if i == first || i == second {
        assert r[i].id == cards[i].id && !r[i].matched;
      } else {
        assert r[i] == cards[i];
      }
    }
  }

  /** Flipping a card up or down leaves the matched positions alone. */
  lemma FlipKeepsMatchedSet(cards: seq<Card>, first: int, second: int)
    requires 0 <= first < |cards| && 0 <= second < |cards|
    ensures MatchedSet(FlipUp(cards, first)) == MatchedSet(cards)
    ensures MatchedSet(UnflipBoth(cards, first, second)) == MatchedSet(cards)
  {
    assert MatchedSet(FlipUp(cards, first)) == MatchedSet(cards);
    assert MatchedSet(UnflipBoth(cards, first, second)) == MatchedSet(cards);
  }

  /**
   * A pending 800 ms timeout: after a match it only unlocks; after a mismatch
   * it also turns the two cards of the deck it captured back down.
   */
  datatype Timeout = Unlock | Unflip(first: int, second: int, deck: seq<Card>)

  /** The page state: the deck, the face-up positions of this turn, the lock, the pair count and the pending timeout. */
  datatype Game = Game(cards: seq<Card>, flippedIndices: seq<int>, isLocked: bool, matches: int, pending: Option<Timeout>)

  /** At most two distinct face-up positions; a single one is not yet matched. */
  predicate FlippedOk(g: Game)
  {
    |g.flippedIndices| <= 2 &&
    (forall k :: 0 <= k < |g.flippedIndices| ==> 0 <= g.flippedIndices[k] < |g.cards| && g.cards[g.flippedIndices[k]].flipped) &&
    (|g.flippedIndices| == 2 ==> g.flippedIndices[0] != g.flippedIndices[1]) &&
    (|g.flippedIndices| == 1 ==> !g.cards[g.flippedIndices[0]].matched)
  }

  /**
   * The board is locked exactly while a timeout is pending, which is exactly
   * while two cards are up; a match timeout follows a matched pair, a
   * mismatch timeout holds the two positions and the current deck.
   */
  predicate LockOk(g: Game)
    requires FlippedOk(g)
  {
    (g.isLocked <==> |g.flippedIndices| == 2) &&
    (g.isLocked <==> g.pending.Some?) &&
    (g.pending.Some? && g.pending.value.Unlock? ==>
      g.cards[g.flippedIndices[0]].matched && g.cards[g.flippedIndices[1]].matched) &&
    (g.pending.Some? && g.pending.value.Unflip? ==>
      g.pending.value.first == g.flippedIndices[0] && g.pending.value.second == g.flippedIndices[1] &&
      g.pending.value.deck == g.cards &&
      !g.cards[g.flippedIndices[0]].matched && !g.cards[g.flippedIndices[1]].matched)
  }

  /** The invariant of the page; besides the above, `matches` is half the number of matched cards. */
  predicate Inv(g: Game)
  {
    DeckOk(g.cards) && FlippedOk(g) && LockOk(g) && 2 * g.matches == |MatchedSet(g.cards)|
  }

  /** The game is won when every emoji has been matched (`matches === emojiList.length`). */
  predicate Won(g: Game)
  {
    g.matches == |EmojiList|
  }

  /** What `resetGame` leaves, given the shuffled emojis. */
  function Dealt(emojis: seq<string>): Game
  {
    Game(DealCards(emojis), [], false, 0, None)
  }

  /** `resetGame` as written: the timeout scheduled before it is not cancelled. */
  function DealtAsWritten(g: Game, emojis: seq<string>): Game
  {
    Game(DealCards(emojis), [], false, 0, g.pending)
  }

  /** The positions `handleCardClick` reads are on the deck. */
  predicate Indexable(g: Game, index: int)
  {
    0 <= index < |g.cards| && forall k :: 0 <= k < |g.flippedIndices| ==> 0 <= g.flippedIndices[k] < |g.cards|
  }

  /** The guard of `handleCardClick`: the board is locked or the card is already up or matched. */
  predicate Ignores(g: Game, index: int)
    requires 0 <= index < |g.cards|
  {
    g.isLocked || g.cards[index].flipped || g.cards[index].matched
  }

  /**
   * `handleCardClick(index)` up to the scheduling of the timeout: an ignored
   * click changes nothing; otherwise the card turns up and is recorded; on the
   * second card the board locks, and a pair of equal emojis is matched and
   * counted at once.
   */
  function Click(g: Game, index: int): Game
    requires Indexable(g, index)
  {
    if Ignores(g, index) then g
    else
      var updated := FlipUp(g.cards, index);
      var newFlipped := g.flippedIndices + [index];
      if |newFlipped| == 2 then
        var first, second := newFlipped[0], newFlipped[1];
        if g.cards[first].emoji == g.cards[second].emoji then
          Game(MarkMatched(updated, first, second), newFlipped, true, g.matches + 1, Some(Unlock))
        else
          Game(updated, newFlipped, true, g.matches, Some(Unflip(first, second, updated)))
      else
        Game(updated, newFlipped, g.isLocked, g.matches, g.pending)
  }

  /** The positions a pending mismatch timeout writes are on its deck. */
  predicate Resolvable(g: Game)
  {
    g.pending.Some? &&
    (g.pending.value.Unflip? ==>
      0 <= g.pending.value.first < |g.pending.value.deck| && 0 <= g.pending.value.second < |g.pending.value.deck|)
  }

  /**
   * The 800 ms timeout runs: the face-up list is cleared and the board
   * unlocks; after a mismatch the two cards of the captured deck are turned
   * back down and that deck becomes the board.
   */
  function Resolved(g: Game): Game
    requires Resolvable(g)
  {
    match g.pending.value
    case Unlock => Game(g.cards, [], false, g.matches, None)
    case Unflip(first, second, deck) => Game(UnflipBoth(deck, first, second), [], false, g.matches, None)
  }

  /** A freshly dealt deck of sixteen satisfies the invariant, with nothing matched. */
  lemma DealtInv(emojis: seq<string>)
    requires |emojis| == 16
    ensures Inv(Dealt(emojis)) && !Won(Dealt(emojis))
    ensures forall i :: 0 <= i < 16 ==> !Dealt(emojis).cards[i].flipped && !Dealt(emojis).cards[i].matched
  {
    assert MatchedSet(Dealt(emojis).cards) == {};
  }

  /** The first card of a turn: it turns up and is recorded, nothing locks and nothing is matched. */
  lemma FirstFlipKeepsInv(g: Game, index: int)
    requires Inv(g) && 0 <= index < |g.cards| && !Ignores(g, index) && |g.flippedIndices| == 0
    ensures Click(g, index) == g.(cards := FlipUp(g.cards, index), flippedIndices := [index])
    ensures !Click(g, index).isLocked && Click(g, index).matches == g.matches
    ensures Inv(Click(g, index))
  {
    FlipKeepsMatchedSet(g.cards, index, index);
    FlipUpDeckOk(g.cards, index);
  }

  /** A click while the board is locked, or on a card already up or matched, changes nothing. */
  lemma IgnoredClickIsNoop(g: Game, index: int)
    requires Inv(g) && 0 <= index < |g.cards|
    ensures Indexable(g, index)
    ensures g.isLocked || g.cards[index].flipped || g.cards[index].matched ==> Click(g, index) == g
  {
  }

  /** The second card of a turn: the pair is matched at once, or a mismatch timeout holding the deck is scheduled. */
  lemma ClickOnSecond(g: Game, index: int)
    requires Indexable(g, index) && !Ignores(g, index) && |g.flippedIndices| == 1
    ensures var first := g.flippedIndices[0];
      Click(g, index) ==
        if g.cards[first].emoji == g.cards[index].emoji then
          Game(MarkMatched(FlipUp(g.cards, index), first, index), [first, index], true, g.matches + 1, Some(Unlock))
        else
          Game(FlipUp(g.cards, index), [first, index], true, g.matches, Some(Unflip(first, index, FlipUp(g.cards, index))))
  {
    assert g.flippedIndices + [index] == [g.flippedIndices[0], index];
  }

  /** A locked state right after a matched pair satisfies the invariant. */
  lemma MatchedPairInv(c: seq<Card>, first: int, second: int, matches: int)
    requires DeckOk(c) && 0 <= first < |c| && 0 <= second < |c| && first != second
    requires c[first].matched && c[second].matched && 2 * matches == |MatchedSet(c)|
    ensures Inv(Game(c, [first, second], true, matches, Some(Unlock)))
  {
  }

  /** A second card with the same emoji: both are matched and counted, and the board locks. */
  lemma MatchKeepsInv(g: Game, index: int)
    requires Inv(g) && 0 <= index < |g.cards| && !Ignores(g, index) && |g.flippedIndices| == 1
    requires g.cards[g.flippedIndices[0]].emoji == g.cards[index].emoji
    ensures Inv(Click(g, index))
  {
    var first := g.flippedIndices[0];
    var updated := FlipUp(g.cards, index);
    FlipKeepsMatchedSet(g.cards, index, index);
    MarkMatchedSet(updated, first, index);
    FlipUpDeckOk(g.cards, index);
    MarkMatchedDeckOk(updated, first, index);
    var c := MarkMatched(updated, first, index);
    MatchedPairInv(c, first, index, g.matches + 1);
    ClickOnSecond(g, index);
  }

  /** A second card with another emoji: it turns up and the board locks until the timeout. */
  lemma MismatchKeepsInv(g: Game, index: int)
    requires Inv(g) && 0 <= index < |g.cards| && !Ignores(g, index) && |g.flippedIndices| == 1
    requires g.cards[g.flippedIndices[0]].emoji != g.cards[index].emoji
    ensures Inv(Click(g, index))
  {
    FlipKeepsMatchedSet(g.cards, index, index);
    FlipUpDeckOk(g.cards, index);
    var h := Click(g, index);
    assert h.cards == FlipUp(g.cards, index);
    assert FlippedOk(h);
  }

  /** Every click keeps the invariant. */
  lemma ClickKeepsInv(g: Game, index: int)
    requires Inv(g) && 0 <= index < |g.cards|
    ensures Indexable(g, index) && Inv(Click(g, index))
  {
    if !Ignores(g, index) {
      if |g.flippedIndices| == 0 {
        FirstFlipKeepsInv(g, index);
      } else if g.cards[g.flippedIndices[0]].emoji == g.cards[index].emoji {
        MatchKeepsInv(g, index);
      } else {
        MismatchKeepsInv(g, index);
      }
    }
  }

  /**
   * Running the pending timeout keeps the invariant and leaves the board
   * unlocked with an empty turn. After a match the deck stays as it is; after
   * a mismatch the two cards of the turn go face down and no other card changes.
   */
  lemma ResolveKeepsInv(g: Game)
    requires Inv(g) && g.pending.Some?
    ensures Resolvable(g) && Inv(Resolved(g))
    ensures !Resolved(g).isLocked && Resolved(g).flippedIndices == [] && Resolved(g).matches == g.matches
    ensures g.pending.value.Unlock? ==> Resolved(g).cards == g.cards
    ensures g.pending.value.Unflip? ==>
      Resolved(g).cards == UnflipBoth(g.cards, g.flippedIndices[0], g.flippedIndices[1]) &&
      !Resolved(g).cards[g.flippedIndices[0]].flipped && !Resolved(g).cards[g.flippedIndices[1]].flipped &&
      forall i :: 0 <= i < |g.cards| && i != g.flippedIndices[0] && i != g.flippedIndices[1] ==>
        Resolved(g).cards[i] == g.cards[i]
  {
    var first, second := g.flippedIndices[0], g.flippedIndices[1];
    FlipKeepsMatchedSet(g.cards, first, second);
    if g.pending.value.Unflip? {
      UnflipBothDeckOk(g.cards, first, second);
    }
  }

  /** Clicks and timeouts only turn cards: ids and emojis stay where they were. */
  lemma DeckIsOnlyTurned(g: Game, index: int)
    requires Inv(g) && 0 <= index < |g.cards|
    ensures Indexable(g, index) && Emojis(Click(g, index).cards) == Emojis(g.cards)
    ensures g.pending.Some? ==> Resolvable(g) && Emojis(Resolved(g).cards) == Emojis(g.cards)
  {
  }

  /** `matches` never exceeds the number of emojis. */
  lemma MatchesBounded(g: Game)
    requires Inv(g)
    ensures 0 <= g.matches <= |EmojiList|
  {
    MatchedSetBound(g.cards);
  }

  /** The win banner shows exactly when every card is matched. */
  lemma WonIffAllMatched(g: Game)
    requires Inv(g)
    ensures Won(g) <==> forall i :: 0 <= i < |g.cards| ==> g.cards[i].matched
  {
    MatchedSetBound(g.cards);
  }

  /**
   * `resetGame` during the 800 ms after a mismatch: the stale timeout puts
   * back the captured deck, whose earlier pairs are still matched, while the
   * new game counts no matches, so the invariant no longer holds.
   */
  lemma StaleTimeoutBreaksInv(g: Game, emojis: seq<string>, k: int)
    requires Inv(g) && g.pending.Some? && g.pending.value.Unflip? && 0 <= k < |g.cards| && g.cards[k].matched
    ensures Resolvable(DealtAsWritten(g, emojis))
    ensures Resolved(DealtAsWritten(g, emojis)).matches == 0
    ensures Resolved(DealtAsWritten(g, emojis)).cards[k].matched
    ensures !Inv(Resolved(DealtAsWritten(g, emojis)))
  {
    var Unflip(first, second, deck) := g.pending.value;
    FlipKeepsMatchedSet(deck, first, second);
    assert k in MatchedSet(UnflipBoth(deck, first, second));
  }

  /** The page: React state held in fields. */
  class MemoryPage {
    var cards: seq<Card>
    var flippedIndices: seq<int>
    var isLocked: bool
    var matches: int
    /** The timeout scheduled by the last second flip and not yet run. */
    var pending: Option<Timeout>

    ghost function State(): Game
      reads this
    {
      Game(cards, flippedIndices, isLocked, matches, pending)
    }

    ghost predicate Valid()
      reads this
    {
      Inv(State())
    }

    /** The page mounts with no cards and then deals a game. */
    constructor ()
      ensures Valid()
      ensures multiset(Emojis(cards)) == multiset(Pairs) && State() == Dealt(Emojis(cards))
    {
      cards := [];
      flippedIndices := [];
      isLocked := false;
      matches := 0;
      pending := None;
      new;
      Reset();
    }

    /**
     * `resetGame`: a shuffled deck of two cards per emoji, ids 0..15, all
     * face down, unlocked, no matches; the pending timeout is cancelled.
     */
    method Reset()
      modifies this
      ensures Valid()
      ensures multiset(Emojis(cards)) == multiset(Pairs) && State() == Dealt(Emojis(cards))
    {
      var emojiPairs := Shuffle(Pairs);
      cards := DealCards(emojiPairs);
      DealCardsEmojis(emojiPairs);
      flippedIndices := [];
      isLocked := false;
      matches := 0;
      pending := None;
      DealtInv(emojiPairs);
    }

    /** `resetGame` as written: as `Reset`, but the pending timeout stays scheduled. */
    method ResetAsWritten()
      modifies this
      ensures multiset(Emojis(cards)) == multiset(Pairs)
      ensures State() == DealtAsWritten(old(State()), Emojis(cards))
    {
      var emojiPairs := Shuffle(Pairs);
      cards := DealCards(emojiPairs);
      DealCardsEmojis(emojiPairs);
      flippedIndices := [];
      isLocked := false;
      matches := 0;
    }

    /** `handleCardClick(index)`. */
    method HandleCardClick(index: int)
      requires Valid() && 0 <= index < |cards|
      modifies this
      ensures Valid()
      ensures Indexable(old(State()), index) && State() == Click(old(State()), index)
    {
      ClickKeepsInv(State(), index);
      if isLocked || cards[index].flipped || cards[index].matched {
        return;
      }
      var updatedCards := cards[index := cards[index].(flipped := true)];
      var newFlipped := flippedIndices + [index];
      var first := newFlipped[0];
      var sameEmoji := cards[first].emoji == cards[index].emoji;
      cards := updatedCards;
      flippedIndices := newFlipped;
      if |newFlipped| == 2 {
        var second := newFlipped[1];
        isLocked := true;
        if sameEmoji {
          updatedCards := MarkMatched(updatedCards, first, second);
          cards := updatedCards;
          matches := matches + 1;
          pending := Some(Unlock);
        } else {
          pending := Some(Unflip(first, second, updatedCards));
        }
      }
    }

    /** The pending 800 ms timeout fires. */
    method Resolve()
      requires Valid() && pending.Some?
      modifies this
      ensures Valid()
      ensures Resolvable(old(State())) && State() == Resolved(old(State()))
    {
      ResolveKeepsInv(State());
      match pending.value {
        case Unlock =>
        case Unflip(first, second, deck) =>
          cards := UnflipBoth(deck, first, second);
      }
      flippedIndices := [];
      isLocked := false;
      pending := None;
    }
  }
}
