/**
 * The Leitner scheduler: converting the bucket map to its dense form, finding
 * the range of occupied buckets, choosing the cards due on a day, moving a card
 * after an answer, and masking a card's front into a hint.
 *
 * Each operation that the source writes as a loop is a method proved against a
 * specification function; the lemmas state what the source promises about
 * those functions.
 */
module Algorithm {
  import opened Flashcards

  function Min(a: int, b: int): int { if a < b then a else b }
  function Max(a: int, b: int): int { if a < b then b else a }

  // ---------------------------------------------------------------------------
  // toBucketSets

  /** `Math.max(...buckets.keys(), 0)`: the highest bucket number, 0 for an empty map. */
  function MaxBucket(m: BucketMap): (r: nat)
    ensures forall i | 0 <= i < |m| :: m[i].bucket <= r
    ensures |m| > 0 ==> r in Keys(m)
    ensures |m| == 0 ==> r == 0
  {
    if |m| == 0 then 0
    else
      var rest := MaxBucket(m[..|m| - 1]);
      assert forall j | 0 <= j < |m| - 1 :: m[..|m| - 1][j] == m[j];
      assert Keys(m[..|m| - 1]) <= Keys(m);
      Max(rest, m[|m| - 1].bucket)
  }

  /**
   * The dense array-of-sets form: position `k` holds bucket `k`, an empty set
   * where the map has no such bucket, up to the highest bucket number.
   */
  function BucketSets(m: BucketMap): seq<set<Flashcard>>
  {
    if |m| == 0 then [] else seq(MaxBucket(m) + 1, k requires 0 <= k => CardsAt(m, k))
  }

  /**
   * The dense form is empty exactly for an empty map; otherwise it is one
   * longer than the highest key, each key's position holds that key's cards,
   * and every other position is empty.
   */
  lemma BucketSetsShape(m: BucketMap)
    requires DistinctKeys(m)
    ensures |BucketSets(m)| == 0 <==> |m| == 0
    ensures |m| > 0 ==> |BucketSets(m)| - 1 in Keys(m)
    ensures forall i | 0 <= i < |m| ::
              m[i].bucket < |BucketSets(m)| && BucketSets(m)[m[i].bucket] == m[i].cards
    ensures forall k | 0 <= k < |BucketSets(m)| && k !in Keys(m) :: BucketSets(m)[k] == {}
  {
    CardsAtEntries(m);
  }

  /** `toBucketSets`: fills a fresh array of empty sets from the map's entries. */
  method ToBucketSets(m: BucketMap) returns (r: seq<set<Flashcard>>)
    ensures r == BucketSets(m)
  {
    if |m| == 0 {
      return [];
    }
    var maxBucket := MaxBucket(m);
    var bucketArray := new set<Flashcard>[maxBucket + 1](_ => {});
    for j := 0 to |m|
      invariant forall k | 0 <= k < bucketArray.Length :: bucketArray[k] == CardsAt(m[..j], k)
    {
      assert m[..j + 1][..j] == m[..j];
      bucketArray[m[j].bucket] := m[j].cards;
      forall k | 0 <= k < bucketArray.Length
        ensures bucketArray[k] == CardsAt(m[..j + 1], k)
      {
        if k != m[j].bucket {
          assert IndexOfKey(m[..j + 1], k) == IndexOfKey(m[..j], k);
        }
      }
    }
    assert m[..|m|] == m;
    r := bucketArray[..];
  }

  // ---------------------------------------------------------------------------
  // getBucketRange

  /** The lowest and highest bucket numbers that hold a card. */
  datatype BucketRange = BucketRange(minBucket: nat, maxBucket: nat)

  /** The bucket numbers whose sets are non-empty. */
  function Occupied(m: BucketMap): set<nat>
  {
    set i | 0 <= i < |m| && m[i].cards != {} :: m[i].bucket
  }

  /**
   * `getBucketRange`: one scan over the entries with running minimum and
   * maximum. There is no range exactly when no bucket holds a card; otherwise
   * both ends are occupied buckets and every occupied bucket lies between them.
   */
  method GetBucketRange(m: BucketMap) returns (r: Option<BucketRange>)
    ensures r.None? <==> forall i | 0 <= i < |m| :: m[i].cards == {}
    ensures r.None? <==> Occupied(m) == {}
    ensures r.Some? ==> r.value.minBucket in Occupied(m) && r.value.maxBucket in Occupied(m)
    ensures r.Some? ==> forall b | b in Occupied(m) :: r.value.minBucket <= b <= r.value.maxBucket
  {
    var minBucket: Option<nat> := None;
    var maxBucket: Option<nat> := None;
    for j := 0 to |m|
      invariant minBucket.None? <==> forall i | 0 <= i < j :: m[i].cards == {}
      invariant maxBucket.None? <==> minBucket.None?
      invariant minBucket.Some? ==> minBucket.value in Occupied(m)
      invariant maxBucket.Some? ==> maxBucket.value in Occupied(m)
      invariant forall i | 0 <= i < j && m[i].cards != {} ::
                  minBucket.Some? && minBucket.value <= m[i].bucket <= maxBucket.value
    {
      if m[j].cards != {} {
        if minBucket.None? || m[j].bucket < minBucket.value {
          minBucket := Some(m[j].bucket);
        }
        if maxBucket.None? || m[j].bucket > maxBucket.value {
          maxBucket := Some(m[j].bucket);
        }
      }
    }
    if minBucket.Some? && maxBucket.Some? {
      r := Some(BucketRange(minBucket.value, maxBucket.value));
    } else {
      r := None;
    }
  }

  /**
   * The occupied buckets of a map are the non-empty positions of its dense
   * form, so the range is the same whichever form it is computed from.
   */
  lemma OccupiedIsDenseNonEmpty(m: BucketMap)
    requires DistinctKeys(m)
    ensures forall b: nat :: b in Occupied(m) <==> b < |BucketSets(m)| && BucketSets(m)[b] != {}
  {
    BucketSetsShape(m);
    forall b: nat | b < |BucketSets(m)| && BucketSets(m)[b] != {}
      ensures b in Occupied(m)
    {
      var i :| 0 <= i < |m| && m[i].bucket == b;
    }
  }

  // ---------------------------------------------------------------------------
  // practice

  /**
   * Bucket `i` is due on the days that are multiples of `i + 1`. JavaScript's
   * `%` truncates and Dafny's is Euclidean, but both give 0 exactly on the
   * multiples, so negative days agree too.
   */
  predicate IsDue(i: nat, day: int)
  {
    day % (i + 1) == 0
  }

  /** The union of the due buckets. */
  function DueCards(buckets: seq<set<Flashcard>>, day: int): set<Flashcard>
  {
    if |buckets| == 0 then {}
    else
      DueCards(buckets[..|buckets| - 1], day)
      + (if IsDue(|buckets| - 1, day) then buckets[|buckets| - 1] else {})
  }

  /** The union of all buckets. */
  function AllCards(buckets: seq<set<Flashcard>>): set<Flashcard>
  {
    if |buckets| == 0 then {} else AllCards(buckets[..|buckets| - 1]) + buckets[|buckets| - 1]
  }

  /** `practice`: collects the cards of every due bucket into a fresh set. */
  method Practice(buckets: seq<set<Flashcard>>, day: int) returns (practiceSet: set<Flashcard>)
    ensures practiceSet == DueCards(buckets, day)
  {
    practiceSet := {};
    for i := 0 to |buckets|
      invariant practiceSet == DueCards(buckets[..i], day)
    {
      assert buckets[..i + 1][..i] == buckets[..i];
      if IsDue(i, day) {
        practiceSet := practiceSet + buckets[i];
      }
    }
    assert buckets[..|buckets|] == buckets;
  }

  /** A card is due exactly when some due bucket holds it. */
  lemma {:induction false} DueCardsMembers(buckets: seq<set<Flashcard>>, day: int)
    ensures forall c :: c in DueCards(buckets, day) <==>
              exists i | 0 <= i < |buckets| :: IsDue(i, day) && c in buckets[i]
  {
    if |buckets| > 0 {
      var init := buckets[..|buckets| - 1];
      DueCardsMembers(init, day);
      assert forall i | 0 <= i < |init| :: init[i] == buckets[i];
    }
  }

  /** Bucket 0 is practised every day. */
  lemma BucketZeroAlwaysDue(buckets: seq<set<Flashcard>>, day: int)
    requires |buckets| > 0
    ensures buckets[0] <= DueCards(buckets, day)
  {
    DueCardsMembers(buckets, day);
    assert IsDue(0, day);
  }

  /** On day 0 every bucket is due, so every card is practised. */
  lemma {:induction false} DayZeroAllCards(buckets: seq<set<Flashcard>>)
    ensures DueCards(buckets, 0) == AllCards(buckets)
  {
    if |buckets| > 0 {
      DayZeroAllCards(buckets[..|buckets| - 1]);
    }
  }

  /** On day 1 only bucket 0 is due. */
  lemma {:induction false} DayOneFirstBucket(buckets: seq<set<Flashcard>>)
    requires |buckets| > 0
    ensures DueCards(buckets, 1) == buckets[0]
  {
    if |buckets| > 1 {
      var init := buckets[..|buckets| - 1];
      DayOneFirstBucket(init);
      assert 1 % |buckets| == 1;
    }
  }

  /** Only cards that are in some bucket are practised. */
  lemma {:induction false} DueCardsWithinAll(buckets: seq<set<Flashcard>>, day: int)
    ensures DueCards(buckets, day) <= AllCards(buckets)
  {
    if |buckets| > 0 {
      DueCardsWithinAll(buckets[..|buckets| - 1], day);
    }
  }

  /**
   * Practising the dense form of a map on day 0 covers exactly the cards that
   * are in some bucket of the map.
   */
  lemma DayZeroPractisesEveryCard(m: BucketMap)
    requires DistinctKeys(m)
    ensures forall c :: c in DueCards(BucketSets(m), 0) <==> exists i | 0 <= i < |m| :: c in m[i].cards
  {
    var dense := BucketSets(m);
    BucketSetsShape(m);
    DueCardsMembers(dense, 0);
    forall c | c in DueCards(dense, 0) ensures exists i | 0 <= i < |m| :: c in m[i].cards {
      var k :| 0 <= k < |dense| && IsDue(k, 0) && c in dense[k];
      assert k in Keys(m);
      var i :| 0 <= i < |m| && m[i].bucket == k;
      assert c in m[i].cards;
    }
    forall c, i | 0 <= i < |m| && c in m[i].cards ensures c in DueCards(dense, 0) {
      assert IsDue(m[i].bucket, 0) && c in dense[m[i].bucket];
    }
  }

  // ---------------------------------------------------------------------------
  // update

  /** The position of the first entry, in insertion order, that holds `card`. */
  function FirstHolding(m: BucketMap, card: Flashcard): (r: Option<nat>)
    ensures r.Some? ==> r.value < |m| && card in m[r.value].cards
    ensures r.Some? ==> forall j | 0 <= j < r.value :: card !in m[j].cards
    ensures r.None? <==> forall j | 0 <= j < |m| :: card !in m[j].cards
  {
    if |m| == 0 then None
    else if card in m[0].cards then Some(0)
    else
      match FirstHolding(m[1..], card)
      case None => None
      case Some(j) => Some(j + 1)
  }

  /**
   * Where a card in bucket `current` goes in a map of `size` buckets: Easy
   * moves it one up but never past `size - 1`, Hard one down but never below
   * 0, and any other answer leaves it where it is.
   */
  function Destination(current: nat, size: nat, difficulty: AnswerDifficulty): (r: nat)
    requires size > 0
    ensures difficulty == Easy ==> r <= size - 1 && r <= current + 1
    ensures difficulty == Easy ==> r == current + 1 || r == size - 1
    ensures difficulty == Hard ==> (current > 0 ==> r == current - 1) && (current == 0 ==> r == 0)
    ensures difficulty == Wrong ==> r == current
  {
    match difficulty
    case Easy => Min(current + 1, size - 1)
    case Hard => Max(current - 1, 0)
    case Wrong => current
  }

  /** Puts `card` into bucket `k`, creating the bucket when it is missing. */
  function AddCard(m: BucketMap, k: nat, card: Flashcard): BucketMap
  {
    match IndexOfKey(m, k)
    case None => m + [Entry(k, {card})]
    case Some(j) => m[j := Entry(k, m[j].cards + {card})]
  }

  /**
   * The result of `update`: CardNotFound when no bucket holds the card;
   * otherwise the card is taken out of the first bucket that holds it and put
   * into that bucket's destination.
   */
  function Update(m: BucketMap, card: Flashcard, difficulty: AnswerDifficulty): (r: Result<BucketMap, Error>)
    ensures r.Err? <==> forall i | 0 <= i < |m| :: card !in m[i].cards
    ensures r.Err? ==> r.error == CardNotFound
    ensures r.Err? ==> r.error.Message() == "Card not found in any bucket."
  {
    match FirstHolding(m, card)
    case None => Err(CardNotFound)
    case Some(i) =>
      var current := m[i].bucket;
      var removed := m[i := Entry(current, m[i].cards - {card})];
      Ok(AddCard(removed, Destination(current, |removed|, difficulty), card))
  }

  /**
   * `update`: copies the map, scans it for the card and removes it, computes
   * the destination, creates the destination bucket if needed and adds the
   * card to it.
   */
  method UpdateBuckets(buckets: BucketMap, card: Flashcard, difficulty: AnswerDifficulty)
    returns (r: Result<BucketMap, Error>)
    ensures r == Update(buckets, card, difficulty)
  {
    var newBuckets := buckets;
    var currentBucket: int := -1;
    var i := 0;
    while i < |newBuckets|
      invariant 0 <= i <= |buckets|
      invariant newBuckets == buckets
      invariant forall j | 0 <= j < i :: card !in buckets[j].cards
    {
      if card in newBuckets[i].cards {
        currentBucket := newBuckets[i].bucket;
        newBuckets := newBuckets[i := Entry(newBuckets[i].bucket, newBuckets[i].cards - {card})];
        break;
      }
      i := i + 1;
    }

    if currentBucket == -1 {
      return Err(CardNotFound);
    }
    assert FirstHolding(buckets, card) == Some(i);

    var newBucket: int := currentBucket;
    if difficulty == Easy {
      newBucket := Min(currentBucket + 1, |newBuckets| - 1);
    } else if difficulty == Hard {
      newBucket := Max(currentBucket - 1, 0);
    }
    assert newBucket == Destination(currentBucket, |newBuckets|, difficulty);

    ghost var removed := newBuckets;
    if IndexOfKey(newBuckets, newBucket).None? {
      newBuckets := newBuckets + [Entry(newBucket, {})];
    }
    var j := IndexOfKey(newBuckets, newBucket).value;
    newBuckets := newBuckets[j := Entry(newBucket, newBuckets[j].cards + {card})];
    if IndexOfKey(removed, newBucket).None? {
      assert j == |removed|;
      assert {} + {card} == {card};
      assert newBuckets[..|removed|] == removed;
      assert newBuckets == removed + [Entry(newBucket, {card})];
    }
    r := Ok(newBuckets);
  }

  /**
   * Putting a card into bucket `k` adds `k` to the keys, adds the card to what
   * bucket `k` reads as, and leaves every other bucket alone.
   */
  lemma AddCardView(m: BucketMap, k: nat, card: Flashcard)
    requires DistinctKeys(m)
    ensures DistinctKeys(AddCard(m, k, card))
    ensures Keys(AddCard(m, k, card)) == Keys(m) + {k}
    ensures forall b: nat :: CardsAt(AddCard(m, k, card), b)
                             == if b == k then CardsAt(m, k) + {card} else CardsAt(m, b)
  {
    match IndexOfKey(m, k)
    case None =>
      var m' := m + [Entry(k, {card})];
      assert forall j | 0 <= j < |m| :: m'[j] == m[j];
      assert m'[..|m|] == m;
      forall b | b in Keys(m') ensures b in Keys(m) + {k} {
        var j :| 0 <= j < |m'| && m'[j].bucket == b;
        if j < |m| { assert m[j].bucket == b; }
      }
      forall b | b in Keys(m) + {k} ensures b in Keys(m') {
        if b == k {
          assert m'[|m|].bucket == b;
        } else {
          var j :| 0 <= j < |m| && m[j].bucket == b;
          assert m'[j].bucket == b;
        }
      }
    case Some(j) =>
      CardsAtReplace(m, j, m[j].cards + {card});
  }

  /** What `update` does to every bucket, in terms of the bucket the card was found in. */
  lemma UpdateView(m: BucketMap, card: Flashcard, difficulty: AnswerDifficulty, i: nat)
    requires DistinctKeys(m) && FirstHolding(m, card) == Some(i)
    ensures Update(m, card, difficulty).Ok?
    ensures var r := Update(m, card, difficulty).value;
            var k, dest := m[i].bucket, Destination(m[i].bucket, |m|, difficulty);
            && DistinctKeys(r)
            && Keys(r) == Keys(m) + {dest}
            && forall b: nat :: CardsAt(r, b) ==
                 if b == dest then (if b == k then m[i].cards - {card} else CardsAt(m, b)) + {card}
                 else if b == k then m[i].cards - {card}
                 else CardsAt(m, b)
  {
    var k := m[i].bucket;
    var removed := m[i := Entry(k, m[i].cards - {card})];
    CardsAtReplace(m, i, m[i].cards - {card});
    AddCardView(removed, Destination(k, |m|, difficulty), card);
  }

  /**
   * After `update` the card is in its destination bucket, and in any other
   * bucket only if it was there before and that bucket is not the one it was
   * taken from.
   */
  lemma UpdateMovesCard(m: BucketMap, card: Flashcard, difficulty: AnswerDifficulty, i: nat)
    requires DistinctKeys(m) && FirstHolding(m, card) == Some(i)
    ensures Update(m, card, difficulty).Ok?
    ensures var r := Update(m, card, difficulty).value;
            card in CardsAt(r, Destination(m[i].bucket, |m|, difficulty))
    ensures var r := Update(m, card, difficulty).value;
            forall b: nat | b != Destination(m[i].bucket, |m|, difficulty) ::
              card in CardsAt(r, b) <==> b != m[i].bucket && card in CardsAt(m, b)
  {
    UpdateView(m, card, difficulty, i);
  }

  /** `update` changes no other card's membership in any bucket. */
  lemma UpdateKeepsOtherCards(m: BucketMap, card: Flashcard, difficulty: AnswerDifficulty, i: nat)
    requires DistinctKeys(m) && FirstHolding(m, card) == Some(i)
    ensures Update(m, card, difficulty).Ok?
    ensures var r := Update(m, card, difficulty).value;
            forall c, b: nat | c != card :: c in CardsAt(r, b) <==> c in CardsAt(m, b)
  {
    UpdateView(m, card, difficulty, i);
    var r := Update(m, card, difficulty).value;
    var k, dest := m[i].bucket, Destination(m[i].bucket, |m|, difficulty);
    forall c, b: nat | c != card
      ensures c in CardsAt(r, b) <==> c in CardsAt(m, b)
    {
      if b == k {
        IndexOfKeyAt(m, i);
        assert CardsAt(m, b) == m[i].cards;
      }
    }
  }

  /**
   * The keys after `update` are the old keys plus the destination, and they
   * are still distinct.
   */
  lemma UpdateKeys(m: BucketMap, card: Flashcard, difficulty: AnswerDifficulty, i: nat)
    requires DistinctKeys(m) && FirstHolding(m, card) == Some(i)
    ensures Update(m, card, difficulty).Ok?
    ensures var r := Update(m, card, difficulty).value;
            DistinctKeys(r) && Keys(r) == Keys(m) + {Destination(m[i].bucket, |m|, difficulty)}
  {
    UpdateView(m, card, difficulty, i);
  }

  /**
   * When every card is in at most one bucket, `update` keeps it that way, and
   * the moved card ends up in its destination bucket alone.
   */
  lemma UpdateKeepsOneBucket(m: BucketMap, card: Flashcard, difficulty: AnswerDifficulty, i: nat)
    requires DistinctKeys(m) && AtMostOneBucket(m) && FirstHolding(m, card) == Some(i)
    ensures Update(m, card, difficulty).Ok?
    ensures var r := Update(m, card, difficulty).value;
            forall b: nat :: card in CardsAt(r, b) <==> b == Destination(m[i].bucket, |m|, difficulty)
    ensures AtMostOneBucket(Update(m, card, difficulty).value)
  {
    UpdateMovesCard(m, card, difficulty, i);
    UpdateKeepsOtherCards(m, card, difficulty, i);
    IndexOfKeyAt(m, i);
    var r := Update(m, card, difficulty).value;
    var k, dest := m[i].bucket, Destination(m[i].bucket, |m|, difficulty);
    assert card in CardsAt(m, k);
    forall b: nat | b != dest
      ensures card !in CardsAt(r, b)
    {
      if b != k {
        assert card !in CardsAt(m, b);
      }
    }
    forall c, b1: nat, b2: nat | c in CardsAt(r, b1) && c in CardsAt(r, b2)
      ensures b1 == b2
    {
      if c != card {
        assert c in CardsAt(m, b1) && c in CardsAt(m, b2);
      }
    }
  }

  /**
   * When the moved card is in exactly one bucket, `update` leaves the number
   * of cards across all buckets unchanged, whatever the other cards do.
   */
  lemma UpdateKeepsTotal(m: BucketMap, card: Flashcard, difficulty: AnswerDifficulty, i: nat)
    requires DistinctKeys(m) && FirstHolding(m, card) == Some(i)
    requires forall j | 0 <= j < |m| && j != i :: card !in m[j].cards
    ensures Update(m, card, difficulty).Ok?
    ensures TotalCards(Update(m, card, difficulty).value) == TotalCards(m)
  {
    var k := m[i].bucket;
    var s := m[i].cards;
    var removed := m[i := Entry(k, s - {card})];
    var dest := Destination(k, |m|, difficulty);
    assert s == (s - {card}) + {card};
    TotalCardsReplace(m, i, Entry(k, s - {card}));
    assert TotalCards(removed) + 1 == TotalCards(m);
    match IndexOfKey(removed, dest)
    case None =>
      TotalCardsAppend(removed, Entry(dest, {card}));
    case Some(j) =>
      assert card !in removed[j].cards;
      TotalCardsReplace(removed, j, Entry(dest, removed[j].cards + {card}));
  }

  /** An answer that is neither Easy nor Hard returns the map unchanged. */
  lemma WrongKeepsMap(m: BucketMap, card: Flashcard)
    requires DistinctKeys(m) && FirstHolding(m, card).Some?
    ensures Update(m, card, Wrong) == Ok(m)
  {
    var i := FirstHolding(m, card).value;
    var s := m[i].cards;
    var removed := m[i := Entry(m[i].bucket, s - {card})];
    IndexOfKeyAt(removed, i);
    assert (s - {card}) + {card} == s;
    assert removed[i := Entry(m[i].bucket, s)] == m;
  }

  /**
   * For a card whose bucket number is below the number of buckets, Easy moves
   * it up by at most one and Hard moves it down by at most one.
   */
  lemma DenseMovesOneStep(current: nat, size: nat)
    requires current < size
    ensures current <= Destination(current, size, Easy) <= current + 1
    ensures current - 1 <= Destination(current, size, Hard) <= current
  {
  }

  /**
   * In a map whose bucket numbers are all below the number of buckets (so,
   * with distinct keys, exactly 0 to `|m| - 1`), Easy never moves a card down:
   * the card ends up in its own bucket or the next one.
   */
  lemma GapFreeEasyNeverDemotes(m: BucketMap, card: Flashcard, i: nat)
    requires DistinctKeys(m) && FirstHolding(m, card) == Some(i)
    requires forall j | 0 <= j < |m| :: m[j].bucket < |m|
    ensures Update(m, card, Easy).Ok?
    ensures var dest := Destination(m[i].bucket, |m|, Easy);
            && m[i].bucket <= dest <= m[i].bucket + 1
            && card in CardsAt(Update(m, card, Easy).value, dest)
  {
    UpdateMovesCard(m, card, Easy, i);
    DenseMovesOneStep(m[i].bucket, |m|);
  }

  /**
   * With a gap in the bucket numbers, Easy can move a card down: the ceiling
   * `size - 1` counts buckets, not bucket numbers. A card in bucket 5 of the
   * map {0, 5} lands in bucket 1.
   */
  lemma SparseEasyDemotes(card: Flashcard)
    ensures var m := [Entry(0, {}), Entry(5, {card})];
            Update(m, card, Easy) == Ok([Entry(0, {}), Entry(5, {}), Entry(1, {card})])
  {
    var m := [Entry(0, {}), Entry(5, {card})];
    assert FirstHolding(m, card) == Some(1);
    var removed: BucketMap := [Entry(0, {}), Entry(5, {})];
    assert {card} - {card} == {};
    assert m[1 := Entry(5, {card} - {card})] == removed;
    assert removed[..1] == [Entry(0, {})];
    assert removed[..1][..0] == [];
    assert IndexOfKey(removed, 1) == None;
    assert Destination(5, 2, Easy) == 1;
    assert AddCard(removed, 1, card) == removed + [Entry(1, {card})];
    assert Update(m, card, Easy) == Ok(AddCard(removed, 1, card));
    assert removed + [Entry(1, {card})] == [Entry(0, {}), Entry(5, {}), Entry(1, {card})];
  }

  // ---------------------------------------------------------------------------
  // getHint

  /** `n` copies of `ch`. */
  function Repeat(ch: char, n: nat): (r: string)
    ensures |r| == n && forall i | 0 <= i < n :: r[i] == ch
  {
    if n == 0 then "" else [ch] + Repeat(ch, n - 1)
  }

  /** `s` shows the first and last characters of `front` and masks the rest with '_'. */
  predicate IsMaskOf(s: string, front: string)
  {
    && |s| == |front| > 0
    && s[0] == front[0]
    && s[|s| - 1] == front[|front| - 1]
    && forall i | 0 < i < |s| - 1 :: s[i] == '_'
  }

  /**
   * `getHint`: an empty front is an error, a one-character front is its own
   * hint, and a longer front keeps its first and last characters with '_' in
   * between.
   */
  function GetHint(card: Flashcard): (r: Result<string, Error>)
    ensures r.Err? <==> |card.front| == 0
    ensures r.Err? ==> r.error == EmptyFront
    ensures r.Err? ==> r.error.Message() == "Cannot generate a hint for an empty flashcard front."
    ensures |card.front| == 1 ==> r == Ok(card.front)
    ensures r.Ok? ==> IsMaskOf(r.value, card.front)
  {
    if |card.front| == 0 then Err(EmptyFront)
    else if |card.front| == 1 then Ok(card.front)
    else Ok([card.front[0]] + Repeat('_', |card.front| - 2) + [card.front[|card.front| - 1]])
  }

  /** The mask of a front is unique, so the hint is exactly the masked front. */
  lemma HintIsTheMask(card: Flashcard, s: string)
    ensures GetHint(card) == Ok(s) <==> IsMaskOf(s, card.front)
  {
    if IsMaskOf(s, card.front) {
      var h := GetHint(card).value;
      assert IsMaskOf(h, card.front);
      forall i | 0 <= i < |s| ensures s[i] == h[i] {
        if 0 < i < |s| - 1 {
          assert s[i] == '_' && h[i] == '_';
        }
      }
      assert s == h;
    }
  }

  /** Asking for the hint of a hint gives the same hint back. */
  lemma HintIdempotent(card: Flashcard)
    requires |card.front| > 0
    ensures var h := GetHint(card).value;
            GetHint(Flashcard(h, card.back, card.hint, card.tags)) == Ok(h)
  {
    var h := GetHint(card).value;
    HintIsTheMask(Flashcard(h, card.back, card.hint, card.tags), h);
  }

  /** "cat" gives "c_t", "at" stays "at", "elephant" gives "e______t", "1945" gives "1__5". */
  lemma HintExamples()
    ensures GetHint(Flashcard("cat", "", "", [])) == Ok("c_t")
    ensures GetHint(Flashcard("a", "", "", [])) == Ok("a")
    ensures GetHint(Flashcard("at", "", "", [])) == Ok("at")
    ensures GetHint(Flashcard("elephant", "", "", [])) == Ok("e______t")
    ensures GetHint(Flashcard("1945", "", "", [])) == Ok("1__5")
    ensures GetHint(Flashcard("", "", "", [])) == Err(EmptyFront)
  {
    HintIsTheMask(Flashcard("cat", "", "", []), "c_t");
    HintIsTheMask(Flashcard("at", "", "", []), "at");
    HintIsTheMask(Flashcard("elephant", "", "", []), "e______t");
    HintIsTheMask(Flashcard("1945", "", "", []), "1__5");
  }
}
