/**
 * The data the scheduler works on: flashcards, answer difficulties, and the
 * bucket map (bucket number -> set of cards).
 *
 * A JavaScript `Map` keeps its entries in insertion order and never holds a key
 * twice. The bucket map is therefore a sequence of entries in insertion order,
 * and `DistinctKeys` is the `Map`'s own invariant. `IndexOfKey` plays the part
 * of `Map.has`/`Map.get`, and `CardsAt` reads a bucket as a set, with the empty
 * set for a missing bucket.
 */
module Flashcards {

  datatype Option<T> = None | Some(value: T)

  datatype Result<T, E> = Ok(value: T) | Err(error: E)

  /** The two errors the scheduler raises. */
  datatype Error = CardNotFound | EmptyFront
  {
    /** The message text of the error the source throws. */
    function Message(): string
    {
      match this
      case CardNotFound => "Card not found in any bucket."
      case EmptyFront => "Cannot generate a hint for an empty flashcard front."
    }
  }

  /** An immutable card, compared by value. */
  datatype Flashcard = Flashcard(front: string, back: string, hint: string, tags: seq<string>)

  /** How well the learner recalled a card. */
  datatype AnswerDifficulty = Wrong | Hard | Easy

  /** One entry of the bucket map: a bucket number and the cards in it. */
  datatype Entry = Entry(bucket: nat, cards: set<Flashcard>)

  /** A bucket map: its entries in insertion order. */
  type BucketMap = seq<Entry>

  /** No bucket number occurs twice (a `Map` has unique keys). */
  predicate DistinctKeys(m: BucketMap)
  {
    forall i, j | 0 <= i < j < |m| :: m[i].bucket != m[j].bucket
  }

  /** The bucket numbers present in the map. */
  function Keys(m: BucketMap): set<nat>
  {
    set i | 0 <= i < |m| :: m[i].bucket
  }

  /**
   * The position of the entry for bucket `k`: the last such entry, which is
   * the only one when the keys are distinct.
   */
  function IndexOfKey(m: BucketMap, k: nat): (r: Option<nat>)
    ensures r.Some? ==> r.value < |m| && m[r.value].bucket == k
    ensures r.Some? ==> forall j | r.value < j < |m| :: m[j].bucket != k
    ensures r.None? <==> k !in Keys(m)
  {
    if |m| == 0 then None
    else if m[|m| - 1].bucket == k then Some(|m| - 1)
    else
      var r := IndexOfKey(m[..|m| - 1], k);
      assert forall j | 0 <= j < |m| - 1 :: m[..|m| - 1][j] == m[j];
      r
  }

  /** With distinct keys, the entry holding bucket `m[i].bucket` is entry `i`. */
  lemma IndexOfKeyAt(m: BucketMap, i: nat)
    requires DistinctKeys(m) && i < |m|
    ensures IndexOfKey(m, m[i].bucket) == Some(i)
  {
    var r := IndexOfKey(m, m[i].bucket);
    assert m[i].bucket in Keys(m);
  }

  /** The cards in bucket `k` (`Map.get`), the empty set for a missing bucket. */
  function CardsAt(m: BucketMap, k: nat): set<Flashcard>
  {
    match IndexOfKey(m, k)
    case None => {}
    case Some(j) => m[j].cards
  }

  /** Reading the map by key agrees with its entries, and missing buckets read as empty. */
  lemma CardsAtEntries(m: BucketMap)
    requires DistinctKeys(m)
    ensures forall i | 0 <= i < |m| :: CardsAt(m, m[i].bucket) == m[i].cards
    ensures forall k: nat | k !in Keys(m) :: CardsAt(m, k) == {}
  {
    forall i | 0 <= i < |m| ensures CardsAt(m, m[i].bucket) == m[i].cards {
      IndexOfKeyAt(m, i);
    }
  }

  /**
   * Replacing the cards of one entry keeps the keys and changes what that one
   * bucket reads as, and nothing else.
   */
  lemma CardsAtReplace(m: BucketMap, i: nat, s: set<Flashcard>)
    requires DistinctKeys(m) && i < |m|
    ensures DistinctKeys(m[i := Entry(m[i].bucket, s)])
    ensures Keys(m[i := Entry(m[i].bucket, s)]) == Keys(m)
    ensures forall b: nat :: CardsAt(m[i := Entry(m[i].bucket, s)], b)
                             == if b == m[i].bucket then s else CardsAt(m, b)
  {
    var m' := m[i := Entry(m[i].bucket, s)];
    assert forall j | 0 <= j < |m| :: m'[j].bucket == m[j].bucket;
    assert Keys(m') == Keys(m);
    IndexOfKeyAt(m, i);
    forall b: nat ensures IndexOfKey(m', b) == IndexOfKey(m, b) {
      var x, y := IndexOfKey(m', b), IndexOfKey(m, b);
      if x.Some? && y.Some? {
        assert x.value == y.value;
      }
    }
    forall b: nat ensures CardsAt(m', b) == if b == m[i].bucket then s else CardsAt(m, b) {
      if b == m[i].bucket {
        assert IndexOfKey(m', b) == Some(i);
      } else if IndexOfKey(m, b).Some? {
        assert IndexOfKey(m, b).value != i;
      }
    }
  }

  /** Each card sits in at most one bucket, the invariant the updater keeps. */
  ghost predicate AtMostOneBucket(m: BucketMap)
  {
    forall c, b1: nat, b2: nat | c in CardsAt(m, b1) && c in CardsAt(m, b2) :: b1 == b2
  }

  /** The number of cards summed over all buckets. */
  function TotalCards(m: BucketMap): nat
  {
    if |m| == 0 then 0 else TotalCards(m[..|m| - 1]) + |m[|m| - 1].cards|
  }

  /** Replacing one entry changes the total by the difference of the two sizes. */
  lemma {:induction false} TotalCardsReplace(m: BucketMap, i: nat, e: Entry)
    requires i < |m|
    ensures TotalCards(m[i := e]) == TotalCards(m) - |m[i].cards| + |e.cards|
  {
    var n := |m| - 1;
    if i == n {
      assert m[i := e][..n] == m[..n];
    } else {
      assert m[i := e][..n] == m[..n][i := e];
      TotalCardsReplace(m[..n], i, e);
    }
  }

  /** Appending an entry adds its size to the total. */
  lemma TotalCardsAppend(m: BucketMap, e: Entry)
    ensures TotalCards(m + [e]) == TotalCards(m) + |e.cards|
  {
    assert (m + [e])[..|m|] == m;
  }
}
