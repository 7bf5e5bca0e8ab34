# Leitner flashcard scheduler, modelled in Dafny

This project models the scheduling functions of a Leitner-system flashcard
trainer (`src/algorithm.ts`). Cards live in numbered buckets; a higher bucket
means a better-known card that is reviewed less often.

- `toBucketSets` turns the bucket map (bucket number → set of cards) into a
  dense array of sets, with an empty set at every missing bucket number.
- `getBucketRange` reports the lowest and highest buckets that hold a card, or
  nothing when no bucket does.
- `practice` returns the cards due on a day: bucket `i` is due when
  `day % (i + 1) == 0`.
- `update` moves a card after an answer. Easy moves it one bucket up, capped
  at `size - 1`. Hard moves it one bucket down, stopping at 0. Any other answer
  leaves it in place. A card that is in no bucket is an error.
- `getHint` keeps the first and last characters of a card's front and writes
  `_` in between. An empty front is an error.

Files:

- `flashcards.dfy` (module `Flashcards`) holds the data. It defines cards,
  difficulties, errors and the bucket map. A JavaScript `Map` keeps insertion
  order and never repeats a key. So a bucket map is a sequence of
  `Entry(bucket, cards)` in insertion order, and `DistinctKeys` is the `Map`'s
  own invariant. `IndexOfKey` stands for `Map.has`/`Map.get`. `CardsAt` reads a
  bucket, giving the empty set when the bucket is missing.
- `algorithm.dfy` (module `Algorithm`) holds the five operations.
  `toBucketSets`, `getBucketRange`, `practice` and `update` are loops in the
  source, so each is a method with loop invariants. Each method is proved
  against a specification function or states its result outright. Lemmas
  about those functions prove the promised properties. `getHint` is a single
  expression in the source and is a function here.

Three behaviours of the code are worth stating, and the model follows the code
in each:

- Easy's ceiling `size - 1` counts buckets, not bucket numbers. So when bucket
  numbers have gaps, Easy can move a card down. `SparseEasyDemotes` shows a
  card in bucket 5 of the map `{0, 5}` landing in bucket 1.
  `GapFreeEasyNeverDemotes` shows that when every bucket number is below the
  number of buckets, Easy moves the card up by one or leaves it in place.
- The doc comment of `getBucketRange` (src/algorithm.ts:41) says it takes the
  Array-of-Set representation, but its signature takes a `BucketMap`. The model
  follows the signature. `OccupiedIsDenseNonEmpty` shows that both forms give
  the same occupied buckets.
- The test for the front "1945" expects "1_4_". The code yields "1__5", and so
  does the model (`HintExamples`).

## Model

| member | source | states |
|---|---|---|
| `Flashcards.IndexOfKey` | src/algorithm.ts:129-132 | `Map.has`/`get`: returns a position whose entry has the key and after which no entry has it; returns nothing exactly when the key is absent |
| `Flashcards.IndexOfKeyAt` | src/algorithm.ts:129-132 | with distinct keys, looking up the key of entry `i` finds entry `i` |
| `Flashcards.CardsAtEntries` | src/algorithm.ts:129-132 | reading bucket `k` gives the cards of the entry keyed `k`; a missing bucket reads as the empty set |
| `Flashcards.CardsAtReplace` | src/algorithm.ts:110-116 | changing one bucket's set in the copied map keeps keys distinct and the key set unchanged, and changes what that bucket reads as and nothing else |
| `Algorithm.MaxBucket` | src/algorithm.ts:26 | `Math.max(...keys, 0)`: at least every key, itself a key of a non-empty map, 0 for an empty map |
| `Algorithm.ToBucketSets` | src/algorithm.ts:21-35 | the loop over a fresh array of empty sets yields exactly the dense form `BucketSets(m)` |
| `Algorithm.BucketSetsShape` | src/algorithm.ts:21-35 | the dense form is empty iff the map is; otherwise its last index is a key and every key lies below its length; each key's position holds that key's set; every other position is empty |
| `Algorithm.GetBucketRange` | src/algorithm.ts:46-66 | no range iff every bucket is empty; otherwise both ends are occupied buckets and every occupied bucket lies between them, so `minBucket <= maxBucket` |
| `Algorithm.OccupiedIsDenseNonEmpty` | src/algorithm.ts:38-48 | a bucket is occupied in the map iff its position in the dense form is a non-empty set |
| `Algorithm.Practice` | src/algorithm.ts:76-89 | the loop collects exactly `DueCards(buckets, day)`, the union of the buckets `i` with `day % (i + 1) == 0` |
| `Algorithm.DueCardsMembers` | src/algorithm.ts:80-88 | a card is practised iff some bucket `i` with `day % (i + 1) == 0` holds it |
| `Algorithm.BucketZeroAlwaysDue` | src/algorithm.ts:83 | every card of bucket 0 is practised on every day |
| `Algorithm.DayZeroAllCards` | src/algorithm.ts:82-86 | on day 0 the practised set is the union of all buckets |
| `Algorithm.DayOneFirstBucket` | src/algorithm.ts:82-86 | on day 1 the practised set is exactly bucket 0 |
| `Algorithm.DueCardsWithinAll` | src/algorithm.ts:80-88 | only cards that are in some bucket are practised |
| `Algorithm.DayZeroPractisesEveryCard` | src/algorithm.ts:21-35 | practising the dense form of a map on day 0 yields exactly the cards in the map's buckets |
| `Algorithm.FirstHolding` | src/algorithm.ts:109-116 | the scan stops at the first entry, in insertion order, that holds the card; it finds nothing iff no entry holds the card |
| `Algorithm.Destination` | src/algorithm.ts:122-127 | Easy: one up, but never past `size - 1`; Hard: one down, stopping at 0; any other answer: unchanged |
| `Algorithm.Update` | src/algorithm.ts:102-135 | fails with CardNotFound, message "Card not found in any bucket.", iff no bucket holds the card |
| `Algorithm.UpdateBuckets` | src/algorithm.ts:102-135 | copy, scan, delete, compute the destination, create the bucket if missing, add: the result is exactly `Update(buckets, card, difficulty)` |
| `Algorithm.AddCardView` | src/algorithm.ts:129-132 | adding to bucket `k` adds `k` to the keys, adds the card to bucket `k`, and leaves every other bucket alone |
| `Algorithm.UpdateView` | src/algorithm.ts:107-134 | what every bucket holds after `update`, in terms of the bucket the card was taken from and its destination |
| `Algorithm.UpdateMovesCard` | src/algorithm.ts:122-132 | afterwards the card is in its destination; in any other bucket only if it was there before and that bucket is not the one it was taken from |
| `Algorithm.UpdateKeepsOtherCards` | src/algorithm.ts:107-134 | no other card's membership in any bucket changes |
| `Algorithm.UpdateKeys` | src/algorithm.ts:129-131 | the new key set is the old one plus the destination, and keys stay distinct |
| `Algorithm.UpdateKeepsOneBucket` | src/algorithm.ts:109-132 | if every card was in at most one bucket, that still holds, and the moved card is in its destination only |
| `Algorithm.UpdateKeepsTotal` | src/algorithm.ts:107-134 | if the moved card was in exactly one bucket, the number of cards summed over all buckets is unchanged, even when other cards sit in several buckets |
| `Algorithm.WrongKeepsMap` | src/algorithm.ts:122-132 | an answer that is neither Easy nor Hard returns the map unchanged |
| `Algorithm.DenseMovesOneStep` | src/algorithm.ts:123-127 | arithmetic on the destination alone: for a bucket number below the bucket count, Easy moves up by 0 or 1 and Hard moves down by 0 or 1 |
| `Algorithm.GapFreeEasyNeverDemotes` | src/algorithm.ts:122-132 | in a map whose bucket numbers are all below its bucket count, Easy puts the card into its own bucket or the next one up |
| `Algorithm.SparseEasyDemotes` | src/algorithm.ts:124 | Easy on a card in bucket 5 of the map `{0: {}, 5: {card}}` puts the card into a new bucket 1 |
| `Algorithm.Repeat` | src/algorithm.ts:157 | `"_".repeat(n)`: a string of length `n` made only of that character |
| `Algorithm.GetHint` | src/algorithm.ts:148-158 | error iff the front is empty, with the source's message; a one-character front is returned unchanged; otherwise same length, same first and last characters, `_` everywhere between |
| `Algorithm.HintIsTheMask` | src/algorithm.ts:153-157 | the hint equals `s` iff `s` is the masked front, so the hint is the unique such string |
| `Algorithm.HintIdempotent` | src/algorithm.ts:148-158 | the hint of a card whose front is a hint is that same hint |
| `Algorithm.HintExamples` | src/algorithm.ts:148-158 | "cat"→"c_t", "a"→"a", "at"→"at", "elephant"→"e______t", "1945"→"1__5", ""→EmptyFront |

## Left out

- `computeProgress`: a stub with untyped arguments that only throws, so it has no behaviour to model.
- Aliasing in `update`: `new Map(buckets)` copies only the outer map, so deleting the card also changes the caller's set. The model works on values and does not capture this.
- Aliasing in `toBucketSets`: the array holds the map's own `Set` objects (src/algorithm.ts:31). So a later `update`, which deletes and adds in place (src/algorithm.ts:113, 132), also changes a dense form computed earlier. The model's dense form is a value and does not change.
- Card identity: JavaScript's `Set.has` compares cards by reference. The model compares them by value. The `Flashcard` type comes from `src/flashcards`, which is not part of this model. Its fields here are front, back, hint and tags.
- `AnswerDifficulty` comes from `src/flashcards`, which is not part of this model. It is modelled as a closed enumeration `Wrong | Hard | Easy`. Every value other than Easy and Hard takes the source's "leave in place" branch.
- JavaScript numbers are modelled as unbounded integers. Bucket numbers are `nat`, since the map has non-negative integer keys. Floating-point behaviour and the spread argument limit of `Math.max` are not modelled.
- `practice` checks `buckets[i]` for a hole in the array. A Dafny sequence has no holes, so the model drops this check. The dense form made by `toBucketSets` never has holes either.
- `practice` adds cards one at a time with `forEach`. The model adds a bucket's set in one union, which gives the same set.
- `UpdateKeepsOneBucket`: assumes every card is in at most one bucket. That invariant comes from the bucket map's intended data model; the source does not enforce or document it, and its own tests build maps with one card in several buckets. Without it, a card found in several buckets is removed only from the first, and the lemma says nothing.
- GetHint: measures and indexes the front in Unicode scalar values, while JavaScript uses UTF-16 code units. The two differ on a front with a character outside the Basic Multilingual Plane. For the front "a😀" the source sees length 3 and returns "a_" followed by a lone low surrogate; the model sees length 2 and returns "a😀".
