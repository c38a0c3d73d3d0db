# BioBuddy question recommender — a Dafny model

BioBuddy is a LINE chat bot that plays twenty questions about animals. This
project models the algorithmic part of its server, `index.js`:

- the start-up **transposition** of the attribute data from trait-first
  (`trait -> animal -> value`) to animal-first (`animal -> trait -> value`),
  with the animal universe taken from the keys of the `Phylum` trait;
- **`recommendQuestion`**, which tallies, over the remaining candidate
  animals, how many carry each (trait, value) pair (skipping the three
  descriptive traits `ลักษณะเด่น`, `สาระน่ารู้` and `Phylum`), and returns the
  first pair, in score-table key order, with the smallest yes/no split
  `|yes - (n - yes)|`, provided that split is below the number `n` of
  candidates;
- **`findUserRoom`**, the linear search for the first game room whose red or
  blue seat holds a user. The id looked up may be `undefined`, and an empty
  seat's id reads as `undefined`, so such a lookup finds the first room with
  an empty seat; the model keeps that case by typing the id `Option<string>`.

JavaScript objects iterate their keys in insertion order, and both the
recommender's tie-break and the room search depend on that order, so a plain
object is modelled as `JsObject.Obj`: a key order plus a key/value map.
`undefined`/`null` results become `Wrappers.Option.None`. The candidate list
is a sequence: an animal listed twice is counted twice, as the source does.

Files: `wrappers.dfy` (Option), `js_object.dfy` (insertion-ordered
objects), `attribute_table.dfy` (transposition), `recommender.dfy` (the
recommender and its specification), `rooms.dfy` (room lookup).

The recommender's specification is the predicate `Recommends`: a returned
question is a non-descriptive pair some candidate has; no such pair splits
the candidates more evenly; among equally even pairs it is the first in
score-table key order (first encounter over candidates, then over each
candidate's traits in data order); and there is no question exactly when
every such pair is held by every candidate. `RecommendationIsUnique` shows
this determines the result, and `ChosenSplitIsNonTrivial` derives from it that
the chosen question leaves both the yes side and the no side non-empty.

The candidates are a list, not a set: an animal listed twice is counted
twice. A question is any (trait, value) pair the data records, not only a
"yes" marker.

## Model

| member | source | states |
|---|---|---|
| AttributeTable.AnimalRow | index.js:18-23 | the built row holds trait `t` with value `raw[t][animal]` exactly when `raw[t][animal]` is defined, and lists exactly those traits, in the raw data's trait order |
| AttributeTable.Transpose | index.js:15-24 | no `Phylum` trait gives no table (the `Object.keys` TypeError); otherwise the animals are exactly the `Phylum` keys in their order, and `animalData[a][t]` is defined and equals `raw[t][a]` exactly when `raw[t][a]` is defined |
| Recommender.TransposedAnswers | index.js:20-21 | over a transposed table an animal answers yes to (trait, value) exactly when the trait-first data records that value for it |
| Recommender.BumpTallies | index.js:50-51 | incrementing one key keeps the score table equal to the occurrence counts, in first-occurrence key order, of the pairs scanned so far |
| Recommender.TallyRow | index.js:47-52 | scanning one animal's traits adds each of its non-descriptive (trait, value) pairs to the score table, in the row's trait order |
| Recommender.RowQuestionsOccurrences | index.js:48-51 | one animal contributes a pair exactly once if it has that value for a non-descriptive trait, and not at all otherwise |
| Recommender.EncounteredOccurrences | index.js:46-53 | the number of times a pair is met while scanning equals the number of candidates holding it (repeats counted), and zero for descriptive traits |
| Recommender.EncounteredAreCounted | index.js:46-53 | a pair is met while scanning exactly when its trait is not descriptive and some candidate holds it |
| Recommender.TallyTraits | index.js:45-53 | the score table's keys are exactly the non-descriptive pairs some candidate holds, in first-encounter order, and each score is the number of candidates holding that pair |
| Recommender.PickQuestion | index.js:55-67 | no result exactly when no key's split beats the bound `n`; otherwise the result is the first key with the smallest split, which is below `n` |
| Recommender.RecommendQuestion | index.js:44-68 | the result meets `Recommends`: it is a non-descriptive pair some candidate holds, no such pair splits more evenly, it is the first among equally even keys, and there is none exactly when every such pair is held by every candidate; one or no candidate gets none |
| Recommender.ChosenSplitIsNonTrivial | index.js:56-63 | any result meeting `Recommends` is held by at least one and missed by at least one candidate, so a pair shared by every candidate is never chosen and at most one candidate gets no question |
| Recommender.RecommendationIsUnique | index.js:55-66 | two results both meeting `Recommends` are equal: the strict `<` against the running minimum fixes the choice |
| Rooms.FindSeated | index.js:40 | `find` returns a room holding the user with none earlier holding them, and nothing exactly when no room holds them |
| Rooms.FindUserRoom | index.js:39-41 | the result is the first room in `gameRooms` key order whose red or blue seat id equals the looked-up id (an empty seat matching an `undefined` id), and none exactly when no room matches |

## Left out

- Environment-variable logging, the Express server, the LINE SDK client and `app.listen` (index.js:1-7, 26-33, 70-79, 90-94): process and network plumbing.
- Reading and parsing `animalData.json` (index.js:14): the model starts from the parsed trait-first table, values as strings.
- `handleEvent` (index.js:81-88) is an empty stub in this file; the solo-session and two-team match logic it stands for is not part of this model.
- Lines 95-149 of index.js are deployment notes, not code.
- The score key is the string `trait#value` split again with `split('#')`; the model keys scores by the (trait, value) pair. This is the same whenever neither part contains `#`; a `#` inside a trait or value would make distinct pairs share a key or be split at the wrong place.
- JavaScript lists integer-like object keys before other keys in ascending numeric order; the model assumes plain insertion order for every key.
- Player and room state other than the seat ids (names, secrets, candidate sets, turns) is not read by the modelled code and is omitted from `Rooms.Room`.
