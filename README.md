# Secret Santa draw: a Dafny model

The Secret Santa server keeps a list of registered participants and, on
request, draws who gives a gift to whom. The draw uses a constrained random
derangement generator, `generateDerangementNoTwoCycle`. It shuffles a copy of
the participant list with Fisher–Yates swaps and rejects any arrangement in
which a participant receives their own name, or in which two participants
receive each other's names (a 2-cycle). It tries at most 2000 times and then
gives up with `null`. The request handlers register and delete participants,
run the draw, look up one participant's receiver and reset everything. They
work on a stored record `{participants, results, isDrawn}`.

This project models both parts and proves what they promise.

- `wrappers.dfy`, module `Wrappers`: `Option`, used for JavaScript's `null` and
  `undefined`.
- `derangement.dfy`, module `Derangement`: the generator.
  - `IndexOf` is JavaScript's `indexOf`.
  - `PassesAt` and `Acceptable` are the generator's two rejection tests, as
    written.
  - `NoSelfMatch` and `NoMutualPair` say independently what those tests are
    meant to ensure.
  - `Shuffle` is the in-place Fisher–Yates pass on an array.
  - `CheckCandidate` is the validation loop, with its early exit.
  - `GenerateDerangementNoTwoCycle` is the bounded retry loop.
  - `Math.random` becomes a nondeterministic choice of the swap index in
    `[0, i]`, so every property holds whatever the random source returns.
- `cycles.dfy`, module `Cycles`: what an accepted arrangement means as a
  "who gives to whom" structure. The server never decomposes an arrangement
  into cycles, so these are consequences of the generator's tests, not models
  of a server function.
  - `Next` is the giver-to-receiver position map, `original.indexOf(result[i])`.
  - On distinct names `Next` is one-to-one and onto.
  - No gift chain closes after one or two steps.
  - Three names admit exactly the two rotations.
  - Four names always form a single 4-cycle.
- `secret_santa.dfy`, module `SecretSanta`: the handlers as the class `Store`.
  - The fields `participants`, `results` and `isDrawn` stand for the stored
    JSON record.
  - Each handler that writes the file takes `writeSucceeds`. When the write
    fails, the stored state stays as it was.
  - `Store.Valid()` is the invariant that links the handlers to the generator.
    Registration keeps names distinct, so `indexOf` in the generator finds each
    giver at their own position. Results exist only after a draw, belong to
    participants, and form a valid drawing (`IsAssignment`).

Notes on the source:

- The draw handler calls `generateDerangement` (server/server.js:238). No
  function of that name is defined in server/server.js: the generator is
  defined at server/server.js:62 as `generateDerangementNoTwoCycle`. `Store.Draw`
  calls the function defined at line 62. As written, the call would throw a
  `ReferenceError`, and the error middleware would answer every draw with at
  least two participants with a failure. Draws with fewer are refused at
  server/server.js:230-235, before that call.
- The attempt budget is 2000 (server/server.js:65).
- Two names are never accepted, but the code has no special case for them: it
  spends the whole budget and then returns `null`. The model keeps that
  behaviour (`TwoNeverAcceptable`, and the `|arr| == 2` clause of the
  generator).
- Registration does not check `isDrawn`. A name registered after the draw is
  a participant without a stored receiver, and the lookup answers it with
  success and an undefined receiver. `Store.Lookup` returns
  `Receiver(None)` in that case.
- A registered name is stored untrimmed. Only the blank test trims it (`IsBlank`
  uses the characters `String.prototype.trim` removes).

## Model

| member | source | states |
|---|---|---|
| `Derangement.IndexOf` | server/server.js:85 | `indexOf` gives -1 exactly when the element is absent; otherwise it gives a position holding the element, with no earlier occurrence |
| `Derangement.IndexOfDistinct` | server/server.js:85 | in a list of distinct names, `indexOf` finds each name at its own position |
| `Derangement.PermutationKeepsDistinct` | server/server.js:63-73 | rearranging distinct names, as the shuffle does, keeps them distinct |
| `Derangement.AcceptableIffDerangement` | server/server.js:77-90 | for distinct names, an arrangement passes both rejection tests exactly when nobody gets their own name and no two givers get each other's names (both directions) |
| `Derangement.OneNeverAcceptable` | server/server.js:77-82 | no rearrangement of a one-name list passes the self-match test |
| `Derangement.TwoNeverAcceptable` | server/server.js:77-90 | no rearrangement of a two-name list passes: keeping the order is a self match, and swapping is a 2-cycle |
| `Derangement.Shuffle` | server/server.js:70-73 | the in-place swap pass leaves the array a permutation of what it was, for every choice of swap indices |
| `Derangement.CheckCandidate` | server/server.js:75-90 | the validation loop, with its early exits, reports valid exactly when every position passes both tests |
| `Derangement.GenerateDerangementNoTwoCycle` | server/server.js:62-100 | a returned arrangement is a permutation of the input and passes both tests, so it has no self match, and for distinct input no mutual pair; the loop's attempt counter ends at most at 2000, and at exactly 2000 when the result is `null`; one or two names always give `null`; an empty list gives the empty arrangement |
| `Cycles.Next` | server/server.js:85 | on a permutation, the receiver position of giver `i` is in range and holds the name giver `i` receives |
| `Cycles.NextInjective` | server/server.js:84-89 | on a permutation of distinct names, different givers give to different positions |
| `Cycles.NextSurjective` | server/server.js:84-89 | on a permutation of distinct names, every position is some giver's receiver |
| `Cycles.NoShortCycles` | server/server.js:77-90 | in an accepted arrangement, following the gifts from anyone does not return to them after one or two steps, so every cycle has length at least 3 |
| `Cycles.ThreeNames` | server/server.js:62-100 | for three distinct names, an arrangement is accepted exactly when it is one of the two rotations |
| `Cycles.FourNamesNoThreeCycle` | server/server.js:62-100 | for four distinct names, no gift chain in an accepted arrangement closes after three steps |
| `Cycles.FourNamesOneCycle` | server/server.js:62-100 | for four distinct names, the first four positions reached from any giver are all different: one cycle through everybody |
| `SecretSanta.PairsClosed` | server/server.js:247-251 | pairing each giver with the receiver at the same position of a derangement stores receivers that are givers, never the giver, and never a giver's own giver |
| `SecretSanta.PairsInjective` | server/server.js:247-251 | pairing givers with distinct receivers gives each receiver to at most one giver |
| `SecretSanta.PairingIsAssignment` | server/server.js:238-251 | the results built from an accepted arrangement of distinct names are a valid drawing |
| `SecretSanta.AppendKeepsDistinct` | server/server.js:141-149 | appending a name that is not registered yet keeps the names distinct |
| `SecretSanta.RemoveAt` | server/server.js:196-206 | cutting out the entry at `indexOf(name)` removes exactly that name, keeps the rest distinct and in order, and removes one copy from the multiset |
| `SecretSanta.Store.constructor` | server/server.js:28-36 | the initial record has no participants, no results and is not drawn |
| `SecretSanta.Store.Register` | server/server.js:126-166 | a missing or blank name is refused, then a name already present; a failed write changes nothing; otherwise the untrimmed name is appended at the end, and results and the drawn flag are untouched; names stay distinct |
| `SecretSanta.Store.Delete` | server/server.js:183-222 | refused after a draw, then for an unknown name; a failed write changes nothing; otherwise exactly the entry at `indexOf(name)` is cut out and the order of the rest is kept |
| `SecretSanta.Store.Draw` | server/server.js:226-271 | the outcome in the source's order: refused exactly when there are fewer than two participants, then a draw failure exactly when the generator gives up, then a write failure exactly when the write fails, otherwise success; two participants always fail; on every failure results and the drawn flag are unchanged; otherwise each participant is paired with the receiver at the same position of an accepted arrangement, the state is marked drawn, and the lookup of every participant returns that receiver |
| `SecretSanta.Store.Lookup` | server/server.js:275-305 | refused before the draw, then for an unknown name; otherwise it gives the stored receiver, which is absent exactly when none was stored; a receiver is never the asker, is a participant, and does not give back to the asker |
| `SecretSanta.Store.Reset` | server/server.js:308-325 | after a successful write the record is the initial one; a failed write changes nothing |

## Left out

- HTTP plumbing is not modelled: routing, CORS, JSON body parsing, static files, the home page, the error and 404 middleware, and the listen banner (server/server.js:1-19, 106-109, 328-358). Only whether each handler succeeds or fails, and why, is modelled, not status codes or message texts.
- The response payloads are not modelled: counts, the giver's name, and the `drawnAt` timestamp (server/server.js:263), which depends on the clock.
- The status and participant-list endpoints (server/server.js:111-123, 169-180) only return the stored fields as they are. They are the fields of `Store` and have no members of their own.
- `readData` and `writeData` (server/server.js:25-59) become the fields of `Store`. The empty record written when no file exists is the constructor. A write failure is the `writeSucceeds` flag. Two cases are not modelled: falling back to an empty record when the file cannot be read or parsed, and a partially written file.
- Request bodies whose `name` is not a string are not modelled. Falsy values such as `0`, `false` and `null` are refused by `!name` at server/server.js:130, as an absent name is. A truthy non-string, such as a number or an object, makes `trim` throw, and the error middleware answers. In the model a name is either absent or a string.
- Names are Dafny strings of Unicode scalar values, while JavaScript strings are sequences of UTF-16 code units. A name containing a lone surrogate, which a JSON body can carry, cannot be represented.
- Names are Dafny strings, and `results` is a map. JavaScript objects treat some keys specially, such as `__proto__` or inherited property names like `constructor`, and those quirks are not modelled.
- `Math.random` (server/server.js:71) becomes a free choice of the index. The model makes no claim about uniformity or about the chance of success within the budget.
- Concurrent requests that interleave reading and writing the file are not modelled.
- The browser scripts client/app.js, client/admin.js and client/participant.js are not part of this model. They are user-interface code, and their participant-count checks repeat the server's check at server/server.js:230.
- No cycle-enumeration function exists in the server, so none is modelled. The cycle lemmas in `Cycles` are properties of the generator's output.
