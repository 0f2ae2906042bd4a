# kiwistand: trie sync, karma ledger and link helpers in Dafny

This project models three pieces of sequential logic from the kiwistand
news-aggregation node and proves properties of them.

- **Trie sync** (`src/sync.mjs`). Two peers reconcile the leaves of their
  tries one level at a time.
  - `serialize` and `deserialize` rewrite node descriptors in place. The
    `key` and `hash` fields switch between bytes and lowercase hex, and so
    does the optional node payload.
  - `initiate` is the active side. At each level it asks the local trie for
    its frontier, sends it over `/levels/1.0.0`, pushes the leaves the peer
    reports missing over `/leaves/1.0.0`, and goes one level deeper. The
    subtrees the peer reported as matching are excluded at the next level.
  - `put`, `compare`, `receive`, `handleLevels` and `handleLeaves` are the
    answering side.
- **Karma ledger** (`src/views/community.mjs`).
  - `countPoints` walks the stored messages in timestamp order. It credits
    every message about a normalised URL to the first signer of that URL,
    then ranks the addresses by karma.
  - The page merges this ranking with the allowlist. Address matching is
    case-insensitive, and an address without a match gets karma 0.
- **Row helpers** (`src/views/components/row.mjs`): `extractDomain`,
  `addOrUpdateReferrer` and `truncateLongWords`.

The files:

| file | content |
|---|---|
| `wrappers.dfy` | `Option`, `Result` and `Outcome` |
| `hex.dfy` | Node's hex codec: lowercase encoding and the lenient decoder |
| `descriptors.dfy` | node descriptors, `serialize` and `deserialize` over arrays, their round trip |
| `initiator.dfy` | `initiate` as a loop, its recursion as a function, and the properties of the descent |
| `messages.dfy` | the stored message record |
| `responder.dfy` | the trie as a class with a checkpoint counter; `put`, `compare`, `receive` and the two handlers |
| `sorting.dfy` | the stable sort by an integer key used for `Array.prototype.sort` |
| `community.dfy` | `countPoints`, the allowlist merge, and the ledger's properties |
| `text.dfy` | `split`, `join` and `endsWith` |
| `row.dfy` | the three row helpers |

How collaborators are modelled:

- **Imperative parts.** Each imperative part is a method proved against a
  function:
  - `serialize` and `deserialize` work in place on an `array`;
  - `initiate` is a loop over its accumulator;
  - `put` loops over the batch and mutates a `Trie` object;
  - `countPoints` fills a map and a key list.
- **Sync collaborators.** These become function-valued fields of a `Peer`
  or a `Store`:
  - the trie library's node codec;
  - `store.descend`, `store.compare` and `store.add`;
  - the record decoder;
  - `innerSend`.
- **Ledger collaborators.** `normalizeUrl` and `id.ecrecover` become the
  functions of an `Identity`.

## Behaviour as written

In each of these cases the model keeps what the code does, even where another
reading would be plausible.

- `deserialize([])` returns the empty array. Only an absent collection
  throws, because it is not iterable (`src/sync.mjs:80-89`).
- `initiate` gives the next level only this round's `match` hashes as its
  exclusion list. Hashes excluded at earlier levels are dropped
  (`src/sync.mjs:149-150`).
- No code has a peer lock or session guard. None is modelled.
- In `put`, `decode(node.value())` runs outside the `try`
  (`src/sync.mjs:156`). So a descriptor without a readable record aborts the
  rest of the batch, and `handleLeaves` then skips the commit. Only a
  refusal by `store.add` is caught and skipped.
  `Responder.UnreadableStopsBatch` states this.
- A reply without a frame makes `initiate` throw when it reads
  `results.missing`. The sync does not end quietly.

## Model

| member | source | states |
|---|---|---|
| Hex.Encode | src/sync.mjs:70-71 | `toString("hex")` gives two characters per byte |
| Hex.EncodeCanonical | src/sync.mjs:70-71 | the hex text holds lowercase digits only, and has even length |
| Hex.Decode | src/sync.mjs:82-83 | `Buffer.from(s, "hex")` never yields more than one byte per two characters |
| Hex.DecodeEncode | src/sync.mjs:70-83 | decoding the hex text of any bytes gives those bytes back |
| Hex.EncodeDecode | src/sync.mjs:70-83 | even-length lowercase hex text survives a decode followed by an encode |
| Hex.EncodeInjective | src/sync.mjs:70-71 | distinct byte strings never share a hex text |
| Descriptors.Serialize | src/sync.mjs:68-78 | the loop rewrites the array in place exactly as `SerializeInPlace` says. Each descriptor's key and hash go to hex, and a truthy payload is re-encoded. The loop stops at the first throw, leaving the later descriptors untouched |
| Descriptors.Deserialize | src/sync.mjs:80-90 | an absent collection throws `NotIterable` before anything is touched. Otherwise the array is rewritten in place as `DeserializeInPlace` says |
| Descriptors.DeserializeAll | src/sync.mjs:80-89 | an absent collection fails as not iterable, and an empty one comes back empty. A result has the input's length. Any other throw comes from a payload that is not text or that the node decoder rejects |
| Descriptors.ToHex | src/sync.mjs:70-71 | `toString("hex")` always yields text. A Buffer becomes text twice its length, and a string is returned as it is. `BytesRoundTrip` states that the text reads back |
| Descriptors.FromHex | src/sync.mjs:82-83 | `Buffer.from(…, "hex")` always yields a Buffer. Text gives at most one byte per two characters, and a Buffer is copied unchanged. `TextRoundTrip` states that canonical text survives |
| Descriptors.SerializeInPlace | src/sync.mjs:68-78 | its own contract states only that the collection keeps its length. `SerializeSucceedsIff`, `SerializeShape` and `SerializeRoundTrip` state what it computes |
| Descriptors.DeserializeInPlace | src/sync.mjs:80-90 | the collection keeps its length. A throw comes only from a payload that is not text, or from one the node decoder rejects. `DeserializeFields` and `SerializeRoundTrip` state the contents |
| Descriptors.SerializeAll | src/sync.mjs:68-78 | its own contract states only that a result has the input's length. `SerializeSucceedsIff` and `SerializeShape` state when it succeeds and what it yields |
| Descriptors.SerializeSucceedsIff | src/sync.mjs:68-78 | `serialize` returns exactly when no payload is already non-empty text, which has no `serialize` method |
| Descriptors.SerializeShape | src/sync.mjs:68-78 | on descriptors from the trie, `serialize` keeps length and order and puts the hex text of `key` and `hash` in their place. It re-encodes the node only where there is one |
| Descriptors.DescriptorRoundTrip | src/sync.mjs:68-90 | one descriptor from the trie passes through a serialize step and a deserialize step unchanged |
| Descriptors.SerializeRoundTrip | src/sync.mjs:68-90 | `deserialize(serialize(xs))` returns `xs` exactly, including descriptors without a payload, given a node codec whose decode inverts its encode |
| Descriptors.BytesRoundTrip | src/sync.mjs:70-83 | a Buffer field survives hex encoding and decoding |
| Descriptors.TextRoundTrip | src/sync.mjs:70-83 | canonical hex text survives decoding and re-encoding |
| Descriptors.DeserializeFields | src/sync.mjs:80-90 | after `deserialize`, every key and hash is the Buffer read from the input field at the same position |
| Initiator.LeafOnly | src/sync.mjs:136-138 | every kept descriptor is a leaf node of the list, and every leaf node of the list is kept. Its own contract does not fix order or repeats; `LeafOnlyAppend` and `LeafOnlyOne` do |
| Initiator.LeafOnlyAppend | src/sync.mjs:136-138 | filtering a concatenation filters each part in turn. With `LeafOnlyOne` this fixes the result element by element: the leaves of the list, in order, with their repeats |
| Initiator.LeafOnlyOne | src/sync.mjs:137 | a single descriptor is kept, once, exactly when it is a leaf node |
| Initiator.Hashes | src/sync.mjs:149 | its own contract states only the length: one hash per matched descriptor. `NextExclusion` states the contents |
| Initiator.Push | src/sync.mjs:139-147 | without missing leaves nothing is sent and nothing fails. Otherwise at most one request is sent, over `/leaves`, carrying one descriptor per leaf. When nothing was sent, the serialize error is reported |
| Initiator.AfterAsk | src/sync.mjs:129-150 | the round's first request is always its `/levels` request. The round recurses only after a decoded reply, having sent at most one more request |
| Initiator.Run | src/sync.mjs:103-151 | no contract of its own: the recursion `Descent` over the peer's rounds. `SentAfter`, `RunStep`, `LevelsBound` and `OnlyLeavesPushed` state its properties |
| Initiator.Round | src/sync.mjs:115-150 | a round recurses only when `descend` found nodes |
| Initiator.RunStep | src/sync.mjs:149-150 | after a round, the descent either ends with that round's outcome or continues at `level + 1` with the round's new exclusion list |
| Initiator.PushLeaves | src/sync.mjs:139-147 | the push phase sends exactly what `Push` describes |
| Initiator.Exchange | src/sync.mjs:115-150 | one call of `initiate`, with the in-place serialize and deserialize on arrays, sends and decides exactly what `Round` describes |
| Initiator.Advance | src/sync.mjs:115-150 | after one call of `initiate`, the sync either ends with that call's outcome or continues at `level + 1` with the new exclusion list, and only below the trie's height |
| Initiator.Initiate | src/sync.mjs:103-151 | the loop returns the outcome and the sequence of requests of the whole recursion `Run` |
| Initiator.SentAfter | src/sync.mjs:103-151 | the descent only appends requests to what was sent before |
| Initiator.RoundShape | src/sync.mjs:115-147 | a round sends at most a `/levels` request and then a `/leaves` request. A recursing round has sent its `/levels` request. A round ends quietly exactly when `descend` is empty |
| Initiator.EndsQuietlyIff | src/sync.mjs:115-124 | `initiate` returns with nothing sent exactly when `descend` finds no node at the current level |
| Initiator.PushOnlyLeaves | src/sync.mjs:139-147 | leaves are pushed in one `/leaves` request exactly when there are any, and the peer reads back exactly those leaves. A failed push is reported with the error `innerSend` threw |
| Initiator.RoundPushesLeaves | src/sync.mjs:136-147 | whatever one round sends over `/leaves` is a non-empty batch of leaf nodes |
| Initiator.PushIffMissingLeaves | src/sync.mjs:136-147 | a round sends `/leaves` exactly when the deserialized `missing` list holds a leaf. It then sends exactly those leaves, so descriptors without a payload or with a branch are never pushed |
| Initiator.NextExclusion | src/sync.mjs:149-150 | the next exclusion list is exactly the hashes of this round's `match` descriptors, in order, read back as Buffers. Earlier exclusions are dropped |
| Initiator.SendFailuresEnd | src/sync.mjs:128-146 | a failed `/levels` send ends `initiate` with the error wrapped as a level-comparison failure. A failed `/leaves` send ends it with the error unchanged. Neither compares a further level |
| Initiator.OnlyLeavesPushed | src/sync.mjs:103-151 | over a whole sync, every `/leaves` request carries only leaf nodes, and at least one |
| Initiator.RoundCountLevels | src/sync.mjs:115-135 | a round sends at most one `/levels` request, and none when `descend` is empty |
| Initiator.LevelsBound | src/sync.mjs:115-150 | a descent from `level` sends at most `height - level` `/levels` requests, so each level is compared at most once |
| Initiator.DescentEndsQuietlyIff | src/sync.mjs:115-150 | a descent whose recursing rounds always send something ends with nothing sent exactly when its first round does |
| Initiator.DescentPushesOnlyLeaves | src/sync.mjs:136-150 | if every round pushes only leaves, so does the whole descent |
| Initiator.DescentCountLevels | src/sync.mjs:115-150 | per-round bounds on `/levels` requests add up over the descent |
| Responder.Trie.Checkpoint | src/sync.mjs:213 | `trie.checkpoint()` opens one more checkpoint and changes no record |
| Responder.Trie.Commit | src/sync.mjs:215 | `trie.commit()` closes the innermost checkpoint and keeps the records |
| Responder.RecordOf | src/sync.mjs:156 | `decode(node.value())` yields a record exactly when the node holds a value that the decoder reads, and then it is that decoded record. It fails only with a missing value or a malformed record |
| Responder.Applied | src/sync.mjs:155-168 | the `put` loop fails only on an unreadable record, never on a refusal by `store.add`. `AppliedPassIff` and `AppliedExtends` state the rest |
| Responder.PutResult | src/sync.mjs:153-169 | an absent message throws as not iterable and leaves the records alone. A refusal by the store never makes `put` throw |
| Responder.CompareResult | src/sync.mjs:174-184 | an absent message throws as not iterable. An answer always carries all three lists. `CompareRoundTrip` states their contents |
| Responder.NodeValue | src/sync.mjs:156 | `node.value()` yields bytes exactly for a decoded leaf, or for a branch that holds a value |
| Responder.Add | src/sync.mjs:160-167 | `store.add` appends the message exactly when the store accepts it, and otherwise throws `Rejected` and leaves the trie alone |
| Responder.Put | src/sync.mjs:153-169 | `put` deserializes the message in place. It then offers every record to the store in order, ending as `PutResult` says. No checkpoint is opened or closed |
| Responder.Compare | src/sync.mjs:174-184 | `compare` deserializes in place, asks the store, and serializes `missing`, `mismatch` and `match` in that order. The first throw wins |
| Responder.Receive | src/sync.mjs:186-199 | `receive` writes the handler's response when there is one. It closes the stream without writing when the handler returns nothing, and does neither when the handler throws |
| Responder.HandleLevels | src/sync.mjs:201-208 | the levels handler always writes its comparison back unless `compare` threw |
| Responder.HandleLeaves | src/sync.mjs:210-217 | the leaves handler applies `put` between a checkpoint and a commit, and its stream is closed and never written to. When `put` throws, the commit is skipped and the checkpoint stays open |
| Responder.AppliedExtends | src/sync.mjs:155-168 | `put` only adds records after those the trie held, at most one per descriptor |
| Responder.AppliedPassIff | src/sync.mjs:155-168 | `put` returns exactly when every record of the batch is readable, whatever the store refuses. Otherwise it throws what the first unreadable record threw |
| Responder.AppliedSplit | src/sync.mjs:155-168 | a batch is processed as its parts in turn |
| Responder.UnreadableStopsBatch | src/sync.mjs:155-167 | an unreadable record stops the batch: the records after it are never offered to the store |
| Responder.Records | src/sync.mjs:156 | the records of a readable batch, one per descriptor, in order |
| Responder.AppliedAcceptAll | src/sync.mjs:155-168 | with a store that accepts everything, the whole batch is appended in order |
| Responder.AppliedRejectAll | src/sync.mjs:160-167 | a refusal is caught. A store that refuses everything leaves the trie unchanged, and a readable batch still completes |
| Responder.AppliedFromBatch | src/sync.mjs:155-168 | every record `put` adds comes from the batch and was accepted by the store on the trie as it then stood |
| Responder.PushedLeavesArrive | src/sync.mjs:153-156 | leaves serialized by `initiate` reach `put` intact. The batch can only be cut short by a value the record decoder rejects |
| Responder.CompareRoundTrip | src/sync.mjs:174-184 | when the store's lists come from the trie, `compare` answers, and each list reads back on the other side as exactly what the store returned |
| Sorting.SortBySorted | src/views/community.mjs:20 | the sort orders its input by non-decreasing key |
| Sorting.SortByPermutes | src/views/community.mjs:55 | the sort only reorders its input |
| Sorting.SortByStable | src/views/community.mjs:20 | the sort is stable: elements with equal keys keep their relative order |
| Sorting.SortBySum | src/views/community.mjs:55 | the sort keeps every total |
| Sorting.DistinctPermutation | src/views/community.mjs:55 | reordering a list without repeats yields none |
| Community.Credits | src/views/community.mjs:35-47 | its own contract states only the length: one credit per message. `CreditAt` and `CreditedAreFirstSubmitters` state who is credited |
| Community.Submissions | src/views/community.mjs:40-41 | no contract of its own: `SubmissionsDomain` and `SubmissionsFirst` state its keys and values |
| Community.PointsMap | src/views/community.mjs:24-33 | no contract of its own: `PointsMapCounts` states its keys and counts |
| Community.Order | src/views/community.mjs:50-53 | no contract of its own: `OrderKeys` states that it lists each credited address once |
| Community.Ranking | src/views/community.mjs:19-56 | no contract of its own: `RankingSorted`, `RankingKarma`, `RankingOnce`, `TotalKarma` and the first-submitter lemmas state its properties |
| Community.Add | src/views/community.mjs:24-33 | `add` gives an address its first point or one more. A new address joins the keys at the end |
| Community.Attribute | src/views/community.mjs:35-47 | the `forEach` leaves `points` holding, for each credited address, its number of credits. The keys list holds these addresses in insertion order |
| Community.CountPoints | src/views/community.mjs:19-56 | `countPoints` returns the `Ranking` of its messages |
| Community.Combine | src/views/community.mjs:67-83 | the allowlist loop and its sort return the merged list sorted by non-increasing karma |
| Community.Leaderboard | src/views/community.mjs:63-83 | the page's list is the allowlist merged with `countPoints` of the stored messages |
| Community.PointsMapCounts | src/views/community.mjs:24-33 | `add` gives a first credit 1 point and each later credit one more. So `points` holds exactly the credited addresses, each with its number of credits |
| Community.OrderKeys | src/views/community.mjs:50-53 | `Object.keys(points)` lists every credited address exactly once |
| Community.ProcessedInTimeOrder | src/views/community.mjs:20 | messages are processed in ascending timestamp order, each once, with ties in their original order |
| Community.SubmissionsDomain | src/views/community.mjs:40-41 | `submissions` holds exactly the URLs some message is about |
| Community.SubmissionsFirst | src/views/community.mjs:40-41 | `submissions` maps each URL to the signer of the first message about it |
| Community.FirstSubmitterCredited | src/views/community.mjs:35-47 | the first message about a URL credits its own signer. Every later message about that URL credits that same first submitter |
| Community.CreditedAreFirstSubmitters | src/views/community.mjs:35-47 | every point goes to the first submitter of the URL of the message that earned it |
| Community.TotalKarma | src/views/community.mjs:24-55 | each message adds exactly one point, so the karma in the ranking adds up to the number of messages |
| Community.RankingSorted | src/views/community.mjs:55 | the ranking is ordered by non-increasing karma |
| Community.RankingKarma | src/views/community.mjs:49-53 | every ranked address has as much karma as messages credited to it, so at least 1 |
| Community.RankingOnlyFirstSubmitters | src/views/community.mjs:40-53 | only first submitters of some URL are ranked |
| Community.RankingAllFirstSubmitters | src/views/community.mjs:40-53 | every first submitter of some URL is ranked |
| Community.RankingOnce | src/views/community.mjs:49-55 | no address is ranked twice |
| Community.Find | src/views/community.mjs:70-72 | a found user is in the list and matches the address case-insensitively |
| Community.KarmaOf | src/views/community.mjs:70-73 | no contract of its own: `ZeroKarmaIff` and `CombinedEntries` state the karma shown |
| Community.Merged | src/views/community.mjs:69-81 | its own contract states only the length: one entry per allowlisted address. `CombinedEntries` states the contents |
| Community.FindFirst | src/views/community.mjs:70-72 | `find` returns the first user whose address matches case-insensitively, and nothing only when none matches |
| Community.CombinedEntries | src/views/community.mjs:67-83 | every allowlisted address is listed with its case-insensitive match's karma, or 0 without one. Nothing else is listed. The list is a permutation of the merge, sorted by non-increasing karma |
| Community.CombinedOnce | src/views/community.mjs:69-81 | an address that occurs once in the allowlist occurs once in the list |
| Community.ZeroKarmaIff | src/views/community.mjs:70-73 | on the page, an allowlisted address shows karma 0 exactly when no ranked address matches it |
| Text.Split | src/views/components/row.mjs:17 | `split` always yields at least one piece. `SplitPieces` states the pieces |
| Text.Join | src/views/components/row.mjs:18 | no contract of its own: `JoinSplit` and `SplitJoin` state it. It requires at least one word, which every split supplies |
| Text.EndsWith | src/views/components/row.mjs:26 | no contract of its own: the definition of `endsWith`, used by `ReferrerChoice` and `ExtractDomainSuffix` |
| Text.SplitPieces | src/views/components/row.mjs:41 | `split` yields pieces without the separator, one more than there are separators |
| Text.JoinSplit | src/views/components/row.mjs:41-45 | joining the pieces of a split gives the string back |
| Text.SplitJoin | src/views/components/row.mjs:41-45 | splitting a join of separator-free words gives the words back |
| Row.LastTwo | src/views/components/row.mjs:18 | `slice(-2)` keeps the last two elements, or all of them when there are fewer: the result is the suffix of that length |
| Row.ExtractDomain | src/views/components/row.mjs:15-20 | no contract of its own: `ExtractDomainSuffix` states what the domain is |
| Row.ExtractDomainSuffix | src/views/components/row.mjs:15-20 | the domain is the longest suffix of the hostname with at most one dot. It is the whole hostname when that has at most one dot. Otherwise it is cut right after a dot and holds exactly one |
| Row.AddOrUpdateReferrer | src/views/components/row.mjs:22-23 | a falsy address returns the link unchanged, and the hostname is never changed |
| Row.SetParamNamed | src/views/components/row.mjs:27 | after `searchParams.set`, the name has exactly one pair, with the new value. The pairs of every other name are as they were |
| Row.SetParam | src/views/components/row.mjs:27 | no contract of its own: `SetParamNamed` states the pairs after `searchParams.set` |
| Row.ReferrerParam | src/views/components/row.mjs:26-36 | no contract of its own: `ReferrerChoice` states which parameter each hostname gets |
| Row.ReferrerSet | src/views/components/row.mjs:22-38 | a truthy address sets only the parameter the hostname's suffix calls for, to the address. Any other hostname's link is returned unchanged |
| Row.ReferrerChoice | src/views/components/row.mjs:26-36 | suffixes are checked in order. `mirror.xyz` gives `referrerAddress`; otherwise `paragraph.xyz`, `zora.co` or `manifold.xyz` give `referrer`; otherwise `foundation.app` gives `ref` |
| Row.Truncate | src/views/components/row.mjs:43 | a word within `maxLength` is kept. A longer one becomes its first `maxLength` characters (none for a negative limit) followed by `...`. No character but a dot is introduced |
| Row.TruncateLongWords | src/views/components/row.mjs:40-46 | no contract of its own: `TruncateWords` and `ShortWordsUnchanged` state it |
| Row.TruncateWords | src/views/components/row.mjs:40-46 | the words of the result are the words of the text, in the same number and order, each truncated on its own. None is longer than `maxLength + 3` |
| Row.ShortWordsUnchanged | src/views/components/row.mjs:40-46 | a text whose words all fit within `maxLength` comes back unchanged |
| Row.TitleWords | src/views/components/row.mjs:123-127 | with the default limit of 20, as a story row calls it on titles, no word of the result is longer than 23 characters |

## Left out

- `advertise`, `send`, `toWire`/`fromWire` and the connection-logging hooks are network I/O. `innerSend` is an oracle that replies, yields no frame, or throws, given everything sent before; a received message is an array, or `null` when no frame arrived.
- Concurrency between sessions and the convergence of two tries are not modelled: they depend on the scheduler and on the trie engine, whose code is not part of this model.
- The trie library is not part of this model. `decodeNode` and `node.serialize()` are a `NodeCodec`, and the round-trip lemmas assume it is sound.
- `store.descend`, `store.compare`, `store.add` and the record decoder are functions of a `Peer` or a `Store`. `store.compare` is taken never to throw.
- A rejected `store.descend` (`src/sync.mjs:115`) would end `initiate` with its error. The model's `descend` always answers, so that ending is not modelled.
- `registry.allowlist()`, read on every pass of `put`, is folded into the acceptance test of `store.add`. In the source it is awaited outside the `try` (`src/sync.mjs:158`), so its rejection aborts the rest of the batch; the model cannot express that, and would treat it as a refusal that is skipped.
- Responder.Compare: serializes fresh copies of the three lists `store.compare` returned. In the source those lists hold the request's own deserialized descriptor objects, so `serialize` rewrites them in place: the request ends up serialized again, and a descriptor that sits in two lists makes the second `serialize` throw, where the model answers normally.
- `decode(null)`, for a branch without a value, is taken to throw.
- Responder.Trie.Commit: requires an open checkpoint; `handleLeaves` always opens one first.
- Initiator.Initiate: terminates only for a trie of bounded height. The source has no bound; `store.descend` is assumed to return nothing at or below `height`.
- Initiator.Exchange: copies descriptor lists into fresh arrays. The source serializes the very objects `store.descend` returned; that aliasing is not modelled.
- Log output and the trie root read for logging are left out.
- `Array.prototype.sort` is modelled on values, as a stable insertion sort, not in place. Its comparators are numeric differences of integer keys.
- Community.Leaderboard: `store.leaves`, `moderation.moderate`, `ens.resolve` and the `displayName` they feed are left out. The messages and the allowlist are inputs, and the karma `"0"` with its `parseInt` is the integer 0.
- Community.Attribute: keeps `Object.keys` order as insertion order. JavaScript lists integer-like keys first, which cannot happen for `0x…` addresses.
- Community.SameAddress: `toLowerCase` is modelled on ASCII letters only.
- Row.AddOrUpdateReferrer: takes the parsed hostname and query parameters, not the URL string. URL parsing and `url.toString()` are not modelled. With a falsy address the source returns the original string, which the model shows as the unchanged link.
- Row.SetParamNamed: states the pairs of every name after `set`, not where the new pair sits among the others.
- Row.TruncateLongWords: counts lengths in Unicode characters, where JavaScript counts UTF-16 code units. The two differ outside the Basic Multilingual Plane.
- The `row` HTML renderer, `ChatsSVG` and the rest of the web front end are presentation and are left out.
