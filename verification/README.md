# MiFolyo crawl services: a verified model

This project models the parts of the repository where a mistake would be silent: the URL identity that
names every document, the loop that moves backlinks from Redis to MongoDB, the merge of seed provenance,
the digests that pin a crawl's output, and the scripts that feed the crawl queue.  Each part follows the
code: code that works by expressions is a function, code that updates state step by step is a method with
the same loops, and an object whose methods change its fields is a class.

`dafny verify dfyconfig.toml` checks everything.

## What is modelled

**Punycode, normalization, A-labels** (`Punycode`, `PunycodeValues`, `NfcTables`, `NfcComposition`,
`NfcReorder`, `NfcNormal`, `NfcStream`, `Alabel`, `AlabelRules`).  The bounded decoder with its 31-bit guards is
proved to be the exact inverse of the encoder of section 6.3 of RFC 3492, and its values are pinned by closed
formulas and an example of section 7.1.  The streaming normalization test is a class with the buffer, the
nonstarter count and the comparison cursor as fields; it is proved to terminate, to keep its buffer the
canonical reordering of what arrived, and to accept exactly the texts that its segments recompose to; what
recomposition does with a pair of the table, and what blocks it, is stated on the table.  The label rules are
stated like those of RFC 5893 and RFC 5892.  Unicode tables are a parameter that satisfies the range checks of
the loader, so nothing rests on their contents.

**URL identity** (`Texts`, `UrlHosts`, `UrlHostGrammar`, `UrlComponents`, `UrlParse`, `UrlCanonical`,
`UrlMeaning`, `UrlRules`, `UrlFolding`, `UrlValidators`).  The canonicalizer of the seed importer, the validator
of the backlinks processor and the validator of the contract verifier are proved to agree: a text is a fixed
point of the first exactly when the other two accept it, and canonicalizing is idempotent and keeps the bytes
that path and query stand for.  Which texts are accepted is stated by their bytes and by the texts that a
grammar of hosts generates.  Splitting a URL follows section 3 of RFC 3986 and the Python function that the
services call.  One A-label predicate is shared by all three; it can be the test modelled in `Alabel`.  The
`ipaddress` library is taken to accept the dotted and colon forms that `_ipv4` and `_ipv6` describe.

**Backlink transfer** (`BacklinkStores`, `BacklinkBuffers`, `BacklinkAdmission`, `BacklinkSteps`,
`BacklinkProcessor`).  Redis and MongoDB are one object whose every operation may fail, may have been applied
without a reply, and lets other writers act in between.  The scheduler is a class whose invariant holds the byte
bound, the queue bound and the waiter rule at every loop head.  Each fill and each visit is a step of a state
machine that says which calls it makes on which replies, and a run is a sequence of such steps.  The order of
the handlers rests on `RedisScanLimitExceeded` being a `RedisError`, which it is.

**Seed provenance** (`Ordering`, `SeedValues`, `SeedSources`, `SeedMerge`, `SeedAlgebra`, `MongoExpressions`,
`MongoPipeline`, `MongoCollection`, `MongoSchema`).  The reference merge, and the same merge compiled to an
aggregation pipeline.  The expression language is a datatype with an evaluator; timestamps are milliseconds.
The collection has its whole validator and its unique index.

**Framing, transcripts, staged output** (`Framing`, `Digests`, `Preimages`, `Policies`, `PolicyRules`,
`Transcript`, `Witnesses`, `CrawlRules`, `Timestamps`, `Pages`, `PageRules`, `Outputs`, `ImageManifest`,
`StagedOutput`, `OutputRules`, `TwoNames`).  From the source job and its policy decision over the request
transcript and its witness to the records of an output and all eight kinds of chunks that they are staged in.
What is accepted is stated a second time without the order of the checks.  SHA-256 is a function parameter;
statements about digests assume that it is injective.

**Queue feeding** (`FeedQueue`, `DisabledSeeds`).  The two scripts are methods on an object that holds the
sorted set and the two hashes; the batching loops call them.

**Link resolution** (`Resolver`, `ResolverLimits`).  The worklist over path components.

`Arith` and `Outcomes` are shared helpers.

## Findings

- Resolving a path twice is not always resolving it once.  With link targets as `absolute_link_target` stores them,
  the second resolution is refused exactly when the path is relative, has 4,096 characters and only plain
  components, and no prefix of it is a link (`Resolver.IdempotentExactly`); `Resolver.IdempotenceBoundary` is an
  instance.
- Reconciling disabled seeds notices two URLs of one identifier only inside one batch.
  `DisabledSeeds.ReconcileDisabled` gives the exact condition for every batch size;
  `DisabledSeeds.BatchSizeMatters` is an instance.
- An accepted output cannot be staged when two of its alias names have one URL identifier, and nothing else can keep
  it from being staged (`StagedOutput.StagingPasses`); `TwoNames.OutputAccepted` and `TwoNames.AcceptedButNotStaged`
  are an instance.
- The host check of the canonicalizer runs on text that is already lower-cased, so the Kelvin sign, the one
  character beyond ASCII whose lower case is ASCII, passes as `k`: `http://\u212a.com/` canonicalizes to
  `http://k.com/` (`UrlFolding.KelvinAccepted`).  The refusal of hosts beyond ASCII comes exactly for the other
  characters beyond ASCII, and for a Kelvin sign behind a `%`, where a host is not lower-cased
  (`UrlFolding.NonAsciiExactly`).  The agreement and idempotence results hold regardless.
- Several checks can never fail where they stand: the final re-encoding of an A-label, the length and
  surrogate guards of the normalization test behind it, the overflow report of the opening call in each
  turn of its outer loop, and the combined limit on the two HTML texts of a page.

## Model

| member | source | states |
|---|---|---|
| Punycode.AdaptBias | scripts/crawl_jobs_v2_url.py:221-228 | the bias loop computes RFC 3492 section 6.1 adaptation |
| Punycode.DecodePunycode | scripts/crawl_jobs_v2_url.py:231-273 | the nested loops compute the decoding, and every accepted payload is the RFC 3492 section 6.3 encoding of its result |
| Punycode.WeightFits | scripts/crawl_jobs_v2_url.py:244-257 | the digit weight of an encodable delta stays in 31 bits, so the weight guard cannot fire on an encoding |
| Punycode.ReadVarInt | scripts/crawl_jobs_v2_url.py:243-258 | reading a variable-length integer written by the encoder returns that integer and stops right behind it, with no guard firing |
| Punycode.ReadIsVarInt | scripts/crawl_jobs_v2_url.py:243-258 | whatever the digit loop reads is the one variable-length integer that the encoder writes for that value |
| Punycode.DecodeRound | scripts/crawl_jobs_v2_url.py:239-272 | decoding one round of the encoder inserts its scalar at every place where the text has it, bias in step |
| Punycode.DecodeEncode | scripts/crawl_jobs_v2_url.py:231-273 | every surrogate-free scalar sequence with a non-ASCII scalar and basic characters in [a-z0-9-] whose encoding fits 59 characters decodes to itself |
| Punycode.EncodeRun | scripts/crawl_jobs_v2_url.py:239-272 | a run of the decoder from any point of a payload is retraced digit by digit by the encoder |
| Punycode.EncodeDecode | scripts/crawl_jobs_v2_url.py:472-474 | encoding the decoded scalars gives back exactly the payload |
| Punycode.AcceptsExactlyEncodings | scripts/crawl_jobs_v2_url.py:231-273 | a payload is accepted if and only if it is the encoding of some scalar sequence, and then decodes to it |
| Punycode.DecodeInjective | scripts/crawl_jobs_v2_url.py:231-273 | different payloads never decode to the same scalars |
| PunycodeValues.FirstInsertion | scripts/crawl_jobs_v2_url.py:239-272 | the first one, two or three digits d0, d1, d2 insert the scalar 128 + n / count at n % count, where n = d0 + 35 d1 + 1225 d2 |
| PunycodeValues.ThresholdIs | scripts/crawl_jobs_v2_url.py:256 | the digit threshold is the one number from 1 to 26 that is nearest to the distance from the bias |
| PunycodeValues.AdaptIs | scripts/crawl_jobs_v2_url.py:221-228 | the new bias is 36 j + 36 e / (e + 38), where e is the scaled delta divided j times by 35 and j is the least count that brings it to 455 or less |
| PunycodeValues.SpanishDecodes | scripts/crawl_jobs_v2_url.py:231-273 | the payload of example (I) in section 7.1 of RFC 3492, with two insertions, decodes to its text |
| NfcTables.LookupFindsRange | scripts/crawl_jobs_v2_url.py:140-143 | lookup returns the properties of the one range that holds the scalar |
| NfcTables.FlagBits | scripts/crawl_jobs_v2_url.py:276-286 | the properties of a rune are the bits of its flag byte, by value |
| NfcTables.ComposeSegment | scripts/crawl_jobs_v2_url.py:313-339 | the recomposition loop computes the fold of its steps over the segment |
| NfcTables.JamoPairs | scripts/crawl_jobs_v2_url.py:331-334 | leading, vowel and trailing jamo of a syllable recombine to it |
| NfcTables.HangulRoundTrip | scripts/crawl_jobs_v2_url.py:313-339 | recomposing the concatenated jamo of any sequence of precomposed syllables returns the sequence |
| NfcTables.ComposeNothing | scripts/crawl_jobs_v2_url.py:313-339 | a segment without jamo and without runes that combine backward is left alone |
| NfcComposition.PairComposes | scripts/crawl_jobs_v2_url.py:145-147 | a rune and a mark become the one rune that the table holds under 65,536 times the first plus the second, and stay two when it holds none |
| NfcComposition.BetweenBlocks | scripts/crawl_jobs_v2_url.py:313-339 | a nonstarter in between blocks the mark exactly when its class is the same or higher |
| NfcComposition.LastStarterTakes | scripts/crawl_jobs_v2_url.py:313-339 | a mark joins the last starter |
| NfcComposition.CompositeTakes | scripts/crawl_jobs_v2_url.py:313-339 | what a starter and a mark have become takes further marks |
| NfcComposition.CompositeRoundTrip | scripts/crawl_jobs_v2_url.py:313-339 | composites taken apart into their pairs recompose to themselves, for every sequence |
| NfcReorder.ReorderOrdered | scripts/crawl_jobs_v2_url.py:363-371 | no neighbouring pair of the buffer could still be exchanged under Unicode section 3.11 |
| NfcReorder.ReorderReachable | scripts/crawl_jobs_v2_url.py:363-371 | the buffer is reached from the arrivals by exchanges that section 3.11 permits |
| NfcReorder.ReorderUnique | scripts/crawl_jobs_v2_url.py:363-371 | every way of exchanging until nothing is left to exchange ends in the buffer: it is the stable canonical reordering |
| NfcReorder.ExchangeKeepsReorder | scripts/crawl_jobs_v2_url.py:363-371 | a permitted exchange of two arrivals does not change the buffer |
| NfcNormal.QuickSpan | scripts/crawl_jobs_v2_url.py:289-310 | the scan with its ASCII fast path stops where the rune-by-rune scan does |
| NfcNormal.SpanIsQuick | scripts/crawl_jobs_v2_url.py:289-310 | a quick span passes no rune that fails the quick check and no falling class, and ends at a boundary, at the end, or where it began |
| NfcStream.Normalizer.Flush | scripts/crawl_jobs_v2_url.py:354-361 | succeeds exactly when the recomposed buffer continues the text at the comparison cursor, and then empties the buffer |
| NfcStream.Normalizer.Ordered | scripts/crawl_jobs_v2_url.py:363-371 | adds a rune at its canonical place, and refuses exactly when 32 are buffered |
| NfcStream.Normalizer.InsertRune | scripts/crawl_jobs_v2_url.py:373-388 | takes a rune apart into jamo, itself, or its decomposition, flushing before every starter that does not combine backward; fails exactly when a finished segment disagrees or the buffer overflows |
| NfcStream.Normalizer.BufferBound | scripts/crawl_jobs_v2_url.py:363-379 | while processing continues the buffer is the reordering of the arrivals since the last flush and holds at most 32 runes |
| NfcStream.Normalizer.Stream | scripts/crawl_jobs_v2_url.py:390-399 | the count of nonstarters and the three states |
| NfcStream.Normalizer.ReadPass | scripts/crawl_jobs_v2_url.py:401-423 | one turn of the outer loop reads at least one rune: its opening call cannot report an overflow |
| NfcStream.NfcNormalText | scripts/crawl_jobs_v2_url.py:342-424 | terminates, and accepts exactly the texts of at most 59 scalars, none a surrogate, whose every slow pass falls into segments of at most 32 runes that recompose to a beginning of the text it was read from |
| NfcComposition.DecomposedNotNormal | scripts/crawl_jobs_v2_url.py:342-424 | a starter and a mark that the table composes to something else are refused |
| NfcComposition.CompositeIsNormal | scripts/crawl_jobs_v2_url.py:342-424 | a composite that is taken apart is accepted |
| NfcNormal.AsciiIsNormal | scripts/crawl_jobs_v2_url.py:293-298 | ASCII text is accepted whatever the tables |
| NfcNormal.HangulIsNormal | scripts/crawl_jobs_v2_url.py:373-379 | precomposed Hangul listed as starters is accepted whatever else the tables say |
| Alabel.CheckJoiners | scripts/crawl_jobs_v2_url.py:456-464 | the joiner loop computes the state of the pinned table, and accepts unless it ends in states 4 or 5 |
| Alabel.JoinFailureIsFinal | scripts/crawl_jobs_v2_url.py:428-432 | state 5 of the joiner table is never left |
| Alabel.CheckAlabel | scripts/crawl_jobs_v2_url.py:436-474 | the checks in order compute the A-label predicate |
| AlabelRules.AlabelExactly | scripts/crawl_jobs_v2_url.py:436-474 | the accepted labels, written out: at most 63 characters of the label alphabet, a decodable payload, permitted scalars, normal text, hyphens, first mark, joiners and direction |
| AlabelRules.DirectionIs | scripts/crawl_jobs_v2_url.py:465-471 | the direction check is section 2 of RFC 5893 for labels with right-to-left characters |
| AlabelRules.JoinerNeedsVirama | scripts/crawl_jobs_v2_url.py:456-464 | a joiner that is not behind a virama is refused, whatever follows |
| AlabelRules.NonJoinerBetween | scripts/crawl_jobs_v2_url.py:456-464 | a non-joiner between a left-joining and a right-joining scalar, with transparent ones around it, is let through |
| AlabelRules.NonJoinerAlone | scripts/crawl_jobs_v2_url.py:456-464 | a non-joiner at the beginning of a label is refused |
| AlabelRules.HyphensAre | scripts/crawl_jobs_v2_url.py:451-453 | the byte positions of the hyphen check are the scalar positions 3, 4, first and last |
| Alabel.OnlyRulesMatter | scripts/crawl_jobs_v2_url.py:436-474 | after a successful decoding the emptiness, non-ASCII and re-encoding checks, and the length and surrogate guards of the normalization test, are implied |
| Alabel.AlabelInjective | scripts/crawl_jobs_v2_url.py:436-474 | two A-labels of one Unicode label are equal |
| Alabel.AgreeWithLabels | scripts/crawl_jobs_v2_url.py:436-474 | with this test as the shared A-label predicate the three URL implementations agree |
| UrlHosts.Ipv6Chars | scripts/crawl_jobs_v2_url.py:484-500 | an IPv6 literal holds a colon and only lower-case hexadecimal digits, colons and dots |
| UrlHosts.HostChars | services/seed-importer/url_identity.py:171-193 | a good host is lower-case, has no delimiter, and has a colon exactly when it is an IPv6 literal |
| UrlHostGrammar.Ipv4Exactly | scripts/crawl_jobs_v2_url.py:477-481 | the accepted IPv4 literals are the texts of four bytes, one text for each address |
| UrlHostGrammar.Ipv6Exactly | scripts/crawl_jobs_v2_url.py:484-500 | the accepted IPv6 literals are eight groups, or at most seven with one double colon, or those with an IPv4 literal for the last two |
| UrlHostGrammar.DomainExactly | services/seed-importer/url_identity.py:146-168 | the accepted names are joined labels within 63 and 253 characters, not four numbers, and marked labels are A-labels |
| UrlComponents.HasEncodedControl | services/backlinks-processor/url_validation.py:23-40 | the index loop finds an escaped control if and only if some escape is one |
| UrlComponents.CheckComponent | scripts/crawl_jobs_v2_url.py:525-541 | the loop accepts exactly the components of safe characters and upper-case escapes of no control |
| UrlComponents.EncodeOk | services/seed-importer/url_identity.py:138-143 | encoding a raw component without controls gives a canonical component: no escape sequence of a control can arise by joining |
| UrlComponents.EncodeFixed | services/seed-importer/url_identity.py:138-143 | a canonical component encodes to itself |
| UrlMeaning.EncodeEncodes | services/seed-importer/url_identity.py:138-143 | encoding keeps safe characters and escapes, and writes the bytes of section 3 of RFC 3629 for every other character |
| UrlMeaning.EncodesOnce | services/seed-importer/url_identity.py:138-143 | there is one such encoding |
| UrlMeaning.EncodingMeans | services/seed-importer/url_identity.py:138-143 | encoding keeps the bytes that a component stands for |
| UrlRules.SafeIs | services/seed-importer/url_identity.py:51-52 | the characters left as they are, by code point |
| UrlParse.AuthoritySplits | services/seed-importer/url_identity.py:254-272 | the text of a canonical authority is split back into its host and port |
| UrlParse.SplitInverse | services/seed-importer/url_identity.py:238-252 | a successful split with scheme and authority comes from a text of that shape |
| UrlCanonical.ValidatedIsGood | services/seed-importer/url_identity.py:171-193 | a validated host is the lower-cased input and a good host |
| UrlCanonical.GoodIsValidated | services/seed-importer/url_identity.py:171-193 | a good host is validated to itself |
| UrlCanonical.ExplicitPortGood | services/seed-importer/url_identity.py:196-217 | the port of a canonical authority is read back, bracketed or not |
| UrlCanonical.ResultIsCanonical | services/seed-importer/url_identity.py:220-283 | every result is the canonical text of some identity |
| UrlMeaning.CanonicalParts | services/seed-importer/url_identity.py:220-283 | the result has the scheme and host of the input in lower case, its port unless that is the default, and its path and query encoded |
| UrlMeaning.CanonicalMeaning | services/seed-importer/url_identity.py:220-283 | path and query of an accepted text stand for the same bytes before and after |
| UrlMeaning.AcceptsExactly | services/seed-importer/url_identity.py:220-283 | the accepted texts: raw checks, split, an http scheme, a host without user information that passes in lower case, a readable port other than 0, and a result within 2,048 characters |
| UrlRules.RawIs | services/seed-importer/url_identity.py:220-236 | the raw checks pass exactly for 1 to 2,048 bytes, no white space at the ends, no backslash, hexadecimal escapes, and no control among the bytes that the text stands for |
| UrlCanonical.GoodIsFixed | services/seed-importer/url_identity.py:220-283 | the canonical text of an identity canonicalizes to itself |
| UrlCanonical.FixedIsCanonical | services/seed-importer/url_identity.py:220-283 | the fixed points are exactly the canonical texts of at most 2,048 bytes |
| UrlCanonical.CanonicalizeIdempotent | services/seed-importer/url_identity.py:220-283 | canonicalizing is idempotent on every accepted input |
| UrlFolding.NonAsciiExactly | services/seed-importer/url_identity.py:171-177 | once the checks before it pass, the code is that of a host beyond ASCII if and only if the host as written has a character beyond ASCII that is not a Kelvin sign before any `%` |
| UrlFolding.AcceptedHost | services/seed-importer/url_identity.py:220-283 | every host character of an accepted text, as written, is ASCII or the Kelvin sign |
| UrlFolding.FoldIrrelevant | services/seed-importer/url_identity.py:220-283 | writing k for the Kelvin signs of the authority changes neither acceptance nor result, nor, without a `%` in the host, the rejection code |
| UrlFolding.KelvinAccepted | services/seed-importer/url_identity.py:220-283 | one text with a Kelvin sign in its host is accepted, with k in its place |
| UrlValidators.PassedIsCanonical | services/backlinks-processor/url_validation.py:51-134 | whatever the processor's validator passes is canonical |
| UrlValidators.CanonicalIsPassed | services/backlinks-processor/url_validation.py:51-134 | the processor's validator passes every canonical text |
| UrlValidators.IdentityIsCanonical | scripts/crawl_jobs_v2_url.py:544-609 | whatever the contract verifier accepts is canonical, and its record reports the parts |
| UrlValidators.CanonicalIsIdentity | scripts/crawl_jobs_v2_url.py:544-609 | the contract verifier accepts every canonical text, with the record of its parts |
| UrlValidators.ThreeAgree | scripts/crawl_jobs_v2_url.py:544-609 | the three implementations accept the same texts |
| UrlValidators.ResultsPass | services/seed-importer/url_identity.py:220-283 | both validators accept whatever the canonicalizer returns |
| UrlValidators.RenderInjective | scripts/crawl_jobs_v2_url.py:503-518 | different identities have different texts |
| BacklinkStores.Stores.AddBacklinks | services/backlinks-processor/main.py:96-115 | an acknowledged add has stored every link; any other outcome may have stored some |
| BacklinkStores.Stores.SremMembers | services/backlinks-processor/main.py:117-122 | may be called only with members whose Mongo add succeeded; removes no other edge, and all of them when it replies |
| BacklinkAdmission.AdmitMembers | services/backlinks-processor/main.py:164-205 | the admission loop splits the buffer as the batch, byte and examination limits demand |
| BacklinkAdmission.AdmissionUnique | services/backlinks-processor/main.py:164-205 | the limits leave one possible split |
| BacklinkAdmission.AdmissionShrinks | services/backlinks-processor/main.py:164-205 | a nonempty buffer always loses at least one member to admission, and restoring a batch never makes it longer |
| BacklinkProcessor.Processor.QueueKey | services/backlinks-processor/main.py:125-128 | queues a key at the back once |
| BacklinkProcessor.Processor.ProcessBatch | services/backlinks-processor/main.py:87-122 | one add of all members, then only if it is acknowledged one removal of exactly those members; what is reported follows from the replies; an acknowledged batch is in Mongo and has left Redis |
| BacklinkSteps.CallsMade | services/backlinks-processor/main.py:87-122 | a batch whose last call removed members is reported acknowledged, and only the members of the batch were removed |
| BacklinkProcessor.Processor.FillPendingKeys | services/backlinks-processor/main.py:138-161 | scans while there is room for a response and until there are enough keys, the scan has come round, a scan fails, the calls are used up or the run is stopped; every scan starts at the cursor of the one before, and every new key is queued once at the back |
| BacklinkSteps.EmptyQueueScans | services/backlinks-processor/config.py:37-50 | an empty queue has room for a response, so filling it scans at least once unless the run is stopped |
| BacklinkProcessor.Processor.ScanPhase | services/backlinks-processor/main.py:258-296 | a full page is reserved before it is read; the first blocked key becomes waiter; the stored target is the page that Redis returned |
| BacklinkProcessor.Processor.BatchPhase | services/backlinks-processor/main.py:298-344 | the new buffer is the rest of the admission, behind the restored batch if that was held back or must be retried; a batch neither restored nor refused is in Mongo and has left Redis |
| BacklinkProcessor.Processor.TransferPhase | services/backlinks-processor/main.py:298-352 | keeps the running byte count exact, queues the target again exactly when it is unfinished, and what it removed is in Mongo and has left Redis |
| BacklinkProcessor.Processor.VisitTarget | services/backlinks-processor/main.py:239-352 | one visit is one step of the state machine: the calls made, the outcome and the new state follow from the old state and the replies; keeps the invariant; without a retry the wait of the waiter falls |
| BacklinkProcessor.Processor.BlockedMeansBuffered | services/backlinks-processor/config.py:44-50 | a blocked waiter implies a queued target with buffered members |
| BacklinkProcessor.FirstWaiterHonoured | services/backlinks-processor/main.py:261-270 | from becoming waiter until its scan no other target is scanned |
| BacklinkProcessor.ProgressRotate | services/backlinks-processor/main.py:261-269 | a blocked visit moves the first buffered target forward |
| BacklinkProcessor.ProgressShrink | services/backlinks-processor/main.py:346-352 | one member less outweighs any change of queue position |
| BacklinkProcessor.Processor.ProcessCycle | services/backlinks-processor/main.py:208-362 | a cycle is a fill and then visits of the queued keys in order, as many as the limits give unless it is stopped or raises; its totals are those of its steps; every visit without a retry brings the waiter nearer its scan |
| BacklinkProcessor.Processor.RunProcessor | services/backlinks-processor/main.py:365-405 | over any number of cycles the state and all calls are those of a run of the state machine; an edge once in Redis is in Redis or in Mongo, and the memory and queue bounds hold; as long as no batch is given back, a waiter is scanned before more visits than its bound have passed, and before as many cycles have unless the run is stopped |
| SeedMerge.MergeDictionaries | services/seed-importer/crawl_seed.py:139-208 | the dictionary loop computes the merge of the source lists |
| SeedMerge.MergeSeedDocuments | services/seed-importer/crawl_seed.py:139-208 | the whole merge with its rejections |
| SeedSources.MergeSourcesOk | services/seed-importer/crawl_seed.py:139-208 | per key the newest observation wins, the stored one on ties, and the result is sorted by distinct keys |
| SeedMerge.RollupValid | services/seed-importer/crawl_seed.py:243-304 | merging keeps every invariant of a seed document |
| SeedMerge.MergeSucceeds | services/seed-importer/crawl_seed.py:139-208 | two valid documents of one URL merge to a valid one unless they have more than 100 keys together |
| SeedMerge.MergeIdempotent | services/seed-importer/crawl_seed.py:139-208 | merging a document with itself changes nothing |
| SeedAlgebra.MergeSourcesAssociative | services/seed-importer/crawl_seed.py:139-208 | the merge of source lists is associative |
| SeedAlgebra.MergeAssociative | services/seed-importer/crawl_seed.py:139-208 | grouping changes neither the merged document nor whether it is rejected |
| SeedAlgebra.FoldSucceeds | services/seed-importer/crawl_seed.py:211-217 | folding succeeds exactly when there are at most 100 distinct keys, and yields a valid document |
| SeedAlgebra.NewestLeftmost | services/seed-importer/crawl_seed.py:211-217 | per key the newest observation wins, among equally new ones the leftmost |
| SeedAlgebra.FoldOrderIrrelevant | services/seed-importer/crawl_seed.py:211-217 | any order of documents that agree on enabled and on tied sources folds to the same document |
| MongoPipeline.BuildMergedSources | services/seed-importer/mongo_seeds.py:223-344 | the loop that grows two lists builds the source expression |
| MongoPipeline.EvalPreserve | services/seed-importer/mongo_seeds.py:223-344 | the preserve condition is true exactly of the stored sources that the reference merge keeps |
| MongoPipeline.EvalMergedSources | services/seed-importer/mongo_seeds.py:223-344 | the source expression evaluates to the reference merge of the sources |
| MongoPipeline.SortedCategories | services/seed-importer/mongo_seeds.py:223-344 | the distinct, sorted categories are the sorted set that the reference computes |
| MongoPipeline.FinalDocument | services/seed-importer/mongo_seeds.py:223-344 | the stages together leave exactly the fields of the merged document |
| MongoPipeline.UpdateIsMerge | services/seed-importer/mongo_seeds.py:223-344 | the update run on any valid stored document gives exactly the reference merge |
| MongoPipeline.InsertIsIncoming | services/seed-importer/mongo_seeds.py:223-344 | the update run on a missing document gives exactly the incoming one |
| MongoCollection.IdentityIdentifies | services/seed-importer/crawl_seed.py:243-276 | the fixed points of the canonicalizer under a digest have what the collection relies on: a digest as identifier, an http URL of at most 2,048 characters, one identifier per URL |
| MongoCollection.ValidIsAdmitted | services/seed-importer/mongo_seeds.py:28-141 | the document of every valid seed meets the whole collection validator, and none with more than 100 sources does |
| MongoSchema.SchemaExactly | services/seed-importer/mongo_seeds.py:28-141 | the validator admits exactly the encodings of seeds in range, field by field |
| MongoCollection.UrlsDiffer | services/seed-importer/mongo_seeds.py:144-150 | the unique index on the URL can never refuse a valid document beside valid ones |
| MongoCollection.UpsertIsMerge | services/seed-importer/mongo_seeds.py:347-361 | under the whole validator and the unique index, one write on a collection of valid documents succeeds exactly when the reference merge does, stores its result, and touches nothing else |
| MongoCollection.ReplayChangesNothing | services/seed-importer/mongo_seeds.py:364-371 | replaying a write leaves the collection as it is |
| Framing.BuildRecord | scripts/verify-crawl-jobs-v2-digests.py:1150-1164 | the growing byte array is the framed record |
| Framing.RecordExactly | scripts/verify-crawl-jobs-v2-digests.py:1150-1164 | a record can be built exactly when its names are distinct, not empty and of 7-bit characters |
| Framing.ParseRecordOf | scripts/verify-crawl-jobs-v2-digests.py:1150-1164 | a record is recovered from its bytes, whatever follows |
| Framing.ParseSectionOf | scripts/verify-crawl-jobs-v2-digests.py:1167-1176 | a section is recovered from its bytes, whatever follows |
| Framing.FramesInjective | scripts/verify-crawl-jobs-v2-digests.py:1179-1184 | lists of framed values are recovered from their concatenation |
| Digests.PayloadInjective | scripts/verify-crawl-jobs-v2-digests.py:1489-1493 | equal payload digests come from equal field lists |
| Digests.ReplayAcceptsOnlyIdentical | scripts/verify-crawl-jobs-v2-digests.py:1496-1541 | a replay is accepted if and only if operation, reason, fence, token and payload are identical |
| Digests.OutputDigestInjective | scripts/verify-crawl-jobs-v2-digests.py:1854-1863 | equal output digests come from equal records in every section |
| Digests.CommitInjective | scripts/verify-crawl-jobs-v2-digests.py:2322-2344 | a commit identifier determines the lease, the request interval and every record of the output |
| Digests.KindsSeparate | scripts/verify-crawl-jobs-v2-digests.py:1179-1184 | identifiers of different kinds never coincide |
| Preimages.TransitionPreimage | scripts/verify-crawl-jobs-v2-digests.py:1496-1516 | the hashed bytes of a transition, read frame by frame, are its domain, operation, run, job, fence, token, reason and payload digest |
| Preimages.PayloadPreimage | scripts/verify-crawl-jobs-v2-digests.py:1489-1493 | the hashed bytes of a payload, read back, are its domain and one section with the fields |
| Preimages.OutputPreimage | scripts/verify-crawl-jobs-v2-digests.py:1854-1863 | the hashed bytes of an output, read back, are its domain and the five labelled sections in order |
| Preimages.CommitPreimages | scripts/verify-crawl-jobs-v2-digests.py:2322-2344 | the hashed bytes of publication and commit, read frame by frame |
| Transcript.OutputTranscript | scripts/verify-crawl-jobs-v2-digests.py:1613-1653 | the loop with its running previous values computes the check |
| Transcript.TranscriptDecimalIs | scripts/verify-crawl-jobs-v2-digests.py:1578-1584 | a decimal of a transcript is the decimal text of a number in range |
| Transcript.AcceptsExactlyTranscripts | scripts/verify-crawl-jobs-v2-digests.py:1613-1653 | accepted exactly when counts run from baseline+1 to generation, ordinals rise and are no smaller than counts, times do not fall, and one source document, after at most one robots request, is followed by redirects in order |
| Transcript.NoRearrangement | scripts/verify-crawl-jobs-v2-digests.py:1613-1653 | deleting, repeating or reordering requests of an accepted transcript is rejected |
| Witnesses.OutputTranscriptOf | scripts/verify-crawl-jobs-v2-digests.py:1595-1667 | with source job, identities and witness: accepted exactly when the crawl is and the witness, if given, is the expected one of thirteen fields |
| Witnesses.WitnessPins | scripts/verify-crawl-jobs-v2-digests.py:1656-1666 | accepted crawls with one witness have the same fence, owner, token, interval of request starts, last start and final document |
| CrawlRules.CrawlExactly | scripts/verify-crawl-jobs-v2-digests.py:1595-1653 | a crawl is accepted exactly when it serves an accepted job under a lease for its URL and its requests are a transcript over targets that may be requested |
| CrawlRules.WitnessReads | scripts/verify-crawl-jobs-v2-digests.py:1656-1666 | the witness read field by field: start, fence, target, digest, generation, last start, baseline, state, owner and token |
| Outputs.CanonicalList | scripts/verify-crawl-jobs-v2-digests.py:1744-1832 | sort, check each item, refuse repeated keys: accepted exactly when few enough, all valid and distinct; the result is the ascending rearrangement |
| Outputs.AscendingUnique | scripts/verify-crawl-jobs-v2-digests.py:1744-1832 | an ascending list is determined by its elements |
| Outputs.ChunksFlatten | scripts/verify-crawl-jobs-v2-digests.py:2295-2300 | the chunks put end to end are the list |
| Outputs.ChunkIs | scripts/verify-crawl-jobs-v2-digests.py:2295-2300 | chunk i is the slice from 64 i |
| Outputs.ValidateChunk | scripts/verify-crawl-jobs-v2-digests.py:2093-2104 | comparing each record with the one before it accepts exactly the valid, strictly ascending chunks within the limits |
| Outputs.AliasChunkPasses | scripts/verify-crawl-jobs-v2-digests.py:1834-1851 | the alias chunk passes if and only if the aliases have distinct URL identifiers |
| ImageManifest.Base64RoundTrip | scripts/verify-crawl-jobs-v2-digests.py:2267-2270 | decoding unpadded base64url gives back the bytes |
| ImageManifest.KeySourceIs | scripts/verify-crawl-jobs-v2-digests.py:2203-2215 | a manifest key passes exactly when it is the key of a valid source URL |
| ImageManifest.KeyParts | scripts/verify-crawl-jobs-v2-digests.py:2267-2270 | an image key splits at colons into its kind, the publication and the encoded page and source |
| ImageManifest.ValidateManifest | scripts/verify-crawl-jobs-v2-digests.py:2170-2218 | passes exactly when the text is the compact JSON list of the keys of that many canonical URLs in strictly ascending order |
| ImageManifest.BuiltManifestPasses | scripts/verify-crawl-jobs-v2-digests.py:2303-2314 | the manifest of at most 64 canonical images passes its check and stays below 393,216 bytes |
| ImageManifest.ManifestInjective | scripts/verify-crawl-jobs-v2-digests.py:2203-2218 | a manifest decodes to one list of sources only |
| Policies.AcceptedCompletes | scripts/verify-crawl-jobs-v2-digests.py:1785-1832 | a discovery is accepted exactly when it can be completed; the completed record carries the accepted one, passes its chunk check, and keeps its key |
| PolicyRules.AcceptExactly | scripts/verify-crawl-jobs-v2-digests.py:1785-1832 | a discovery is accepted exactly when its decision is a document decision on its own target, in every respect that of the item and of its group, and its score is one; and what its record says |
| PolicyRules.CompletedIs | scripts/verify-crawl-jobs-v2-digests.py:2237-2264 | a completed record adds the framed digests of its rate scope and of the origin of its URL |
| PolicyRules.CompletedExactly | scripts/verify-crawl-jobs-v2-digests.py:2105-2135 | a staged discovery passes exactly with a canonical URL under its own digest, a score, a group, a depth in range, and digests |
| PolicyRules.AliasExactly | scripts/verify-crawl-jobs-v2-digests.py:2136-2154 | a staged alias passes exactly with a canonical URL under its own digest and a depth in range |
| PolicyRules.DecisionExactly | scripts/verify-crawl-jobs-v2-digests.py:1326-1357 | a decision can be digested exactly when its kind is known, its target may be requested, and depth, group, scope and limits are in range |
| PolicyRules.DecisionPins | scripts/verify-crawl-jobs-v2-digests.py:1326-1357 | decisions with one record agree in everything that they say |
| PolicyRules.DecisionLimits | scripts/verify-crawl-jobs-v2-digests.py:1326-1357 | the record gives every job two slots, and its group and its origin the same limits |
| PolicyRules.OriginIs | scripts/verify-crawl-jobs-v2-digests.py:1230-1235 | the origin of a canonical URL is its scheme, host and port, and an address literal has none |
| PolicyRules.ScoresExactly | scripts/verify-crawl-jobs-v2-digests.py:1254-1266 | the accepted scores are the multiples of a millionth from -1,000 to 10,000, each in its shortest text |
| Policies.CompleteDiscoveries | scripts/verify-crawl-jobs-v2-digests.py:2237-2264 | the loop completes the sorted discoveries one by one, and fails exactly when one of them does |
| Timestamps.TimestampExactly | scripts/verify-crawl-jobs-v2-digests.py:2049-2068 | the timestamp check passes exactly the texts of instants, with their weekday, and reads the instant |
| Timestamps.LastCrawledNames | scripts/verify-crawl-jobs-v2-digests.py:1544-1555 | the timestamp of an output names the second of the request it is taken from |
| Timestamps.CalendarRuns | scripts/verify-crawl-jobs-v2-digests.py:1544-1555 | a day later is the next day of the calendar, the next weekday, and 86,400 seconds |
| Timestamps.EpochIs | scripts/verify-crawl-jobs-v2-digests.py:1544-1555 | the count of seconds starts on Thursday, 1 January 1970 |
| Timestamps.TimeOfDay | scripts/verify-crawl-jobs-v2-digests.py:1544-1555 | within a day the seconds count hours, minutes and seconds |
| Timestamps.DayNames | scripts/verify-crawl-jobs-v2-digests.py:1544-1555 | the weekday names from Monday, letter by letter |
| Timestamps.MonthNames | scripts/verify-crawl-jobs-v2-digests.py:1544-1555 | the month names from January, letter by letter |
| Pages.PageChunksPass | scripts/verify-crawl-jobs-v2-digests.py:2032-2092 | the page_fields, html and original_html chunks of an accepted page pass |
| Pages.CombinedLimitImplied | scripts/verify-crawl-jobs-v2-digests.py:1708-1711 | the limit on both HTML texts together never refuses a page |
| PageRules.PageExactly | scripts/verify-crawl-jobs-v2-digests.py:1694-1743 | a page is recorded exactly when its URL is canonical, its texts fit, and its type, status, rendering and time are in order; and what its record says |
| PageRules.FieldsExactly | scripts/verify-crawl-jobs-v2-digests.py:2032-2092 | staged page fields pass exactly with a canonical URL, an accepted type, a status and a timestamp in their one text, and a rendering that names both rule and policy or neither |
| PageRules.BlobExactly | scripts/verify-crawl-jobs-v2-digests.py:2079-2092 | an HTML chunk passes exactly under its own name and with at most 5,242,880 bytes |
| PageRules.ContentTypeExactly | scripts/verify-crawl-jobs-v2-digests.py:1558-1565 | the accepted content types are the texts of a grammar: text/html in any case, alone or with charset=utf-8 |
| StagedOutput.OutputRecords | scripts/verify-crawl-jobs-v2-digests.py:1670-1851 | accepted exactly when the crawl, its page, the three lists and the number of aliases are acceptable; the records are the ascending lists, the page, and the sorted aliases |
| OutputRules.OutputExactly | scripts/verify-crawl-jobs-v2-digests.py:1670-1851 | the outputs accepted for a crawl, list by list: limits, canonical URLs, distinct keys, the page of the final document, and at most five names |
| StagedOutput.OutputOrderIrrelevant | scripts/verify-crawl-jobs-v2-digests.py:1744-1832 | rearranging outlinks, images or discoveries changes neither acceptance nor records |
| StagedOutput.StageOutput | scripts/verify-crawl-jobs-v2-digests.py:2273-2319 | the checks of all chunks, kind by kind, compute whether an output can be staged |
| StagedOutput.CompletionCarries | scripts/verify-crawl-jobs-v2-digests.py:2237-2264 | completing the discoveries of an accepted output succeeds, and each staged record carries the accepted one |
| StagedOutput.AliasesPassExactly | scripts/verify-crawl-jobs-v2-digests.py:1834-1851 | the alias chunk of an accepted output passes if and only if its alias names have different URL identifiers |
| StagedOutput.StagingPasses | scripts/verify-crawl-jobs-v2-digests.py:2273-2319 | an accepted output can be staged if and only if its alias names have different URL identifiers; the chunks of the other seven kinds always pass |
| TwoNames.OutputAccepted | scripts/verify-crawl-jobs-v2-digests.py:1670-1851 | an output whose document and redirect name two targets with one URL is accepted |
| TwoNames.AcceptedButNotStaged | scripts/verify-crawl-jobs-v2-digests.py:2136-2154 | its alias chunk is refused |
| FeedQueue.Redis.Enqueue | services/seed-importer/feed.py:45-118 | an error reply leaves the store unchanged; otherwise every entry is written |
| FeedQueue.EnqueueAccepts | services/seed-importer/feed.py:45-118 | which entries the script accepts: an agreeing or absent URL, finite scores, and depths in range |
| FeedQueue.DepthIs | services/seed-importer/feed.py:45-118 | a depth is the decimal text of a number up to 9,007,199,254,740,991 |
| FeedQueue.Redis.RemoveDisabled | services/seed-importer/feed.py:120-150 | an error reply leaves the store unchanged; otherwise exactly the members are removed |
| FeedQueue.EnqueueKeeps | services/seed-importer/feed.py:102-117 | every queued identifier keeps a URL and a depth, and scores and depths never rise |
| FeedQueue.RemoveKeeps | services/seed-importer/feed.py:143-148 | removal keeps every queued identifier mapped |
| FeedQueue.RemovedAre | services/seed-importer/feed.py:143-148 | removal takes score, URL and depth of each identifier, and nothing else |
| FeedQueue.EnqueueBatch | services/seed-importer/feed.py:263-296 | all of a batch is fed or nothing is |
| FeedQueue.FeedSeeds | services/seed-importer/feed.py:356-381 | success depends on the seeds and the store only, and the final state too; it reports one for each identifier of each batch; a failed feed leaves exactly the batches before the first seed that cannot be fed |
| FeedQueue.AppliedTwice | services/seed-importer/feed.py:356-381 | feeding in two parts is feeding at once |
| FeedQueue.FeedOrderIrrelevant | services/seed-importer/feed.py:356-381 | any order of the seeds ends in the same state |
| FeedQueue.FedOutcome | services/seed-importer/feed.py:356-381 | after a feed each identifier has its URL, depth 0, and the least of its old score and the priorities fed, counted from 0 |
| FeedQueue.ImportantFirst | services/seed-importer/feed.py:174-181 | of two new identifiers the one with the more important seed gets the strictly smaller score |
| DisabledSeeds.ReconcileDisabled | services/seed-importer/feed.py:332-353 | for every batch size: succeeds if and only if the store is usable, the first seed of each identifier agrees with it, and no batch has two URLs of one identifier; success removes every identifier, and failure exactly the batches before |
| DisabledSeeds.BatchSizeMatters | services/seed-importer/feed.py:332-353 | the same seeds against the same store pass one at a time and fail in one batch |
| Resolver.ResolveComponents | docs/evidence/m4-c0-runtime-images-2026-10-17/initial-security-remediation_prototype.py:47-76 | the worklist loop terminates on every link graph and computes the resolver |
| Resolver.ResolvedIsLinkFree | docs/evidence/m4-c0-runtime-images-2026-10-17/initial-security-remediation_prototype.py:47-76 | the result is a stored path without links, dots or empty parts, all proper prefixes directories |
| Resolver.AgreesWithRecursive | docs/evidence/m4-c0-runtime-images-2026-10-17/initial-security-remediation_prototype.py:47-76 | the worklist agrees with a recursive left-to-right resolver in results and rejections |
| ResolverLimits.FortyLinks | docs/evidence/m4-c0-runtime-images-2026-10-17/initial-security-remediation_prototype.py:47-76 | a row of links resolves exactly when there are at most 40 |
| ResolverLimits.TakenExactly | docs/evidence/m4-c0-runtime-images-2026-10-17/initial-source.patch:317-327 | a path is taken up exactly when it has 1 to 4,096 characters, none of them NUL, LF or CR, and no beginning of it goes up more often than down |
| Resolver.AbsoluteLinkTarget | docs/evidence/m4-c0-runtime-images-2026-10-17/initial-security-remediation_prototype.py:39-44 | what is stored for a link is an absolute path of permitted characters |
| Resolver.TooLongExactly | docs/evidence/m4-c0-runtime-images-2026-10-17/initial-security-remediation_prototype.py:47-76 | a result exceeds the length limit exactly for relative paths of the full length, of plain components, through no link |
| Resolver.IdempotentExactly | docs/evidence/m4-c0-runtime-images-2026-10-17/initial-security-remediation_prototype.py:47-76 | resolving again gives the same path unless the input is relative, of the full length, of plain components, and through no link; then it is refused |
| Resolver.IdempotenceBoundary | docs/evidence/m4-c0-runtime-images-2026-10-17/initial-security-remediation_prototype.py:47-76 | a relative path of 4,096 characters resolves to a path that is refused |

## Left out

- Redis, MongoDB, Docker, command lines, logging and signals: clients are contracts with any outcome the code handles.
- Both indexer services: their guarantees lie in client scripts and MongoDB code outside the services.
- Contents of the Unicode tables, and SHA-256 itself: parameters with the assumptions named above.
- The `idna` library of the two Python services: one shared predicate on lower-case labels stands for it and for the A-label test.
- Lone surrogates in texts: a string here has none, and every modelled function that could meet one refuses it first.
- Lower-casing of characters beyond ASCII, except the Kelvin sign: the result is never ASCII, and every such host is refused.
- The Unicode equivalence check inside Python's URL splitting: it concerns authorities beyond ASCII, which all three implementations refuse or reduce to ASCII first.
- IPv6 zone identifiers in brackets: refused while splitting here, refused right after it in the code.
- ContextJ and recomposition as ideal standards: the pinned tables differ from them on purpose.
- Target scan states as shared objects: a target's state is a value in the map here, so aliasing of one state is not modelled.
- The endless loop, waiting and back-off of the processor: any number of cycles stands for them.
- BacklinkProcessor.Processor.RunProcessor: does not promise that work ever finishes, because datastores may fail forever; progress towards the waiter is stated for runs that give back no batch.
- StagedOutput.OutputRecords: does not say which code a refused list gets, because the three lists share one loop here; nor StagedOutput.StageOutput which chunk was refused.
- Log lines, and the counters of batches and members that influence nothing.
- Arrays and objects inside the MongoDB value order, and the order of `$setUnion` results, taken as first occurrence.
- BSON and date ranges: times are unbounded milliseconds.
- The list of policy groups before it is indexed, and the field names of chunk records: groups are a map, and each kind of record is a datatype.
- Finding the instant of a second: a parameter that gives valid instants of that second, or none.
- General JSON in the manifest check: only compact arrays of strings without escapes, since any other text is refused by the comparison with the compact form or by the key checks.
- `sorted` by UTF-8 bytes is the order by code point here; the two orders are the same.
- The archive checks around the resolver: entries are given, with link targets as `absolute_link_target` makes them.
- Dry runs of the feeding scripts, and the numeric formatting of scores: scores are real numbers or not finite.
- Identity of seed documents (`_id` against the URL): a relation parameter; `MongoCollection.IdentityOf` is the one in use.
- Digests of staged chunks, and their commit identifier: both are framed like those in `Digests`.
- Lookups of unknown names that end in an uncaught exception: they count as refusals here.
- Counting in `reconcile.py`, the test-shard partition, importers, TF-IDF and configuration files: they would add easy members.
