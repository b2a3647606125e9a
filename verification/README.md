# PathDNS in Dafny

PathDNS is a DNS forwarder. This project models the parts of it that claim to agree with
something simpler, and proves that they do: a succinct trie decoder, the response cache with its
wire-format code and its file format, the protocols that run concurrently, the indexes that must
answer like a plain scan, and the resolution of server references. `dafny verify dfyconfig.toml`
checks all of it.

How the pieces fit together:

- **Trie decoder.** `BitWords` and `RankSelect` give rank and select on 64-bit words their naive
  meaning. `LoudsWalk` shows that the explicit-stack walk follows a recursive walk on every input,
  reads no bit twice and needs at most `2 * |labels| + 1` steps. `LoudsTrie` encodes an arbitrary
  trie and shows that the walk returns exactly its keys.
- **Messages.** `Wire` reads names and records, `Ttl` finds, clamps and patches lifetimes,
  `Question` compares questions, `Edns` reads the OPT record and the query variant, `Ecs` and
  `EcsLaws` rewrite the client subnet. `Message`, `OptWritten` and `SubnetWritten` start from the other
  side, from messages as they are written, and say what reading, serving and rewriting them gives.
- **Response cache.** `CacheKey` and `CacheKeyLaws` treat the key derivation, `Cache` the cache
  object, `CacheRuns` every interleaving of its operations, `SharedAnswers` the answers that cross
  subnets, `PersistCodec` and `Persist` the file it is saved to, `CacheRestarts` a session that
  starts from such a file.
- **Protocols.** `Inflight` and `Singleflight` hold the sequential operations as classes;
  `InflightRuns`, `SingleflightRuns`, `Reload` and `RulesetRuns` are step systems whose steps are
  the critical sections of the source, and their theorems hold for every run.
- **Indexes.** `Domain` and `RouteIndex` (routing), `IpRange` (address sets), `History` (query log),
  `Ruleset` (incremental loading).
- **Dependencies.** `Bootstrap` resolves servers that are looked up through other servers.

Bytes and fixed-width integers are subset types of `int`; every narrowing the source performs is
written out. Times, iteration orders of hash maps, evictions, event encodings and compression are
parameters.

Where the code and its own comments differ, the model follows the code:

- `src/mrs.rs:55-64` expects that a malformed bitmap can make the walk revisit subtrees and that the
  step cap leaves headroom for well-formed ones. No bitmap makes the walk read a position twice
  (`WalkBounded`), and the cap is one too small for tries with as many edges as the largest accepted
  label array has bytes (`DecodeDomains`, `StepCapWitness`).
- `src/dns/ttl.rs:124` caps negative answers at 10800 s. The configured minimum is applied after the
  cap (`NegativeCap`, `NegativeUncapped`).
- `src/cache.rs:641-644` calls the freshness arithmetic across restarts correct. A deadline moves by
  the whole seconds by which the wall clock outran the monotonic one (`SessionDeadline`,
  `NeverExtendedIff`); with clocks in step that is the rounding, up to a second per restart
  (`DriftInStep`, `ExtendedWitness`).
- `src/cache.rs:3-6` says that ECS variants cannot share answers. The fallback probe serves an answer
  stored for a query whose OPT record has no subnet to queries that have one (`ForeignVariantIff`,
  `SubnetServedPlain`; not so for a query without OPT record, `SubnetUnservedBare`), and
  networks of the two address families share a variant when both are all zeros (`FamiliesApart`,
  `FamiliesShare`).
- `src/querylog/worker.rs:828-863` skips blocks by their first and last timestamps. That is sound
  exactly when these bound the events (`PagingExact`); timestamps in order do (`OrderedBounded`), and
  two events out of order need not (`DisorderedMisses`).
- Tag numbers in `src/route_index.rs` have 16 bits, so a tag past the first 65536 is looked up as
  another one. Routing follows the rules with those tags replaced (`RoutesAsWrittenIff`,
  `RoutedAsWrittenIff`, `MisroutedWitness`).
- `src/cache.rs:700` relies on stored queries of at least twelve bytes being long enough for their
  questions, which loading a file does not check (`SafeIff`, `LoadedStoreOkIff`, `UnusableFile`).
- `src/server.rs:957-968` watches writes and files moved in, and not files that go away. A reload for
  another file therefore keeps the ruleset of a removed one, where reading every file again would fail
  (`InUseIsFresh`, `ReloadIsFullIff`, `RemovedWitness`).

## Model

| member | source | states |
|---|---|---|
| RankSelect.NewRankBitmap | src/mrs.rs:251-260 | the running popcounts built word by word are the ranks of the word boundaries |
| RankSelect.Select1InWord | src/mrs.rs:301-314 | clearing the lowest set bit `k` times finds the set bit with `k` set bits below it, or shows there is none |
| RankSelect.Rank1Correct | src/mrs.rs:274-284 | the block-and-mask rank counts the set bits of every prefix, word boundaries included, and is undefined exactly past the end |
| RankSelect.Rank0Correct | src/mrs.rs:286-289 | the same for clear bits |
| RankSelect.Select1Correct | src/mrs.rs:291-299 | `select1(k)` is `p` if and only if bit `p` is set and has rank `k` |
| RankSelect.Select1None | src/mrs.rs:291-299 | `select1(k)` fails if and only if there are at most `k` set bits |
| LoudsWalk.ChildAhead | src/mrs.rs:400-425 | from rank and select alone: the children of a clear bit lie strictly behind it and their node number is larger |
| LoudsWalk.ReadStep | src/mrs.rs:370-425 | one step from a frame whose node number is the rank of its position reads what the recursive walk reads there, error cases included |
| LoudsWalk.ForEachDomain | src/mrs.rs:362-437 | on every bitmap, well formed or not, the stack walk emits what the recursive walk emits, with the same error; it differs only when the step cap cuts it short |
| LoudsWalk.WalkDisciplined | src/mrs.rs:362-437 | every subwalk stays inside its own subtree, never reads a position twice and reads two positions per label plus one |
| LoudsWalk.WalkBounded | src/mrs.rs:362-437 | no position is read twice, at most `2 * labels + 1` are read, and the underflow and range errors never occur |
| LoudsWalk.LabelsRead | src/mrs.rs:362-437 | a finished walk takes exactly two steps for each label it read, plus one |
| LoudsWalk.StepCapOutOfReach | src/mrs.rs:55-64 | whatever the arrays hold, the cap is out of reach for every label array below the largest accepted size |
| LoudsTrie.BfsFixpoint | src/mrs.rs:362-437 | the level order of a trie is the queue followed by the children of everything in it |
| LoudsTrie.WalkTraverses | src/mrs.rs:362-437 | on the encoding of a trie the walk over bits is the depth-first traversal of the trie |
| LoudsTrie.TraverseResult | src/mrs.rs:362-450 | the traversal succeeds if and only if the depth is below its cap and all keys are encodings of texts, and then delivers all keys in two steps per edge and one more; with an error it takes fewer |
| Utf8.ValidExact | src/mrs.rs:446-448 | valid are exactly the concatenations of encoded characters, which are the code points up to 0x10FFFF that are not surrogates |
| LoudsTrie.TextsExact | src/mrs.rs:443-450 | what is delivered are the reversed paths to the marked nodes, nothing more and nothing less |
| LoudsTrie.TextsDistinct | src/mrs.rs:362-437 | no key is delivered twice |
| LoudsTrie.DecodeEncoded | src/mrs.rs:362-450 | without the step cap, decoding the encoding of any trie succeeds if and only if its depth is below the depth cap and its keys are encodings of texts; it takes two steps per edge and one more, and fewer with an error |
| LoudsTrie.DecodeDomains | src/mrs.rs:362-450 | the loop with its caps, on the encoding of any trie: it succeeds if and only if the depth is below its cap, all keys are encodings of texts and there are fewer than 2^28 edges, and then emits every stored key exactly once; the step cap trips if and only if the edge count alone is at fault |
| LoudsTrie.EncodeTrie | src/mrs.rs:316-320 | every trie has bitmaps and labels that encode it, with one label per edge |
| LoudsTrie.StepCapWitness | src/mrs.rs:55-64 | a deterministic ASCII trie with 2^28 edges, decodable but for the step cap, and its encoding, which trips it |
| Wire.SkipNameExact | src/dns/mod.rs:481-500 | a name is read up to `end` if and only if the bytes up to there are labels of 1 to 63 bytes followed by a zero byte, or by two bytes of which the first is at least 0xC0 |
| Wire.ReadName | src/dns/mod.rs:481-500 | the loop finds the end of the name, or fails, as the recursive reading of labels does |
| Wire.ParseRrExact | src/dns/ttl.rs:60-80 | a record is read if and only if a name, type, class, TTL, length and data stand there in network byte order, and it is read with this type and TTL and these places |
| Wire.RecordsTile | src/dns/ttl.rs:196-252 | the records of a section follow each other without gap or overlap |
| Ttl.TtlOffsetsAndSoa | src/dns/ttl.rs:196-252 | one pass yields the TTL fields of all records but OPT, how many belong to answers, and the first usable SOA lifetime |
| Ttl.SoaMinimumLast | src/dns/ttl.rs:254-266 | in a SOA record without anything behind its fields the value read is the last four bytes |
| Ttl.SoaMeaning | src/dns/ttl.rs:196-252 | a SOA lifetime is found if and only if the authority section has a usable SOA record, and it is the smaller of TTL and MINIMUM of the first one |
| Ttl.EntryLifetime | src/dns/ttl.rs:125-176 | with answers the entry lives exactly as long as the shortest clamped answer, without them as long as the first usable SOA record allows, capped and clamped |
| Ttl.ClampExact | src/dns/ttl.rs:141-149 | clamping raises to the minimum and then cuts to the maximum, if there is one, and changes nothing else |
| Ttl.PatchTtlsAt | src/dns/ttl.rs:180-188 | the in-place loop writes the remaining lifetime into each field that fits |
| Ttl.PatchedField | src/dns/ttl.rs:180-188 | value and elapsed time of each field add up to its lifetime, or the value is zero when the lifetime is shorter |
| Ttl.PatchedElsewhere | src/dns/ttl.rs:180-188 | no byte outside the fields changes |
| Ttl.PatchedRecords | src/dns/ttl.rs:180-252 | the patched packet parses into the same records at the same places |
| Ttl.PatchedTtl | src/dns/ttl.rs:125-188 | each record but OPT counts down from its clamped lifetime, or from the entry's when there are no answers, and answers are at least 1 while the entry is fresh |
| Ttl.PatchedRescan | src/dns/ttl.rs:125-252 | for every accepted response and every elapsed time: same records, each lifetime counted down from its clamped value, OPT and all other bytes unchanged, answers at least 1 while the entry is fresh |
| Ttl.TailLifetimes | src/dns/ttl.rs:125-176 | lifetimes do not depend on the ID or on the question bytes |
| Ttl.NegativeCap | src/dns/ttl.rs:150-161 | a negative answer is kept at most 10800 s if and only if the configured bounds allow it |
| Ttl.NegativeUncapped | src/dns/ttl.rs:150-161 | an empty reply that is kept for 20000 s |
| Question.QuestionEndExact | src/dns/mod.rs:316-325 | the question ends at `end` if and only if a name and four bytes stand between the header and `end` |
| Question.CompareQuestions | src/dns/mod.rs:409-455 | the label loop decides whether two questions are the same |
| Question.MatchMeaning | src/dns/mod.rs:409-455 | a plain question matches exactly those of its length with the same last four bytes whose name bytes are equal or the two cases of one ASCII letter |
| Question.MatchExact | src/dns/mod.rs:409-455 | any two questions match if and only if lengths, last four bytes and label lengths are equal and the labels are equal up to the case of ASCII letters |
| Question.PlainExact | src/dns/query.rs:93-123 | plain questions are a name without pointers and four bytes |
| Question.MatchPlain | src/dns/mod.rs:409-455 | nothing malformed matches a plain question |
| Edns.FindOpt | src/dns/mod.rs:196-223 | the loop finds the first OPT record behind the question, or nothing when a record before it is broken |
| Edns.ExtractOptData | src/dns/mod.rs:233-269 | the last full subnet option decides, and the other codes are collected up to a broken option |
| Message.AcceptedIff | src/dns/ttl.rs:125-139 | a written message has lifetimes if and only if it is a reply with RCODE 0 or 3 |
| Message.AnswersLifetime | src/dns/ttl.rs:150-176 | for every message with answers: the lifetime is the smallest clamped TTL among its answers that are not OPT |
| Message.NegativeLifetime | src/dns/ttl.rs:150-161 | for every message without answers: the lifetime is the smaller of TTL and MINIMUM of the first SOA record in the authority section, or the configured one if there is none, cut to 10800 s and then clamped |
| Message.ServedMessage | src/dns/ttl.rs:125-252 | what is served after any time is, byte for byte, the same message with each record's TTL counted down and OPT records untouched |
| OptWritten.OptionsExact | src/dns/mod.rs:233-269 | OPT data is well formed and read as a list of options if and only if it is their encoding and at most three bytes more |
| OptWritten.ExtraExact | src/dns/mod.rs:233-269 | each code is collected as often as it occurs, apart from full subnets (8) and padding (12) |
| OptWritten.SubnetExact | src/dns/mod.rs:233-269 | the last option 8 with at least four bytes decides |
| OptWritten.SubnetRead | src/dns/mod.rs:273-312 | a subnet is read if and only if its family is 1 or 2, and it is the address, filled up with zeros, cut to the prefix |
| OptWritten.VariantWritten | src/dns/mod.rs:159-194 | the variant of any written query with an OPT record: RD, AD and CD of its header, version and DO bit from the first OPT record, subnet and codes from its data |
| OptWritten.BareVariantWritten | src/dns/mod.rs:159-194 | the variant of any written query without one |
| SubnetWritten.LocateWritten | src/dns/ecs.rs:29-86 | in any written message, with any number of questions and records, the OPT record found is the first one of the additional section |
| SubnetWritten.StripWritten | src/dns/ecs.rs:107-154 | stripping gives, byte for byte, the same message with the subnet options taken out of its OPT record and the other options in order, and nothing when there are none |
| SubnetWritten.InjectWritten | src/dns/ecs.rs:156-242 | injecting gives the same message with the subnet options replaced by one for the subnet, with just the octets its prefix needs |
| SubnetWritten.InjectAppends | src/dns/ecs.rs:156-242 | without an OPT record one of size 4096 that holds just the subnet is added at the end |
| SubnetWritten.BrokenWritten | src/dns/ecs.rs:107-212 | a message whose OPT data is no list of options is left alone by both |
| Ecs.LocateOpt | src/dns/ecs.rs:29-78 | the three loops tell a broken packet from one without OPT and find the first OPT record otherwise |
| Ecs.KeepOthers | src/dns/ecs.rs:114-132 | copying option by option yields the encoding of all options but subnets, and nothing for broken data |
| Ecs.SpliceRdata | src/dns/ecs.rs:138-146 | cutting out the old data and overwriting the length in place gives the packet with the new data |
| Ecs.StripEdnsEcs | src/dns/ecs.rs:107-147 | succeeds exactly when the OPT record is well formed and holds a subnet |
| Ecs.EncodeEcsOption | src/dns/ecs.rs:214-242 | the bytes are the encoding of one option with just the octets the prefix needs |
| Ecs.AppendOpt | src/dns/ecs.rs:193-209 | appending a minimal OPT record and raising ARCOUNT modulo 65536 |
| Ecs.InjectOrReplaceEcs | src/dns/ecs.rs:156-211 | replaces in a well-formed OPT record, appends one where there is none, and fails on broken packets |
| EcsLaws.LocateSpliced | src/dns/ecs.rs:29-78 | after new data is spliced in, the same record is found with its new end |
| EcsLaws.ReadBack | src/dns/mod.rs:233-269 | options that are written are read back as they were |
| EcsLaws.LocateIsFind | src/dns/mod.rs:196-223 | on queries the two ways of finding the OPT record agree |
| EcsLaws.StripKeepsRest | src/dns/ecs.rs:113-147 | everything outside the OPT length and data is unchanged and the other options remain in order |
| EcsLaws.StripTwice | src/dns/ecs.rs:107-147 | a second strip finds nothing, on every packet |
| EcsLaws.StripVariant | src/dns/ecs.rs:107-147 | stripping a query clears the subnet in its variant and nothing else, unless a truncated subnet option was counted among the others, and then exactly that count |
| EcsLaws.KeptSame | src/dns/ecs.rs:113-147 | rewriting leaves the data as it was if and only if there was no subnet and no rest behind the options |
| EcsLaws.SentNetwork | src/dns/ecs.rs:214-242 | the parsed option is the subnet masked to its prefix: the octets left off lie outside it |
| EcsLaws.InjectThenStrip | src/dns/ecs.rs:156-211 | stripping after injecting gives what stripping alone gives, and the packet itself if and only if it had no subnet and no rest |
| EcsLaws.InjectVariant | src/dns/ecs.rs:156-192 | the variant of the result differs only in the subnet, which is the injected network |
| EcsLaws.InjectFits | src/dns/ecs.rs:183-190 | the rewritten data fits its length field for every query of at most 65535 bytes |
| EcsLaws.InjectOversized | src/dns/ecs.rs:183-190 | beyond that, the record found holds fewer than 24 bytes, the start of the rewritten data |
| EcsLaws.AppendedFound | src/dns/ecs.rs:193-209 | the appended record is found if and only if ARCOUNT can grow and the packet ends with its last record |
| EcsLaws.AppendedVariant | src/dns/ecs.rs:193-209 | then the variant gains the OPT record and the network and is otherwise unchanged |
| EcsLaws.FamiliesApart | src/dns/mod.rs:273-312 | whatever IPv4 and IPv6 subnet options two queries carry, their recorded networks are equal if and only if the prefix lengths agree and both addresses are zero |
| CacheKey.Fnv1a.Write | src/hasher.rs:25-29 | writing a slice is writing its bytes in order |
| CacheKey.Fnv1a.WriteQnameWire | src/hasher.rs:55-70 | hashes lengths as they are and labels in lower case, and stops behind the name |
| CacheKey.HashedCat | src/hasher.rs:19-29 | hashing can be resumed from any intermediate state |
| CacheKey.SkipQueryQuestion | src/dns/query.rs:93-123 | accepts exactly the well-formed questions, and its fused hash and end offset are those of the reference walk over the question it found |
| CacheKey.QueryQuestionExact | src/dns/query.rs:93-123 | accepted are exactly the plain questions whose name has at most 255 bytes |
| CacheKey.PlainStream | src/hasher.rs:55-70 | on a plain question the reference walk hashes the lowercased name and stops before QTYPE |
| CacheKey.FinishCacheKey | src/cache.rs:125-160 | appends type, class, flags, subnet and option hash in this order to whatever was hashed before |
| CacheKey.QueryKey | src/cache.rs:82-97 | resuming from the fused hash gives the key of the whole stream |
| CacheKey.VariantBytesExact | src/cache.rs:135-157 | the variant part of the stream determines flags, subnet and option hash, and is determined by them |
| CacheKey.KeyStreamExact | src/cache.rs:125-160 | two queries feed the same bytes to the hash if and only if their questions match up to letter case and their variants agree, leaving out stripped subnets |
| CacheKeyLaws.CodesSorted | src/dns/mod.rs:258-266 | the option codes are hashed as the ascending arrangement of those collected |
| CacheKeyLaws.ExtraHashIs | src/dns/mod.rs:257-268 | the hash of the other codes is zero for none, and else that of their ascending arrangement, two bytes each, low byte first |
| CacheKeyLaws.KnownHash | src/hasher.rs:8-31 | the hash of the text `a` is the published one of FNV-1a |
| CacheKeyLaws.VariantFits | src/dns/mod.rs:273-312 | every recorded network fits the sixteen bytes it is hashed as |
| CacheKeyLaws.StripSharesKey | src/cache.rs:356-365 | a stripped query has the key the fallback probe computes for the unstripped one, with truncated subnet options left out; the two streams are one if and only if leaving them out does not change the option hash |
| CacheKeyLaws.NoSubnetOneKey | src/cache.rs:142-154 | without a subnet the two keys of a query are one |
| Cache.DnsCache.constructor | src/cache.rs:263-281 | an empty cache, disabled at capacity zero |
| Cache.DnsCache.Add | src/cache.rs:405-444 | truncated and uncacheable responses change nothing; others replace the entry of their key, with ID zero, while other entries may be evicted |
| Cache.StoredIff | src/cache.rs:405-444 | a response is stored if and only if it is a reply, not truncated, has RCODE 0 or 3 and all its records can be read |
| Cache.EntryStored | src/cache.rs:405-444 | the entry holds the response with ID zero and otherwise unchanged, and the query, variant and time of its insertion |
| Cache.AgeExact | src/cache.rs:477-484 | the age counts whole seconds |
| Cache.DnsCache.InvalidateAll | src/cache.rs:448-452 | nothing is left |
| Cache.DnsCache.LookupKeyed | src/cache.rs:456-496 | answers exactly from a matching fresh entry, and drops a matching expired one |
| Cache.DnsCache.GetWithEcsFallback | src/cache.rs:316-387 | probes the full key first and the subnet-blind key only for queries with a subnet |
| Cache.CopyOut | src/cache.rs:485-490 | the in-place edits give the stored packet with the client's ID and question bytes |
| Cache.SafeIff | src/cache.rs:693-702 | no lookup slices past the end of a stored query if and only if every stored query holds its question or is shorter than a header |
| CacheRuns.StoredByLast | src/cache.rs:405-452 | in every run, from any initial contents, what is stored under a key came from the last insertion under it since the last invalidation, or was there from the start and there was no invalidation |
| CacheRuns.NoneSince | src/cache.rs:405-452 | that insertion is followed by no invalidation and no other insertion under the key |
| CacheRuns.ServedMeaning | src/cache.rs:477-491 | a served packet differs from the inserted one only in ID, question bytes and TTL fields, and its records count down from their clamped lifetimes |
| CacheRuns.HitOrigin | src/cache.rs:405-496 | every hit of every run, from any initial contents: origin, freshness, matching question, equal variant (flags only in the fallback), exact bytes; colliding keys make no difference |
| CacheRuns.FreshHit | src/cache.rs:456-496 | a stored answer is found by every query of the same question and variant until it expires or its key is touched |
| CacheRuns.LookupDrops | src/cache.rs:477-484 | a lookup takes out the entry under its key if and only if that matches and its lifetime has passed |
| CacheRuns.ProbeKeeps | src/cache.rs:316-387 | a probe takes out no fresh entry, and only under its two keys |
| CacheRuns.ProbeDrops | src/cache.rs:316-387 | matching entries that have expired are gone after it |
| CacheRuns.SubnetBlind | src/cache.rs:353-380 | an answer stored without regard to subnets serves every subnet |
| CacheRuns.ForeignVariantIff | src/cache.rs:316-387 | a probe is answered from an entry of another variant if and only if the query has a subnet, its own key does not answer, and the subnet-blind key holds a fresh entry for the same question and flags that differs in subnet or options |
| SharedAnswers.SubnetServedPlain | src/cache.rs:353-380 | the answer stored for any query that has a well-formed OPT record without a subnet, and room for one, is served to the same query with any subnet |
| SharedAnswers.SubnetUnservedBare | src/cache.rs:703-713 | the answer stored for a query without OPT record is not served to that query with a subnet, because the injected option brings an OPT record |
| SharedAnswers.FamiliesShare | src/dns/mod.rs:273-312 | any query, once with the IPv4 and once with the IPv6 network of all addresses: two packets, one variant, and the answer to one is served to the other |
| SharedAnswers.CrossingExists | src/cache.rs:316-387 | a concrete query and insertion to which both apply |
| PersistCodec.ReadRawExact | src/cache.rs:608-632 | an entry is read at an offset if and only if its encoding stands there and respects the size limits |
| PersistCodec.ReadBytesExact | src/persist.rs:109-118 | a length-prefixed string is read if and only if it stands there and is at most 65536 bytes long |
| PersistCodec.ReadPairsExact | src/cache.rs:625-630 | the same for a run of TTL offsets |
| Persist.SaveToFile | src/cache.rs:523-585 | writes the header and the entries that are live when they are visited, in iteration order |
| Persist.FileStart | src/cache.rs:548-551 | files start with the text PDNSC009 |
| Persist.ReadEntry | src/cache.rs:609-632 | reads the fields one after the other, or fails on the first that is short or oversized |
| Persist.LoadFromFile | src/cache.rs:590-675 | rejects foreign files, skips expired entries, keeps what was read before a broken entry |
| Persist.LoadedStoreOkIff | src/cache.rs:608-672 | after loading any file no lookup slices past the end of a stored query, if and only if each record that ends up in the store has a query that holds its question or is shorter than a header |
| Persist.UnusableFile | src/cache.rs:608-672 | a readable file after which one does |
| Persist.LoadWritten | src/cache.rs:608-672 | written records are all read back |
| Persist.RestoreMeaning | src/cache.rs:634-668 | a loaded entry has the smaller of its recorded remaining time and its lifetime left, in both branches |
| Persist.SaveThenLoad | src/cache.rs:523-675 | exactly the entries live at saving and not past their deadline at loading come back, unchanged but for the clock they are measured against |
| Persist.OtherFingerprint | src/persist.rs:60-78 | a file of another configuration is refused and changes nothing |
| Persist.SessionDeadline | src/cache.rs:553-649 | for any clock readings the deadline after one load and save is the old one, cut to the lifetime, moved by the whole seconds by which the wall clock outran the monotonic one |
| Persist.ShiftInStep | src/cache.rs:553-649 | for clocks in step these are one second if the fractions of load time and session carry, and none otherwise |
| Persist.NeverExtendedIff | src/cache.rs:553-649 | a restart does not extend a deadline if and only if the wall clock did not outrun the monotonic one, or by no more than the lifetime cut off |
| Persist.RestartsDeadline | src/cache.rs:553-649 | no chain of restarts extends a deadline by more than the wall clock outran the monotonic one in its sessions |
| Persist.RestartsNeverExtend | src/cache.rs:553-649 | while the wall clock never outruns the monotonic one no chain of restarts extends a deadline |
| Persist.DriftInStep | src/cache.rs:553-649 | clocks in step drift apart by at most one second per restart, and not at all if and only if no session carries |
| Persist.ExtendedWitness | src/cache.rs:553-649 | a restart that extends a deadline by a second |
| CacheRestarts.Reloaded | src/cache.rs:523-675 | the store a session starts from holds exactly the entries of the last session that are live and in time, and no lookup on it slices past a stored query |
| CacheRestarts.HitAcrossRestart | src/cache.rs:405-675 | every hit of a session that starts from a file and has no insertion of its own to answer from: it answers from the last insertion of the session before, with matching question and variant and exact bytes, and before the recorded deadline |
| Inflight.InflightRegistry.constructor | src/upstream/inflight.rs:79-91 | empty shards and the configured number of permits |
| Inflight.InflightRegistry.Register | src/upstream/inflight.rs:104-153 | takes a permit and a fresh token and stores the request under the first free ID among the 65535 from the counter on, or gives the permit back when all are taken |
| Inflight.InflightRegistry.Complete | src/upstream/inflight.rs:159-199 | takes out the entry of a live ID if and only if the packet is a reply with opcode 0 and one question under this ID and asks the registered question; it then carries the client's ID, and otherwise nothing changes |
| Inflight.VerdictExact | src/upstream/inflight.rs:159-199 | the verdict said of the bytes of the packet, the mismatch included |
| Inflight.InflightRegistry.Clear | src/upstream/inflight.rs:210-216 | empties every shard |
| Inflight.InflightRegistry.DropGuard | src/upstream/inflight.rs:237-250 | removes the entry only if it still carries the guard's token |
| InflightRuns.StepInv | src/upstream/inflight.rs:104-250 | every step keeps tokens, entries, guards and permits consistent |
| InflightRuns.LiveIdsOwned | src/upstream/inflight.rs:104-250 | in every run each live ID belongs to exactly one live guard, and entries are at most guards, which are at most the cap |
| InflightRuns.OneResponseEach | src/upstream/inflight.rs:159-250 | each registration receives at most one packet, with its own question and its own client ID |
| InflightRuns.TakenIff | src/upstream/inflight.rs:159-199 | in every run a response takes out exactly the entry it answers, and is on its way with the client's ID and otherwise as it arrived |
| InflightRuns.AnswerArrives | src/upstream/inflight.rs:159-199 | in every run an answer to a registered question is, after its hand-over, the one packet that registration has received |
| InflightRuns.GivesUpIff | src/upstream/inflight.rs:104-153 | in every run a registration gives up if and only if the 65535th ID it tries is taken too |
| InflightRuns.EntryLeaves | src/upstream/inflight.rs:159-250 | an entry disappears only by its own guard, by a clear of its shard, or by a matching response that is then delivered to it |
| InflightRuns.EntryStays | src/upstream/inflight.rs:237-250 | a late guard never removes the entry of a reused ID |
| InflightRuns.QuestionKept | src/upstream/inflight.rs:159-199 | restoring the client's ID leaves the question alone |
| Singleflight.InflightTable.Register | src/singleflight.rs:61-80 | the first caller of a key leads, the others queue in order |
| Singleflight.InflightTable.TakeWaiters | src/singleflight.rs:84-91 | removes the key and hands over its waiters |
| Singleflight.InflightTable.Publish | src/singleflight.rs:94-114 | each waiter of the key gets the outcome, others nothing |
| Singleflight.SentOnce | src/singleflight.rs:94-114 | distinct waiters get one outcome each, appended to what they had |
| Singleflight.SpreadInjective | src/resolver.rs:611-612 | the generation can be recovered from its spread value because the multiplier is invertible modulo 2^64 |
| Singleflight.FlightKeySeparates | src/resolver.rs:611-612 | one cache key under two generations never gives the same flight key |
| SingleflightRuns.StepInv | src/resolver.rs:826-871 | every step keeps table, leaders and followers consistent |
| SingleflightRuns.OneActiveLeader | src/resolver.rs:121-135 | in every run a key is in the table if and only if it has an unpublished live leader, and it has at most one |
| SingleflightRuns.OneOutcomeEach | src/resolver.rs:709-713 | each follower gets at most one outcome, that of its leader, and has it once the leader is done |
| SingleflightRuns.DecidedOnce | src/resolver.rs:709-713 | in every run a leader's outcome is what it published, or closed if it was dropped before, and never changes |
| SingleflightRuns.CanPublish | src/resolver.rs:709-713 | in every run a leader in flight can publish any outcome but closed |
| SingleflightRuns.GenerationsApart | src/resolver.rs:611-612 | followers of one cache key never wait for a leader of another generation |
| SingleflightRuns.ArrivalsNeverBlock | src/singleflight.rs:61-80 | a new query can always be registered, whatever leaders did before |
| Reload.GenerationsIncrease | src/server.rs:767-844 | each store raises the generation by one and nothing else changes it |
| Reload.StaleMeansRace | src/resolver.rs:738-817 | an older entry that survives a clear was checked before the store and inserted after the clear |
| Reload.SettledStays | src/resolver.rs:738-817 | once no entry and no query is old, none becomes old before the next store |
| Reload.ClearIsEnoughIff | src/server.rs:828-844 | after a clear no stale entry can appear if and only if no old query is between its check and its insertion |
| Reload.StaleEntryWitness | src/resolver.rs:738-817 | a run that ends with a stale entry in the cache |
| Domain.HitsInsert | src/domain.rs:41-49 | inserting a pattern adds exactly the names it matches |
| Domain.UnderExact | src/domain.rs:61-81 | a name is under another if and only if it is it or ends with a dot and it |
| Domain.WildcardExact | src/domain.rs:101-119 | a wildcard matches if and only if dots divide the name into as many labels, each equal to its part or, for `*`, not empty |
| Domain.TailsAreNames | src/domain.rs:61-81 | the positions the suffix walk stops at are the names above the query name |
| Domain.LookupSpecific | src/domain.rs:61-81 | the dot walk finds a hit if and only if the name is listed or lies under a listed suffix |
| Domain.LookupFuzzy | src/domain.rs:84-91 | a hit if and only if some wildcard matches label by label |
| RouteIndex.Intern | src/route_index.rs:184-192 | a tag keeps one 16-bit number and earlier numbers stay |
| RouteIndex.Build | src/route_index.rs:180-258 | conditional rules, first catch-all and constant target are those of the rule list, and tags are numbered in order of first occurrence |
| RouteIndex.AliasItselfIff | src/route_index.rs:184-192 | a tag is looked up as itself if and only if it is among the first 65536 |
| RouteIndex.CompiledDecodes | src/route_index.rs:180-258 | a built index evaluates the rules with every tag replaced by the one its 16-bit number leads to |
| RouteIndex.RoutesAsWrittenIff | src/route_index.rs:180-258 | for every rule list: these are the rules as written if and only if all their tags are among the first 65536 |
| RouteIndex.ScanSeen | src/route_index.rs:285-315 | following the replaced tags is following the rules as written on the ruleset seen through the 16-bit numbers |
| RouteIndex.LateUnseen | src/route_index.rs:285-315 | no route depends on what a tag past the first 65536 contains |
| RouteIndex.RoutedAsWrittenIff | src/route_index.rs:285-315 | for every rule list and name: it is routed as the rules are written, whatever the ruleset holds, if and only if their scan for it does not depend on what tags past the first 65536 contain |
| RouteIndex.MisroutedWitness | src/route_index.rs:285-315 | 65537 rules with a tag each and a ruleset in which the scan finds the last rule and the router none |
| RouteIndex.TagMemo.Check | src/route_index.rs:68-91 | the two bitsets never change an answer |
| RouteIndex.TagGroupMatches | src/route_index.rs:367-394 | a group of numbers decides like the tags they lead to |
| RouteIndex.RuleSplits | src/route_index.rs:180-258 | splitting a rule into domain patterns and tag groups keeps its meaning |
| RouteIndex.MatchEntryMatches | src/route_index.rs:347-365 | an entry matches exactly when the rule it evaluates does |
| RouteIndex.RouteIndexUncached | src/route_index.rs:317-341 | the merged stream finds the first rule a top-to-bottom scan of the evaluated rules finds |
| RouteIndex.FallThrough | src/route_index.rs:317-341 | when all conditional rules before it miss, the first catch-all is the scan's answer |
| RouteIndex.ConstantIsScan | src/route_index.rs:281-283 | a constant target is what every scan returns |
| RouteIndex.ScanWithoutTags | src/route_index.rs:285-315 | rules without tags route the same with and without a ruleset, so their cached routes never go stale |
| RouteIndex.Router.Route | src/route_index.rs:285-315 | for every rule list and over any sequence of calls and evictions the result is that of a scan of the evaluated rules, which are the written ones up to 65536 tags |
| IpRange.IpRangeSetBuilder.PushRange | src/iprange.rs:47-51 | proper ranges are kept, reversed ones ignored |
| IpRange.IpRangeSetBuilder.Build | src/iprange.rs:61-76 | the built list covers the same addresses and has a real gap between neighbours |
| IpRange.Merge | src/iprange.rs:61-76 | the one-pass merge of sorted ranges covers the same addresses, with gaps |
| IpRange.ContainsExact | src/iprange.rs:23-27 | the binary search finds an address if and only if some range covers it |
| IpRange.BuildUnique | src/iprange.rs:61-76 | lists that cover the same addresses are identical |
| IpRange.CidrBounds | src/iprange.rs:91-120 | masking gives the aligned block of the prefix, and too long a prefix is an error |
| IpRange.CidrMeaning | src/iprange.rs:91-120 | an address is in the range if and only if it shares the prefix |
| IpRange.CidrV4 | src/iprange.rs:91-120 | a line with an IPv4 address denotes the IPv4-mapped addresses that share its leading bits, and no others |
| IpRange.CidrV6 | src/iprange.rs:91-120 | one with an IPv6 address the addresses that share its leading bits |
| IpRange.CidrPrefix | src/iprange.rs:91-120 | no prefix stands for the address alone, and one longer than 32 or 128 bits for an error |
| History.Segment.AppendBatch | src/querylog/worker.rs:476-504 | file and index stay exact: the index tiles all events written so far |
| History.AppendCovers | src/querylog/worker.rs:80-113 | merged or not, every block describes exactly the events it claims, at their byte offsets |
| History.AppendMerges | src/querylog/worker.rs:80-113 | a batch starts a new block if and only if there is none or the last one would grow beyond 512 events |
| History.FilterExact | src/querylog/worker.rs:973-1000 | an event passes if and only if it is within the times, has the code, type, source and, as a part, the names asked for |
| History.LoadIndex | src/querylog/worker.rs:664-692 | accepts an index if and only if its blocks are not empty and follow each other, in bytes and in events, from the start of the file to its end |
| History.CoversContiguous | src/querylog/worker.rs:664-692 | an exact index is accepted |
| History.ReadIndexedHistoryPage | src/querylog/worker.rs:821-900 | the nested loops take the first matching events from the cursor on, block by block |
| History.LimitExact | src/querylog/worker.rs:826 | a page has room for as many events as asked for, but for 1 to 200 |
| History.IndexedIsScan | src/querylog/worker.rs:821-900 | without time bounds, or when the recorded block times bound the events as the query relies on, a page is the page of a scan over all events |
| History.PagingExact | src/querylog/worker.rs:828-863 | all queries page like the scan if and only if no event is later than its block's end or earlier than the start of its own or an earlier block |
| History.LateEventMissed | src/querylog/worker.rs:855-860 | every event later than its block's end is missed by a query for it |
| History.EarlyEventMissed | src/querylog/worker.rs:861-863 | every event earlier than the start of its own or an earlier block is missed by a query for it |
| History.OrderedBounded | src/querylog/worker.rs:80-113 | timestamps in order are bounded, however they are divided into blocks |
| History.DisorderedMisses | src/querylog/worker.rs:848-863 | two events out of order and a query that misses one of them |
| History.PageSplits | src/querylog/worker.rs:873-888 | a page is the start of the matching events and its cursor is where the rest begins |
| History.PagesComplete | src/querylog/worker.rs:821-900 | under the same condition following the cursor to the end returns every matching event exactly once, in order |
| History.PagesExist | src/querylog/worker.rs:821-900 | and the cursor always advances, so the end is reached |
| History.CompressBlocks | src/querylog/worker.rs:574-600 | each block becomes a compressed member of its own, and the index its place |
| History.CompressionInvisible | src/querylog/worker.rs:574-600 | no page changes |
| History.CompressedContiguous | src/querylog/worker.rs:574-600 | the rewritten index is accepted for the rewritten file |
| Ruleset.LoadRulesets | src/ruleset.rs:102-200 | loads the needed specs in order, reusing what it may, and validates the needed tags |
| Ruleset.FullLoad | src/ruleset.rs:102-165 | a full load holds exactly the needed tags that have a spec, each as its last spec reads |
| Ruleset.FullLoadIff | src/ruleset.rs:102-200 | a full load fails to read if and only if the file of a spec with a wanted tag is missing or does not parse, and else succeeds if and only if the last spec of every wanted tag exists and is of the wanted kind |
| Ruleset.FullLoadHolds | src/ruleset.rs:102-165 | it then holds exactly the wanted tags, each as the file of its last spec parses |
| Ruleset.UnreadableIff | src/ruleset.rs:102-165 | loading is cut short if and only if a needed file that is not reused cannot be read |
| Ruleset.IncrementalIsFull | src/ruleset.rs:119-128 | reading only the changed files gives the same database, or the same error, as reading all, when what is reused is up to date |
| RulesetRuns.CollectChangedPaths | src/server.rs:1074-1098 | collects the watched files of a batch, all of them after an overflow, and tells whether there were any |
| RulesetRuns.StepInv | src/server.rs:957-1063 | every write and removal of a file, event batch and reload step keeps what is in use explained: current, or its file changed or gone |
| RulesetRuns.InUseIsFresh | src/server.rs:767-827 | in every run a ruleset in use without a queued or collected change of its file is what a fresh parse gives if and only if the file is still there |
| RulesetRuns.ReloadIsFullIff | src/server.rs:809-813 | with no event queued an incremental reload gives what a full one would, the same error included, if and only if every reused file is still there or some file that has to be read cannot be |
| RulesetRuns.RemovedWitness | src/server.rs:957-968 | one file is removed and another written: the reload succeeds with the removed ruleset, and a full load would fail |
| Bootstrap.ValidateRefs | src/config/parse.rs:280-312 | accepts exactly the lists whose references name other, real servers, and explains what it rejects |
| Bootstrap.ParseServers | src/config/parse.rs:280-377 | ends with every server resolved in input order after those it depends on, or with a true explanation: a reported cycle exists among the names reported, and these are exactly the servers from which a cycle can be reached; if all entries parse it succeeds if and only if the references are acyclic |
| Bootstrap.NoProgressIsKnot | src/config/parse.rs:340-377 | a pass without progress leaves servers that all wait for each other |
| Bootstrap.KnotHasCycle | src/config/parse.rs:340-377 | and such servers contain a real cycle among themselves |
| Bootstrap.StuckExact | src/config/parse.rs:340-377 | a server is left by a pass without progress if and only if a cycle can be reached from it |
| Bootstrap.RankedAcyclic | src/config/parse.rs:312-377 | an order in which everything could be resolved excludes cycles |
| Bootstrap.RankedReachesNone | src/config/parse.rs:312-377 | and from a server that was resolved no cycle can be reached |

## Left out

- Sockets, transports, listeners, timeouts, hedging and latency statistics: input and output only.
- The choice of upstream IDs (`mix16` and its seed): the IDs tried are arbitrary.
- Counters that wrap after 2^64 steps (tokens, generations): runs are shorter than that.
- The rest of the resolver, such as race selection, filters and fallbacks: would only add finite case distinctions.
- Parsing of rule, pattern and configuration text; patterns arrive classified, and a wildcard has its label-wise meaning instead of a compiled regular expression.
- zstd, gzip and MessagePack: parameters that are assumed to invert, which can be met (`HistoryCodec.SimpleWorks`).
- `DomainSet::read_from`: the decoder starts from the decoded arrays.
- The eviction policy of the backing store: any entry may go at any insertion, and none goes while a file is loaded.
- Reading of log segments without an index, pruning and segment names.
- `invalid_shape_key`: the fallback key of queries that were not validated.
- The startup window between the first ruleset load and the start of its watcher: a session starts with an up-to-date database.
- LookupKeyed: is defined for stores on which no lookup slices past the end of a stored query (`SafeIff`), which insertions keep; after a file for which `LoadedStoreOkIff` fails, the source aborts on such a slice.
- HitOrigin: variants are compared through the hash of their other option codes, as the source does, so codes with equal hashes count as equal.
- SaveThenLoad: for entries within the sizes of DNS messages and with the variant of their own query, which is what insertion stores; the lifetimes of single records are not adjusted when an entry is re-anchored.
