# OpenFiat core in Dafny

A Dafny model of the parts of the OpenFiat node whose correctness spans many
calls: content identifiers and their codecs, the walks that fetch, keep, sweep
and assemble chunked files, retention and content challenges, blockhash
announcements flooding the gossip network, the advertisement registry and its
paged order book, single-use challenges, and signed attachments.

`dafny verify dfyconfig.toml` checks the whole project. No proof relies on
automatic induction: adding `--manual-lemma-induction` changes nothing.

## How it is laid out

| module | what it holds |
|---|---|
| `Wrappers`, `MachineInt`, `Sorting` | options and results, machine words over unbounded naturals, library sorts |
| `Base32`, `Varints`, `Cids` | base32 and varint codecs, the identifier and its accessors |
| `DagPb`, `Wire` | the dag-pb block reader, and the wire encoding and links it is proved against |
| `Graph` | breadth-first walks with a visit budget, over any graph |
| `Fetching`, `Assembly`, `Held`, `WalksAgree` | fetching a DAG, assembling a file, the blocks a node keeps, and how the three walks relate |
| `Attachments`, `Retention`, `Custody` | evidence records, the retention setting, content challenges and the node that answers them |
| `Blockhash`, `Flood`, `Coverage` | one node's blockhash cache, a network of them, and how far an announcement spreads |
| `Records`, `Query`, `Registry` | advertisements, the paged order book, the replicated registry |
| `Ledger` | single-use challenges |

Code that works by updating state is a class or a method with loops, proved
against a specification function or predicate; the laws are lemmas about that
specification and hold for every input, every run or every reachable state.

SHA-256 is a parameter `sha` of every statement that needs it, and is never
assumed free of collisions: where a law would fail for colliding blocks, it
names the two blocks of the run that would have to collide. Signature checking
and the derivation of a peer id from a key are parameters in the same way. The
clock and random nonces are parameters.

## Where the code and its documentation differ

The model follows the code. Each of these has a lemma at an input that shows
it, and one that says exactly when the documented behaviour holds.

- Equal content does not always mean an equal identifier: the varint reader
  takes overlong encodings, so a digest has more than one raw spelling
  (`Cids.OverlongHeaderIsASecondSpelling`). Beside a minimal identifier, another
  with its codec and digest is equal exactly when it is minimal too
  (`Cids.EqualIffMinimal`).
- An empty list of missing blocks does not always mean that the whole DAG is
  here: a held block whose links cannot be read, or a DAG past the visit cap,
  looks complete (`WalksAgree.UnreadableLinksLookComplete`,
  `WalksAgree.CapHidesAHole`). It is a proof exactly when the walk was not cut
  short and could read what it met (`Held.NothingMissingProvesWholeIff`).
- A sweep can drop blocks of a root it was told to keep
  (`WalksAgree.CapHidesAHole`): it leaves a whole DAG alone exactly when that is
  within the visit cap (`Held.EvictionKeepsAllIff`).
- A DAG that was fetched whole cannot always be kept whole: fetching has no
  limit on one block, keeping has one (`WalksAgree.OversizedBlockIsFetchedNotKept`,
  exactly when: `WalksAgree.FetchedIsWholeIffItFits`).
- The current blockhash is not always the highest unexpired one: an expired
  high slot hides a fresh lower one (`Blockhash.StaleHighSlotHidesFreshOne`,
  exactly when: `Blockhash.CurrentMeetsPromiseIff`).
- A deleted advertisement can come back: a reservation that drains it reports
  it disabled (`Registry.DeletedComesBack`, exactly when:
  `Registry.DeletedUntilDrained`).
- An advertisement with no liquidity can be active
  (`Registry.EmptyCreationIsOnOffer`): exactly when it was itself created so
  (`Registry.ActiveMeansLiquidIff`).
- A search by amount can return an advertisement the amount cannot be reserved
  on (`Registry.OtherDecimalsAreFoundNotReserved`): exactly when its liquidity is
  written in other decimals than its bounds
  (`Registry.MatchedAmountIsReservableIff`).
- Issuing a challenge can invalidate someone else's
  (`Ledger.FloodedLedgerDropsAnother`): exactly when the ledger is full of
  unexpired ones (`Ledger.IssueLeavesOthersIff`). A subject who signs promptly is
  affected exactly when theirs was the soonest to expire at such a moment
  (`Ledger.PromptAnswerIff`).
- Evidence can depend on arrival order (`Attachments.TwoReceiptsUnderOneId`):
  exactly when two acceptable publications use one id for different records
  (`Attachments.OrderIsIrrelevantIff`).

## Model

| member | source | states |
|---|---|---|
| Base32.DecodeLower | crates/crypto/src/cid.rs:257-287 | the decoding loop returns the one byte sequence its input spells, or none: bits regrouped by fives, at most four zero bits of padding |
| Base32.EncodeLower | crates/crypto/src/cid.rs:291-310 | the encoding loop returns the one spelling of its input |
| Base32.AlphabetLists | crates/crypto/src/cid.rs:292 | the digits are the alphabet, in its order |
| Base32.DecodeIffSpells | crates/crypto/src/cid.rs:257-287 | decoding gives exactly the bytes a string spells |
| Base32.EncodeIffSpells | crates/crypto/src/cid.rs:291-310 | encoding gives exactly the string that spells the bytes |
| Base32.DecodeOfEncode | crates/crypto/src/cid.rs:257-310 | every byte sequence survives encoding and decoding |
| Base32.EncodeOfDecode | crates/crypto/src/cid.rs:257-310 | every accepted string is the one canonical spelling of what it decodes to |
| Varints.Read | crates/crypto/src/cid.rs:314-325 | the varint loop, in a 64-bit word and with a limit on bytes, reads the seven-bit groups of the number and leaves the rest |
| Varints.ReadVarintStable | crates/crypto/src/cid.rs:314-325 | a varint reader looks no further than the bytes it consumes |
| Varints.ReadVarintIff | crates/crypto/src/cid.rs:314-325 | exactly the varints of at most the limit are read, as seven bits a byte, least significant first |
| Varints.ReadWritten | crates/crypto/src/cid.rs:314-325 | the shortest varint of any number is read back, whatever follows |
| Cids.Parse | crates/crypto/src/cid.rs:86-118 | exactly the texts with the multibase letter, canonical base32 and an accepted header and digest length become identifiers, and keep their text |
| Cids.Binary | crates/crypto/src/cid.rs:165-168 | the binary form is the decoded text |
| Cids.ParseBinary | crates/crypto/src/cid.rs:211-216 | binary input is spelled out and passes the same checks as text |
| Cids.Verifiable | crates/crypto/src/cid.rs:139-144 | true exactly for the raw codec |
| Cids.Digest256 | crates/crypto/src/cid.rs:147-157 | the bytes after the header |
| Cids.MatchesContent | crates/crypto/src/cid.rs:232-234 | true exactly when the content hashes to the digest |
| Cids.CidBinary | crates/crypto/src/cid.rs:86-118 | every accepted identifier has one of the two codecs, a 32-byte digest, and a prefix that is its whole header |
| Cids.TextIsUrlSafe | crates/crypto/src/cid.rs:86-118 | every character of an accepted identifier is a base32 digit |
| Cids.FromBinaryAccepts | crates/crypto/src/cid.rs:211-216 | exactly the binary identifiers are accepted, and their text decodes back to them |
| Cids.BinaryRoundTrip | crates/crypto/src/cid.rs:165-216 | text to binary and back is the identity on every identifier |
| Cids.ToBinaryInjective | crates/crypto/src/cid.rs:165-168 | different identifiers have different binary forms |
| Cids.BinaryIsPrefixThenDigest | crates/crypto/src/cid.rs:196-200 | the binary form is the prefix followed by the digest |
| Cids.Rehash | crates/crypto/src/cid.rs:196-216 | a prefix followed by any digest is an identifier with that prefix, codec and digest |
| Cids.Readdress | crates/crypto/src/cid.rs:189-216 | rebuilding an identifier from its prefix and a block gives the same identifier exactly when it names the block |
| Cids.EqualIffSameHeader | crates/crypto/src/cid.rs:22-30 | with the same codec and digest, identifiers are equal exactly when their header bytes are |
| Cids.MinimalCidsAreCanonical | crates/crypto/src/cid.rs:22-30 | among minimal headers, an identifier is its codec and its digest |
| Cids.EqualIffMinimal | crates/crypto/src/cid.rs:22-30 | beside a minimal identifier, another of the same codec and digest is equal exactly when it is minimal |
| Cids.OverlongHeaderIsASecondSpelling | crates/crypto/src/cid.rs:22-30 | for every digest, two different accepted raw identifiers |
| Cids.OneMultihashForBothCodecs | crates/crypto/src/cid.rs:180-187 | the multihash does not depend on the codec, and either codec in front of it gives an identifier with the same digest |
| DagPb.Reader.Varint | crates/content/src/dag.rs:295-306 | reads one varint of at most ten bytes, modulo 2^64 |
| DagPb.Reader.Tag | crates/content/src/dag.rs:287-293 | a clean end, a malformed tag, or a field number and wire type |
| DagPb.Reader.LengthDelimited | crates/content/src/dag.rs:308-316 | the bytes a length announces, or a failure when there are fewer |
| DagPb.Reader.Skip | crates/content/src/dag.rs:318-328 | skips exactly one field body of each wire type, and fails on the others |
| DagPb.Reader.Take | crates/content/src/dag.rs:330-337 | drops bytes exactly when there are enough |
| DagPb.ReadLinkHash | crates/content/src/dag.rs:115-125 | the last hash field of a link, if every one of them is an identifier |
| DagPb.ReadLinks | crates/content/src/dag.rs:95-112 | the links of a block in order, or none if the block is malformed, a link has no hash, or there are too many |
| DagPb.LinksOfNode | crates/content/src/dag.rs:95-125 | a printed node reads back as exactly its children in order, if and only if there are at most 1024 |
| DagPb.LinkBytesRead | crates/content/src/dag.rs:353-368 | a printed link reads back as its identifier |
| DagPb.LinksAreCids | crates/content/src/dag.rs:95-125 | whatever the bytes, what is read off them are accepted identifiers, at most 1024 |
| Wire.FieldsIff | crates/content/src/dag.rs:275-337 | a block is split into fields exactly when it encodes them: tag, then a varint, eight bytes, four bytes or a length and as many bytes |
| Wire.FieldsOfPrint | crates/content/src/dag.rs:275-337 | fields of all four wire types, with tags and lengths of any size, are read back as printed |
| Wire.LinkHashIff | crates/content/src/dag.rs:115-125 | a link is to an identifier exactly when its bytes encode fields whose hashes all parse, the last of them to it |
| Wire.LinksIff | crates/content/src/dag.rs:95-112 | a node links to a list exactly when its bytes encode fields whose link fields, in order, are links to it, at most 1024 |
| Wire.LinksOfPrinted | crates/content/src/dag.rs:77-112 | nodes written with any names, sizes and data read back as their links in order, exactly up to 1024 |
| Graph.CoversIffWithinBudget | crates/content/src/dag.rs:150-202 | a breadth-first walk with a budget runs dry exactly when everything reachable fits the budget |
| Graph.NearestFirst | crates/content/src/dag.rs:150-202 | the walk visits by distance: no vertex before one that a shorter path reaches |
| Fetching.Fetch | crates/content/src/dag.rs:150-202 | success returns exactly the reachable identifiers, each once, root first, in breadth-first order, every block the one named, within both caps; failure names a block or cap at fault and no set of blocks would have succeeded |
| Fetching.GetBlock | crates/content/src/dag.rs:150-202 | an answer is used only if it hashes to the identifier asked for |
| Fetching.FollowedLinks | crates/content/src/dag.rs:73-75 | links are followed for dag-pb identifiers only |
| Fetching.BlameExcludesSuccess | crates/content/src/dag.rs:150-202 | a reported failure is incompatible with any successful outcome |
| Fetching.WholeDagFits | crates/content/src/dag.rs:47-56 | what a fetch returns is at most 512 blocks and ten mebibytes in all |
| Assembly.AssembleFile | crates/content/src/dag.rs:227-270 | the stack loop computes the left-to-right unfolding of the root, with both caps and every failure |
| Assembly.AssembleIffTree | crates/content/src/dag.rs:227-270 | the loop returns a file exactly when the blocks under the root, each present and the one named, form a tree within the caps whose forks are dag-pb blocks with links and whose leaves are raw blocks that concatenate, byte for byte and left to right, to the file |
| Assembly.AssembleFailsIff | crates/content/src/dag.rs:227-270 | it fails with an error exactly when that is where a left-to-right walk over the blocks first gets stuck: not held, not the one named, unreadable, without links, or past a cap |
| Assembly.FileDependsOnRootAlone | crates/content/src/dag.rs:204-270 | two suppliers of blocks give the same file for a root, or gave different blocks with one hash under one of its identifiers |
| Assembly.AssembleLocal | crates/content/src/dag.rs:227-270 | success or failure depends only on the blocks reachable from the root |
| Assembly.NeverAbsent | crates/content/src/dag.rs:227-270 | with every reachable block present, assembling never fails for an absent one |
| Assembly.FileIsBounded | crates/content/src/dag.rs:227-270 | everything reachable from a root that assembles is present and within the visit cap |
| Held.HeldContent.KeepBlock | crates/content/src/held.rs:67-79 | a block is stored exactly when it is small enough and the one named; nothing else changes |
| Held.HeldContent.Get | crates/content/src/held.rs:82-87 | what is returned is what is stored, and it hashes to its identifier |
| Held.HeldContent.Walk | crates/content/src/held.rs:136-163 | visits the breadth-first walk over held links, up to the cap |
| Held.HeldContent.MissingBlocks | crates/content/src/held.rs:110-118 | the visited identifiers not held, in order |
| Held.MissingFollowsTheWalk | crates/content/src/held.rs:110-118 | what is missing is the walk without what is held, in the order of the walk |
| Held.HeldContent.ReachableFrom | crates/content/src/held.rs:121-129 | the held identifiers some kept root's walk visits |
| Held.HeldContent.EvictOutside | crates/content/src/held.rs:179-199 | leaves exactly what some kept root's walk visits, and counts what it drops |
| Held.EvictionKeepsWalk | crates/content/src/held.rs:165-199 | a sweep changes neither the walk of a kept root nor any block on it |
| Held.EvictionKeepsMissing | crates/content/src/held.rs:165-199 | what a kept root still lacks is unchanged by a sweep |
| Held.EvictionIsIdempotent | crates/content/src/held.rs:179-199 | a second sweep with the same roots drops nothing |
| Held.EvictionLeavesTheReachable | crates/content/src/held.rs:165-199 | what a sweep leaves was held and is reachable from a kept root, and within the cap it leaves all of that |
| Held.EvictionKeepsAllIff | crates/content/src/held.rs:165-199 | a sweep that keeps a root leaves its whole DAG alone exactly when the DAG is within the visit cap |
| Held.EvictionKeepsFiles | crates/content/src/held.rs:165-199 | a file that assembled still assembles, to the same bytes, after a sweep that keeps its root |
| Held.WalkIsCompleteIffWithinCap | crates/content/src/held.rs:136-163 | the walk sees everything reachable exactly when that is within the visit cap |
| Held.NothingMissingMeansWhole | crates/content/src/held.rs:98-118 | within the cap, everything reachable is held exactly when nothing is missing, and the DAG is whole exactly when also every block met can be read |
| Held.HoleOffTheWalk | crates/content/src/held.rs:131-163 | past the cap, in every store, a reachable block is off the walk, and losing it changes neither the walk nor what is missing |
| Held.NothingMissingProvesWholeIff | crates/content/src/held.rs:98-118 | an empty list of missing blocks entails the whole DAG, in every store that looks the same along the walk, exactly when the walk was within the cap and could read what it met |
| Held.UnreadableCannotAssemble | crates/content/src/dag.rs:227-270 | a root over a block whose links cannot be read never assembles |
| WalksAgree.FetchedThenKeptIsWhole | crates/content/src/held.rs:98-118 | what a fetch returned, once kept block by block, lacks nothing, whatever else the store holds |
| WalksAgree.FetchedIsWholeIffItFits | crates/content/src/held.rs:67-79 | it is whole from an empty store exactly when no block is larger than a chunk |
| WalksAgree.FetchedThenKeptAssembles | crates/content/src/dag.rs:150-270 | it assembles as from the fetched blocks alone, and never for want of a block |
| WalksAgree.SameOrderAsFetch | crates/content/src/held.rs:131-163 | the held walk visits the fetched blocks in the order they were fetched |
| WalksAgree.UnreadableLinksLookComplete | crates/content/src/held.rs:98-118 | for every hash, a store with nothing missing whose root cannot be assembled |
| WalksAgree.CapHidesAHole | crates/content/src/held.rs:131-199 | for any hash and any 512 blocks it tells apart, a whole DAG with a block that a sweep keeping its root drops, and that can be lost without being missed |
| WalksAgree.OversizedBlockIsFetchedNotKept | crates/content/src/held.rs:67-79 | for any hash, a fetch that succeeds on a block one byte over a chunk, which is then missing |
| Retention.ParseMeans | crates/content/src/retention.rs:89-103 | for every string: archival exactly when it spells that word in any case, a number of days exactly when it is digits, with or without a plus sign, worth 30 or more and fitting the word, too short exactly when worth less, and not a number otherwise |
| Retention.WithinMeans | crates/content/src/retention.rs:135-138 | content is inside a window exactly until its days have passed since it was created |
| Retention.ParseDigitsIff | crates/content/src/retention.rs:93-95 | reading digits with an overflow check at each gives the value of the numeral exactly when it fits the word |
| Retention.DaysRoundTrip | crates/content/src/retention.rs:89-103 | every number of days from the floor up, written out, reads back as itself |
| Retention.KeepsCoversChallengesIff | crates/content/src/retention.rs:107-124 | a policy keeps everything that can be challenged exactly when it is no shorter than the floor |
| Retention.ChallengedWasAlwaysKept | crates/content/src/retention.rs:107-138 | what can be challenged now was inside the window at every earlier moment |
| Retention.AcceptedSettingsCoverChallenges | crates/content/src/retention.rs:82-124 | no setting the parser accepts can be caught short |
| Custody.Challengeable | crates/content/src/challenge.rs:50-64 | the pool is sorted, without repeats, and holds exactly the verifiable identifiers inside the floor |
| Custody.PoolIsDetermined | crates/content/src/challenge.rs:44-64 | nodes that know the same records draw from the same list |
| Custody.Select | crates/content/src/challenge.rs:72-77 | nothing exactly when the pool is empty, otherwise an entry of it |
| Custody.EverySeedCounts | crates/content/src/challenge.rs:66-77 | every entry is drawn by one of any pool-length run of seeds |
| Custody.Judge | crates/content/src/challenge.rs:112-120 | undecidable exactly for identifiers that cannot be checked, served exactly for matching bytes |
| Custody.AnswersAgree | crates/content/src/challenge.rs:79-91 | two accepted answers are the same bytes or are themselves a collision |
| Custody.ContentWanted | crates/rpc/src/actor.rs:1179-1224 | the loop collects the roots of the kept records, then those kept for other reasons |
| Custody.RootsAreKeptRecords | crates/rpc/src/actor.rs:1179-1224 | the roots drawn from records are exactly those of the records inside the window |
| Custody.HonestNodeIsNeverCaughtOut | crates/content/src/retention.rs:18-31 | over any run of arrivals and sweeps, a node that held what one challengeable record names, and knew that record, answers every challenge drawn for it, whatever other records name it |
| Custody.KeptContentStays | crates/rpc/src/actor.rs:1226-1246 | over any run, content of a record inside the window is still held and still authentic |
| Custody.KeptFileStaysReadable | crates/rpc/src/actor.rs:1226-1246 | over any run, a whole file of such a record still assembles to the same bytes, unless a colliding block replaced one of the store |
| Blockhash.BlockhashCache.Observe | crates/chain/src/blockhash.rs:74-96 | answers whether the pair is new among those unexpired, and records it |
| Blockhash.BlockhashCache.PruneExpired | crates/chain/src/blockhash.rs:117-121 | drops exactly the pairs older than the validity |
| Blockhash.BlockhashCache.Current | crates/chain/src/blockhash.rs:100-105 | the remembered best pair, unless it has expired |
| Blockhash.BlockhashCache.CurrentAge | crates/chain/src/blockhash.rs:110-115 | its age, present exactly when it is and below the validity |
| Blockhash.ReplayRemembers | crates/chain/src/blockhash.rs:74-96 | the pruned cache remembers exactly the last sightings that have not expired |
| Blockhash.FirstIffUnseenOrExpired | crates/chain/src/blockhash.rs:74-96 | over any history, a pair is new exactly when it was never seen or last seen at least the validity ago |
| Blockhash.CurrentIsFirstOfHighest | crates/chain/src/blockhash.rs:74-105 | over any history, the remembered pair is the first sighting of the highest slot |
| Blockhash.CurrentMeetsPromiseIff | crates/chain/src/blockhash.rs:10-14 | it is the highest unexpired pair exactly when that first sighting is unexpired or everything has expired |
| Blockhash.StaleHighSlotHidesFreshOne | crates/chain/src/blockhash.rs:10-14 | for every validity, a history whose fresh pair is hidden |
| Flood.ChainBridge.ForwardFilter | crates/chain/src/gossip_service.rs:99-111 | suppresses exactly the announcements whose content was seen; passes everything else without touching the cache |
| Flood.ChainBridge.AnnounceBlockhash | crates/chain/src/gossip_service.rs:134-147 | the announcer's own cache records the sighting |
| Flood.MessagesReachPeers | crates/gossip/src/service.rs:676-687 | a broadcast reaches exactly the connected peers but the excluded one |
| Flood.AnnouncementGoesToPeers | crates/gossip/src/service.rs:403-449 | an announcement goes to exactly the announcer's peers with its full budget, if it is accepted, and to nobody otherwise |
| Flood.AnnouncerSees | crates/chain/src/gossip_service.rs:134-147 | the announcer's cache has the pair at once, accepted or not |
| Flood.LogAfter | crates/gossip/src/service.rs:403-501 | a node's log holds exactly what it announced with acceptance or received, until it is pruned |
| Flood.DuplicateIsIgnored | crates/gossip/src/service.rs:459-466 | an event already in the log is dropped: nothing is sent, seen or stored |
| Flood.ForwardSpendsAHop | crates/gossip/src/service.rs:665-674 | a forward carries the event to exactly the peers it did not come from, with the clamped time to live less one, and nothing once it is spent |
| Flood.HopsAreBounded | crates/gossip/src/service.rs:488-494 | in every run, whatever budget strangers claim, a message on the wire is one they injected or has between one hop and fewer than the ceiling left |
| Flood.AnnouncedHops | crates/gossip/src/service.rs:400-449 | with nothing injected, no message has more hops left than its announcer's eight |
| Flood.CacheIsReplay | crates/chain/src/gossip_service.rs:57-111 | in every run of the network each cache is the replay of its node's own sightings |
| Flood.ForwardsAreFarApart | crates/gossip/src/service.rs:459-501 | in every run, a node forwards a pair no sooner than the validity after it last announced, received or forwarded it |
| Flood.ForwardsOnce | crates/chain/src/gossip_service.rs:95-111 | inside one window each node forwards each pair at most once, whatever events carry it |
| Flood.BroadcastsAreBounded | crates/chain/src/gossip_service.rs:95-111 | inside one window a pair is broadcast at most once a node, plus once an announcement |
| Flood.RunStaysWithin | crates/gossip/src/service.rs:667-687 | while connections come and go, messages go only to nodes of the network and carry only pairs that were announced or injected |
| Flood.MessagesAreConserved | crates/gossip/src/service.rs:667-687 | messages ever taken off the wire or still on it are paid for by injections, announcements and forwards |
| Flood.FloodTerminates | crates/gossip/src/service.rs:403-501 | inside one window the number of deliveries is bounded, whatever the order, loss, duplication and replay, and however connections change |
| Coverage.SentIsHeard | crates/gossip/src/service.rs:459-501 | in a run that loses nothing, whatever left the wire has been seen by the node it was for |
| Coverage.EveryPeerHears | crates/gossip/src/service.rs:403-449 | once the wire is dry, every peer the announcer had when it was accepted has seen the pair |
| Coverage.NewIffNotSighter | crates/chain/src/blockhash.rs:74-96 | inside one window a sighting is new to a node exactly when the node had not seen the pair in the run |
| Coverage.FloodReachesEveryone | crates/chain/src/gossip_service.rs:95-147 | in a network of at most nine nodes whose connections hold still, with nothing lost, every node connected to one that saw the pair has seen it once the wire is dry, whatever the caches suppressed |
| Records.Amount.CheckedAdd | crates/types/src/amount.rs:42-47 | a sum exists exactly when precisions agree and it fits the word, and subtracting undoes it |
| Query.Limit | crates/advertisements/src/query.rs:117-119 | a page holds what was asked for between one row and one hundred, 25 if nothing was |
| Query.IsMatch | crates/advertisements/src/query.rs:137-195 | the checks with early exits decide the filter's predicate |
| Query.UnconstrainedMatches | crates/advertisements/src/query.rs:137-195 | with no constraint everything matches, with the defaults exactly what is active, with no status nothing |
| Query.PortraitMatches | crates/advertisements/src/query.rs:137-195 | a filter made of an advertisement's own fields, one of its rails and a size it takes finds it |
| Query.PortraitIsExact | crates/advertisements/src/query.rs:137-195 | and finds nothing that differs from it in any one of those |
| Query.MergeMatchesBoth | crates/advertisements/src/query.rs:137-195 | the merge of two compatible filters matches what both match |
| Query.NarrowingOnlyRemoves | crates/advertisements/src/query.rs:43-47 | adding a constraint to a filter only ever removes rows |
| Query.PartitionPoint | crates/advertisements/src/query.rs:214-222 | binary search finds the first row past the cursor |
| Sorting.StringLeMeans | crates/advertisements/src/query.rs:212 | ids are ordered by the first character they differ in, a prefix before what it starts |
| Query.GetPage | crates/advertisements/src/query.rs:205-237 | for any book, the page is the first rows of the wanted ones in id order, and carries a cursor exactly when full |
| Query.PageIsAWindow | crates/advertisements/src/query.rs:205-237 | an id is on a page exactly when the book offers it between the page's two cursors |
| Query.NoRowIsShownTwice | crates/advertisements/src/query.rs:197-204 | through any scroll, over a book that changes in any way between pages, ids only increase |
| Query.NoRowIsSkipped | crates/advertisements/src/query.rs:214-222 | a finished scroll has shown every id that was on offer throughout |
| Query.FixedBookIsReadWhole | crates/advertisements/src/query.rs:197-237 | over an unchanging book the pages end to end are exactly the matching rows, each once, in id order |
| Query.FixedBookScrollEnds | crates/advertisements/src/query.rs:224-231 | over an unchanging book a scroll ends, after at most one page more than the rows fill |
| Registry.AdvertisementRegistry.ApplyCreate | crates/advertisements/src/store.rs:64-100 | the whole new index, and which check refuses |
| Registry.AdvertisementRegistry.ApplyStatusSet | crates/advertisements/src/store.rs:118-144 | the whole new index, and which check refuses |
| Registry.AdvertisementRegistry.ApplyTermsUpdate | crates/advertisements/src/store.rs:151-180 | the whole new index, and which check refuses |
| Registry.AdvertisementRegistry.ApplyPricingUpdate | crates/advertisements/src/store.rs:213-233 | the whole new index, and which check refuses |
| Registry.AdvertisementRegistry.ReserveLiquidity | crates/advertisements/src/store.rs:240-259 | the whole new index, draining disables, and which check refuses |
| Registry.AdvertisementRegistry.ReleaseLiquidity | crates/advertisements/src/store.rs:263-278 | the whole new index, and which check refuses |
| Registry.CheckedTerms | crates/advertisements/src/store.rs:312-333 | terms pass exactly when there is a payment method, all are the merchant's to offer, precisions agree and the floor is not above the ceiling |
| Registry.EveryRecordIsWellFormed | crates/advertisements/src/store.rs:280-333 | in every reachable index every record has a payment method, none that is another merchant's, a floor no higher than its ceiling in one precision, and a merchant its key derives to |
| Registry.CreationAnswers | crates/advertisements/src/store.rs:64-100 | exactly when a creation is accepted, and which of four errors it gets otherwise |
| Registry.EditAnswers | crates/advertisements/src/store.rs:118-233 | which of six errors a signed edit gets, in order |
| Registry.MovementAnswers | crates/advertisements/src/store.rs:240-278 | exactly when liquidity moves, and the error otherwise |
| Registry.IdentityIsPermanent | crates/advertisements/src/store.rs:146-180 | over any continuation of any run no advertisement disappears or changes id, merchant, key, asset, direction, currency, creation time or liquidity precision |
| Registry.EveryPartIsSigned | crates/advertisements/src/store.rs:64-211 | in every reachable index the identity, price, terms, status and update time of a record are those of the last accepted operation that writes them, field by field, signed under the record's key unless it is a movement of liquidity |
| Registry.CreatedOnce | crates/advertisements/src/store.rs:70-72 | no id is created twice, so the identity is that of the one accepted creation |
| Registry.AuthorizedIff | crates/advertisements/src/store.rs:192-211 | a signed edit passes exactly for the record's own merchant while the record is not deleted |
| Registry.RefusalHidesTheRecord | crates/advertisements/src/store.rs:182-211 | without a valid signature any two records give the same answer, whatever their merchants, states and keys, and neither changes |
| Registry.LiquidityIsConserved | crates/advertisements/src/store.rs:235-278 | over any run, liquidity is what was created, less what was reserved, plus what was released |
| Registry.ReleaseUndoesReserve | crates/advertisements/src/store.rs:261-278 | releasing what was reserved restores the record exactly when the reservation did not drain it or it was disabled already |
| Registry.MatchedAmountIsReservableIff | crates/advertisements/src/query.rs:178-193 | a matched amount can be reserved exactly when the liquidity is written in the precision of the bounds |
| Registry.OtherDecimalsAreFoundNotReserved | crates/advertisements/src/store.rs:64-100 | a creation with liquidity in other decimals is accepted, found by amount and refused at reservation |
| Registry.ActiveMeansLiquidIff | crates/advertisements/src/store.rs:102-117 | no state of a run shows an advertisement active and empty exactly when the run accepts no empty creation of that advertisement |
| Registry.EmptyActiveWasCreatedEmpty | crates/advertisements/src/store.rs:102-144 | an advertisement active and empty in a reachable index is traced to an accepted empty creation of itself |
| Registry.EmptyCreationIsOnOffer | crates/advertisements/src/store.rs:64-100 | a creation with no liquidity is accepted and active at once |
| Registry.DeletedUntilDrained | crates/advertisements/src/store.rs:112-115 | a deleted advertisement stays deleted through a continuation exactly when no reservation in it takes all that is left |
| Registry.DeletedComesBack | crates/advertisements/src/store.rs:240-259 | from any index with a deleted advertisement, three accepted operations make it active again |
| Ledger.ChallengeLedger.Issue | crates/crypto/src/challenge.rs:128-147 | prunes, then records the new challenge with a saturated expiry; a lifetime whose milliseconds overflow the word aborts after pruning |
| Ledger.ChallengeLedger.Consume | crates/crypto/src/challenge.rs:155-174 | the nonce is spent whatever the outcome, and which outcome it is |
| Ledger.ChallengeLedger.Prune | crates/crypto/src/challenge.rs:183-199 | the expired go, then the soonest to expire, until there is room for one |
| Ledger.SuccessIsFirstPresentation | crates/crypto/src/challenge.rs:149-174 | in every run, a presentation succeeds only for a challenge issued to that subject, unexpired, and not presented since |
| Ledger.SpentAtMostOncePerIssue | crates/crypto/src/challenge.rs:149-174 | in every run, a nonce is accepted no more often than it was issued, even if nonces repeat |
| Ledger.HeldIsAnswered | crates/crypto/src/challenge.rs:155-174 | a held challenge is accepted exactly for its subject up to a thousand milliseconds a second after issue, expired for them later, and unknown to anyone else |
| Ledger.AbsentIsUnknown | crates/crypto/src/challenge.rs:155-174 | a nonce that is not held is unknown |
| Ledger.LedgerIsBounded | crates/crypto/src/challenge.rs:115-118 | in every run the ledger holds at most 4096 |
| Ledger.DroppedOnlyWhenFull | crates/crypto/src/challenge.rs:115-118 | an unexpired challenge is dropped only by an issue into a full ledger, alone, and nothing that stays expires before it |
| Ledger.IssueLeavesOthersIff | crates/crypto/src/challenge.rs:124-147 | issuing leaves every unexpired challenge in place exactly when fewer than 4096 are outstanding |
| Ledger.FloodedLedgerDropsAnother | crates/crypto/src/challenge.rs:124-127 | any 4096 different nonces, issued to any subject at any time, fill the ledger, and the next issue drops an unexpired challenge |
| Ledger.SpareTheLater | crates/crypto/src/challenge.rs:115-118 | an issue never drops a challenge while another unexpired one expires sooner |
| Ledger.DropTheSoonest | crates/crypto/src/challenge.rs:183-199 | an issue into a full ledger drops the challenge that expires before every other |
| Ledger.PromptAnswerIsAccepted | crates/crypto/src/challenge.rs:115-174 | in every run, flooded or not, the first presentation by the right subject in time is accepted if at each issue into a full ledger another was to expire sooner |
| Ledger.PromptAnswerIff | crates/crypto/src/challenge.rs:115-174 | with no two expiries coinciding, it is accepted exactly then |
| Attachments.AttachmentRegistry.ApplyPublish | crates/content/src/store.rs:108-124 | the whole new index, first writer wins, and which check refuses |
| Attachments.VerifyPublish | crates/content/src/events.rs:42-57 | passes exactly genuine publications, and tells a foreign author from a bad key or signature |
| Attachments.Validate | crates/content/src/record.rs:186-197 | passes exactly well-formed records, and which of the two errors otherwise |
| Attachments.RefusalMeans | crates/content/src/store.rs:108-124 | which of five errors a publication gets, and that it gets none exactly when it is acceptable and new |
| Attachments.AttachmentRegistry.FindBySettlement | crates/content/src/store.rs:86-105 | exactly the settlement's records by its parties, each once, oldest first and then by id |
| Attachments.ListingIsUnique | crates/content/src/store.rs:84-105 | the listing does not depend on the order the store yields records in |
| Attachments.HoldsFirstWriters | crates/content/src/store.rs:108-124 | after any deliveries each id holds the first acceptable publication that named it, and nothing else is held |
| Attachments.OrderIsIrrelevantIff | crates/content/src/store.rs:12-22 | every order and repetition of the same publications leaves the same index exactly when no two acceptable ones disagree about an id |
| Attachments.TwoReceiptsUnderOneId | crates/content/src/store.rs:108-124 | two receipts signed under one id, and the two indexes their two orders leave |
| Attachments.NodesShowTheSameEvidence | crates/content/src/store.rs:84-105 | nodes that heard the same publications in any order show the same list |
| Attachments.RecordsAreImmutable | crates/content/src/store.rs:115-118 | a stored record is never altered or dropped by later deliveries |
| Attachments.ListedEvidenceIsGenuine | crates/content/src/store.rs:3-29 | everything listed was published under the key its author derives from, by a party, and is well formed |
| Attachments.EvidenceIsListedIff | crates/content/src/store.rs:86-105 | a record is listed exactly when it is the first acceptable publication under its id, for that settlement, by a party |
| Attachments.OldestFirst | crates/content/src/store.rs:98-103 | the listing is by time, then strictly by id |

## Left out

- The on-chain programs, the command line, the RPC surface and the desktop scripts.
- Floating prices, which are computed in binary floating point at the edge.
- The insides of SHA-256, Ed25519 and peer-id derivation; they are parameters.
- Serialization of records and the domain tags of their preimages: a signed message is a datatype whose constructor stands for the tag, and an undecodable event is not modelled.
- Transport, per-peer relay credit, event validation and identity conflicts: a refused envelope is a lost message in the flood model.
- Relay requests and confirmations of `ChainBridge`, which only call handlers.
- A node that aborts on arithmetic overflow: a run of the ledger ends there.
- Storage failures: every put and get of the key-value store succeeds.
- Avatars and upload grace as sources of kept roots: they are the `others` of a sweep.
- Fetching missing blocks from peers round by round, daemon pinning and HTTP gateways.
- `find_active` and single-record lookups, which add only a filter or a map access.
- A clock read once per call: an operation of the source that reads the clock twice is given one reading.
- Query.FixedBookScrollEnds: bounds the pages by the smallest limit used, because a scroll may change its limit between pages.
- Flood.BroadcastsAreBounded: counts a broadcast once however many peers it goes to; FloodTerminates counts the messages.
- Coverage.FloodReachesEveryone: makes no claim for networks of more than nine nodes, because a copy that arrives first by a longer way has fewer hops left and suppresses one that would have gone farther.
