# Models of clash-core

Dafny models of the algorithmic cores of clash-core, in the form the Go code has: objects that are
edited in place are classes, loops are loops, pure rules are functions. Each method is proved against
a specification function or a predicate, and what the code is for is proved about that specification.

| area | modules | main results |
|---|---|---|
| shared notions | `Wrappers`, `Sequences`, `Powers`, `Text`, `Digraphs` | reversal and case of dotted names; bits of numbers; paths and cycles of references |
| domain matching | `DomainPatterns`, `DomainTrie`, `DomainTexts`, `Bitmap`, `SortedKeys`, `DomainSet`, `DomainSetBuild`, `DomainAgreement`, `DomainSetAnswers` | Search is the best covering pattern, in texts and in nodes; Has on the set built from a trie answers as Search does exactly when no wildcard is lone or shadowed |
| fake IPs | `LruSpec`, `LruAnswers`, `LruCache`, `FakeIpSpec`, `FakeIpPool`, `FakeIpRuns`, `FakeIpAnswers`, `NetIp`, `FakeIpRange`, `FakeIpServer` | how long a cache answers; two caches in lock step in every run; no shared address; how long a pair lives; which addresses are handed out and which are recognised |
| proxy groups | `GroupGraph`, `GroupSort`, `GroupPeel`, `GroupLoops`, `GroupBuild` | the in-place sort fails exactly on cycles, what it reports is a loop, and building after it fails exactly for unknown or duplicate names |
| sub-rules | `SubRules` | accepted exactly without missing targets and cycles |
| IP networks | `CidrSpec`, `IpCidrTrie` | the trie is prefix membership, and for which networks |
| load balancing | `LoadBalance`, `JumpBalance` | jump hash is minimally disruptive and even, and equals its integer form but for ties; round robin is fair |
| byte streams | `MurmurSpec`, `MurmurVectors`, `Murmur`, `WebSocketMask`, `ClientHelloSpec`, `ClientHello` | streaming equals one-shot; masking is byte-wise; the ClientHello reader inverts its grammar |
| UDP sessions | `UdpSpec`, `UdpPaths`, `UdpDelivery`, `UdpSession` | one creator per key in every interleaving; when a session is stored over another; which waiters can be woken; the handler's code is followed; to whom each packet goes |

Where the code does not do what one would expect, the model follows the code and the exact condition
is proved:

- `DomainSet.Has` misses names below a wildcard whose node has a sibling byte smaller than `+`, and
  below `+` alone (`HasIsSearchExactly`, `ShadowExample`).
- `NewDomainSet` reads out of range when a wildcard is stored beside its own spelling with the label
  `+`, as `+.b` and `+.+.b` do, and only then (`NewDomainSet`, `CollidingNames`).
- `UnMasked` adds 96 to the length of an IPv6 prefix of at most 32 bits; the result is then the
  greatest address only in the case `UnMaskedIsGreatest` states. Addresses handed out stay inside.
- The expansion of IPv6 networks whose length is 1 to 7 modulo 16, of networks of length 0, and of
  networks with host bits set in the byte where the prefix ends misses addresses of the network
  (`CoversExactly`, `RightExactly`).
- A UDP handler that missed the session table looks no second time after it has got the lock: it may
  store over a running session (`ReplacesExactly`, `LateCreator`). A handler that begins to wait after
  the broadcast can never be woken, every other can (`WakesExactly`, `StuckForever`, `LostWakeup`).
- A jump whose exact quotient is whole while its stretch is not may land one bucket lower after rounding
  (`JumpIs`); every other jump is exact.

How state is modelled: a trie is a heap of nodes with a ghost map from paths to nodes; a linked list
is a sequence of element objects; a Go slice of a buffer is a window on an array; the rank and select
library has its documented contract; map iteration is an arbitrary choice of a key; time is a
parameter, read once per operation.

## Model

| member | source | states |
|---|---|---|
| `DomainPatterns.ValidAndSplitDomain` | clash-core/component/trie/domain.go:24-45 | a name that is accepted is lower-cased and cut at its dots; only the first label may be empty, and not as the only one |
| `DomainPatterns.AcceptedExactly` | clash-core/component/trie/domain.go:24-45 | accepted are exactly the non-empty names in which every dot is followed by a character that is no dot |
| `DomainPatterns.FindPathIsBest` | clash-core/component/trie/domain.go:102-120 | the backtracking search over any prefix-closed set of paths lands on the best stored pattern that matches, label by label from the right with exact before `*` before `.`, and on nothing exactly when nothing matches |
| `DomainPatterns.RankDeterminesPath` | clash-core/component/trie/domain.go:82-86 | two patterns that match the same name with the same priorities are the same pattern, so "the best" is one pattern |
| `DomainTrie.Node.AddChild` | clash-core/component/trie/node.go:28-44 | after adding, looking up any label gives the new child for its own label and the old answer for every other, whichever of the two forms the node has |
| `DomainTrie.Node.GetOrNewChild` | clash-core/component/trie/node.go:46-53 | an existing child is returned untouched, a missing one is added as an empty node |
| `DomainTrie.Node.GetChildren` | clash-core/component/trie/node.go:119-130 | the listed children are exactly what looking up each label gives |
| `DomainTrie.Node.Optimize` | clash-core/component/trie/node.go:55-89 | the subtree is the same tree with the same data, and no map of fewer than two children is left in it |
| `DomainTrie.Node.RebuildChildren` | clash-core/component/trie/node.go:78-88 | the case of several children: every branch is compacted, no node moves |
| `DomainTrie.DomainTrie.Insert` | clash-core/component/trie/domain.go:54-80 | fails exactly for an invalid name; otherwise the stored patterns are the old ones overwritten at the one or two paths of the name (`+.q` stores `q` and `.q`), nothing else changes |
| `DomainTrie.SearchFollowsPaths` | clash-core/component/trie/domain.go:102-120 | the search through nodes equals the search through the set of stored paths |
| `DomainTrie.DomainTrie.Search` | clash-core/component/trie/domain.go:87-100 | an answer is a node of the trie that carries data |
| `DomainTrie.DomainTrie.SearchIsBest` | clash-core/component/trie/domain.go:82-100 | Search answers nothing exactly when no stored pattern covers the name, and otherwise the data last stored for the best covering pattern |
| `DomainTrie.DomainTrie.Optimize` | clash-core/component/trie/domain.go:122-124 | changes no stored pattern and the answer of no search |
| `DomainTrie.DomainTrie.Foreach` | clash-core/component/trie/domain.go:126-151 | lists every stored pattern but the root's with its data, once, under its name with a `+` before a leading dot, and nothing else |
| `DomainTexts.LabelCovers` | clash-core/component/trie/domain.go:105-118 | a label of a pattern covers another label exactly if it is `*` or that label itself, or the dot at the end |
| `DomainTexts.CoversByLabels` | clash-core/component/trie/domain.go:54-120 | a pattern text covers a name text exactly if, label by label, each label of the pattern is `*` or the name's, a `+` in front standing for any number of labels and a dot in front for at least one |
| `DomainTexts.RankByLabels` | clash-core/component/trie/domain.go:82-86 | of two patterns that cover a name, the one wins that has the name's own label, or else `*` against the dot, where they first differ from the right |
| `DomainTexts.FillAndSearch` | clash-core/component/trie/domain.go:54-120 | inserting any list of pattern texts and searching a name answers nothing exactly if no pattern's labels meet the name's, and otherwise the pattern that wins, the last one inserted where several stand for one path |
| `DomainTexts.WildcardForms` | clash-core/component/trie/domain.go:62-76 | of a name q, a name one label longer and one two labels longer, `*.q` covers the second, `.q` the second and third, `+.q` all three |
| `DomainTexts.StarInside` | clash-core/component/trie/domain.go:113 | a `*` between two labels stands for any one label |
| `DomainTexts.StoredIsFound` | clash-core/component/trie/domain.go:87-120 | whatever else a trie stores, a name is found as soon as one stored pattern meets it |
| `DomainTexts.CaseIsIgnored` | clash-core/component/trie/domain.go:30 | texts that differ only in the case of letters store the same paths and find the same node |
| `Bitmap.SetBit` | clash-core/component/trie/domain_set.go:139-144 | sets the bit at one place, grows the bitmap as far as needed, changes no other bit |
| `Bitmap.SelectUnique` | clash-core/component/trie/domain_set.go:166-175 | select of the rank of a set bit is that bit: the two library calls, under their documented contracts, are inverse |
| `SortedKeys.SortStrings` | clash-core/component/trie/domain_set.go:34-36 | ascending byte order and the same strings, repetitions included |
| `SortedKeys.AscendingExactly` | clash-core/component/trie/domain_set.go:32-36 | sorted strings ascend strictly exactly when none is repeated |
| `DomainSetBuild.RunEnd` | clash-core/component/trie/domain_set.go:55-58 | the inner loop stops at the end of the run of keys with the same byte |
| `DomainSetBuild.ListChildren` | clash-core/component/trie/domain_set.go:53-63 | one child per distinct next byte, in order, each with exactly the keys that continue with it; the work left in the queue shrinks |
| `DomainSetBuild.Expand` | clash-core/component/trie/domain_set.go:45-66 | expanding one queue element keeps the encoding of all nodes before it, adds its own run, leaf bit and children, and shrinks the work that is left; it reads out of range only if a key is repeated |
| `DomainSetBuild.Build` | clash-core/component/trie/domain_set.go:40-70 | for sorted keys, repeated or not: the build reads out of range if and only if a key is repeated; otherwise the result is nil exactly for no keys, and its bitmaps and labels encode the trie of all key prefixes |
| `DomainSetBuild.LastIsLeaf` | clash-core/component/trie/domain_set.go:135-148 | the leaf bitmap reaches every node id, although it grows only at leaves: the last node built is a leaf |
| `DomainSet.ChildId` | clash-core/component/trie/domain_set.go:131 | the number of zeros up to the bit of a label is the id of the child behind it |
| `DomainSet.RunStart` | clash-core/component/trie/domain_set.go:132 | the bit behind the (id-1)-th one is where the labels of node id start |
| `DomainSet.Scan` | clash-core/component/trie/domain_set.go:88-130 | scanning a node's labels, without `*`, accepts on a `+` unless the wanted byte sorts before it, follows the wanted byte if it is there, and else fails; every index is in range |
| `DomainSet.Child` | clash-core/component/trie/domain_set.go:131-132 | rank and select lead to the node whose prefix is longer by the label |
| `DomainSet.NothingRepeats` | clash-core/component/trie/domain_set.go:45-66 | no set encodes a list of keys with a repetition |
| `DomainSet.SetDecidesKeys` | clash-core/component/trie/domain_set.go:20-70 | two lists of keys that one set encodes hold the same keys: the bitmaps determine the set of names |
| `DomainSet.Has` | clash-core/component/trie/domain_set.go:73-137 | on any set without the label `*` that encodes some keys, the walk over bitmaps answers as the walk over those keys does |
| `DomainAgreement.KeysDistinct` | clash-core/component/trie/domain_set.go:30-37 | two stored patterns get one key exactly if they are equal or one is the other's wildcard with `+` spelled as a label |
| `DomainAgreement.NewDomainSet` | clash-core/component/trie/domain_set.go:29-70 | on every trie: the build reads out of range if and only if a wildcard and its spelling with the label `+` are both stored; otherwise the set represents exactly the reversed names of the stored patterns, and is nil exactly when there are none |
| `DomainAgreement.WalkIsAccepted` | clash-core/component/trie/domain_set.go:87-135 | without a shadowed wildcard the walk accepts exactly the stored keys and the texts that have a key `p+` with `p` a prefix |
| `DomainAgreement.AcceptedIsMatched` | clash-core/component/trie/domain_set.go:119-135 | acceptance of the reversed name is matching of a pattern, both ways |
| `DomainAgreement.AgreeExactly` | clash-core/component/trie/domain_set.go:72-137 | for any `*`-free patterns without `+` inside labels: the walk over their keys and the patterns agree on every valid name if and only if `+` alone is not a pattern and no wildcard is shadowed by a sibling byte below `+` |
| `DomainAgreement.HighBytesAgree` | clash-core/component/trie/domain_set.go:119-129 | when all label bytes are above `+` and `+` alone is not a pattern, nothing is shadowed and the walk agrees with the patterns |
| `DomainAgreement.LoneWildcardFails` | clash-core/component/trie/domain_set.go:119-121 | the pattern `+` alone: some name is matched by it and missed by the walk |
| `DomainAgreement.ShadowFails` | clash-core/component/trie/domain_set.go:119-129 | each shadowed wildcard: some name is matched by it and missed by the walk |
| `DomainAgreement.ShadowExample` | clash-core/component/trie/domain_set.go:119-129 | a concrete case: the patterns `.a` and `!.a` |
| `DomainSetAnswers.StarFreeLabels` | clash-core/component/trie/domain_set.go:47-60 | a set built from patterns without `*` has no label `*`: the labels are bytes of the keys |
| `DomainSetAnswers.HasIsSearchExactly` | clash-core/component/trie/domain_set.go:29-137 | for every trie of such patterns and the set built from it: what Has answers is whether Search finds a node, on every valid name, if and only if `+` alone is not stored and no wildcard is shadowed |
| `DomainSetAnswers.BuildAndAsk` | clash-core/component/trie/domain_set.go:29-137 | building the set from a trie and calling Has on it gives the answer of Search under that condition, without any index out of range |
| `DomainSetAnswers.AskHighBytes` | clash-core/component/trie/domain_set.go:29-137 | the same with nothing left to check but the stored labels: all their bytes above `+`, and `+` alone not stored |
| `DomainSetAnswers.CollidingNames` | clash-core/component/trie/domain_set.go:47-58 | inserting `+.q` and `+.+.q`, for any valid q, stores two patterns with one key, so that the build reads out of range |
| `LruSpec.GetIsFresh` | clash-core/common/cache/lrucache.go:201-220 | an entry is returned exactly when it is stored and, with an age limit and no stale answers, not expired |
| `LruSpec.GetMovesToBack` | clash-core/common/cache/lrucache.go:214-219 | a found entry becomes the most recent; no other entry is lost |
| `LruSpec.SetEvictsOldest` | clash-core/common/cache/lrucache.go:164-179 | the new entry is the most recent; another entry goes only if it was the least recent, the key was new and the size limit was reached |
| `LruSpec.GetKeepsInv` | clash-core/common/cache/lrucache.go:201-239 | keys stay distinct and the length stays within a positive size |
| `LruSpec.SetKeepsInv` | clash-core/common/cache/lrucache.go:164-182 | the same for storing |
| `LruAnswers.SetThenGet` | clash-core/common/cache/lrucache.go:147-220 | a value just stored is answered while less than the age limit has passed and not from then on; without an age limit, or when stale entries are returned, always |
| `LruAnswers.SetThenGetOther` | clash-core/common/cache/lrucache.go:161-182 | storing changes no answer for another key, at any later time, except for the least recent one when a new key meets a full cache |
| `LruAnswers.GetThenGet` | clash-core/common/cache/lrucache.go:201-220 | an entry just answered is answered again until its time is up, which starts anew if ages are updated on lookup |
| `LruAnswers.GetThenGetOther` | clash-core/common/cache/lrucache.go:201-220 | a lookup, dropping expired entries included, changes no later answer for another key |
| `LruAnswers.DropIsInvisible` | clash-core/common/cache/lrucache.go:232-239 | dropping expired entries changes no later answer, and the least recent entry left is live |
| `LruAnswers.DeleteThenGet` | clash-core/common/cache/lrucache.go:223-230 | a deleted key is not found, every other key answers as before |
| `LruCache.LruCache.MaybeDeleteOldest` | clash-core/common/cache/lrucache.go:232-239 | drops expired entries from the least recent on, up to the first live one |
| `LruCache.LruCache.DeleteElement` | clash-core/common/cache/lrucache.go:241-248 | takes one element out of list and map, keeping them consistent |
| `LruCache.LruCache.Lookup` | clash-core/common/cache/lrucache.go:201-220 | map and list after a lookup show the abstract recency sequence after a lookup; the element returned is the one found |
| `LruCache.LruCache.Get` | clash-core/common/cache/lrucache.go:86-97 | refines the abstract lookup |
| `LruCache.LruCache.GetOrStore` | clash-core/common/cache/lrucache.go:99-112 | a found value is returned, otherwise the constructed value is stored after the lookup |
| `LruCache.LruCache.SetWithExpire` | clash-core/common/cache/lrucache.go:161-182 | refines the abstract store |
| `LruCache.LruCache.Set` | clash-core/common/cache/lrucache.go:140-153 | stores with the expiry that the age limit gives, or zero |
| `LruCache.LruCache.Delete` | clash-core/common/cache/lrucache.go:223-230 | removes the key and nothing else |
| `FakeIpPool.MemoryStore.GetByHost` | clash-core/component/fakeip/memory.go:15-23 | the two caches, in step before, are in step after: the pair found is the most recent in both |
| `FakeIpPool.MemoryStore.GetByIP` | clash-core/component/fakeip/memory.go:31-39 | the same from the address side |
| `FakeIpPool.MemoryStore.PutByIP` | clash-core/component/fakeip/memory.go:42-44 | stores the pair in the address cache alone, for any address, stored or not |
| `FakeIpPool.MemoryStore.PutByHost` | clash-core/component/fakeip/memory.go:26-28 | stores the pair in the host cache alone, for any host, stored or not |
| `FakeIpPool.SetEvictsAlike` | clash-core/component/fakeip/memory.go:26-44 | putting a new pair into both caches leaves them in step: if one evicts, the other evicts the same pair |
| `FakeIpPool.MemoryStore.DelByIP` | clash-core/component/fakeip/memory.go:47-52 | both caches lose the pair of the address |
| `FakeIpPool.MemoryStore.Exist` | clash-core/component/fakeip/memory.go:55-57 | whether the address has a pair |
| `FakeIpPool.Pool.Allocate` | clash-core/component/fakeip/pool.go:103-117 | the ring pointer advances, wraps to the first address at the last one, and the old pair of the address is gone before the new one is stored |
| `FakeIpPool.Pool.Evict` | clash-core/component/fakeip/pool.go:111-113 | the pair of an address leaves both caches |
| `FakeIpPool.Pool.LookUp` | clash-core/component/fakeip/pool.go:44-57 | refines the abstract pool: one sequence of pairs and a ring pointer |
| `FakeIpPool.Pool.LookBackIP` | clash-core/component/fakeip/pool.go:60-65 | refines the abstract pool |
| `FakeIpPool.Pool.ExistIP` | clash-core/component/fakeip/pool.go:76-81 | answers from the address cache alone, without touching recency |
| `FakeIpRuns.RunKeepsInv` | clash-core/component/fakeip/pool.go:44-117 | in every run the pairs are one-to-one, all addresses lie in the ring, hosts are lower-case and the size limit holds |
| `FakeIpRuns.LookBackOfLookup` | clash-core/component/fakeip/pool.go:44-65 | LookBack of the address given to a host is that host but for case, without capitals, and asking again gives the same address |
| `FakeIpAnswers.LookupExactly` | clash-core/component/fakeip/pool.go:44-57 | a host with a pair gets its address, and only the order of pairs changes: that pair becomes the most recent; a host without gets the next address of the ring, and no pair is new but its own |
| `FakeIpAnswers.LookBackExactly` | clash-core/component/fakeip/pool.go:60-81 | an address leads back to the host of its pair, which becomes the most recent, and to no other; without a pair it leads nowhere and nothing changes; it exists exactly if it has a pair |
| `FakeIpAnswers.LeadsToLastHolder` | clash-core/component/fakeip/pool.go:44-81 | in any run of an empty pool, an address leads back to a host only if it was handed out, and then to the host that got it last |
| `FakeIpRuns.NoSharedAddress` | clash-core/component/fakeip/pool.go:50-56 | two stored hosts have the same address exactly when they differ at most in the case of letters |
| `FakeIpRuns.GrantsGoRound` | clash-core/component/fakeip/pool.go:103-110 | the fresh addresses of any run, for any number of rounds, are the steps of the ring pointer one after the other |
| `FakeIpRuns.RoundsReturn` | clash-core/component/fakeip/pool.go:103-109 | the ring pointer is back after whole rounds and at no other time |
| `FakeIpRuns.AddressComesBack` | clash-core/component/fakeip/pool.go:103-117 | an address is given again at exactly every N-th later fresh allocation, and at no other |
| `FakeIpRuns.PairSurvives` | clash-core/component/fakeip/pool.go:44-117 | a pair is still stored while fewer than N allocations and fewer than the cache size of other hosts have come since its last use |
| `FakeIpRuns.LookupIsStable` | clash-core/component/fakeip/pool.go:44-65 | until then the host gets the same address and the address leads back to the host |
| `FakeIpServer.ServeAll` | clash-core/component/fakeip/pool.go:44-201 | a pool made for any prefix and asked any list of lookups, look-backs and tests answers, through its two caches, as the one abstract list of pairs does; every address it hands out is a fake IP of that prefix |
| `NetIp.UnMasked` | clash-core/common/nnip/netip.go:27-53 | the two 64-bit words, shifted and joined as the code does, give the address with its low host bits set |
| `NetIp.UnMaskedIsGreatest` | clash-core/common/nnip/netip.go:37-43 | that is the greatest address of the prefix if and only if the prefix is IPv4, or longer than 32 bits, or the 96 bits above the filled ones, which the computation leaves out, are all set in the given address |
| `NetIp.BetweenIsInside` | clash-core/common/nnip/netip.go:42-43 | every address between the masked one and that one lies in the prefix, also where it is not the greatest |
| `NetIp.NewNetwork` | clash-core/component/fakeip/pool.go:169-188 | gateway, first and last address of a pool, or an error when nothing lies between |
| `NetIp.LookupIsFakeIP` | clash-core/dns/enhancer.go:37-47 | from a fresh pool of any valid prefix, an address that any run hands out is recognised as a fake IP if and only if the mode is fake-ip |
| `FakeIpRange.PoolInNumbers` | clash-core/component/fakeip/pool.go:169-188 | in numbers: the gateway is one above the network address, the first address four above it, and a pool exists exactly if the first lies below the last |
| `FakeIpRange.FakeExactly` | clash-core/dns/enhancer.go:37-47 | an address is recognised as fake exactly in fake-ip mode, within the block of the prefix, and if it is neither the address above the network address nor the last |
| `FakeIpRange.HandedOutExactly` | clash-core/component/fakeip/pool.go:103-188 | an address is handed out in some run of a fresh pool exactly if it lies from four above the network address up to below the last |
| `GroupSort.BuildGraph` | clash-core/config/utils.go:61-86 | succeeds exactly when all groups decode and names are distinct; in-degrees count the references |
| `GroupPeel.FindSources` | clash-core/config/utils.go:91-96 | the queue starts with every name that nobody refers to, once |
| `GroupPeel.Release` | clash-core/config/utils.go:109-115 | no lookup of a child misses; a name joins the queue when its last reference goes |
| `GroupPeel.Released` | clash-core/config/utils.go:98-118 | after a name is finished the in-degrees count the references from unfinished groups only |
| `GroupPeel.PlaceFront` | clash-core/config/utils.go:101-103 | putting a group before those placed keeps dependencies first, and there is room for it |
| `GroupPeel.PeelSource` | clash-core/config/utils.go:98-118 | one round of the queue: the tail of the input array is sorted so far |
| `GroupLoops.LinkAll` | clash-core/config/utils.go:127-144 | out-degrees and back references of the remaining graph; no lookup misses |
| `GroupLoops.Retract` | clash-core/config/utils.go:157-162 | no back reference leads to a removed node, so no lookup misses |
| `GroupLoops.StillLists` | clash-core/config/utils.go:157-158 | a name in a back reference list is still in the graph and still counts the reference |
| `GroupLoops.SinkCanGo` | clash-core/config/utils.go:154-164 | removing a name without successors leaves a predecessor to every other name |
| `GroupLoops.PeelSinks` | clash-core/config/utils.go:146-164 | what remains is non-empty, and each name has a predecessor and a successor in it |
| `GroupBuild.LocateLoop` | clash-core/config/utils.go:127-171 | the reported names are distinct and form such a set |
| `GroupBuild.ProxyGroupsDagSort` | clash-core/config/utils.go:61-171 | returns no error if and only if all groups decode, names are distinct and the reference graph has no cycle; then the array is a permutation of the input with every group behind the groups it names; a loop error reports a set in which every name has a predecessor and a successor |
| `GroupGraph.SortedHasNoCycle` | clash-core/config/utils.go:120-123 | dependencies first rules out cycles |
| `GroupGraph.LoopSetHasCycle` | clash-core/config/utils.go:165-171 | such a reported set contains a cycle |
| `GroupGraph.UnwrapChainEnds` | clash-core/tunnel/tunnel.go:639-646 | any chain of references through sorted groups has at most one step per group, so unwrapping ends |
| `GroupBuild.GetProxies` | clash-core/adapter/outboundgroup/parser.go:145-155 | succeeds exactly when every name is known, with the proxies in the order of the list |
| `GroupBuild.BuildGroups` | clash-core/config/config.go:729-742 | over sorted groups the build loop fails only for a name that is a duplicate or that no proxy or group has: each group named is already built when it is needed; every group then has its name and the proxies it lists, and the plain proxies are still there |
| `GroupBuild.SortAndBuild` | clash-core/config/config.go:710-742 | from an array of groups in any order: sorting and building succeeds if and only if all groups decode, names are distinct and new, no references form a cycle, and every listed name is a plain proxy or a group; the result then has every group built from the proxies it lists |
| `SubRules.VerifySubRule` | clash-core/config/config.go:828-836 | accepts if and only if every sub-rule target exists and the references have no cycle, whatever the order of the map |
| `SubRules.RejectedBelow` | clash-core/config/config.go:838-865 | a rejection anywhere in the recursion comes from a missing target or a cycle |
| `SubRules.ReportBelow` | clash-core/config/config.go:852-856 | the error names a rule whose target is missing, or a path of references that returns to itself |
| `SubRules.NoReturn` | clash-core/config/config.go:848-862 | an accepted name leads along any path only to existing, new names |
| `SubRules.AcceptedRightly` | clash-core/config/config.go:828-836 | acceptance of every name excludes missing targets and cycles |
| `CidrSpec.SubIpCidr` | clash-core/component/trie/ipcidr_trie.go:97-124 | for networks of 4 or 16 bytes, host bits set or not: the list of whole-group networks and their length, byte addition with wrap-around included |
| `CidrSpec.CoversExactly` | clash-core/component/trie/ipcidr_trie.go:97-124 | for every network: the expansion covers an address if and only if its whole bytes agree, its next byte lies less than a block above the network's, and, for the lengths the expansion does not treat, certain bytes agree too |
| `CidrSpec.ContainsInBytes` | clash-core/component/trie/ipcidr_trie.go:97-124 | agreeing in the first bits, one by one, is agreeing in whole bytes and in the quotient of the byte in which the mask ends |
| `CidrSpec.RightExactly` | clash-core/component/trie/ipcidr_trie.go:97-124 | the expansion covers exactly the addresses that agree with the network in the bits of its mask if and only if the length is positive and, for IPv6, 0 or at least 8 modulo 16, and no host bit is set in the byte where the prefix ends |
| `IpCidrTrie.IpCidrNode.AddChild` | clash-core/component/trie/ipcidr_node.go:25-32 | refuses values over the maximum; otherwise an empty child is stored and no other changes |
| `IpCidrTrie.CleanChild` | clash-core/component/trie/ipcidr_trie.go:220-224 | the deletion below a marked node takes the values 0, 1, ... up to the first one that is not below the number of children left, and changes no answer |
| `IpCidrTrie.AddGroups` | clash-core/component/trie/ipcidr_trie.go:134-214 | a prefix of groups is covered afterwards exactly if it was before or continues the added one |
| `IpCidrTrie.Search` | clash-core/component/trie/ipcidr_trie.go:226-245 | finds a marked node exactly when a marked prefix covers the values |
| `IpCidrTrie.IpCidrTrie.AddIpCidr` | clash-core/component/trie/ipcidr_trie.go:28-39 | the trie covers what the networks added so far cover, in any order and overlap, host bits set or not |
| `IpCidrTrie.IpCidrTrie.IsContain` | clash-core/component/trie/ipcidr_trie.go:50-71 | true if and only if some added network covers the address; an absent address is in none |
| `IpCidrTrie.AnswersMembership` | clash-core/component/trie/ipcidr_trie.go:28-71 | for networks of the lengths above without host bits set there, that is agreement with some network in each bit of its mask |
| `IpCidrTrie.FillAndAsk` | clash-core/component/trie/ipcidr_trie.go:28-71 | adding any networks to an empty trie and asking: under that condition the answer is true exactly if some network agrees with the address in each bit of its mask |
| `LoadBalance.JumpForward` | clash-core/adapter/outboundgroup/loadbalance.go:80-83 | each jump goes forward, by a factor of at most 2^31, and no value exceeds 2^62 |
| `LoadBalance.JumpHash` | clash-core/adapter/outboundgroup/loadbalance.go:76-86 | the loop ends for every bucket count, inside the buckets if there are any, and at 0 if there are none |
| `LoadBalance.GrowthMovesUp` | clash-core/adapter/outboundgroup/loadbalance.go:76-86 | from m to n buckets a key keeps its bucket or moves to one of the new ones |
| `LoadBalance.MinimalDisruption` | clash-core/adapter/outboundgroup/loadbalance.go:76-86 | one more bucket: the key stays or moves to the new bucket |
| `JumpBalance.JumpIs` | clash-core/adapter/outboundgroup/loadbalance.go:80-83 | for up to 2^20 buckets and any rounding to 53 bits, a jump goes to the integer quotient of (b + 1) * 2^31 by the top 31 bits plus one, or to one less where that quotient is whole and the stretch is not |
| `JumpBalance.HashIsInteger` | clash-core/adapter/outboundgroup/loadbalance.go:76-86 | without such a tie on its way, a key gets the bucket that the same algorithm computes in integers |
| `JumpBalance.ExactHashIsInteger` | clash-core/adapter/outboundgroup/loadbalance.go:76-86 | in exact arithmetic it always does |
| `JumpBalance.IdentityRounds` | clash-core/adapter/outboundgroup/loadbalance.go:83 | exact arithmetic is one of the roundings spoken of |
| `JumpBalance.TwoBuckets` | clash-core/adapter/outboundgroup/loadbalance.go:76-86 | of two buckets a key gets the second exactly if the highest bit of its next key is set, whatever the rounding |
| `JumpBalance.LeavesExactly` | clash-core/adapter/outboundgroup/loadbalance.go:80-83 | the top bits t send a key from bucket b to bucket n or above exactly if (b + 1) * 2^31 >= n * (t + 1) |
| `JumpBalance.StepIsBijective` | clash-core/adapter/outboundgroup/loadbalance.go:82 | one step of the key generator is a bijection of the 64-bit keys |
| `JumpBalance.ShareThatLeaves` | clash-core/adapter/outboundgroup/loadbalance.go:80-83 | of the 2^31 values of the top bits exactly (b + 1) * 2^31 / n, rounded down, do |
| `JumpBalance.KeysThatLeave` | clash-core/adapter/outboundgroup/loadbalance.go:80-83 | and 2^33 times as many of the 2^64 keys |
| `LoadBalance.ConsistentHashing` | clash-core/adapter/outboundgroup/loadbalance.go:164-188 | the proxy chosen is the one at the first alive of the buckets of key, key + 1, ... key + 4, else the first alive one, else the first; so it is alive if any is, and is the one at the key's own bucket whenever that one is alive |
| `LoadBalance.RoundRobin.Pick` | clash-core/adapter/outboundgroup/loadbalance.go:134-162 | serves the first of the turn, the alive proxies in order from the index; a touching call rotates the turn by one and sets the index behind the proxy served, an untouched call changes nothing |
| `LoadBalance.ServedFrom` | clash-core/adapter/outboundgroup/loadbalance.go:150-157 | the first alive place heads the turn, and the turn from behind it is its rotation |
| `LoadBalance.RotatedByCut` | clash-core/adapter/outboundgroup/loadbalance.go:145-147 | k rotations are one cut at k |
| `LoadBalance.OncePerTurn` | clash-core/adapter/outboundgroup/loadbalance.go:150-157 | a turn holds every alive proxy exactly once and no other |
| `LoadBalance.ServeRound` | clash-core/adapter/outboundgroup/loadbalance.go:134-162 | as many touching calls as proxies are alive serve each alive proxy exactly once, and the turn is then where it was |
| `MurmurSpec.BlocksAppend` | clash-core/common/murmur3/murmur32.go:53-64 | full blocks of a concatenation are mixed one after the other |
| `MurmurSpec.Continue` | clash-core/common/murmur3/murmur.go:23-44 | pending bytes put before new data give the same running hash and the same rest as all data at once |
| `Murmur.MixBlocks` | clash-core/common/murmur3/murmur32.go:53-66 | the block loop mixes every full block and returns the bytes behind them |
| `Murmur.EndOf` | clash-core/common/murmur3/murmur32.go:72-86 | the cases that fall through mix in the last one to three bytes |
| `Murmur.Digest.Bmix` | clash-core/common/murmur3/murmur32.go:50-67 | the running hash takes the full blocks; what is returned is a window on the same array |
| `Murmur.Digest.AppendToTail` | clash-core/common/murmur3/murmur.go:25-34 | appending to the tail writes behind it in its own buffer |
| `Murmur.Digest.KeepTail` | clash-core/common/murmur3/murmur.go:39-41 | the pending bytes move to the front of the buffer, also from within the buffer itself |
| `Murmur.Digest.TakePending` | clash-core/common/murmur3/murmur.go:23-37 | what is mixed before and what is left to mix make up the pending bytes and the data |
| `Murmur.Digest.Write` | clash-core/common/murmur3/murmur.go:19-44 | hash, tail and length stand for everything written so far, aliasing included |
| `Murmur.Digest.Sum32` | clash-core/common/murmur3/murmur32.go:69-97 | the hash of everything written, without ending the stream |
| `Murmur.Sum32WithSeed` | clash-core/common/murmur3/murmur32.go:101-144 | the hash of the whole data |
| `Murmur.Stream` | clash-core/common/murmur3/murmur.go:19-44 | for every cut into writes the streamed hash is the one-shot hash of the whole |
| `MurmurSpec.MixedInjective` | clash-core/common/murmur3/murmur32.go:55-65 | in one block step the running hash and the word determine each other |
| `MurmurSpec.FinishedInjective` | clash-core/common/murmur3/murmur32.go:90-94 | the final mix loses nothing |
| `MurmurSpec.SeedDecides` | clash-core/common/murmur3/murmur32.go:101-144 | two seeds never give the same data the same hash |
| `MurmurSpec.BlockDecides` | clash-core/common/murmur3/murmur32.go:101-144 | data that differ in one full block only never have the same hash |
| `MurmurSpec.RestDecides` | clash-core/common/murmur3/murmur32.go:117-133 | nor do data of equal length that differ only behind the last full block |
| `MurmurVectors.OfNothing` | clash-core/common/murmur3/murmur32.go:101-144 | the published hashes of no bytes for two seeds |
| `MurmurVectors.OfAbc` | clash-core/common/murmur3/murmur32.go:101-144 | the published hash of "abc" |
| `MurmurVectors.OfHello` | clash-core/common/murmur3/murmur32.go:101-144 | the published hash of a text of three blocks and one byte with a seed |
| `WebSocketMask.Xor32` | clash-core/common/net/websocket.go:118-122 | a word xor the key holds the four bytes xor the four key bytes |
| `WebSocketMask.XorWord64` | clash-core/common/net/websocket.go:110-114 | a double word xor the doubled key masks eight bytes |
| `WebSocketMask.XorWhileFits` | clash-core/common/net/websocket.go:23-115 | each unrolled loop masks whole passes until fewer bytes than one pass are left, and leaves a multiple of four behind it |
| `WebSocketMask.MaskRemaining` | clash-core/common/net/websocket.go:124-130 | the last bytes are masked while the key turns |
| `WebSocketMask.MaskWebSocket` | clash-core/common/net/websocket.go:22-131 | for every length the buffer is xored with key byte i mod 4, and the returned key goes on at the next byte |
| `WebSocketMask.MaskedBit` | clash-core/common/net/websocket.go:12-16 | masking turns bit n of byte i exactly if bit 8 * (i mod 4) + n of the key is set |
| `WebSocketMask.MaskTwice` | clash-core/common/net/websocket.go:12-13 | masking twice with one key is the identity |
| `WebSocketMask.MaskInPieces` | clash-core/common/net/websocket.go:15-16 | masking a piece and then the next with the returned key is masking the whole |
| `WebSocketMask.OneContinuation` | clash-core/common/net/websocket.go:15-16 | the returned key is the only one that goes on |
| `ClientHello.ReadClientHello` | clash-core/component/sniffer/tls_sniffer.go:57-148 | never reads out of range, on any byte string, and gives the answer of the grammar |
| `ClientHello.ReadExtensions` | clash-core/component/sniffer/tls_sniffer.go:85-148 | the same for the loop over extensions |
| `ClientHello.ReadNames` | clash-core/component/sniffer/tls_sniffer.go:110-142 | the same for the loop over names |
| `ClientHelloSpec.HostNameIsRead` | clash-core/component/sniffer/tls_sniffer.go:94-145 | undoes the serializer: after any extensions and names that are not host names the host name is answered, or refused if it ends in a dot, whatever follows it |
| `ClientHelloSpec.SmallHelloRead` | clash-core/component/sniffer/tls_sniffer.go:57-148 | for any text, the smallest hello with that host name, written out byte by byte, is answered with it, or refused if the text ends in a dot |
| `ClientHelloSpec.NameExactly` | clash-core/component/sniffer/tls_sniffer.go:57-148 | a name is answered if and only if the bytes have that shape with that name and it has no trailing dot |
| `ClientHelloSpec.ShapeOf` | clash-core/component/sniffer/tls_sniffer.go:57-148 | from the bytes of any answered name the structure can be rebuilt |
| `ClientHelloSpec.NotTlsExactly` | clash-core/component/sniffer/tls_sniffer.go:94-148 | "not TLS" is answered exactly for well-formed hellos without a host name |
| `ClientHelloSpec.NoNameIsRead` | clash-core/component/sniffer/tls_sniffer.go:94-148 | every well-formed hello without a host name is read to its end |
| `ClientHello.SniffTls` | clash-core/component/sniffer/tls_sniffer.go:150-171 | the record header is checked before the hello is read |
| `ClientHelloSpec.RecordRead` | clash-core/component/sniffer/tls_sniffer.go:150-171 | a hello in a handshake record of major version 3 is answered as on its own |
| `ClientHelloSpec.RecordExactly` | clash-core/component/sniffer/tls_sniffer.go:150-171 | a name is answered if and only if the bytes begin with a handshake record of major version 3 whose hello is answered with it; five bytes or more that do not begin so are not TLS |
| `UdpSpec.StepKeepsInv` | clash-core/tunnel/tunnel.go:301-433 | every step of every handler keeps the lock, session, freshness, packet and condition invariants |
| `UdpSpec.RunKeepsInv` | clash-core/tunnel/tunnel.go:301-433 | so does every interleaving |
| `UdpSpec.OneCreator` | clash-core/tunnel/tunnel.go:359-375 | in every interleaving the number of handlers creating a session for a key is 1 if its lock is in the map and 0 if not |
| `UdpSpec.OnlyCreatorStores` | clash-core/tunnel/tunnel.go:427 | a session is stored only by the handler that holds the lock of its key |
| `UdpSpec.DroppedOnce` | clash-core/tunnel/tunnel.go:354-370 | no packet is dropped or handed to a session twice, and it is dropped exactly when its handler is done |
| `UdpSpec.SessionIsFound` | clash-core/tunnel/tunnel.go:359-429 | a key whose lock was never granted over a stored session has at most one running session, the one in the table |
| `UdpSpec.ReplacesExactly` | clash-core/tunnel/tunnel.go:354-427 | a creator stores over a session if and only if one was in the table when it got the lock and none of the key has ended since |
| `UdpSpec.LateCreator` | clash-core/tunnel/tunnel.go:354-427 | a run in which that happens: the second session runs on without an entry in the table once the first one ends |
| `UdpSpec.WakesExactly` | clash-core/tunnel/tunnel.go:361-375 | in every interleaving: a waiting handler has a continuation in which it is woken if and only if it is not stuck, that is, if and only if its creator has not broadcast yet |
| `UdpSpec.StuckForever` | clash-core/tunnel/tunnel.go:364-370 | a handler that starts waiting after the broadcast waits in every continuation; its packet is neither sent nor dropped |
| `UdpSpec.LostWakeup` | clash-core/tunnel/tunnel.go:364-375 | a run that leads there |
| `UdpPaths.HandlerFollowsCode` | clash-core/tunnel/tunnel.go:301-433 | in every interleaving the steps of one handler are a beginning of one of five paths through its code (refused; session found; waited and forwarded; stored, forwarded, unlocked, broadcast; failed, unlocked, broadcast; each ending with the one drop), and a whole path exactly when it is done |
| `UdpDelivery.SentRightly` | clash-core/tunnel/tunnel.go:342-370 | in every interleaving, a handler that is done has handed its packet to nobody if it refused or failed, to the session found at its lookup if there was one, and otherwise to the session in the table when it forwarded, if one was |
| `UdpDelivery.SentWithinKeys` | clash-core/tunnel/tunnel.go:340-352 | no packet is handed to a session of another key |
| `UdpDelivery.CreatorSendsExactly` | clash-core/tunnel/tunnel.go:427-431 | a creator's own packet goes to the session it has just stored, unless a session of its key ends in between; then to nobody |
| `UdpSession.Table.Set` | clash-core/component/nat/table.go:24-31 | stores the session of one key |
| `UdpSession.Table.Get` | clash-core/component/nat/table.go:33-39 | finds the session of a key |
| `UdpSession.Table.GetOrCreateLock` | clash-core/component/nat/table.go:41-44 | hands out the lock in the map, or puts the new one there, in one step |
| `UdpSession.Table.DeleteLock` | clash-core/component/nat/table.go:50-52 | removes the lock of one key |
| `UdpSession.Tunnel.TakeTheLock` | clash-core/tunnel/tunnel.go:359 | the lock is taken, or its owner learnt, in one step through the table |
| `UdpSession.Tunnel.Perform` | clash-core/tunnel/tunnel.go:301-433 | tables and packets stay what the recorded run makes of an empty tunnel, whichever step is done next |
| `UdpSession.Tunnel.Others` | clash-core/tunnel/tunnel.go:361-375 | whatever other handlers and receivers do, the handler's packet changes at most by being woken |
| `UdpSession.Tunnel.AwaitSession` | clash-core/tunnel/tunnel.go:364-370 | a handler that finds the lock taken is still waiting, or has waited, forwarded and dropped, in that order |
| `UdpSession.Tunnel.CreateSession` | clash-core/tunnel/tunnel.go:372-431 | the creator stores and forwards, or fails; then it unlocks, broadcasts and drops, in that order |
| `UdpSession.Tunnel.HandleUdpConn` | clash-core/tunnel/tunnel.go:301-433 | the handler written straight through, with any steps of others between any two of its own: its steps are the path that the outcomes of checks and dialing select, and it ends with its packet dropped once and handed over as the table said at its lookup or its forwarding, or it waits for another handler |

## Left out

- DomainSet.Has: requires a set without the label `*`. With `*` the walk returns at the end of the key
  without trying saved cursors, and its dot scan runs over node boundaries. `StarFreeLabels` shows the
  requirement for every set built from patterns without `*`; `*` is covered for the trie.
- DomainSet.Scan: requires the same, for the same reason.
- Names that are not valid queries: `Has` does not validate its argument, so it may accept names with
  empty labels that Search refuses; agreement is stated for valid names.
- Non-ASCII text: names are ASCII, reversal and lower-casing are by byte.
- The rank and select index tables, the linked-list package, sort.Strings and map hashing: contracts or
  simple equivalents.
- `LruCache.Clear` (it replaces the map but not the list), `CloneTo` (it shares entries), the eviction
  callback, and pool flushing and cloning built on them.
- Persistent fake-IP storage and its restored state.
- Mutexes: operations of caches and pools are atomic.
- One operation reads the clock once; the code may read it twice within a lookup.
- CidrSpec.SubIpCidr: networks have 4 or 16 bytes and a contiguous mask that fits them.
- IpCidrTrie.IpCidrTrie.AddIpCidr: the same.
- IpCidrTrie.IpCidrTrie.IsContain: addresses have 4 or 16 bytes or are absent.
- Decoding of group options, providers, filters and group kinds: a group is a name, a list of names and
  whether it decodes.
- LoadBalance.JumpHash: binary64 is `real` with a rounding that is monotone and exact on n and n * 2^31
  for n up to 2^31; bucket counts are 32-bit.
- JumpBalance.HashIsInteger: up to 2^20 buckets, for which 53 bits tell every quotient that is no tie from the
  next integer; beyond that the jumps are bounded by `JumpForward` only.
- LoadBalance.ConsistentHashing: requires a non-empty list, as the code does by indexing it.
- Sticky sessions and fastest-proxy choice: clock and hash-seed driven.
- Murmur.Digest.Write: the machine is little-endian, as the unaligned read of a word presumes.
- WebSocketMask.XorWhileFits: the repeated statements of one unrolled pass are a loop.
- Fields of a ClientHello that the reader does not look at: handshake type, length, version and random
  are 38 arbitrary bytes.
- The UDP handler's network work: resolving, dialing and relaying are outcomes of steps; updates of the
  write-back proxy and the local connection maps of TProxy are not modelled.
- The mutex of a waiter's condition variable: woken handlers take their steps in any order.
- Scheduling of UDP handlers: `WakesExactly` says which waiters some continuation wakes; no fairness is
  assumed, so nothing says that a continuation is taken.
- Everything else: DNS transports, dialers, proxies protocols, listeners, REST routes, configuration
  syntax, geodata, QUIC and HTTP sniffing, platform glue.
