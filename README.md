# Merkle payment pool tree in Dafny

This project models the off-chain half of the Merkle payment pool: the
`MerkleTree` class (lib/merkle-tree.js) and its subclass
`CumulativePaymentTree` (lib/cumulative-payment-tree.js). It proves properties
of that model.

## What `MerkleTree` does

The tree takes a list of records and works in four steps:

1. It drops the falsy records and leaf-hashes the rest.
2. It removes duplicate digests and sorts the remainder with `Buffer.compare`.
3. It builds layers upward. Each layer pairs each even entry with its successor and hashes the pair with Keccak-256, sorting the two buffers first. An odd last entry is carried up unchanged.
4. It answers requests for the root and for proofs. A proof is the list of pair entries on the way from the leaf to the root. It can be preceded by 32-byte words, and it can be rendered as one `0x…` hex string.

## What `CumulativePaymentTree` does

- It drops payments with an empty payee or a zero amount.
- It sums the remaining amounts per payee.
- It renders each payee's total as the string `payee,amount` and builds the tree over those strings.
- `amountForPayee` finds the amount by exact payee match.
- `hexProofForPayee` finds a payment node by substring match. It returns the hex proof of that node with the payment cycle and the amount as prefix words, or a 32-byte zero word when no node matches.

## How the model is built

- Both hash primitives are parameters, so every property holds for any hash functions:
  - `Hash`, Keccak-256 over bytes;
  - `LeafHash`, the leaf hash `sha3`.
- Records are `Value = Str(string) | Buf(bytes)`. Buffers are byte sequences, and digests are 32-byte sequences.
- The class `Merkle.MerkleTree` has fields `elements` and `layers`.
  - Its loops (getLayers, getNextLayer, getProof, bufIndexOf, bufDedup) are methods with loop invariants.
  - Each method is proved against a function in module `MerkleSpec`.
- The payment pipeline is pure and lives in `PaymentSpec`.
- `Payments.CumulativePaymentTree` holds the `MerkleTree` it builds.

Modules, in dependency order: `Wrappers`, `ByteOrder`, `Encoding`, `MerkleSpec`, `Merkle`, `PaymentSpec`, `Payments`.

## Model

| member | source | states |
|---|---|---|
| ByteOrder.Compare | lib/merkle-tree.js:13 | `Buffer.compare`: byte-wise comparison, shorter prefix first, result in -1..1 |
| ByteOrder.CompareZeroIffEqual | lib/merkle-tree.js:13 | the comparison is 0 exactly when the two buffers are equal |
| ByteOrder.CompareAntisymmetric | lib/merkle-tree.js:13 | swapping the arguments negates the comparison |
| ByteOrder.LessTransitive | lib/merkle-tree.js:13 | the order is transitive |
| ByteOrder.LessTotal | lib/merkle-tree.js:139 | two distinct buffers are ordered one way and never both ways |
| ByteOrder.Insert | lib/merkle-tree.js:13 | inserting adds exactly one occurrence of the element |
| ByteOrder.Sort | lib/merkle-tree.js:13 | the sort is a permutation of its input |
| ByteOrder.InsertAscending | lib/merkle-tree.js:13 | inserting a new digest into a strictly ascending list keeps it strictly ascending |
| ByteOrder.SortAscending | lib/merkle-tree.js:13 | sorting distinct digests gives a strictly ascending permutation |
| ByteOrder.AscendingUnique | lib/merkle-tree.js:13 | two strictly ascending lists with the same elements are equal |
| Encoding.BytesToHex | lib/merkle-tree.js:135 | `toString('hex')` writes two characters per byte |
| Encoding.HexRoundTrip | lib/merkle-tree.js:135 | the hex text decodes back to the same bytes |
| Encoding.BytesToHexAppend | lib/merkle-tree.js:135 | the hex of a concatenation is the concatenation of the hex strings |
| Encoding.BufferToHex | lib/merkle-tree.js:56 | `bufferToHex` is "0x" followed by two digits per byte |
| Encoding.ZeroBytesHex | lib/cumulative-payment-tree.js:49 | an all-zero buffer renders as all '0' digits |
| Encoding.BigEndian | lib/merkle-tree.js:82 | a word of the requested length |
| Encoding.BigEndianRoundTrip | lib/merkle-tree.js:82 | the padded word reads back as the number modulo 256^len (left-truncation of `setLengthLeft`) |
| Encoding.BigEndianOfValue | lib/merkle-tree.js:82 | every word is the padded form of its own value |
| Encoding.WordRoundTrip | lib/merkle-tree.js:82 | a prefix word holds the item modulo 2^256, and the item itself when it fits |
| Encoding.WordOfValue | lib/merkle-tree.js:82 | every 32-byte word is the prefix word of exactly one number below 2^256 |
| Encoding.Decimal | lib/cumulative-payment-tree.js:32 | the decimal rendering of an amount is non-empty and all digits |
| Encoding.DecimalRoundTrip | lib/cumulative-payment-tree.js:32 | the decimal rendering reads back as the amount |
| MerkleSpec.LeafDigestsSet | lib/merkle-tree.js:8 | the filtered, hashed list holds exactly the leaf hashes of the truthy records |
| MerkleSpec.Truthy | lib/merkle-tree.js:8 | `el => el`: only the empty string is falsy; every buffer is truthy |
| MerkleSpec.LeafDigests | lib/merkle-tree.js:8 | computes the leaf hash of each truthy record, in input order |
| MerkleSpec.DedupSpec | lib/merkle-tree.js:124-128 | deduplication leaves no repeats and loses no digest |
| MerkleSpec.Dedup | lib/merkle-tree.js:124-128 | computes the list keeping each digest at its first occurrence |
| MerkleSpec.Canonical | lib/merkle-tree.js:8-13 | computes the constructor's elements: filter and hash, deduplicate, sort |
| MerkleSpec.CanonicalSpec | lib/merkle-tree.js:8-13 | the constructed elements are strictly ascending, and their set is the set of leaf hashes of the truthy records |
| MerkleSpec.CanonicalDependsOnlyOnLeafSet | lib/merkle-tree.js:8-13 | two inputs with the same set of leaf hashes give the same elements |
| MerkleSpec.CanonicalIgnoresOrder | lib/merkle-tree.js:8-13 | reordering the input does not change the elements |
| MerkleSpec.DuplicateRecordIgnored | lib/merkle-tree.js:11 | a repeated record does not change the elements |
| MerkleSpec.SortAndConcat | lib/merkle-tree.js:138-140 | the concatenation is as long as both buffers together |
| MerkleSpec.SortAndConcatOrder | lib/merkle-tree.js:138-140 | the result is a+b or b+a, with the `Buffer.compare`-smaller buffer first |
| MerkleSpec.SortAndConcatCommutes | lib/merkle-tree.js:138-140 | the sorted concatenation does not depend on argument order |
| MerkleSpec.CombinedHash | lib/merkle-tree.js:45-49 | the result is absent only when both arguments are absent |
| MerkleSpec.CombinedHashCommutes | lib/merkle-tree.js:45-49 | combinedHash(a, b) == combinedHash(b, a) |
| MerkleSpec.CombinedHashIdentity | lib/merkle-tree.js:46-47 | combinedHash(a, absent) == a and combinedHash(absent, a) == a |
| MerkleSpec.NextLayer | lib/merkle-tree.js:34-43 | a layer of n entries has a next layer of ceil(n/2) entries |
| MerkleSpec.NextLayerAt | lib/merkle-tree.js:34-43 | entry k of the next layer is the hash of entries 2k and 2k+1, or entry 2k carried up when it is last |
| MerkleSpec.NextLayerEntries | lib/merkle-tree.js:34-43 | the entry rule above holds for every k |
| MerkleSpec.NextLayerDigests | lib/merkle-tree.js:38 | a layer of 32-byte entries has a next layer of 32-byte entries |
| MerkleSpec.BuildLayersStep | lib/merkle-tree.js:28-30 | the layers above a layer start with its next layer |
| MerkleSpec.BuildLayers | lib/merkle-tree.js:24-32 | computes the layers from a non-empty layer up to the first layer of one entry |
| MerkleSpec.LayersOf | lib/merkle-tree.js:19-33 | computes getLayers: the `['']` sentinel for no elements, otherwise the built layers |
| MerkleSpec.BuildLayersIsTree | lib/merkle-tree.js:24-32 | layer 0 is the input, each later layer is the next layer of the previous one, the top has one entry |
| MerkleSpec.LayersSpec | lib/merkle-tree.js:19-33 | the layers are the sentinel for no elements; otherwise they form a well-formed tree over the elements |
| MerkleSpec.TreeTail | lib/merkle-tree.js:28-30 | the layers above the bottom one form a tree too |
| MerkleSpec.PairIndexIsSibling | lib/merkle-tree.js:96 | the pair index is the one other index with the same parent |
| MerkleSpec.PairIndex | lib/merkle-tree.js:96 | `idx ^ 1`: differs from idx and has the same parent idx/2 |
| MerkleSpec.GetPairElement | lib/merkle-tree.js:95-103 | the entry at the pair index exactly when that index is in bounds, otherwise nothing |
| MerkleSpec.SiblingsStep | lib/merkle-tree.js:66-76 | one reduce step appends the in-bounds pair entry and halves the index |
| MerkleSpec.Siblings | lib/merkle-tree.js:66-76 | computes the sibling part of getProof: the in-bounds pair entry of each layer, halving the index; at most one entry per layer |
| MerkleSpec.ParentStep | lib/merkle-tree.js:38 | the parent of an entry is combinedHash of the entry and its pair entry |
| MerkleSpec.ProofSound | lib/merkle-tree.js:66-76 | folding combinedHash over the sibling path from a leaf reproduces the root; the path has at most layers-1 entries |
| MerkleSpec.ProofLayout | lib/merkle-tree.js:59-87 | a proof is the prefix words followed by 32-byte siblings that fold from the leaf to the root |
| MerkleSpec.FullTreeProofLength | lib/merkle-tree.js:66-76 | when every layer below the top has even length, the path has exactly layers-1 entries |
| MerkleSpec.SiblingsAreDigests | lib/merkle-tree.js:66-76 | every sibling is a 32-byte layer entry |
| MerkleSpec.Words | lib/merkle-tree.js:82 | one 32-byte word per prefix item |
| MerkleSpec.WordAt | lib/merkle-tree.js:82 | word i is the padded form of item i |
| MerkleSpec.WordsSpec | lib/merkle-tree.js:82 | word i holds item i modulo 2^256, in the given order |
| MerkleSpec.PrefixWordsSpec | lib/merkle-tree.js:78-84 | absent prefix or 0 gives no words; a single number is wrapped in a list; each item becomes its word, in order |
| MerkleSpec.PrefixWords | lib/merkle-tree.js:78-84 | computes the words put before the siblings from an absent, single or list prefix |
| MerkleSpec.JoinHexFlat | lib/merkle-tree.js:135 | joining the hex of each buffer is the hex of their concatenation |
| MerkleSpec.ArrToHexDecodes | lib/merkle-tree.js:130-136 | the hex proof starts with "0x" and decodes to the concatenated proof bytes |
| MerkleSpec.ArrToHexLayout | lib/merkle-tree.js:130-136 | a hex proof of n words has 2 + 64n characters, and word i sits at offset 2 + 64i |
| MerkleSpec.JoinHexLayout | lib/merkle-tree.js:135 | the joined hex of n words has 64n characters, and word i sits at offset 64i |
| MerkleSpec.JoinHex | lib/merkle-tree.js:135 | computes `arr.map(el => el.toString('hex')).join('')` |
| MerkleSpec.ArrToHex | lib/merkle-tree.js:130-136 | computes bufArrToHex: "0x" followed by the joined hex |
| MerkleSpec.QueryDigest | lib/merkle-tree.js:109-113 | computes the digest bufIndexOf looks for: a 32-byte buffer as it is, anything else leaf-hashed |
| MerkleSpec.IndexOf | lib/merkle-tree.js:115-121 | the first index holding the digest, -1 exactly when it is absent |
| Merkle.MerkleTree.constructor | lib/merkle-tree.js:6-17 | elements are the filtered, hashed, deduplicated, sorted records; the layers are built over them |
| Merkle.MerkleTree.GetLayers | lib/merkle-tree.js:19-33 | the while loop pushes next layers until one entry is left; the result equals the layer specification |
| Merkle.MerkleTree.GetNextLayer | lib/merkle-tree.js:34-43 | the reduce over even indices computes exactly the next layer |
| Merkle.MerkleTree.GetRoot | lib/merkle-tree.js:51-53 | the empty value for an empty tree, otherwise a 32-byte root; a single element is its own root |
| Merkle.MerkleTree.GetHexRoot | lib/merkle-tree.js:55-57 | "0x" and 64 hex digits that decode to the root; absent only for the empty tree |
| Merkle.MerkleTree.BufIndexOf | lib/merkle-tree.js:105-122 | the first index of the query digest (a 32-byte buffer as is, anything else leaf-hashed), or -1 |
| Merkle.MerkleTree.BufDedup | lib/merkle-tree.js:124-128 | keeps each entry whose first index is its own, which is the deduplication specification |
| Merkle.MerkleTree.ProofFor | lib/merkle-tree.js:59-87 | fails exactly when the query is not a leaf; otherwise gives the prefix words, then at most layers-1 32-byte siblings that fold to getRoot() |
| Merkle.MerkleTree.GetProof | lib/merkle-tree.js:59-87 | throws NotFound or returns the proof above, built by walking the layers |
| Merkle.MerkleTree.GetHexProof | lib/merkle-tree.js:89-93 | fails exactly when the element is not a leaf; otherwise is bufArrToHex of the proof: 2 + 64 characters per word, word i at offset 2 + 64i |
| PaymentSpec.Group | lib/cumulative-payment-tree.js:27-31 | one reduced entry per grouped payee |
| PaymentSpec.Filtered | lib/cumulative-payment-tree.js:25 | computes `paymentList.filter(payment => payment.payee && payment.amount)`, keeping the order |
| PaymentSpec.Payees | lib/cumulative-payment-tree.js:26-27 | computes the group keys in first-occurrence order |
| PaymentSpec.SumFor | lib/cumulative-payment-tree.js:29 | computes the `_.reduce` sum of one payee's amounts |
| PaymentSpec.Reduced | lib/cumulative-payment-tree.js:26-31 | computes reducedPaymentList: one entry per key holding the summed amount |
| PaymentSpec.FilteredSpec | lib/cumulative-payment-tree.js:25 | the filter keeps exactly the entries with a non-empty payee and a non-zero amount |
| PaymentSpec.PayeesSpec | lib/cumulative-payment-tree.js:26-27 | the group keys are distinct and are exactly the payees that occur |
| PaymentSpec.FilteredSum | lib/cumulative-payment-tree.js:25 | dropping falsy entries changes no non-empty payee's total |
| PaymentSpec.FilteredTotal | lib/cumulative-payment-tree.js:25 | what the filter drops adds up to what is paid to the empty payee |
| PaymentSpec.SumForAbsent | lib/cumulative-payment-tree.js:29 | a payee that does not occur is paid nothing |
| PaymentSpec.SumForPositive | lib/cumulative-payment-tree.js:29 | with positive amounts, every payee that occurs has a positive sum |
| PaymentSpec.GroupExtend | lib/cumulative-payment-tree.js:29 | one more payment adds its amount to its payee's group |
| PaymentSpec.GroupNothing | lib/cumulative-payment-tree.js:29 | grouping no payments gives zero everywhere |
| PaymentSpec.GroupTotal | lib/cumulative-payment-tree.js:26-31 | grouping by distinct payees that cover every entry conserves the total |
| PaymentSpec.ReducedSpec | lib/cumulative-payment-tree.js:25-31 | exactly one entry per distinct payee of a kept payment; each amount is that payee's full total and is positive |
| PaymentSpec.ReducedTotal | lib/cumulative-payment-tree.js:25-31 | reduced total plus what was paid to the empty payee equals the total paid |
| PaymentSpec.LastCommaAfter | lib/cumulative-payment-tree.js:32 | the last comma of a node is the one before the amount |
| PaymentSpec.NodeRoundTrip | lib/cumulative-payment-tree.js:32 | a node `payee,amount` reads back as its payment |
| PaymentSpec.EncodeNode | lib/cumulative-payment-tree.js:32 | `payee + ',' + amount`: the payee, then a comma at its end, then the decimal amount |
| PaymentSpec.Nodes | lib/cumulative-payment-tree.js:32 | paymentNodes: one node per reduced entry, in the same order |
| PaymentSpec.NodesDistinct | lib/cumulative-payment-tree.js:32 | distinct payees give distinct, non-empty nodes |
| PaymentSpec.AmountForSpec | lib/cumulative-payment-tree.js:40-45 | the amount of the first entry whose payee equals p exactly, 0 when there is none |
| PaymentSpec.AmountForUnique | lib/cumulative-payment-tree.js:40-45 | with distinct payees and positive amounts: positive exactly when p is a payee, and then p's amount |
| PaymentSpec.AmountForReduced | lib/cumulative-payment-tree.js:40-45 | on the reduced list the lookup gives p's total over the raw list, and 0 for the empty payee |
| PaymentSpec.AmountFor | lib/cumulative-payment-tree.js:41-44 | computes `_.find(paymentList, { payee })` then `.amount`, or 0 when nothing is found |
| PaymentSpec.IndexOfFrom | lib/cumulative-payment-tree.js:48 | `indexOf`: the first position from which p occurs, or -1 |
| PaymentSpec.ContainsSpec | lib/cumulative-payment-tree.js:48 | `indexOf(p) > -1` holds exactly when p occurs in the string |
| PaymentSpec.Contains | lib/cumulative-payment-tree.js:48 | computes `paymentNode.indexOf(payee) > -1` |
| PaymentSpec.FindNode | lib/cumulative-payment-tree.js:48 | computes `paymentNodes.find(...)`: the first node containing the payee, or nothing |
| PaymentSpec.OwnPayeeContained | lib/cumulative-payment-tree.js:48 | every node contains its own payee |
| PaymentSpec.FindNodeSpec | lib/cumulative-payment-tree.js:48 | `find` gives nothing exactly when no node contains p; otherwise it gives a node that contains p, and no earlier node contains p |
| PaymentSpec.PayeeFindsNode | lib/cumulative-payment-tree.js:48 | every payee of the reduced list finds a node |
| PaymentSpec.SubstringMatchPicksOtherNode | lib/cumulative-payment-tree.js:48-51 | for payees "0xab" and "b", looking up "b" finds the node "0xab,1" while its amount is 2 |
| PaymentSpec.AddressLike | lib/cumulative-payment-tree.js:6-19 | an Ethereum-style payee: fixed length, no comma, at least one non-digit character |
| PaymentSpec.OnlyOwnPayeeContained | lib/cumulative-payment-tree.js:48 | between address-like payees of one length, a node contains only its own payee |
| PaymentSpec.AddressFindsOwnNode | lib/cumulative-payment-tree.js:48 | with address-like payees of one length, the substring match finds the payee's own node |
| PaymentSpec.AddressNodeMatchesAmount | lib/cumulative-payment-tree.js:48-51 | with address-like payees, the proved node reads back as the payee and the amount put in the prefix |
| Payments.ZeroProof | lib/cumulative-payment-tree.js:49 | `bufferToHex(zeros(32))` is "0x" and 64 '0' digits |
| Payments.NodeIsLeaf | lib/cumulative-payment-tree.js:34 | the leaf hash of every non-empty payment node is among the tree's elements |
| Payments.NodeValues | lib/cumulative-payment-tree.js:34 | the strings handed to the MerkleTree constructor, one per node |
| Payments.FoundNodeIsLeaf | lib/cumulative-payment-tree.js:48-51 | the node found by substring match is a leaf, so getHexProof cannot throw |
| Payments.TwoWords | lib/cumulative-payment-tree.js:51 | the prefix [paymentCycle, amount] becomes exactly those two words |
| Payments.PrefixedHex | lib/cumulative-payment-tree.js:51 | a hex proof that starts with those two words starts with their hex |
| Payments.CumulativePaymentTree.constructor | lib/cumulative-payment-tree.js:24-38 | the payment list is the reduced list, the nodes render it, and the tree is built over the nodes |
| Payments.CumulativePaymentTree.AmountForPayee | lib/cumulative-payment-tree.js:40-45 | positive exactly when p is a payee, and then that payee's amount; 0 otherwise |
| Payments.CumulativePaymentTree.HexProofForPayee | lib/cumulative-payment-tree.js:47-52 | the zero word when no node contains p; otherwise the hex proof of the first such node, starting with the words of the cycle and the amount |

The substring match is safe for real Ethereum addresses, which all have the same
length, contain no comma and contain the non-digit `x`. `AddressFindsOwnNode`
proves that such a payee is found only in its own node. `AddressNodeMatchesAmount`
proves that this node reads back as the payee and the prefix amount.
`SubstringMatchPicksOtherNode` shows that arbitrary payee strings have no such
guarantee.

## Left out

- Keccak-256, `soliditySha3` and `hexToBytes` are library code. They are parameters: the tree's `keccak` is any total function to 32 bytes, and `leafHash` stands for `sha3`. How `sha3` reads `node["payee"]` and `node["amount"]` is not modelled.
- Records are strings or buffers. Other JavaScript values passed to the constructor are not modelled: numbers, objects and `null`.
- Prefix items are non-negative integers. `toBuffer` of strings, hex text and negative numbers is not modelled.
- Amounts and payment cycles are unbounded naturals. Floating-point sums and number-to-string forms other than plain integers are not modelled.
- `_.groupBy` key order is modelled as first-occurrence order. JavaScript's `Object.keys` lists integer-like keys first, in ascending order. The order does not change the tree, because `CanonicalIgnoresOrder` shows the leaves are sorted. It does decide which node HexProofForPayee picks when several nodes contain the payee. So for integer-like payee strings the model can differ from the source: for payments `("12", 5)` and `("1", 3)` the source proves the node `1,3` for payee `1`, and the model proves `12,5`. For address-like payees only one node contains the payee (`AddressFindsOwnNode`), so the order does not matter.
- Merkle.MerkleTree.GetHexRoot: for the empty tree it returns None instead of `bufferToHex('')`, because converting the `''` sentinel is library behaviour.
- bufArrToHex's "Array is not an array of buffers" error is unreachable. Proof entries are byte sequences by type.
- `Array.prototype.sort` sorts `this.elements` in place. It is modelled as a value-level insertion sort, and the field is reassigned.
- The `reduce` callbacks of getNextLayer and getProof are modelled as `for` loops over the indices, with the same accumulators.
- `CumulativePaymentTree extends MerkleTree` is modelled by composition: the class holds the `MerkleTree` it builds as `tree`, and the inherited methods are called on it.
- The test suites, the Truffle configuration and the module re-exports are not part of this model.
