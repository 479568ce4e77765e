# Verified model of a Kademlia node with vanishing data

This project models, in Dafny, the three parts of the system that carry its hard guarantees, and proves them.

* **Secret sharing.** `Gf256Tables`, `Gf256`, `LogTable` and `Field` model the table-driven arithmetic of GF(2^8) and
  prove that it is the field of section 4.2 of FIPS 197. `Polynomial` is the theory of polynomials and Lagrange
  interpolation over any field of characteristic two. `Sss` models evaluation, generation, interpolation, splitting and
  combining, and proves recovery, what missing shares leave open, and which numbers of shares are always too few.
  `Vanish` models the vanishing data object built on top, up to the round trip through the distributed store.
* **The routing table.** `Ids` models the 160-bit identifiers and their xor metric, `BucketLists` the doubly linked
  k-buckets on the heap, `RoutingTable` the table of 160 buckets, its updates, look-up, and the two-sided walk that
  collects near contacts. `TableHistory` says what the contents of the table tell about the updates before.
  `TableActor` models the goroutine that owns the table and the protocol its clients follow, and `TableAnswers` says
  what each command is answered.
* **The iterative lookup.** `PriorityQueue` and `CandidateHeap` model the distance-ordered heaps. `LookupRun` defines
  the two phases of the lookup, with queries in flight, late replies and timeouts, as a function of what happens.
  `Lookup` is the program itself, which carries out that function and keeps account of every identifier. `LookupSize`
  says when a lookup returns more contacts than it should, and `LookupValue` which values it returns and can find.

`Sequences`, `Options` and `Bytes` hold shared definitions. `dafny verify dfyconfig.toml` checks everything.

## How the program is modelled

* Bytes are 8-bit vectors where they are xored or multiplied. Where a byte counts something (`n`, `k`, a share number)
  it is an integer below 256, and the wrap-around is written out: `degree - 1` at degree 0 is 255 (`MiddleCount`), and
  the byte loop of `Split` never ends at n = 255 (`HolderLoopEnds`), so its precondition `Ends` excludes exactly the
  calls that reach the loop with that n.
* The tables `exp` and `log` are written as matches on the two nibbles of the index, sixteen entries a row, so that a
  statement about all 256 entries is one proof.
* Goroutines and channels become steps. The actor and its clients are a transition system over arbitrary interleavings.
  A lookup is driven by a schedule: an arbitrary finite sequence of replies and timeouts, taken in order, where an event
  that cannot happen (a reply from a contact that is not in flight, a timeout in the phase without a timer) is skipped. A
  schedule that ends early leaves the run waiting, so what is proved of every schedule holds at every moment of every run.
* `InternalPing` becomes a boolean parameter of each update. The random byte stream is a finite sequence, and running out
  is an error. The ciphers, the random keys and the locations drawn from an access key are parameters; the cipher is
  assumed to keep lengths and to decrypt what it encrypts. The store returns what was last written.
* `FindCloset` and `FindAlpha` differ only in whether the target itself is skipped, and so do the two functions that
  fill the short list; each pair is one method with a flag.
* The operations of the container/heap package are written out over the queue's own comparison and swap. The
  identifier set of the candidate heap is keyed by the identifier instead of by its hexadecimal string.

## Where the code and its description differ

* A bucket holds up to 21 contacts, not 20: exactly as many as distinct identifiers were offered to it, until there are
  21 (`Occupancy`), and `BucketOf21` gives a run that fills one. The length field counts evicted heads for ever (`RunOk`,
  `LengthDecidesAsCount`).
* A contact seen again moves to the tail exactly when it is not the head of a longer bucket, and the stored contact is
  the one kept (`TouchedKeepsContacts`).
* `FindCloset` is described as finding the k nearest contacts. It returns contacts in the order of the walk, cut off at
  20. A contact comes back if and only if fewer than 20 eligible ones precede it (`ReturnedIffFewPrecede`), a number
  known from the buckets (`PrecedingCount`); for the nearest contact that is `ClosestReturnedIff`. Every bucket below the
  target's own precedes the buckets at least as far above it, although all contacts of those are nearer
  (`LowerBucketFirst`), so that with 20 contacts below the nearest one is left out and everything returned is farther
  (`LowerBucketsCrowdOut`). Every node can come to such a table by updates (`NearestLeftOut`). The result is the 20
  nearest exactly when each of those has fewer than 20 before it (`NearestReturnedIff`).
* The package comment of the secret sharing promises that fewer than K shares give a wrong secret. That holds for every
  random stream if and only if there are exactly K - 1 of them, or none (`WrongForEveryStream`). `OneShareOfThree` is a
  single share out of three required ones that is the secret itself.
* A lookup is described as returning at most k = 20 nodes (kademlia/README.txt:72). It can return more if and only if it
  looks for nodes and starts with a contact that is neither the node itself nor the owner of the key
  (`CanExceedTwenty`). Among peers whose answers never list the key's owner, as those of this program do not, that
  contact must also be at distance 2 or more from the key (`CanExceedIff`). A run exceeds 20 exactly when its
  first phase hears more than 20 answers (`ExceedsIffFirstPhaseDoes`); the second phase never passes 20. The list has at
  most 22 contacts without timeouts or with one, and at most 19 + 3t with t timeouts (`Iterative`), and both bounds are
  reached (`CanExceedIff`, `BoundIsReached`).

## Model

| member | source | states |
|---|---|---|
| Gf256.ExpStep | kademlia/src/sss/gf256.go:32-56 | each entry of the exponent table is three times the one before it in the field, and no entry is zero |
| Gf256.ExpEnds | kademlia/src/sss/gf256.go:32-56 | the exponent table starts and ends at 1 |
| Gf256.LogInvertsExp | kademlia/src/sss/gf256.go:57-80 | the logarithm of every non-zero byte is below 255 and its power is that byte |
| Gf256.TableIsValid | kademlia/src/sss/gf256.go:31-81 | the two tables, with xor, meet every condition under which a table of powers makes a field |
| Gf256.MulIsFieldMul | kademlia/src/sss/gf256.go:3-8 | table multiplication is the product of a structure satisfying all the field laws |
| Gf256.DivIsFieldDiv | kademlia/src/sss/gf256.go:10-25 | table division, with Go's truncating remainder, is the quotient of that field |
| Gf256.FieldIsValid | kademlia/src/sss/gf256.go:31-81 | xor, table multiplication and table division satisfy the field laws, with every element its own negative |
| Gf256.MulIsTimes | kademlia/src/sss/gf256.go:3-8 | table multiplication equals shift-and-reduce multiplication modulo 0x11b as FIPS 197 defines it, for all pairs |
| Gf256.GoRemainder | kademlia/src/sss/gf256.go:19-22 | after the correction by 255, Go's remainder is the mathematical one |
| LogTable.LogTable.IsField | kademlia/src/sss/gf256.go:3-25 | adding and subtracting exponents modulo 255 makes a field from any valid table of powers |
| LogTable.LogTable.MulAssociates | kademlia/src/sss/gf256.go:3-8 | multiplication by adding exponents is associative, zeros included |
| LogTable.LogTable.MulDistributes | kademlia/src/sss/gf256.go:3-8 | multiplication by adding exponents distributes over the addition |
| LogTable.LogTable.DivInverts | kademlia/src/sss/gf256.go:10-25 | a quotient times its non-zero denominator is the numerator |
| Sss.Eval | kademlia/src/sss/polynomial.go:11-17 | the loop computes the value of the polynomial in the field |
| Polynomial.ValueIsPowerSum | kademlia/src/sss/polynomial.go:11-17 | Horner's scheme equals the sum of coefficients times powers, for lists of any length |
| Polynomial.ValueOfSum | kademlia/src/sss/polynomial.go:11-17 | evaluation is additive in the coefficients |
| Polynomial.ValueOfScale | kademlia/src/sss/polynomial.go:11-17 | evaluation is homogeneous in the coefficients |
| Sss.Generate | kademlia/src/sss/polynomial.go:20-45 | the polynomial, the bytes consumed and the error are a function of the degree, the constant and the stream |
| Sss.NextNonZero | kademlia/src/sss/polynomial.go:33-44 | reads up to and including the first non-zero byte, or fails when there is none |
| Sss.GenerateReaches | kademlia/src/sss/polynomial.go:20-45 | the possible results are exactly the polynomials of the degree with that constant term and a non-zero leading coefficient |
| Sss.GenerationReads | kademlia/src/sss/polynomial.go:20-45 | the coefficients are the constant, the next degree - 1 bytes and the first byte after them that is not zero, nothing further is consumed, and the read fails if and only if there is no such byte |
| Sss.GenerationOfDegreeZero | kademlia/src/sss/polynomial.go:20-45 | at degree 0 the byte counter wraps: 255 bytes are dropped, and the next one that is not zero replaces the constant |
| Sss.Interpolate | kademlia/src/sss/polynomial.go:53-67 | for points with distinct x the loops compute the Lagrange sum and never divide by zero |
| Polynomial.InterpolationThrough | kademlia/src/sss/polynomial.go:53-67 | interpolation passes through every given point |
| Polynomial.InterpolationAgrees | kademlia/src/sss/polynomial.go:53-67 | at every x, interpolation agrees with any polynomial through the points that has no more coefficients than there are points |
| Polynomial.InterpolationOrderIndependent | kademlia/src/sss/polynomial.go:53-67 | the order of the points does not matter |
| Polynomial.RootCounting | kademlia/src/sss/polynomial.go:53-67 | a polynomial with at least as many distinct roots as coefficients is zero |
| Polynomial.LagrangeUnique | kademlia/src/sss/polynomial.go:53-67 | one coefficient list of the length of the points passes through them |
| Polynomial.OnePointShort | kademlia/src/sss/polynomial.go:33-43 | with one point too few, a polynomial of exact degree with constant s passes through the points if and only if s is not the interpolated value and it is one particular polynomial |
| Polynomial.FewPointsExcludeNothing | kademlia/src/sss/sss.go:31-32 | a given constant term is possible for a polynomial of full length through given points if and only if two points are missing or it is not the interpolated value |
| Sss.Split | kademlia/src/sss/sss.go:55-78 | the two error cases, the read error, and otherwise that share x holds, for each byte of the secret in order, the value at x of the polynomial drawn for it |
| Sss.HolderLoopEnds | kademlia/src/sss/sss.go:72 | the loop over the holders, with its byte counter, runs for ever exactly when n is 255, and otherwise takes n turns |
| Sss.PolynomialsShape | kademlia/src/sss/sss.go:66-70 | each byte's polynomial has k coefficients, the byte as constant term and a non-zero leading coefficient |
| Sss.Combine | kademlia/src/sss/sss.go:84-102 | every byte is the interpolation at 0 of the shares' points, whatever the order of map iteration; the share met first gives the length, and a shorter one makes the program fault |
| Sss.ListingOrderIndependent | kademlia/src/sss/sss.go:94-98 | two iteration orders over the same shares give the same byte |
| Sss.CombineRecovers | kademlia/src/sss/sss.go:52-102 | any k or more of the shares that splitting made give back exactly the secret, for every random stream |
| Sss.CombineMisses | kademlia/src/sss/sss.go:84-102 | exactly k - 1 shares give a string that differs from the secret in every byte |
| Sss.WrongForEveryStream | kademlia/src/sss/sss.go:31-32 | the shares of given holders give a wrong secret for every random stream if and only if there are exactly k - 1 of them, or none |
| Sss.OneShareOfThree | kademlia/src/sss/sss.go:31-32 | a stream for which one share of three required ones combines to the secret |
| Sss.PointsLeaveSecretOpen | kademlia/src/sss/sss.go:31-32 | through k - 1 points, every byte but one is the constant term of exactly one polynomial that can be drawn, and the excluded byte of none |
| Vanish.Encrypt | kademlia/src/libkademlia/vanish.go:55-68 | the ciphertext is the initialisation vector followed by the encrypted text, and a key of a length that AES does not take panics |
| Vanish.Decrypt | kademlia/src/libkademlia/vanish.go:70-84 | decryption returns the text, overwrites the ciphertext behind the vector with it, and panics on a bad key length or a short ciphertext |
| Vanish.ScatterShares | kademlia/src/libkademlia/vanish.go:121-127 | the store after the loop is the old one with each framed share written to its location in turn, in some order of the share map |
| Vanish.ScatterKeepsOthers | kademlia/src/libkademlia/vanish.go:121-127 | no other location of the store changes |
| Vanish.VanishData | kademlia/src/libkademlia/vanish.go:112-135 | the object returned, the shares made (none when splitting fails) and the store left behind |
| Vanish.GatherShares | kademlia/src/libkademlia/vanish.go:145-155 | the share map collected, how many locations are read, and the panic on a location that holds nothing |
| Vanish.GatherStops | kademlia/src/libkademlia/vanish.go:152-154 | once there are as many shares as the threshold, reading on would change nothing |
| Vanish.GatheredAreLastRead | kademlia/src/libkademlia/vanish.go:145-155 | whatever the store holds, the shares gathered are the last contents read for each share number |
| Vanish.GatherCollects | kademlia/src/libkademlia/vanish.go:145-155 | reading scattered shares collects one for each distinct location read, up to the threshold |
| Vanish.UnvanishData | kademlia/src/libkademlia/vanish.go:137-160 | the text is the decryption under the combination of the gathered shares; panics on an empty location, on a share shorter than the first one met and on lengths that decryption does not take |
| Vanish.ScatteredIsGathered | kademlia/src/libkademlia/vanish.go:121-155 | what comes back from the locations is a selection of the shares of the size of the threshold, or of the number of distinct locations if that is less |
| Vanish.VanishThenUnvanish | kademlia/src/libkademlia/vanish.go:112-160 | the data comes back when at least the threshold of the locations are distinct |
| Vanish.TooFewLocations | kademlia/src/libkademlia/vanish.go:145-157 | with one distinct location too few the recovered key is wrong in every byte |
| Ids.Xor | kademlia/src/libkademlia/id.go:22-27 | the loop computes the bytewise xor |
| Ids.Compare | kademlia/src/libkademlia/id.go:30-43 | the result is the sign of the comparison of the big-endian numbers, and zero only for equal identifiers |
| Ids.PrefixLen | kademlia/src/libkademlia/id.go:54-63 | the loops compute the number of leading zero bits, 159 for the zero identifier |
| Ids.PrefixLengthBounds | kademlia/src/libkademlia/id.go:54-63 | prefix length p of a non-zero identifier means a number between 2^(159-p) and 2^(160-p) |
| Ids.DistanceZero | kademlia/src/libkademlia/id.go:22-51 | the distance is zero exactly between equal identifiers |
| Ids.DistanceSymmetric | kademlia/src/libkademlia/id.go:22-51 | the distance is symmetric |
| Ids.DistanceTriangle | kademlia/src/libkademlia/id.go:22-51 | the distance satisfies the triangle inequality |
| Ids.DistanceInjective | kademlia/src/libkademlia/pq.go:15-19 | from one key, equal distances mean equal identifiers, so that the order of contacts is total |
| Ids.DistanceSurjective | kademlia/src/libkademlia/id.go:22-27 | from one key every distance is reached |
| Ids.OwnPrefixIsCloser | kademlia/src/libkademlia/table.go:114-119 | a contact of the target's own bucket is strictly closer to the target than a contact of any other bucket, the last bucket included |
| Ids.LongerPrefixIsCloser | kademlia/src/libkademlia/table.go:120-129 | a contact of a bucket above the target's own is closer to the target than one of a bucket below it |
| BucketLists.BucketList.Push | kademlia/src/libkademlia/bucketlist.go:44-55 | appends to the sequence of contacts, adds one to the length field and keeps the list well linked |
| BucketLists.BucketList.Find | kademlia/src/libkademlia/bucketlist.go:65-75 | the first node with the identifier, or none when there is none |
| BucketLists.BucketList.DeleteFrontInsert | kademlia/src/libkademlia/bucketlist.go:84-90 | drops the first contact and appends the new one, while the length field still grows |
| BucketLists.BucketList.Unlink | kademlia/src/libkademlia/bucketlist.go:112-113 | takes an interior node out of the chain |
| BucketLists.BucketList.MoveToTail | kademlia/src/libkademlia/bucketlist.go:105-117 | moves an interior contact to the end, and does nothing at the head or the tail |
| RoutingTable.TouchedKeepsContacts | kademlia/src/libkademlia/bucketlist.go:105-117 | moving to the tail keeps the contacts as a multiset, the length field and the head; the contact ends up last exactly when it was not the head of a longer bucket |
| RoutingTable.UpdatedBucketOk | kademlia/src/libkademlia/table.go:31-51 | an update keeps the bucket's invariant: right prefix length, distinct identifiers, at most 21 contacts, length field exact unless full |
| RoutingTable.RunOk | kademlia/src/libkademlia/table.go:31-51 | over every run of updates and ping outcomes the invariant holds, and the length field is the number of contacts plus the evictions so far |
| RoutingTable.LengthDecidesAsCount | kademlia/src/libkademlia/table.go:38-47 | the length field admits a contact exactly when the real count would, and a bucket that evicts has a second node |
| RoutingTable.Occupancy | kademlia/src/libkademlia/table.go:36-50 | after every run a bucket holds as many contacts as distinct identifiers were offered to it, up to 21 |
| RoutingTable.BucketOf21 | kademlia/src/libkademlia/table.go:38-39 | in every table a run fills a bucket with 21 contacts |
| TableHistory.EveryContactWasOffered | kademlia/src/libkademlia/table.go:36-50 | every contact in the table is one that was offered, host and port included, as it was when its identifier was admitted |
| TableHistory.RunInOrder | kademlia/src/libkademlia/table.go:36-50 | after every run the contacts behind the head of a bucket stand in the order in which they were last offered |
| TableHistory.OneMoreOffering | kademlia/src/libkademlia/table.go:36-50 | after any run, one more offering of a known contact keeps who is there and the head, a new one joins at the end while there are fewer than 21, and then replaces the head unless that answers; other buckets stay |
| RoutingTable.OnePlace | kademlia/src/libkademlia/table.go:31-62 | an identifier occurs at one place of the table at most, in the bucket of its prefix length |
| RoutingTable.RoutingTable.constructor | kademlia/src/libkademlia/table.go:11-18 | a new table is 160 empty buckets |
| RoutingTable.RoutingTable.UpDateBucket | kademlia/src/libkademlia/table.go:36-50 | the four cases of an update, carried out on the linked list |
| RoutingTable.RoutingTable.UpDate | kademlia/src/libkademlia/table.go:31-51 | the heap structure follows the update of the table's value, in the contact's bucket alone, and stays valid |
| RoutingTable.RoutingTable.FindContact | kademlia/src/libkademlia/table.go:53-62 | searching one bucket finds an identifier exactly when some bucket of the table holds it |
| RoutingTable.RoutingTable.CreateShortList | kademlia/src/libkademlia/table.go:71-93 | appends the bucket's contacts in order, without the target unless it is included, up to 20 in all |
| RoutingTable.RoutingTable.FindNear | kademlia/src/libkademlia/table.go:95-131 | returns the first 20 contacts in the order of the complete two-sided walk, and terminates |
| RoutingTable.WalkVisitsEachOnce | kademlia/src/libkademlia/table.go:120-129 | from every start the walk visits each of the 160 buckets exactly once |
| RoutingTable.RouteOrder | kademlia/src/libkademlia/table.go:114-130 | the walk goes outwards from the target's bucket, at each distance the lower bucket first |
| RoutingTable.PlaceInShortlist | kademlia/src/libkademlia/table.go:71-131 | the contact at place i of the result has exactly i eligible contacts before it on the walk |
| RoutingTable.ShortlistFacts | kademlia/src/libkademlia/table.go:95-131 | the result has 20 of the eligible contacts, or all if fewer, with distinct identifiers, and never the target when it is skipped |
| RoutingTable.AllReturnedIffRoom | kademlia/src/libkademlia/table.go:95-131 | every eligible contact is returned if and only if there are at most 20 |
| RoutingTable.OwnBucketReturned | kademlia/src/libkademlia/table.go:114-119 | up to 20 contacts of the target's own bucket are all returned |
| RoutingTable.ReturnedIffFewPrecede | kademlia/src/libkademlia/table.go:71-131 | an eligible contact is returned if and only if fewer than 20 eligible contacts precede it on the complete walk |
| RoutingTable.PrecedingCount | kademlia/src/libkademlia/table.go:114-131 | that number is what the buckets visited earlier hold, plus what precedes the contact in its own bucket |
| RoutingTable.NearestReturnedIff | kademlia/src/libkademlia/table.go:114-131 | the result is the 20 nearest eligible contacts if and only if each of those has fewer than 20 eligible contacts before it on the walk |
| RoutingTable.ClosestReturned | kademlia/src/libkademlia/table.go:114-131 | with between 1 and 20 contacts in the target's own bucket, the result holds a contact as close as any known one |
| RoutingTable.ClosestReturnedIff | kademlia/src/libkademlia/table.go:114-131 | a contact as close as any known one is returned if and only if fewer than 20 eligible contacts precede the closest, which is in the target's own bucket unless that is empty, then above it, then below |
| RoutingTable.LowerBucketFirst | kademlia/src/libkademlia/table.go:120-129 | a contact of a bucket at distance i below the target's own precedes every contact of a bucket at distance i or more above it, which is nearer and comes back only if the farther one does |
| RoutingTable.LowerBucketsCrowdOut | kademlia/src/libkademlia/table.go:120-129 | when the walk meets 20 contacts below before it reaches the nearest bucket above, the contacts there are left out and everything returned is farther |
| RoutingTable.NearestLeftOut | kademlia/src/libkademlia/table.go:114-131 | for every node a run of updates and a target for which a known contact is left out and everything returned is farther |
| TableActor.TableActor.RegisterClient | kademlia/src/libkademlia/libkademlia.go:192-199 | a registration stores the client's channel in the map of its kind |
| TableActor.TableActor.UpdateTable | kademlia/src/libkademlia/libkademlia.go:200-202 | an update command updates the table |
| TableActor.TableActor.ComputeAnswer | kademlia/src/libkademlia/libkademlia.go:206-227 | the answer to each of the four commands |
| TableActor.TableActor.Find | kademlia/src/libkademlia/libkademlia.go:203-230 | the answer goes to the channel registered under the command's identifier, which is then removed |
| TableActor.RunInv | kademlia/src/libkademlia/libkademlia.go:186-233 | over every interleaving the invariant of registrations, sessions and the busy actor holds |
| TableActor.AnswerReachesAsker | kademlia/src/libkademlia/rpcs.go:82-95 | for every command taken there is a registered channel with its receiver waiting; the answer reaches the session that asked and no other, and only its registration ends |
| TableActor.RegisteredWhileWaiting | kademlia/src/libkademlia/rpcs.go:115-129 | a session is registered exactly between registering and its answer |
| TableAnswers.AnswerDelivered | kademlia/src/libkademlia/libkademlia.go:203-230 | over every interleaving: find-node and find-value receive 20 contacts or all there are, never the key's own, in the order of the walk, find-value with the value last stored under the key; find-alpha draws on all contacts; find-contact receives the contact exactly when some bucket holds it |
| TableAnswers.StoreHoldsLastPut | kademlia/src/libkademlia/libkademlia.go:213-219 | a key holds what was last put under it, or what it held at the start |
| TableAnswers.TableFollowsUpdates | kademlia/src/libkademlia/libkademlia.go:200-202 | the table is the one that the updates among the steps make |
| PriorityQueue.PriorityQueue.ContactLess | kademlia/src/libkademlia/pq.go:15-19 | compares the distances to the key |
| PriorityQueue.PriorityQueue.Swap | kademlia/src/libkademlia/pq.go:25-27 | exchanges two entries and keeps the contacts |
| PriorityQueue.PriorityQueue.HeapPush | kademlia/src/libkademlia/pq.go:37-39 | adds the contact and keeps the heap order |
| PriorityQueue.PriorityQueue.HeapPop | kademlia/src/libkademlia/pq.go:29-35 | removes a contact that no other is closer than, and keeps the heap order and the others |
| PriorityQueue.PriorityQueue.Peek | kademlia/src/libkademlia/pq.go:41-46 | the root, or the node's own contact when empty |
| PriorityQueue.RootIsClosest | kademlia/src/libkademlia/pq.go:41-46 | in heap order nothing is closer to the key than the root |
| CandidateHeap.CandidateHeap.Push | kademlia/src/libkademlia/libkademlia.go:537-548 | what is queued and what is marked as seen, as functions of the contacts offered |
| CandidateHeap.FreshIsFirst | kademlia/src/libkademlia/libkademlia.go:539-547 | a contact is queued exactly when it is the first one offered with an identifier that is new and not the node's own |
| CandidateHeap.FreshIds | kademlia/src/libkademlia/libkademlia.go:539-547 | the identifiers queued are exactly those newly seen |
| CandidateHeap.CandidateHeap.PopClosest | kademlia/src/libkademlia/libkademlia.go:549-556 | the batch popped is the n nearest candidates |
| CandidateHeap.BatchFacts | kademlia/src/libkademlia/libkademlia.go:549-556 | a batch has n candidates or all there are, in strictly increasing distance, and everything left is farther |
| Lookup.PartitionQuery | kademlia/src/libkademlia/libkademlia.go:595-601 | querying a pending identifier keeps every identifier in one place and queried once |
| Lookup.PartitionReply | kademlia/src/libkademlia/libkademlia.go:605-636 | a reply moves one identifier from in flight to answered, failed or value returned, and keeps the partition |
| Lookup.Lookup.Dispatch | kademlia/src/libkademlia/libkademlia.go:594-601 | exactly the nearest pending contacts are asked |
| Lookup.Lookup.FirstReply | kademlia/src/libkademlia/libkademlia.go:605-636 | what a failure, a value and an answer do to the search, and which of them ends the phase |
| Lookup.Lookup.FirstAnswer | kademlia/src/libkademlia/libkademlia.go:616-635 | an answer that offers nothing closer than the closest earlier answer ends the phase and queues nothing; any other queues what is new |
| Lookup.Lookup.SecondReply | kademlia/src/libkademlia/libkademlia.go:661-672 | the second phase records answers and discards what they offer |
| Lookup.Lookup.TakeFirst | kademlia/src/libkademlia/libkademlia.go:602-645 | one turn of the loop takes one event: a timeout, a reply that is counted, or one that cannot happen |
| Lookup.Lookup.FirstBatch | kademlia/src/libkademlia/libkademlia.go:602-645 | carries out the batch as the schedule determines it; a batch that is not empty takes no more replies than it has queries, so that there are at most 19 + 3 max(1, t) answers after t timeouts |
| Lookup.Lookup.SecondBatch | kademlia/src/libkademlia/libkademlia.go:659-683 | carries out the batch as the schedule determines it, never passes 20 answers, and gives up only when nothing is pending |
| Lookup.Lookup.Drain | kademlia/src/libkademlia/libkademlia.go:691-693 | lists exactly the answers, in strictly increasing distance |
| Lookup.Iterative | kademlia/src/libkademlia/libkademlia.go:561-696 | the outcome is the one that the schedule determines; at every moment each identifier seen is in exactly one of pending, in flight, answered, failed or value returned, queried at most once and never the node itself; a returned list is all the answers in strictly increasing distance, at most 19 + 3 max(1, t) with t timeouts; a value lookup's target is the closest answer, or the node itself; a value returned is the one in the last event, a reply of a contact that was asked; without a value the lookup stops only at 20 answers or with nothing pending |
| LookupValue.ValueReturnedIff | kademlia/src/libkademlia/libkademlia.go:607-615 | a value is returned if and only if a value lookup that still waits is sent it by a contact that it asked |
| LookupValue.BroughtComesBack | kademlia/src/libkademlia/libkademlia.go:661-671 | that reply ends either phase with this value, no list, and the target nearest among those that answered before |
| LookupValue.OneValueReply | kademlia/src/libkademlia/libkademlia.go:607-615 | no reply taken before it brought a value |
| LookupValue.AnswerIsHeeded | kademlia/src/libkademlia/libkademlia.go:616-635 | in every kind of lookup an answer ends the first phase exactly when it lists nobody closer than some earlier answer came from; otherwise everyone it lists but the node itself is known from then on, and those not known before are candidates |
| LookupValue.TakenAnswerIsHeeded | kademlia/src/libkademlia/libkademlia.go:605-636 | the same in every run of the first phase |
| LookupValue.SecondPhaseRecords | kademlia/src/libkademlia/libkademlia.go:659-673 | the second phase records answers and failures and heeds nothing that they list |
| LookupValue.ValueCanBeFound | kademlia/src/libkademlia/libkademlia.go:561-696 | along every trail on which each node lists the next, and somebody closer than all before it, up to one that holds a value, there is a run that returns the value |
| LookupSize.ExceedsIffFirstPhaseDoes | kademlia/src/libkademlia/libkademlia.go:592-695 | a run returns more than 20 contacts if and only if it is a node lookup whose first phase ends with more than 20 answers |
| LookupSize.SecondPhaseWithin | kademlia/src/libkademlia/libkademlia.go:648-684 | the second phase never passes 20 answers |
| LookupSize.NeverExceeds | kademlia/src/libkademlia/libkademlia.go:608-630 | when everyone it starts with is at least as near as everyone that answers list, the first phase hears two answers at most and no run exceeds 20 |
| LookupSize.CanExceedIff | kademlia/src/libkademlia/libkademlia.go:592-684 | some run exceeds 20 if and only if it is a node lookup that starts with a contact farther than everyone answers may list, for all answers and for those that never list the key's owner; 22 then come back without timeouts and with answers of at most 20 contacts |
| LookupSize.CanExceedTwenty | kademlia/README.txt:71-73 | some run of the lookup returns more than 20 contacts if and only if it is a node lookup that starts with a contact other than the node itself and the key's owner |
| LookupSize.BoundIsReached | kademlia/src/libkademlia/libkademlia.go:638-644 | for every positive number t of timeouts there is a run with just t that returns 19 + 3t contacts |

## Left out

- Iterative: termination and freedom from deadlock are not claimed, because the code guarantees neither; with no candidates the first phase can spin and the second can block.
- VanishThenUnvanish: the first unvanishing of an object only, because decryption overwrites the ciphertext.
- Republishing and the epoch-seeded locations: they draw other locations than unvanishing reads.
- RPC dialling, HTTP serving, time-outs as times, the ping itself, and the process exits on RPC errors.
- The ciphers, the random generators and the hexadecimal form of identifiers.
- The hash table and the store of vanishing data objects as goroutines: plain map access.
- Integer overflow of the bucket's length field and of counters: they are unbounded integers here.
- The updates that replies send to the routing table while a lookup runs: the lookup reads the table once, at its start.
- Command-line parsing and printing.
