# vote-secure: a verified model of the tallier's arithmetic and exchange core

vote-secure counts votes among D = 3 talliers without any of them seeing a
vote. Every value is Shamir-shared over the prime field of p = 2^31 - 1 with
threshold t = 2. The talliers compute on shares with a small multi-party
protocol library: multiplication with degree reduction, random bits,
unbounded fan-in OR, prefix OR, bitwise comparison, parity and less-than.
Shares travel between talliers in six-byte frames. A per-message-id
rendezvous slot collects one share from each tallier.

This project models that core in Dafny:

- **Field arithmetic** of `utils.cpp`, in modules `Modulus`, `Field`, `Poly` and `Lagrange`:
  - `pow`, `gcd`, `mod_inverse` and `modular_sqrt` (the p ≡ 3 mod 4 path);
  - integer versions of `ceil_sqrt` and `ceil_log2`.
- **Sharing** of `utils.cpp`, in modules `Shamir`, `Vandermonde` and `Fan`:
  - `gen_shamir` and `resolve_shamir`;
  - the first row of the inverse Vandermonde matrix, by Gauss–Jordan elimination on an `array2`;
  - the coefficients of the fan-in-OR polynomial.
- **The protocols** of `mpc_service.cpp`, in modules `Calc`, `Mpc`, `Prefix` and `Compare`, computed on plaintext values:
  - a shared multiplication is the field product, and opening a sharing is the identity;
  - the local arithmetic of each protocol is kept as the source writes it, loop by loop, except where "## Findings" corrects it.
- **The network** of `exchange_item.h`, `talliers_network.cpp` and `endian_number.h`, in modules `Exchange`, `Network`, `Endian` and `Parties`:
  - the rendezvous slot as a class with two banks;
  - peer registration, frame decoding, the deposit and send plan of `exchange`;
  - byte-order conversion.

Field primality is established by a Lucas certificate: 7 has order p − 1.
That fact gives Fermat's little theorem and the inverses the interpolation
proofs need.

Random inputs are parameters:
- `gen_shamir` gets its random coefficients as a sequence.
- `random_bit` gets its sequence of draws.
- `random_number_bits`, `is_odd` and `less` get finite sequences of bit rounds.

A method returns `None` when no round is accepted, where the source would
keep drawing.

The row swap of the elimination (utils.cpp:117-119) is `Vandermonde.SwapPass`.
It is modelled as the bubble pass it is. Column 0 of the matrix is all ones,
so no swap fires and the matrix is left as it is.

## Model

| member | source | states |
|---|---|---|
| Modulus.Fermat | utils.cpp:7 | for the modulus p = 2^31 − 1, x^(p−1) ≡ 1 for every x not divisible by p (p is prime) |
| Modulus.InverseExists | utils.cpp:7 | every residue not divisible by p has an inverse below p |
| Field.Pow | utils.cpp:17-26 | square-and-multiply returns base^exponent mod p, below p |
| Field.GreatestCommonDivisor | utils.cpp:28-35 | Euclid's loop returns a common divisor that every common divisor divides; gcd(a, 0) = a |
| Field.CoprimeToP | utils.cpp:28-35 | any value not divisible by p has gcd 1 with p |
| Field.ModInverse | utils.cpp:44-59 | the extended-Euclid loop returns the inverse of a non-zero residue below p, and 1 for 0 |
| Field.ModInverseIsInv | utils.cpp:44-59 | that inverse is the unique field inverse |
| Field.ModularSqrt | utils.cpp:61-63 | for p ≡ 3 mod 4 the root is a^((p+1)/4) mod p |
| Field.SqrtOfSquare | utils.cpp:61-63 | for a square a, that value squared is a again |
| Field.CeilSqrt | utils.cpp:95-97 | the least s with s² ≥ v |
| Field.CeilLog2 | utils.cpp:99-101 | the least k with 2^k ≥ v |
| Field.ToU16 | utils.cpp:99 | the unsigned short parameter keeps a value's residue mod 2^16 |
| Shamir.Coefficients | utils.cpp:146-149 | coefficient 0 is the secret, the rest are the random draws |
| Shamir.GenShamir | utils.cpp:144-165 | share i is the accumulator of the source's loop at node i + 1, with the product of a coefficient and the unreduced power wrapping at 2^64; for threshold ≤ 2 the shares are the polynomial's values mod p |
| Shamir.ShareAccIsEval | utils.cpp:155-161 | while the product of a coefficient and the unreduced power does not wrap at 2^64, the accumulator is the polynomial's value mod p |
| Shamir.NoWrapThresholdTwo | utils.cpp:155-161 | with threshold ≤ 2 and at most 2^31 nodes the product of a coefficient and the unreduced power never wraps at 2^64 |
| Shamir.ThresholdTwoShares | utils.cpp:155-161 | with threshold ≤ 2 and fewer than 2^31 nodes, every as-written share is the polynomial's value at its node mod p |
| Shamir.ShareWrapsAtLargeNode | utils.cpp:155-161 | with threshold 3 at node 131072 the product of a coefficient and the unreduced power wraps at 2^64 and the share differs from the polynomial's value |
| Shamir.GenShamirReduced | utils.cpp:144-165 | the intended shares: share i is the polynomial's value at i + 1 mod p |
| Vandermonde.SwapPass | utils.cpp:117-119 | the pass brings the largest first entry to row 0 and only permutes the rows; when column 0 is constant, as it is in the augmented matrix [V, I], the matrix is unchanged |
| Shamir.BasisRatio | utils.cpp:170-178 | the numerator and denominator loops give ∏ (j+1) and ∏ (j−i) over j ≠ i, modulo p |
| Shamir.ResolveShamir | utils.cpp:167-183 | returns the Lagrange interpolation at 0 of the shares at nodes 1..n |
| Shamir.ResolveRoundTrip | utils.cpp:167-183 | shares of any polynomial of degree < n resolve to its constant term |
| Shamir.ShamirRoundTrip | utils.cpp:144-183 | resolving the shares of a secret gives the secret back, given at least threshold shares |
| Shamir.WeightsUnique | utils.cpp:167-183 | any weights that recover the constant term of every low-degree polynomial are the Lagrange weights |
| Shamir.BasisIsBasis | utils.cpp:170-178 | the basis polynomials are 1 at their own node and 0 at the others |
| Vandermonde.AugmentedVandermonde | utils.cpp:106-115 | row i of the matrix is [(i+1)^0 .. (i+1)^(n−1) \| e_i] |
| Vandermonde.PivotNonzero | utils.cpp:121-124 | every pivot met by the elimination is non-zero, so its inverse exists |
| Vandermonde.EliminateColumn | utils.cpp:121-130 | one pivot step keeps the rows' invariant and clears column i outside row i |
| Vandermonde.EliminateAll | utils.cpp:121-130 | after all pivot steps the left half is diagonal |
| Vandermonde.SubtractRow | utils.cpp:126-127 | row j becomes row j minus t times row i, entrywise mod p |
| Vandermonde.ScaleRow | utils.cpp:133-135 | row i becomes row i times inv, entrywise mod p |
| Vandermonde.NormaliseAll | utils.cpp:132-136 | normalising every row reaches the identity on the left |
| Vandermonde.RightHalfOfFirstRow | utils.cpp:138-141 | the result is the right half of row 0 |
| Vandermonde.FirstRowWeights | utils.cpp:103-142 | the right half of row 0 recovers constant terms and equals the Lagrange weights at 0 |
| Vandermonde.SelectingWeights | utils.cpp:103-142 | reduced weights that recover constant terms are the Lagrange weights |
| Vandermonde.VandermondeRow | utils.cpp:103-142 | the returned row is exactly the recombination weights of the nodes 1..n |
| Fan.LagrangePolynomialFan | utils.cpp:185-209 | returns the count + 1 reduced coefficients of the polynomial that is 0 at node 1 and 1 at nodes 2..count + 1 |
| Fan.FanUnique | utils.cpp:185-209 | any two such polynomials of degree ≤ count agree everywhere mod p |
| Fan.BasisAt | utils.cpp:192-203 | builds ∏ (X − x_m) over m ≠ x_j, and the matching denominator ∏ (x_j − x_m) |
| Fan.NextNode | utils.cpp:197-202 | one step of the x_m loop extends the product by one node |
| Fan.MultiplyOther | utils.cpp:198-201 | a node other than x_j multiplies the product by (X − x_m) and the denominator by (x_j − x_m) |
| Fan.MultiplyByNode | utils.cpp:200-201 | the pos loop multiplies the coefficient array by (X − x), written with p − t for negatives |
| Fan.MultiplyHolds | utils.cpp:200-201 | that loop keeps the array equal to the product polynomial mod p |
| Fan.ResetTemp | utils.cpp:193-195 | temp holds the constant polynomial 1 |
| Fan.Accumulate | utils.cpp:205-207 | coeffs gains temp times the inverse denominator, entrywise mod p |
| Fan.AccumulateBasis | utils.cpp:205-207 | after node x_j the sum is 1 at nodes 2..x_j and 0 at the other nodes |
| Calc.Sum | mpc_service.cpp:15-20 | the 64-bit accumulator of init and the numbers, reduced mod p |
| Calc.SumNoWrap | mpc_service.cpp:15-20 | for fewer than 2^32 numbers below 2^32 the accumulator does not wrap |
| Calc.TotalOfBits | mpc_service.cpp:15-20 | the sum of bits is at most their count, and 0 exactly when every bit is 0 |
| Calc.ToBits | mpc_service.cpp:22-29 | returns size bits, least significant first, whose value is number mod 2^size |
| Calc.BitsBound | mpc_service.cpp:22-29 | n bits have a value below 2^n |
| Calc.TopBit | mpc_service.cpp:22-29 | the top bit of a bit string is clear exactly when its value is below that bit's weight |
| Calc.BitsUnique | mpc_service.cpp:22-29 | equal values of equal-length bit strings mean equal strings |
| Calc.BitsParity | mpc_service.cpp:22-29 | bit 0 is the parity of the value |
| Mpc.PBitsSize | mpc_service.cpp:35 | p_bits_size as computed: ceil_log2 of p truncated to an unsigned short |
| Mpc.PBitsSizeTruncated | mpc_service.cpp:35 | that truncation yields 65535 and hence 16 bits, not 31 |
| Mpc.BitsSizeIsCeilLog2 | mpc_service.cpp:35 | 31 is ceil log2 of p |
| Mpc.NewService | mpc_service.cpp:32-37 | the service holds the Lagrange weights of D nodes and the intended 31-bit size |
| Mpc.MultiplyShares | mpc_service.cpp:40 | the product's resharing: share i is the value at i + 1 of a polynomial with constant term a·b mod p |
| Mpc.Recombination | mpc_service.cpp:43-47 | the weighted sum of the D received shares is their interpolation at 0 |
| Mpc.RecombinationIsInterpolation | mpc_service.cpp:43-47 | the source's reduced terms sum to that interpolation |
| Mpc.DegreeReduction | mpc_service.cpp:39-48 | multiplying two degree-1 sharings and recombining the reshared products opens to the product of the two secrets |
| Mpc.ReducedOpens | mpc_service.cpp:39-48 | the recombined outputs open to a·b mod p |
| Mpc.OpenSharing | mpc_service.cpp:50-56 | resolve: D shares of a low-degree polynomial open to its constant term |
| Mpc.RandomBitFormula | mpc_service.cpp:69-70 | ((root⁻¹·r + 1) mod p)·2⁻¹ mod p is 1 when root = r and 0 when root = −r |
| Mpc.RootIsPlusMinus | mpc_service.cpp:69 | a root of r² is r or p − r |
| Mpc.RandomBit | mpc_service.cpp:64-74 | the first non-zero draw gives a bit (its root's sign); None only when every draw is 0 |
| Mpc.Or | mpc_service.cpp:76-87 | the OR of a bit string is 1 exactly when some bit is 1 |
| Mpc.FanInOr | mpc_service.cpp:76-87 | on bits, 1 + Σ bits fed to the fan polynomial gives the OR of the bits |
| Mpc.FanAtSum | mpc_service.cpp:77-85 | the fan polynomial evaluated at 1 + Σ bits is the OR |
| Prefix.PrefixOr | mpc_service.cpp:89-148 | on a non-empty bit string, b_i is the OR of bits 0..i |
| Prefix.StagesGivePrefixOr | mpc_service.cpp:89-148 | the stages x, y, f, g, c, h, s and b together compute the prefix ORs |
| Prefix.Blocks | mpc_service.cpp:92-97 | x holds the OR of each block of λ bits |
| Prefix.Prefixes | mpc_service.cpp:99-104 | y holds the prefix ORs of x |
| Prefix.Differences | mpc_service.cpp:106-110 | f is y's successive differences mod p, so f marks the first block holding a 1 |
| Prefix.Diff | mpc_service.cpp:109 | the intended difference: d + prev ≡ cur mod p |
| Prefix.DiffAsWritten | mpc_service.cpp:109 | the difference as the unsigned 32-bit subtraction computes it, d + prev ≡ cur mod 2^32 |
| Prefix.DiffAsWrittenWraps | mpc_service.cpp:109 | 0 − 1 gives 2^32 − 1, which is 1 mod p and not −1 |
| Prefix.BlockProducts | mpc_service.cpp:112-118 | g is f of the block times each bit, in row-major order |
| Prefix.Columns | mpc_service.cpp:120-126 | c_j is the column sum of g mod p |
| Prefix.OuterProducts | mpc_service.cpp:135-141 | s holds f_i·h_j for every block i and column j |
| Prefix.Combine | mpc_service.cpp:143-147 | b_ij = s_ij + y_i − f_i mod p |
| Prefix.BlockPrefixOr | mpc_service.cpp:99-104 | the OR of blocks 0..i says whether the first 1 lies before the end of block i |
| Prefix.LambdaRange | mpc_service.cpp:90 | λ = ceil_sqrt(n) lies between 1 and n |
| Prefix.BlocksWithinLambda | mpc_service.cpp:92-97 | at most λ blocks cover n bits |
| Prefix.LambdaBlocks | mpc_service.cpp:99-104 | exactly λ blocks exist only when (λ − 1)·λ < n |
| Prefix.ShortBlockCount | mpc_service.cpp:99-104 | for n = 2, λ = 2 and only one block exists, so the y loop reads past x |
| Prefix.BlockCountUnique | mpc_service.cpp:92-97 | the block count is the least m with m·λ ≥ n |
| Compare.Reversed | mpc_service.cpp:160 | reversal keeps the length and mirrors the indices |
| Compare.Reverse | mpc_service.cpp:160 | std::reverse in place leaves the reversed contents |
| Compare.Xor | mpc_service.cpp:158-159 | (p − ab)·2 + a + b mod p is the XOR of two bits |
| Compare.XorBits | mpc_service.cpp:152-159 | c_i is the XOR of a_i and b_i |
| Compare.CompareAtTop | mpc_service.cpp:150-178 | a < b exactly when they differ and b has the 1 at the highest differing bit |
| Compare.MarkTop | mpc_service.cpp:166-168 | e_i = d_i − d_(i+1) mod p, with the last entry kept |
| Compare.MarksAtTop | mpc_service.cpp:160-168 | the reversed prefix ORs of the reversed XORs, differenced, mark exactly the highest differing bit |
| Compare.BitProducts | mpc_service.cpp:170-175 | h_i = e_i·b_i mod p |
| Compare.MaskedTotal | mpc_service.cpp:170-177 | the sum of h is 1 exactly when a < b |
| Compare.TopMarks | mpc_service.cpp:152-168 | e marks the highest bit where a and b differ |
| Compare.LessBitwise | mpc_service.cpp:150-178 | on two equal-length bit strings returns 1 when a < b as numbers and 0 otherwise |
| Compare.FirstBelow | mpc_service.cpp:180-197 | the first round whose value is below the bound; None only when no round is |
| Compare.RandomNumberBits | mpc_service.cpp:180-197 | returns the first round accepted by less_bitwise against the bits of p mod 2^p_bits_size |
| Compare.AcceptBound | mpc_service.cpp:190-191 | with 31 bits the bound is p; with the truncated 16 bits it is 65535 |
| Compare.ComposeBits | mpc_service.cpp:201-206 | the r lambda returns the value of the bits mod p |
| Compare.IsOddOutcome | mpc_service.cpp:199-213 | is_odd's result for given random bits is a bit |
| Compare.IsOdd | mpc_service.cpp:199-213 | the result is x's parity whenever p_bits_size is 31, and None only when no round is accepted |
| Compare.ParityRecovered | mpc_service.cpp:207-212 | XOR of [c < r] and c's parity against r's recovers x's parity, for c = x + r mod p |
| Compare.MaskedParity | mpc_service.cpp:200-212 | once the random bits are drawn, the opening computes IsOddOutcome: c = x + r, its parity corrected by r's first bit and by the comparison of c's bits with r's |
| Compare.IsOddCorrect | mpc_service.cpp:199-213 | for 31 random bits below p, is_odd returns x mod 2 |
| Compare.IsOddMisses | mpc_service.cpp:199-213 | with 16 bits, the accepted r = 1 makes is_odd(65535) return 0 |
| Compare.LessClosing | mpc_service.cpp:219-223 | the closing arithmetic on bits w, x and y computes y when w = x and x otherwise |
| Compare.DoubleParity | mpc_service.cpp:216-218 | 2z mod p is odd exactly when z > (p − 1)/2 |
| Compare.LessFromHalves | mpc_service.cpp:215-224 | comparing the halves of a, b and a − b decides a < b |
| Compare.DifferenceDoubled | mpc_service.cpp:218 | (p + a − b)·2 mod p doubles the reduced difference |
| Compare.Less | mpc_service.cpp:215-224 | with 31-bit is_odd, less returns 1 exactly when a < b |
| Exchange.NewSlotInv | exchange_item.h:19-22 | a new slot is valid and both banks expect every party |
| Exchange.ExchangeItem.IsSet | exchange_item.h:24-26 | is_set holds exactly when the state word is ready |
| Exchange.SetDeposits | exchange_item.h:28-44 | the share goes to the first bank expecting the party, clearing exactly that bit; otherwise nothing changes |
| Exchange.SetSignals | exchange_item.h:32-37 | only the deposit that empties a bank makes the slot ready and resumes the parked waiter |
| Exchange.SetInv | exchange_item.h:28-44 | set keeps the slot's invariant: masks within the party bits, and bank 1 ahead of bank 0 by at most a round |
| Exchange.ExchangeItem.Set | exchange_item.h:28-44 | the slot's new state is SetSlot of the old, and a deposit is accepted exactly when a bank misses the party |
| Exchange.WakeOnlyParked | exchange_item.h:34-37 | only a parked waiter is ever resumed |
| Exchange.SuspendOnlyIdle | exchange_item.h:55-63 | parking succeeds exactly on an idle slot |
| Exchange.ExchangeItem.AwaitSuspend | exchange_item.h:55-63 | the compare-exchange from null to the waiter |
| Exchange.AwaitOnlyReady | exchange_item.h:51-63 | with no other waiter, a waiter goes on exactly when the slot is ready |
| Exchange.ExchangeItem.Await | exchange_item.h:46-87 | co_await then result: the waiter is parked, or goes on and gets bank 0's values |
| Exchange.ResultRotates | exchange_item.h:75-87 | result returns bank 0, moves bank 1 into it, resets bank 1 and turns ready into idle, keeping the invariant |
| Exchange.ExchangeItem.Result | exchange_item.h:75-87 | the method's new state and values are ResultSlot of the old state |
| Exchange.MoveBank | exchange_item.h:77-80 | the copy loop returns bank 0's first D values and moves bank 1's into their place |
| Exchange.RoundCollects | exchange_item.h:28-87 | one deposit per party, in any order, makes a fresh slot ready and result returns the shares in party order |
| Exchange.NullHandleResumed | exchange_item.h:34-37 | as written, completing a bank nobody waits on resumes the null handle |
| Exchange.ExchangeItem.constructor | exchange_item.h:19-22 | both masks are full and the state is idle |
| Network.PortsDistinct | talliers_network.cpp:20-22 | party i listens on 5010 + i, and different parties have different ports |
| Network.InitialRegistryInv | talliers_network.cpp:35-42 | the constructor awaits every party but its own |
| Network.TalliersNetwork.constructor | talliers_network.cpp:35-42 | the mask is all parties except the own one, and every slot of the table is fresh |
| Network.RegisterEffect | talliers_network.cpp:93-102 | an awaited peer gets its socket and a receive loop, and its bit is cleared; anyone else changes nothing |
| Network.RegisterInv | talliers_network.cpp:93-102 | registration keeps the invariant tying the mask, sockets and receive loops together |
| Network.AllTalliersOnce | talliers_network.cpp:97-101 | the all-talliers event is set by the last awaited peer only, once |
| Network.HandshakeSentinels | talliers_network.cpp:85-91 | reply −1 (a voter) changes nothing and −2 only sets end-of-vote |
| Network.TalliersNetwork.HandleConnection | talliers_network.cpp:80-115 | the new registry is Handshake of the old |
| Network.TalliersNetwork.Connect | talliers_network.cpp:117-150 | the new registry is Registered of the old, with no sentinels |
| Network.TalliersNetwork.Register | talliers_network.cpp:130-143 | the new registry is Registered of the old |
| Network.Encode | talliers_network.cpp:14-18 | a message is six bytes |
| Network.Frames | talliers_network.cpp:162-167 | a buffer of whole frames decodes to one message per six bytes |
| Network.FramesOfEncoded | talliers_network.cpp:162-167 | decoding undoes encoding |
| Network.EncodedFrames | talliers_network.cpp:162-167 | encoding undoes decoding |
| Network.ReceivedOthers | talliers_network.cpp:166 | frames for other message ids leave a slot alone |
| Network.ReceivedInv | talliers_network.cpp:166 | receiving keeps every slot's invariant |
| Network.TalliersNetwork.ReceiveFrame | talliers_network.cpp:163-166 | one frame is decoded from network order and deposited in its slot |
| Network.TalliersNetwork.Receive | talliers_network.cpp:162-167 | every slot ends as its deposits from the buffer's frames, in order, make it |
| Network.TalliersNetwork.Deposit | talliers_network.cpp:182-183 | the own share goes into the message id's slot, and the other slots are untouched |
| Network.SendPlanTargets | talliers_network.cpp:184-189 | one send per party with a socket, each carrying that party's share |
| Network.SendPlanDelivers | talliers_network.cpp:184-189 | every send goes to a registered peer, never to the sender, and decodes to exactly that peer's share |
| Network.TalliersNetwork.Sends | talliers_network.cpp:184-189 | the send loop produces the send plan |
| Network.TalliersNetwork.Exchange | talliers_network.cpp:177-189 | exchange deposits the own share and produces the send plan |
| Network.TalliersNetwork.Collect | talliers_network.cpp:190-192 | the wait and result act on the message id's slot only |
| Network.NewTable | talliers_network.cpp:41 | one fresh, valid and separate slot per 16-bit message id |
| Endian.Convert8 | endian_number.h:16-20 | a byte converts to itself |
| Endian.Convert16 | endian_number.h:22-30 | the 16-bit conversion stays within 16 bits |
| Endian.Convert32 | endian_number.h:32-40 | the 32-bit conversion stays within 32 bits |
| Endian.Convert16Decodes | endian_number.h:22-30 | converting two bytes loaded on either host gives their network-order value |
| Endian.Convert32Decodes | endian_number.h:32-40 | converting four bytes loaded on either host gives their network-order value |
| Endian.Convert16Encodes | endian_number.h:22-30 | storing the converted value on either host lays out its network-order bytes |
| Endian.Convert32Encodes | endian_number.h:32-40 | storing the converted value on either host lays out its network-order bytes |
| Endian.Convert16Involutive | endian_number.h:22-30 | converting twice gives the value back |
| Endian.Convert32Involutive | endian_number.h:32-40 | converting twice gives the value back |
| Endian.Network16Bytes | endian_number.h:22-30 | network-order bytes round-trip a 16-bit value |
| Endian.Network32Bytes | endian_number.h:32-40 | network-order bytes round-trip a 32-bit value |
| Parties.ClearBit | exchange_item.h:30-32 | xor-ing an expected party's bit removes exactly that party from the mask |
| Parties.EmptyMask | exchange_item.h:32 | a mask of party bits is 0 exactly when no party is missing |
| Parties.MissingFull | exchange_item.h:20-21 | the full mask (1 << D) − 1 misses every party |
| Parties.BitsDiffer | exchange_item.h:30 | different parties have disjoint bits |

## Left out

- Sockets, the server and its accept loop, `set_socketopt`, `build_collect`, `stop_server` and cancellation are left out. A socket is a number, and a send is the frame bytes it would write.
- Coroutines and atomics are left out. The state word of a slot is a datatype, and resuming a waiter is recorded in a list.
- `random_value` and the random draws are parameters of the members that need them.
- `random_number` is left out. A random field element is an input, namely the draws of `Mpc.RandomBit`.
- The source loops forever in `random_bit`, `random_number_bits` and `is_odd`. The model takes finite sequences of draws and returns `None` when none is accepted.
- Message ids, `block_size` and their layout are not modelled. Each protocol works on values, and `exchange` is modelled for one message id at a time.
- `order` is not modelled, and neither is the Tonelli–Shanks branch of `modular_sqrt`. p ≡ 3 mod 4, so that branch is dead.
- `ceil_sqrt` and `ceil_log2` use single-precision floating point. They are modelled as the exact integer ceilings, with the unsigned short truncation of their argument kept.
- `main.cpp` and the vote protocol built on these operations are not part of this model.
- Mpc.MultiplyShares: this models the local resharing only. The exchange of the reshared values is `Mpc.DegreeReduction` over all D parties' polynomials.
- Mpc.Recombination: the received shares are given, not read from the network.
- Shared values are plaintext. `multiply` is the field product and `resolve` is the identity, as `Mpc.DegreeReduction` and `Mpc.OpenSharing` show.
- Field.ModInverse: requires a value below 2^32 that is 0 or not a multiple of p. For a non-zero multiple of p the source's loop divides by zero.
- Field.Pow: requires base and exponent below 2^32, the width of the source's `share` and `unsigned`.
- Shamir.ResolveShamir: requires at most p shares. With more, two nodes coincide mod p and the source divides by zero.
- Fan.LagrangePolynomialFan: requires count < p. With more nodes they coincide mod p and the denominator is 0.
- Prefix.PrefixOr: requires a non-empty bit string shorter than 2^16, the range of `ceil_sqrt`'s unsigned short. Its result on non-bits is not stated.
- Mpc.FanInOr: states the OR only for bit inputs. On other inputs it only bounds the result.
- Compare.LessBitwise: requires at least one bit on each side. For size 0, the source's `a_i.size() - 1` wraps around.
- Compare.IsOdd: proves the parity only when `p_bits_size` is 31. With the 16 bits the source computes, `Compare.IsOddMisses` shows it is wrong (see Findings).
- Compare.Less: proves correctness only when `p_bits_size` is 31. With 16 bits it inherits `is_odd`'s error.
- Compare.ComposeBits: requires at most 64 bits. For more, the shift `1UL << i` is undefined.
- Exchange.ExchangeItem.Set: models the corrected wake-up of Findings: completing a bank resumes only a parked waiter, where the source also resumes the null state. Exchange.NullHandleResumed models the source as written. The source's `assert(false)` on a deposit no bank expects is modelled as a rejected deposit that changes nothing. The model requires index < D, because a larger index would write outside the mask's party bits.
- Exchange.ExchangeItem.Await: assumes no second waiter on a slot. The source has one waiter per message id, `exchange`'s own.
- Network.TalliersNetwork.HandleConnection: requires a reply from −2 to 31. The source reads any `int8_t` unchecked: `1U << reply_id` is undefined for replies of 32 and more and for negative replies other than −1 and −2, which the model excludes.
- Network.TalliersNetwork.Connect: requires a reply from 0 to 31. The source reads any `int8_t` unchecked, and `1U << reply_id` is undefined for negative replies and for replies of 32 and more, which the model excludes.
- Prefix.PrefixOr: runs the y stage over the ⌈n/λ⌉ blocks of x, not λ, as Findings corrects it. Prefix.ShortBlockCount shows the source's bound reads past the end of x.
- Prefix.Differences: subtracts modulo p (Prefix.Diff), as Findings corrects it. Prefix.DiffAsWrittenWraps models the source's unsigned 32-bit subtraction.
- Mpc.NewService: stores the intended 31-bit size, as Findings corrects it. Mpc.PBitsSize models the source's truncated 16.
- Network.TalliersNetwork.Receive: models one `recv` call at a time, on a buffer of whole frames. The source reads 16384-byte chunks and assumes frames never straddle two of them.
- The value arrays of a new slot are uninitialised in the source. In the model they start at zero.

## Findings

| source | as written | input that shows it | evidently intended | confidence | as-written member | corrected member |
|---|---|---|---|---|---|---|
| utils.cpp:155-161 | `x_i *= x` keeps the power unreduced mod p, so the product of a coefficient and the unreduced power wraps at 2^64 for large nodes and thresholds | threshold 3, coefficients [0, 0, p − 1], node 131072: the share is 2147483635, but the polynomial's value mod p is 2147483639 | the share is the polynomial's value at the node mod p | not executed | Shamir.ShareWrapsAtLargeNode | Shamir.GenShamirReduced |
| mpc_service.cpp:35 | `ceil_log2(p)` passes p through an unsigned short, giving 65535 and p_bits_size = 16 | is_odd(65535) with the accepted random bits r = 1 (16 bits) returns 0 | p_bits_size = 31 = ceil log2 p, and is_odd returns the parity | not executed | Compare.IsOddMisses | Compare.IsOddCorrect |
| mpc_service.cpp:109 | `f_i[i] = y_i[i] - y_i[i - 1]` subtracts as unsigned 32-bit values, not mod p | shares y_i[i] = 0 and y_i[i − 1] = 1: the difference is 2^32 − 1, which is 1 mod p instead of p − 1 | the difference mod p | not executed | Prefix.DiffAsWrittenWraps | Prefix.Diff |
| exchange_item.h:34-37 | the deposit completing a bank resumes the old state whenever it is not ready, including the null state of a slot nobody awaits yet | a round whose last share arrives before `exchange` awaits the slot | resume only a parked waiter | not executed | Exchange.NullHandleResumed | Exchange.WakeOnlyParked |
| mpc_service.cpp:99-104 | the y loop takes `i = 1..λ` prefixes of x, but x has only ⌈n/λ⌉ blocks, which can be fewer than λ | n = 2: λ = 2 and there is one block, so y reads x[1] past its end | λ′ = number of blocks prefixes of x | not executed | Prefix.ShortBlockCount | Prefix.PrefixOr |
