# Verified models of the repository's algorithms

This project states and proves what the algorithmic parts of the repository are for:
a tool that finds include cycles, a compressor and an image format of a font
converter, and the parts of the bundled Crypto++ library in which buffering, ordering,
aliasing, counters and algebra carry the meaning. `dafny verify dfyconfig.toml` checks
all of it.

Code that works step by step is modelled step by step: objects are classes with the
fields of the original, buffers are arrays, loops are loops. Each method is proved
against a function of its inputs or of the old state, and lemmas about these functions
say what the original promises.

| modules | what they model |
|---|---|
| `Digraph`, `Tarjan` | Tarjan's strongly connected components, on the recursion's own state |
| `NumberTheory`, `SquareModulus`, `BlumBlumShub` | the Blum Blum Shub generator with random access; Fermat's theorem and the reduction of exponents are proved from scratch |
| `Groups`, `SlidingWindow`, `Cascade`, `GeneralCascade` | three fast ways of multiplying group elements by exponents, for every abelian group |
| `Yay0`, `Yay0Format`, `Yay0Decoding` | compressor and decompressor, with the bit mask and the two byte streams; where everything stands in the file, and which files are accepted |
| `FontImage`, `FontBlocks` | error diffusion in place, and the two-bit block format |
| `CbcMac`, `Ccm`, `CcmFormat`, `CcmSessions` | CCM on the streaming interface of authenticated ciphers; its blocks read against RFC 3610 |
| `ChaCha`, `ChaChaKernels`, `ChaChaDispatch` | ChaCha in scalars, in 128-bit and in 256-bit registers, and the choice between them |
| `BitVectors`, `ChaChaAstray8`, `ChaChaAstray20` | states on which the 128-bit code goes wrong, worked out round by round |
| `BlockBatches`, `CipherModes`, `CounterMode` | runs of cipher blocks over one memory with overlapping operands, and CBC and counter mode on top |
| `BitStrings`, `BaseN`, `BaseNNumbers`, `BaseNFilters`, `BaseNDecoder`, `BaseNSessions` | encoder, grouper and decoder for 1 to 7 bits per character; what they write as numbers |
| `Asn`, `AsnReading` | re-encoding BER as DER; reading the result back |
| `Blake2`, `Adler` | buffering and counting of BLAKE2; Adler-32 with its reductions put off |
| `Arithmetic`, `Bits`, `Bytes` | multiplication laws, binary digits, bytes |

How the models stand for the code:

* Integers of the original that are unbounded (`Integer`) are natural numbers. Where
  the width of a machine word matters (ChaCha words and counters, counter bytes, BLAKE2
  counters, the sums of Adler-32, ASN.1 lengths) the reduction is written out.
* Block ciphers, the compression function of BLAKE2 and the key stream under CCM are
  parameters: the theorems hold for every function in their place.
* Exceptions are results. Where an exception leaves an object behind, the contract
  says what still holds of it.
* In `ChaCha` the byte buffers are read as their little-endian words, in memory order,
  which is how both the scalar and the register code load and store them.
* `BlockBatches` has one memory for input, operand, output and counter, with byte
  offsets for pointers, so that any overlap can be expressed. One method with the
  number of blocks as a parameter stands for the unrolled code of six and of two.
* The vector instructions are modelled word by word; instructions for different
  register groups, which the source interleaves, are written group by group.

Results where code and expectation part:

* `ChaChaKernels.RegisterBlocksExact` gives the exact condition under which the
  128-bit code agrees with the scalar code. Its last counter addition is 64 bits wide
  but works on words that have been summed already, so it can carry where the counter
  does not. `ChaChaAstray8` and `ChaChaAstray20` name a key, a counter and a nonce for
  which it does so after eight and after twenty rounds. `ChaChaDispatch.KeystreamExact`
  asks for the condition at exactly those batches of four that the loops run.
* `BlumBlumShub.DistinctPrimesAreNeeded` shows that two equal primes congruent to 3
  modulo 4 are not enough for `Seek`, and `NumberTheory.ReducedExponent` when the
  reduced exponent is right for any two distinct primes; the seed then need not be
  coprime to the modulus. `SquareModulus.ReducedModSquare` says when it is right for a
  prime taken twice.
* `BaseN.LookupInverts` and `FontBlocks.WholeBlocksOnly` say exactly which alphabets
  and image sizes the round trips need.

## Model

| member | source | states |
|---|---|---|
| Tarjan.StronglyConnectedComponents | Tools/find-includes-cycles.py:23-74 | For every finite graph, successors that are no keys included, and every order of the keys: each tuple is one whole component without repetitions (two nodes share a tuple exactly when each reaches the other), a tuple comes before every other tuple that reaches it, and exactly the nodes reachable from keys occur |
| Tarjan.Finder.StrongConnect | Tools/find-includes-cycles.py:37-68 | The recursion on one node: everything that was on the stack stays there, the node is visited, and either it waits above the old stack with a lowlink that a lower stacked node witnesses or its whole component has been emitted; terminates by the shrinking set of unvisited nodes |
| Tarjan.Finder.Enter | Tools/find-includes-cycles.py:37-42 | Numbers the node with the smallest unused index and stacks it, and nothing else |
| Tarjan.Finder.Leave | Tools/find-includes-cycles.py:58-68 | Emits the segment from the node up exactly when its lowlink is its index, and keeps the search invariant either way |
| Tarjan.Finder.PopComponent | Tools/find-includes-cycles.py:62-68 | The pop loop removes exactly the stack above the old one and emits it, last pushed first |
| Tarjan.EnterKeepsInv | Tools/find-includes-cycles.py:38-42 | Entering an unvisited node that every node in progress reaches keeps the invariant |
| Tarjan.EnterStartsScan | Tools/find-includes-cycles.py:38-48 | After entering, no successor has been looked at and the lowlink is the own index |
| Tarjan.ScanVisited | Tools/find-includes-cycles.py:50-53 | Returning from the call on an unvisited successor keeps the scan invariant with the smaller of the two lowlinks |
| Tarjan.ScanStacked | Tools/find-includes-cycles.py:54-56 | A stacked successor keeps the scan invariant with its index as a candidate for the lowlink |
| Tarjan.ScanEmitted | Tools/find-includes-cycles.py:49-56 | A visited successor that is no longer stacked lies in a finished component and may be ignored |
| Tarjan.ScanReaches | Tools/find-includes-cycles.py:49-52 | Every node in progress reaches the successor about to be visited, which the recursive call needs |
| Tarjan.LeaveStacked | Tools/find-includes-cycles.py:58-59 | With a lowlink below the index the node stays, finished, and some node in progress below it is reached |
| Tarjan.AnchorBelow | Tools/find-includes-cycles.py:53-59 | A node that stays reaches a lower node in progress, and so does everything it was the anchor of |
| Tarjan.PoppedClosed | Tools/find-includes-cycles.py:59-68 | No edge leads from the popped segment to anything but itself and what was emitted before |
| Tarjan.PoppedConnected | Tools/find-includes-cycles.py:59-68 | Every popped node reaches the root and is reached by it |
| Tarjan.PoppedIsComponent | Tools/find-includes-cycles.py:60-68 | The popped segment is one whole component |
| Tarjan.LeavePopped | Tools/find-includes-cycles.py:59-68 | Emitting the segment keeps the search invariant |
| Tarjan.SearchComplete | Tools/find-includes-cycles.py:70-74 | When no call is running and every key is visited, the result is complete and ordered |
| Tarjan.ComponentsAreOrdered | Tools/find-includes-cycles.py:66-74 | The invariant on the emitted tuples gives disjoint components in reverse topological order |
| Digraph.UniverseIsReachable | Tools/find-includes-cycles.py:23-48 | The nodes that occur in the graph are those reachable from a key |
| Digraph.ClosedReach | Tools/find-includes-cycles.py:23-74 | A set no edge leaves contains everything its members reach |
| Digraph.ReachTransitive | Tools/find-includes-cycles.py:23-74 | Reachability is transitive |
| Digraph.SuccessorsAreEdges | Tools/find-includes-cycles.py:43-48 | What the search goes through at a node are exactly its edges in the graph that was passed, and at a key the whole list in order; reachability is defined on the graph alone |
| BlumBlumShub.BlumBlumShub.Seek | Externals/CryptoPP/blumshub.cpp:55-62 | For distinct primes congruent to 3 modulo 4 and every seed, the generator is at position 8 * index of the stream afterwards; for other distinct primes exactly when the reduced exponent is not 0 or the base is a unit; for an odd prime taken twice exactly when the exponent may be reduced modulo its square |
| BlumBlumShub.SoughtState | Externals/CryptoPP/blumshub.cpp:55-62 | The power with the exponent reduced modulo (p-1)(q-1) is the state that repeated squaring reaches: always for distinct primes congruent to 3 modulo 4, and for any distinct primes and for equal odd ones exactly under the stated conditions |
| BlumBlumShub.SeekMatchesSkipping | Externals/CryptoPP/blumshub.cpp:28-62 | Seeking to byte k and then generating, and generating k bytes first, give the same bytes |
| BlumBlumShub.SeekAndUnmask | Externals/CryptoPP/blumshub.cpp:42-62 | Seeking back to where a text was masked and processing it again restores it in place |
| BlumBlumShub.DistinctPrimesAreNeeded | Externals/CryptoPP/blumshub.cpp:55-62 | With p = q = 7 and seed 2 seeking to byte 3 leaves another state, and other bits, than generating |
| BlumBlumShub.BlumBlumShub.constructor | Externals/CryptoPP/blumshub.cpp:9-15 | The generator starts at position 0 of the stream of the twice squared seed |
| BlumBlumShub.BlumBlumShub.GenerateBit | Externals/CryptoPP/blumshub.cpp:17-26 | Yields the bit at the current position of the stream and moves on by one, across the refill of the state |
| BlumBlumShub.BlumBlumShub.GenerateByte | Externals/CryptoPP/blumshub.cpp:28-34 | Eight stream bits, the first one most significant |
| BlumBlumShub.BlumBlumShub.GenerateBlock | Externals/CryptoPP/blumshub.cpp:36-40 | Every byte of the block is the stream byte of its position |
| BlumBlumShub.BlumBlumShub.ProcessData | Externals/CryptoPP/blumshub.cpp:42-46 | The output is the input under the stream from the current position on, also in place |
| BlumBlumShub.StateStep | Externals/CryptoPP/blumshub.cpp:17-23 | The state defined by a closed power is the one that squaring steps through |
| BlumBlumShub.BitsOfState | Externals/CryptoPP/blumshub.cpp:17-26 | The bits taken from one state, the first one most significant, are that state modulo 2^maxBits |
| BlumBlumShub.StreamBitsConcat | Externals/CryptoPP/blumshub.cpp:17-34 | Bits in a row are the bits of two halves one after the other, so bytes that cross a refill are those of the states they cross |
| BlumBlumShub.MaxBitsIs | Externals/CryptoPP/blumshub.cpp:12-13 | Each state gives as many bits as the binary logarithm of the length of the modulus in bits, rounded down |
| Bits.DigitsAre | Externals/CryptoPP/blumshub.cpp:25-25 | Shifting, masking and taking one bit in terms of quotient and remainder |
| BlumBlumShub.MaskedTwice | Externals/CryptoPP/blumshub.cpp:42-46 | Masking twice at the same position is the identity |
| NumberTheory.ReducedExponent | Externals/CryptoPP/blumshub.cpp:55-60 | Modulo a product of two distinct primes an exponent may be reduced modulo (p-1)(q-1) exactly when the reduced exponent is not 0 or the base is a unit |
| NumberTheory.BlumExponent | Externals/CryptoPP/blumshub.cpp:55-60 | For distinct primes congruent to 3 modulo 4 no power of two is divisible by (p-1)(q-1), so the reduced exponent is never 0 |
| NumberTheory.Fermat | Externals/CryptoPP/blumshub.cpp:55-60 | Fermat's little theorem, on which the reduction rests |
| NumberTheory.Euclid | Externals/CryptoPP/blumshub.cpp:55-60 | A prime that divides a product divides a factor |
| NumberTheory.BothDivide | Externals/CryptoPP/blumshub.cpp:55-60 | Divisibility by two distinct primes is divisibility by their product |
| SquareModulus.ReducedModSquare | Externals/CryptoPP/blumshub.cpp:55-60 | Modulo the square of an odd prime p an even exponent may be reduced modulo (p-1)(p-1) exactly when the base is a multiple of p and the reduced exponent is not 0, or the base is no multiple and its power p-1 is 1 modulo the square or p divides the quotient of the reduction |
| SquareModulus.UnitReduced | Externals/CryptoPP/blumshub.cpp:55-60 | The same for bases that p does not divide, any exponent |
| SquareModulus.Binomial | Externals/CryptoPP/blumshub.cpp:55-60 | (1 + p t)^m is 1 + m p t up to multiples of the square of p |
| SlidingWindow.SimultaneousMultiply | Externals/CryptoPP/algebra.cpp:255-314 | In every abelian group, with and without fast inversion, every slot holds its exponent times the base, for any list of non-negative exponents |
| SlidingWindow.DoubleAndAdd | Externals/CryptoPP/algebra.cpp:271-297 | The doubling clock adds every window of every exponent exactly when it reaches the window, and misses none |
| SlidingWindow.VisitSlots | Externals/CryptoPP/algebra.cpp:277-290 | One tick adds the windows that start at the position and leaves the other slots alone |
| SlidingWindow.AddWindow | Externals/CryptoPP/algebra.cpp:280-288 | The bucket of a window gains the doubled base or its inverse, so that buckets and the rest of the exponent together keep the exponent |
| SlidingWindow.CombineBuckets | Externals/CryptoPP/algebra.cpp:299-313 | The sweep from the top yields the sum of (2j+1) times bucket j |
| SlidingWindow.SweepIsWeighted | Externals/CryptoPP/algebra.cpp:302-312 | The suffix sums of the sweep add up to the weighted sum |
| SlidingWindow.WeightedUpdate | Externals/CryptoPP/algebra.cpp:282-286 | Adding to bucket k changes the weighted sum by 2k+1 times the amount |
| SlidingWindow.WindowSlider.constructor | Externals/CryptoPP/algebra.cpp:208-218 | A slider that stands for the whole exponent, with the window size asked for, or the one that suits the length of the exponent |
| SlidingWindow.WindowSlider.FindNextWindow | Externals/CryptoPP/algebra.cpp:220-247 | The odd signed window, placed at its position, and what is left above it keep the value; positions only grow and stay within the bound |
| SlidingWindow.WindowSlider.SkipZeros | Externals/CryptoPP/algebra.cpp:225-233 | Stops at the first set digit, or above all set digits |
| SlidingWindow.WindowSlider.TakeWindow | Externals/CryptoPP/algebra.cpp:235-246 | The window that is taken is odd and smaller than the window modulus, and value is conserved |
| SlidingWindow.NegatedWindow | Externals/CryptoPP/algebra.cpp:239-244 | A window taken as negative is paid for by a carry of one into the digits above |
| SlidingWindow.PlaceWindow | Externals/CryptoPP/algebra.cpp:235-237 | Moving the window up by the skipped digits keeps the value |
| SlidingWindow.WindowProgress | Externals/CryptoPP/algebra.cpp:225-236 | The distance skipped is bounded by the shrinking of the exponent, which bounds the clock |
| SlidingWindow.ScalarMultiply | Externals/CryptoPP/algebra.cpp:90-95 | The exponent times the base |
| Cascade.CascadeScalarMultiply | Externals/CryptoPP/algebra.cpp:97-170 | e1 x + e2 y in every abelian group, for all non-negative exponents and all three window widths |
| Cascade.BuildTable | Externals/CryptoPP/algebra.cpp:103-129 | Every entry of the table whose two indices are not both even is filled with its combination |
| Cascade.SeedTable | Externals/CryptoPP/algebra.cpp:107-114 | The entries x, y, 2x and 2y |
| Cascade.SmallTable | Externals/CryptoPP/algebra.cpp:107-110 | The complete table for one-bit windows |
| Cascade.LargeTable | Externals/CryptoPP/algebra.cpp:111-129 | The complete table for wider windows |
| Cascade.FillFirstRow | Externals/CryptoPP/algebra.cpp:118-119 | The odd multiples of x, other entries kept |
| Cascade.FillOddColumns | Externals/CryptoPP/algebra.cpp:120-122 | Every odd column, from the first row down |
| Cascade.FillFirstColumn | Externals/CryptoPP/algebra.cpp:124-125 | The odd multiples of y |
| Cascade.FillOddRows | Externals/CryptoPP/algebra.cpp:126-128 | The even columns of the odd rows |
| Cascade.ConsumeDigits | Externals/CryptoPP/algebra.cpp:131-169 | Reading both exponents from the top, a window at a time, yields the combination |
| Cascade.FlushDigits | Externals/CryptoPP/algebra.cpp:140-167 | After each window the result is the combination of the digits read so far; only filled entries are read |
| Cascade.Normalize | Externals/CryptoPP/algebra.cpp:142-151 | The common factors of two move into squaresAfter, one of the factors left is odd, and squaresBefore does not underflow |
| Cascade.Flush | Externals/CryptoPP/algebra.cpp:152-165 | Doublings before, the table entry and doublings after place the window below what was read before |
| Cascade.WindowPlaced | Externals/CryptoPP/algebra.cpp:159-165 | The arithmetic of placing a window |
| Cascade.WindowStep | Externals/CryptoPP/algebra.cpp:137-138 | One more digit extends a window |
| Cascade.FirstWindow | Externals/CryptoPP/algebra.cpp:152-156 | The first window is never empty, so that the first table entry read is a filled one |
| Cascade.StillFits | Externals/CryptoPP/algebra.cpp:145-151 | A window with a common factor of two has one more digit than it needs, so that squaresBefore can be decremented |
| Cascade.CombinationSum | Externals/CryptoPP/algebra.cpp:118-128 | Combinations of x and y add up component by component |
| GeneralCascade.GeneralCascadeMultiplication | Externals/CryptoPP/algebra.cpp:172-204 | The sum over the original pairs, for every non-empty range of pairs with non-negative exponents |
| GeneralCascade.DivideStep | Externals/CryptoPP/algebra.cpp:187-200 | The loop body keeps the sum and the heap order and strictly lowers the sum of exponents |
| GeneralCascade.DivideKeepsSum | Externals/CryptoPP/algebra.cpp:190-196 | Dividing the largest exponent by the next largest and moving the quotient into its base keeps the sum |
| GeneralCascade.AllOthersZero | Externals/CryptoPP/algebra.cpp:184-187 | When the top of the heap is zero so are all exponents but the last |
| GeneralCascade.OnlyLastTerm | Externals/CryptoPP/algebra.cpp:202-202 | The sum is then the last term |
| GeneralCascade.SumPermuted | Externals/CryptoPP/algebra.cpp:184-199 | The order of the pairs does not matter for the sum |
| GeneralCascade.SumWithout | Externals/CryptoPP/algebra.cpp:184-199 | Any pair can be taken out of the sum first |
| GeneralCascade.HeapTop | Externals/CryptoPP/algebra.cpp:184-189 | No exponent of a heap exceeds that of its top |
| GeneralCascade.PopLargest | Externals/CryptoPP/algebra.cpp:184-185 | Making and popping the heap leaves the largest exponent last above a heap of the others |
| GeneralCascade.MakeHeap | Externals/CryptoPP/algebra.cpp:184-184 | A heap of the same terms |
| GeneralCascade.PopHeap | Externals/CryptoPP/algebra.cpp:185-185 | The top moves to the end, the others stay a heap |
| GeneralCascade.PushHeap | Externals/CryptoPP/algebra.cpp:198-198 | The last term joins the heap |
| GeneralCascade.Rise | Externals/CryptoPP/algebra.cpp:198-198 | Swapping a term with a smaller parent keeps all other heap inequalities |
| GeneralCascade.Sink | Externals/CryptoPP/algebra.cpp:185-185 | Swapping a term with its larger child keeps all other heap inequalities |
| Groups.TimesSum | Externals/CryptoPP/algebra.cpp:90-95 | Multiples of one element add up |
| Groups.TimesTimes | Externals/CryptoPP/algebra.cpp:90-95 | A multiple of a multiple |
| Groups.TimesAdd | Externals/CryptoPP/algebra.cpp:97-170 | Multiples distribute over the group operation |
| Groups.TimesNeg | Externals/CryptoPP/algebra.cpp:283-286 | The inverse of a multiple is the negative multiple |
| Yay0.RoundTrip | docs/gc-font-tool.cpp:776-921 | Decompressing what compression produced gives the input back, for every input of less than 2^31 bytes |
| Yay0.Compress | docs/gc-font-tool.cpp:776-857 | The tokens behind the output expand to the input, each is the one choice the search makes at its position, the file is their encoding, and it is at most 16 + n + ceil(n/8) bytes long |
| Yay0.Decompress | docs/gc-font-tool.cpp:860-921 | Agrees with the decoding of the three streams on every input, fails where that fails, and otherwise returns a length between the announced one and 272 more |
| Yay0.FindLink | docs/gc-font-tool.cpp:788-823 | The search returns the largest match length of all offsets in the window, with the first offset whose match runs into the limits if there is one, and otherwise with the smallest offset that has the length |
| Yay0.ChosenOnce | docs/gc-font-tool.cpp:788-844 | There is one choice at each position, so the input determines the tokens |
| Yay0.LongestCutOff | docs/gc-font-tool.cpp:809-815 | A match that runs into the limits gives the longest link there can be, so the search may stop |
| Yay0.Compare | docs/gc-font-tool.cpp:794-807 | The inner loop finds the length of the match, and exactly whether it runs into the longest link or the end of the input |
| Yay0.DecodesFile | docs/gc-font-tool.cpp:847-921 | Decoding the file of any well-formed list of tokens gives what the tokens stand for |
| Yay0.DecodeToken | docs/gc-font-tool.cpp:860-921 | One pass of the decoding loop is one step of the specification, errors included |
| Yay0.ReadsToken | docs/gc-font-tool.cpp:825-844 | A token is read back from its mask bit, link and chunk bytes |
| Yay0.HeaderReads | docs/gc-font-tool.cpp:847-856 | The header names the magic, the size and the two offsets |
| Yay0.DecodeLength | docs/gc-font-tool.cpp:860-921 | A successful decoding overruns the announced length by less than one link |
| Yay0.FileBounded | docs/gc-font-tool.cpp:847-856 | The file of a list of tokens is never longer than the bytes they stand for plus header and mask |
| Yay0.GreedyStep | docs/gc-font-tool.cpp:825-844 | Appending a right choice keeps every choice right |
| Yay0.ExpandStep | docs/gc-font-tool.cpp:825-844 | A right choice extends the text the tokens stand for |
| Yay0.ReplayLink | docs/gc-font-tool.cpp:860-921 | The copy loop, byte by byte, also when it overlaps its own output |
| Yay0.ReplayContinues | docs/gc-font-tool.cpp:792-844 | Replaying a link over matching bytes continues the text, also when the offset is smaller than the count |
| Yay0.MaskVectorWriter.PushBack | docs/gc-font-tool.cpp:619-631 | Appends one bit to the mask |
| Yay0.MaskVectorReader.PopFront | docs/gc-font-tool.cpp:652-664 | Reads the next bit, and fails exactly when its byte lies outside the input |
| Yay0.MaskCloses | docs/gc-font-tool.cpp:619-631 | Setting a bit of the last byte keeps the earlier bits and the blank ones below |
| Yay0Format.HeaderBytes | docs/gc-font-tool.cpp:847-856 | In the file: the four letters, then the size of the input, the place of the links and the place of the chunks as 32-bit numbers with the most significant byte first, and the size of the file itself |
| Yay0Format.MaskBitOf | docs/gc-font-tool.cpp:619-631 | Bit k of the mask, counted from the top bit of each byte on, is set exactly when token k is a chunk |
| Yay0Format.ChunkBytes | docs/gc-font-tool.cpp:839-844 | A chunk stands as its byte behind the bytes of the chunks and long links before it |
| Yay0Format.LinkBytes | docs/gc-font-tool.cpp:826-838 | A link is the number of 16 bits whose low 12 bits are the offset minus one and whose high 4 are the count minus 2, or 0 for a count from 18 on, whose excess over 18 stands among the chunks |
| Yay0Format.ReadsAreValues | docs/gc-font-tool.cpp:860-921 | The numbers the decompressor reads have their most significant byte first |
| Yay0Decoding.DecodedIs | docs/gc-font-tool.cpp:860-921 | The decompressor accepts exactly the inputs in whose three streams tokens of the format stand one after the other that make up the size announced, and returns what they stand for; so each of its failures is a place outside the input, a link from before the start or a wrong signature |
| Yay0Decoding.FailuresAre | docs/gc-font-tool.cpp:866-920 | An input of fewer than 16 bytes fails, and a failure is that of a file of another kind exactly when a byte of the signature differs |
| Yay0Decoding.SignatureIs | docs/gc-font-tool.cpp:866-871 | A byte of the signature that differs is reported as another kind of file, before one that is missing is reported as invalid |
| Yay0Decoding.TokenIs | docs/gc-font-tool.cpp:882-901 | Reading at a place succeeds with a token exactly when the token stands there, and moves the three places on |
| Yay0Decoding.ReplayIs | docs/gc-font-tool.cpp:904-910 | Each copied byte repeats the one that lies the offset before it, which may be a copied one |
| FontImage.Dither | docs/gc-font-tool.cpp:1029-1057 | The image in place becomes the error diffusion of its pixels, whatever the width and however many rows |
| FontImage.DitheredLimits | docs/gc-font-tool.cpp:1029-1057 | Every pixel ends as the multiple of 64 it became in its turn, pixels behind the last whole row are untouched, and total brightness never grows |
| FontImage.SpreadLimits | docs/gc-font-tool.cpp:1035-1055 | A turn makes its pixel a multiple of 64, changes no earlier pixel and does not raise the total |
| FontImage.SpreadInPlace | docs/gc-font-tool.cpp:1035-1055 | The body of the inner loop: the error goes to the neighbours that exist, in sixteenths, clamped |
| FontImage.AddClampInPlace | docs/gc-font-tool.cpp:1018-1026 | Adds with clamping to one pixel |
| FontImage.InRows | docs/gc-font-tool.cpp:1044-1054 | The four neighbours are addressed exactly when they lie inside the image |
| FontImage.DiffusedPixel | docs/gc-font-tool.cpp:1029-1057 | One turn seen from every pixel: 7 sixteenths of the error go to the right, 5 below, 3 below to the left, 1 below to the right, each where that neighbour is in the image, and nothing else changes |
| FontBlocks.RoundTrip | docs/gc-font-tool.cpp:924-1015 | Every pixel p of the whole blocks comes back at its place as (p >> 6) * 0x55 |
| FontBlocks.WholeBlocksOnly | docs/gc-font-tool.cpp:924-1015 | The image comes back whole exactly when its width is a multiple of 8 and its size one of whole block rows |
| FontBlocks.Encode | docs/gc-font-tool.cpp:924-967 | Row by row of each block the top two bits of the pixels are packed in block order |
| FontBlocks.Decode | docs/gc-font-tool.cpp:970-1015 | Every pixel is unpacked from the field its block, row and column determine |
| FontBlocks.RowOfFirst | docs/gc-font-tool.cpp:942-946 | The pixel address of a row determines the row |
| FontBlocks.FirstOfRow | docs/gc-font-tool.cpp:990-995 | Every pixel lies in the row it is addressed by |
| FontBlocks.FieldsOfPack | docs/gc-font-tool.cpp:948-957 | Four two-bit fields come back out of a byte |
| FontBlocks.EncodedPixel | docs/gc-font-tool.cpp:945-962 | The byte and the two bits of it in which the encoder puts the pixel in column x of row y |
| FontBlocks.DecodedPixel | docs/gc-font-tool.cpp:990-1010 | The decoder takes the pixel in column x of row y from these two bits, times 0x55 |
| CcmSessions.SealThenOpen | Externals/CryptoPP/authenc.cpp:67-184 | Encrypting under one split of header and message and decrypting under any other gives the message back and the same tag, which is that of the whole strings |
| CcmSessions.Session | Externals/CryptoPP/authenc.cpp:67-184 | One session in either direction, for every split: the output is the text under the key stream and the tag is that of RFC 3610 over header and plain text |
| CcmSessions.FeedHeader | Externals/CryptoPP/authenc.cpp:80-107 | Any split of the header over Update calls feeds the whole header |
| CcmSessions.FeedData | Externals/CryptoPP/authenc.cpp:109-139 | Any split of the data over ProcessData calls feeds and transforms the whole data |
| CcmSessions.FeedChunk | Externals/CryptoPP/authenc.cpp:109-139 | One call within the announced lengths succeeds and extends message and output |
| Ccm.MacIsOneChain | Externals/CryptoPP/ccm.cpp:50-129 | The chaining value is that of one CBC-MAC over the block sequence of section 2.2 of RFC 3610 |
| Ccm.CcmCipher.constructor | Externals/CryptoPP/ccm.cpp:11-25 | A keyed object without a nonce |
| Ccm.NewCipher | Externals/CryptoPP/ccm.cpp:19-24 | Fails exactly for a tag size that is not one of 4, 6, ..., 16 |
| Ccm.CcmCipher.Resynchronize | Externals/CryptoPP/authenc.cpp:67-78 | Accepts exactly nonces of 7 to 13 bytes, resets all totals and starts the counter block of the nonce |
| Ccm.CcmCipher.StoreCounterBlock | Externals/CryptoPP/ccm.cpp:36-38 | The buffer holds the first counter block |
| Ccm.CcmCipher.SpecifyDataLengths | Externals/CryptoPP/ccm.cpp:50-90 | A message length that does not fit is refused, as is any call outside the state after the nonce; otherwise the lengths are taken, and if the buffer still holds the nonce the chain holds the first block and the length prefix of the header waits |
| Ccm.CcmCipher.StartHeader | Externals/CryptoPP/ccm.cpp:58-89 | With the nonce in the buffer, the chaining value is that after the first block, and the encoded header length waits |
| Ccm.CcmCipher.StoreFirstBlock | Externals/CryptoPP/ccm.cpp:58-64 | The chaining value after the block of flags, nonce and message length, if the buffer holds the nonce |
| Ccm.FirstBlockWritten | Externals/CryptoPP/ccm.cpp:61-63 | Flags, the length at the end and the nonce over its front make the first block for every length size |
| Ccm.CcmCipher.AuthenticateData | Externals/CryptoPP/authenc.cpp:11-51 | Every chain the object is in is extended by the input: whole blocks absorbed, the rest waiting |
| Ccm.CcmCipher.FillBuffer | Externals/CryptoPP/authenc.cpp:25-29 | Completing the buffer absorbs the waiting bytes with the new ones |
| Ccm.CcmCipher.AbsorbRest | Externals/CryptoPP/authenc.cpp:41-50 | Absorbs the whole blocks and keeps the rest |
| Ccm.FillThenRest | Externals/CryptoPP/authenc.cpp:21-50 | Filling the block at hand and then absorbing the rest is absorbing all at once |
| Ccm.ExtendAll | Externals/CryptoPP/authenc.cpp:11-51 | Absorbing the whole blocks of waiting and new bytes extends every chain in that state |
| Ccm.CcmCipher.AuthenticateBlocks | Externals/CryptoPP/ccm.cpp:92-97 | Absorbs the whole blocks of the data and returns what is left over |
| CbcMac.AbsorbConcat | Externals/CryptoPP/ccm.cpp:92-97 | Absorbing two runs of blocks one after the other is absorbing them together |
| CbcMac.ChainedExtend | Externals/CryptoPP/authenc.cpp:11-51 | A chain fed with more input |
| CbcMac.ChainedFinish | Externals/CryptoPP/ccm.cpp:99-129 | Padding the waiting bytes with zeros completes the chain |
| Ccm.CcmCipher.AuthenticateLastHeaderBlock | Externals/CryptoPP/ccm.cpp:99-113 | Fails exactly when the header has not the announced length; otherwise completes the chain over the padded header |
| Ccm.CcmCipher.AuthenticateLastConfidentialBlock | Externals/CryptoPP/ccm.cpp:115-129 | Fails exactly when the message has not the announced length; otherwise completes the chain over the padded message |
| Ccm.CcmCipher.AuthenticateLastFooterBlock | Externals/CryptoPP/ccm.cpp:131-135 | The tag is the chaining value under the start of the key stream |
| Ccm.CcmCipher.Update | Externals/CryptoPP/authenc.cpp:80-107 | Feeds header bytes before any data and footer bytes after it, ignores empty input, refuses exactly before a nonce or after a message of the wrong length, and then stays in its state |
| Ccm.CcmCipher.ProcessData | Externals/CryptoPP/authenc.cpp:109-139 | Transforms and authenticates the data, also in place; refuses exactly past the longest message, after a header of the wrong length, without a nonce or after footer input, each with its own status, and then stays in its state |
| Ccm.CcmCipher.TakeText | Externals/CryptoPP/authenc.cpp:128-135 | A chain in order is extended by the plain text, and the output is the input under the key stream |
| Ccm.CcmCipher.EnterMessage | Externals/CryptoPP/authenc.cpp:123-127 | The first data ends the header and picks the direction |
| Ccm.CcmCipher.Transform | Externals/CryptoPP/authenc.cpp:128-135 | The plain text is authenticated, before it is covered or after it has been uncovered |
| Ccm.CcmCipher.FinishMac | Externals/CryptoPP/authenc.cpp:157-178 | Completes the chain from whatever phase the object is in, without leaving it; fails exactly when a length is not the announced one |
| Ccm.CcmCipher.TruncatedFinal | Externals/CryptoPP/authenc.cpp:141-184 | The tag of everything fed exactly when the lengths are those announced and no footer was fed; the object then waits for a nonce, and otherwise stays in its state |
| Ccm.MaskedConcat | Externals/CryptoPP/authenc.cpp:128-135 | The key stream covers data piece by piece as it covers the whole |
| Ccm.MaskedTwice | Externals/CryptoPP/authenc.cpp:128-135 | Covering twice at the same position is the identity |
| CcmFormat.FirstBlockReads | Externals/CryptoPP/ccm.cpp:61-63 | Byte 0 of the first block gives back the size of the length, the tag size and whether there is a header, at the positions of section 2.2 of RFC 3610; the nonce and the message length follow |
| CcmFormat.FirstBlockOnce | Externals/CryptoPP/ccm.cpp:61-63 | Two sets of parameters that differ in nonce, tag size, message length or the presence of a header never share a first block |
| CcmFormat.AadPrefixReads | Externals/CryptoPP/ccm.cpp:66-89 | The three forms of the header length, told apart by their first two bytes, give the length back |
| CcmFormat.MaxMessageLengthIs | Externals/CryptoPP/ccm.h:53-54 | A message is short enough exactly when its length fits into the bytes that the nonce leaves |
| CcmFormat.CounterBlockReads | Externals/CryptoPP/ccm.cpp:36-38 | The counter block starts with the size of the length, then the nonce, and counts from zero |
| CcmFormat.CountsToKeyBlock | Externals/CryptoPP/ccm.cpp:36-45 | Counting it on by i gives the block A_i of section 2.3 of RFC 3610, for every i that fits behind the nonce |
| CcmFormat.TextUnderKeyBlocks | Externals/CryptoPP/ccm.cpp:40-45 | Under counter mode, byte j of text block i is covered by byte j of the enciphered block A_(i+1) |
| CcmFormat.TagUnderKeyBlock | Externals/CryptoPP/ccm.cpp:131-135 | The tag is the start of the chaining value under the enciphered block A_0 |
| CbcMac.AbsorbBlock | Externals/CryptoPP/ccm.cpp:92-97 | One more block is mixed into the chaining value and the result enciphered |
| Ccm.AbsorbFirst | Externals/CryptoPP/ccm.cpp:64-64 | The first block is enciphered as it is |
| CbcMac.PadIs | Externals/CryptoPP/ccm.cpp:107-112 | Zeros up to the end of the block, and none behind a full one |
| Bytes.XorBits | Externals/CryptoPP/ccm.cpp:92-97 | Exclusive or, binary digit by binary digit |
| ChaChaDispatch.KeystreamPolicy.OperateKeystream | Externals/CryptoPP/chacha.cpp:94-204 | For every counter, every number of blocks and every kind of registers: what is stored, or mixed into the input, also in place, is what the batches that the loops run compute, and the counter has advanced by the number of blocks modulo 2^64 (modulo 2^32 for ChaChaTLS) |
| ChaChaDispatch.KeystreamExact | Externals/CryptoPP/chacha.cpp:94-204 | That is the next so many blocks of the keystream exactly when no addition carries astray in the batches of four that the loops run |
| ChaChaDispatch.WithoutRegistersOf128 | Externals/CryptoPP/chacha.cpp:94-204 | Without the 128-bit code it always is |
| ChaChaDispatch.FourAstray | Externals/CryptoPP/chacha.cpp:121-133 | Four blocks that go astray are written by the dispatcher whenever there are 128-bit registers |
| ChaChaDispatch.BatchExact | Externals/CryptoPP/chacha.cpp:86-133 | A single block and, where MultiBlockSafe holds, a batch of eight are right for both kinds of counter; a batch of four is right exactly when no addition carries astray |
| ChaChaDispatch.KeystreamPolicy.EightAtATime | Externals/CryptoPP/chacha.cpp:101-116 | The loop over the 256-bit code runs the batches of eight that may be run, and moves counter and output on |
| ChaChaDispatch.KeystreamPolicy.FourAtATime | Externals/CryptoPP/chacha.cpp:119-134 | So does the loop over the 128-bit code for batches of four |
| ChaChaDispatch.KeystreamPolicy.OneBlock | Externals/CryptoPP/chacha.cpp:168-200 | The scalar code writes the next block and counts it |
| ChaChaDispatch.KeystreamPolicy.Advance | Externals/CryptoPP/chacha.cpp:108-109 | Where MultiBlockSafe holds adding to the low word alone moves either kind of counter |
| ChaChaDispatch.KeystreamPolicy.Increment | Externals/CryptoPP/chacha.cpp:196-199 | Incrementing the low word and carrying on overflow is adding one to the counter |
| ChaChaDispatch.MixedTwice | Externals/CryptoPP/chacha.cpp:60-77 | Mixing in the same keystream twice gives the input back |
| ChaChaKernels.EightBlocks | Externals/CryptoPP/chacha_avx.cpp:92-418 | For every state and number of rounds the 512 bytes stored are the blocks of the 64-bit counters c, ..., c + 7 in this order, carry into the upper word included |
| ChaChaKernels.Finish | Externals/CryptoPP/chacha_avx.cpp:284-306 | Adding the state and the counter row again yields the two finished blocks of a register group |
| ChaChaKernels.CounterRowSkips | Externals/CryptoPP/chacha_avx.cpp:103-107 | The carry worked out beforehand makes the 32-bit lane addition the 64-bit counter addition |
| ChaChaKernels.LaneRounds | Externals/CryptoPP/chacha_avx.cpp:131-188 | Four quarter rounds at once in both halves of the registers |
| ChaChaKernels.LaneDoubleRound | Externals/CryptoPP/chacha_avx.cpp:129-282 | Turning the rows brings the diagonals into columns and back: both halves go through a column and a diagonal round |
| ChaChaKernels.EmitHalves | Externals/CryptoPP/chacha_avx.cpp:308-413 | The permuted halves of four registers, in the order stored, are one block |
| ChaChaKernels.FourBlocks | Externals/CryptoPP/chacha_simd.cpp:569-825 | The 128-bit code stores four blocks whose counter is added last by a 64-bit addition |
| ChaChaKernels.RegisterBlocksExact | Externals/CryptoPP/chacha_simd.cpp:569-772 | They are the next four blocks exactly when each last addition carries just when the counter does |
| ChaChaKernels.RegisterBlockExact | Externals/CryptoPP/chacha_simd.cpp:756-772 | The same for one block |
| ChaChaAstray8.EightRoundsGoAstray | Externals/CryptoPP/chacha_simd.cpp:756-772 | A key, counter and nonce for which, after eight rounds, the 128-bit code computes wrong blocks although MultiBlockSafe holds |
| ChaChaAstray8.KeystreamGoesAstray | Externals/CryptoPP/chacha.cpp:121-133 | For them the dispatcher writes something else than the next four blocks, with either width of the counter |
| ChaChaAstray20.TwentyRoundsGoAstray | Externals/CryptoPP/chacha_simd.cpp:756-772 | The same after twenty rounds |
| ChaChaAstray20.KeystreamGoesAstray | Externals/CryptoPP/chacha.cpp:121-133 | The same for the dispatcher |
| BitVectors.QuarterIs | Externals/CryptoPP/chacha.cpp:54-58 | The quarter round of given words, from the words it passes through |
| ChaChaKernels.RowDoubleRound | Externals/CryptoPP/chacha_simd.cpp:596-749 | Turning the rows of a register group is a column and a diagonal round |
| ChaChaKernels.ScalarBlock | Externals/CryptoPP/chacha.cpp:172-194 | The sixteen scalars compute the block function of section 2.3 of RFC 8439 |
| ChaChaKernels.QuarterRoundInPlace | Externals/CryptoPP/chacha.cpp:54-58 | The macro computes the quarter round |
| ChaChaKernels.Emit | Externals/CryptoPP/chacha.cpp:60-77 | Stores the next words, mixed with the input of the same place, and leaves the rest of the buffer |
| ChaChaKernels.EmittedWord | Externals/CryptoPP/chacha.cpp:60-77 | Each stored word is the keystream word, or has the binary digits in which it and the input word differ; behind them nothing changes |
| ChaCha.StreamBlock | Externals/CryptoPP/chacha.cpp:99-204 | Block i of the stream is the block of the counter plus i |
| ChaCha.BlockWords | Externals/CryptoPP/chacha.cpp:60-77 | Word by word: the 16 words of a block are the words of the state after the rounds plus those of the state before, rows in order and words of each row in order |
| ChaCha.StreamWord | Externals/CryptoPP/chacha.cpp:60-77 | Word i of block k of the stream stands at 16 k + i |
| ChaCha.StreamSplit | Externals/CryptoPP/chacha.cpp:99-204 | A stream may be cut anywhere |
| ChaCha.SkipSkip | Externals/CryptoPP/chacha.cpp:196-199 | Counter steps add up modulo 2^64, or modulo 2^32 |
| ChaCha.SkipIs | Externals/CryptoPP/chacha.cpp:196-199 | The first counter word counts modulo 2^32, the second takes the carries exactly for the wide counter, no other word changes |
| BlockBatches.AdvancedProcessBlocks | Externals/CryptoPP/adv_simd.h:635-819 | Over one memory in which input, operand and output may overlap in any way: leaves what batches of six, batches of two and single blocks leave, each batch with all its loads before its first store, and returns the odd bytes |
| BlockBatches.BatchedIsSerial | Externals/CryptoPP/adv_simd.h:635-819 | That is what one block after another leaves, if none of the batches that are run overwrites what one of its own later blocks reads |
| BlockBatches.BatchIsSerial | Externals/CryptoPP/adv_simd.h:666-745 | The same for the stores of one batch |
| BlockBatches.ProcessBatches | Externals/CryptoPP/adv_simd.h:666-792 | Takes as many batches as there are, and moves the pointers on |
| BlockBatches.ProcessBatch | Externals/CryptoPP/adv_simd.h:666-746 | A batch loads and enciphers all its blocks before it stores the first |
| BlockBatches.BatchStores | Externals/CryptoPP/adv_simd.h:732-745 | Storing one result of a batch that keeps clear of itself leaves the serial memory, with the counter already at its end |
| BlockBatches.SameInput | Externals/CryptoPP/adv_simd.h:670-696 | The block a batch loaded is the one the serial run loads |
| BlockBatches.SameOperand | Externals/CryptoPP/adv_simd.h:698-730 | So is the operand, whether loaded before or after the counter is stored |
| BlockBatches.AddOneCounts | Externals/CryptoPP/adv_simd.h:673-680 | The lane-wise addition of 2^24 counts in the last byte modulo 256 and touches no other |
| BlockBatches.LoadCounters | Externals/CryptoPP/adv_simd.h:670-681 | k consecutive counter blocks, and the counter block k further on |
| BlockBatches.LoadBlocks | Externals/CryptoPP/adv_simd.h:684-695 | k consecutive input blocks |
| BlockBatches.MixAndEncipher | Externals/CryptoPP/adv_simd.h:698-730 | The operand is mixed in before or after enciphering |
| BlockBatches.StoreResults | Externals/CryptoPP/adv_simd.h:732-745 | The results are stored in order |
| BlockBatches.ProcessOne | Externals/CryptoPP/adv_simd.h:794-816 | The single-block loop body is one serial step |
| BlockBatches.CounterAdvances | Externals/CryptoPP/adv_simd.h:794-816 | After n blocks the counter block has counted n |
| BlockBatches.Survives | Externals/CryptoPP/adv_simd.h:635-819 | A block of the memory that is neither stored to nor counted in stays |
| BlockBatches.SerialSerial | Externals/CryptoPP/adv_simd.h:794-816 | Serial runs compose |
| CipherModes.CbcDecryption.ProcessData | Externals/CryptoPP/modes.cpp:249-261 | Backwards in batches, in place or onto an output that is not below the input: the output region holds the CBC decryption of the original input, the rest of the memory is untouched and the register is the last cipher block |
| CipherModes.DecryptsBackwards | Externals/CryptoPP/modes.cpp:257-258 | After j blocks the end of the output holds the last j plain blocks of the original cipher text |
| CipherModes.DecryptionWalkFits | Externals/CryptoPP/modes.cpp:257-258 | The backward walk never overwrites a block that is still needed |
| CipherModes.CbcEncryption.ProcessData | Externals/CryptoPP/modes.cpp:197-208 | In place or onto an output that is not ahead of the input: the output region holds the CBC encryption |
| CipherModes.EncryptsForwards | Externals/CryptoPP/modes.cpp:204-206 | Each block is chained to the one stored before it |
| CipherModes.CbcRoundTrip | Externals/CryptoPP/modes.cpp:197-261 | Decryption inverts encryption for every cipher with an inverse, register and text |
| CipherModes.CbcCipherBlock | Externals/CryptoPP/modes.cpp:197-208 | Cipher block i is the cipher of plain block i mixed, byte by byte, with cipher block i - 1 or the register |
| CipherModes.CbcPlainBlock | Externals/CryptoPP/modes.cpp:249-261 | Byte k of plain block i is byte k of the deciphered block i mixed with that of cipher block i - 1 or of the register |
| CipherModes.CbcEncryptedConcat | Externals/CryptoPP/modes.cpp:197-208 | Encrypting in pieces with the register carried over is encrypting the whole |
| CipherModes.CbcDecryptedConcat | Externals/CryptoPP/modes.cpp:249-261 | So is decrypting |
| CipherModes.EncryptThenDecrypt | Externals/CryptoPP/modes.cpp:197-261 | What one object enciphers in place in two calls another deciphers in place in one, leaving the memory as it was |
| CipherModes.ChainingRun | Externals/CryptoPP/ccm.cpp:92-97 | With still input and output pointers and a moving operand a run leaves the block chained over the data, which is what CCM uses it for |
| CipherModes.ChainingNeedsSerial | Externals/CryptoPP/ccm.cpp:92-97 | For an injective cipher a batch of two leaves what two single blocks leave exactly when the cipher turns the first mixed block back into what it was chained to, which is why CCM does not ask for parallelism |
| CipherModes.ChainingWithIdentity | Externals/CryptoPP/ccm.cpp:92-97 | For the identity as cipher, exactly when the first block of the data is blank |
| CounterMode.CounterModePolicy.OperateKeystream | Externals/CryptoPP/modes.cpp:140-161 | Output block i is the input under the enciphered 128-bit counter plus i, however often the last counter byte overflows, and the counter block has advanced modulo 2^128 |
| CounterMode.CounterModePolicy.NextBatch | Externals/CryptoPP/modes.cpp:147-159 | A batch ends where the last counter byte overflows, and the carry follows |
| CounterMode.CounterRun | Externals/CryptoPP/modes.cpp:153-153 | Within a batch counting in the last byte alone yields consecutive counters |
| CounterMode.CountedBlock | Externals/CryptoPP/modes.cpp:150-153 | Counting in the last byte is right as long as it does not overflow |
| CounterMode.CountedOver | Externals/CryptoPP/modes.cpp:154-155 | When it overflows, incrementing the bytes before it completes the counter |
| CounterMode.IncrementCounterByOne | Externals/CryptoPP/misc.h:1298-1309 | Increments a big-endian number in place |
| CounterMode.IncrementCounts | Externals/CryptoPP/misc.h:1298-1309 | The incremented bytes are those of the number plus one, wrap-around included |
| CounterMode.OutputByte | Externals/CryptoPP/modes.cpp:140-161 | Every byte of the output is covered by the same byte of the enciphered block that stands for v + i modulo 2^128, most significant byte first |
| Bytes.ValueCounts | Externals/CryptoPP/modes.cpp:163-171 | Every block is the counter block of some number |
| Bytes.BigEndianAt | Externals/CryptoPP/modes.cpp:163-171 | Each byte of a counter block is the digit of its place |
| BaseN.RoundTrip | Externals/CryptoPP/basecode.cpp:48-240 | Encoding, padding, grouping and decoding give every byte string back, for 1 to 7 bits per character, provided the table reads the letters back and ignores padding, separator and terminator |
| BaseN.TableInverts | Externals/CryptoPP/basecode.cpp:178-197 | The table made for an alphabet reads its letters back exactly when no letter is taken for a later one |
| BaseN.TableIgnores | Externals/CryptoPP/basecode.cpp:178-197 | It ignores exactly the characters that are not taken for a letter |
| BaseN.TableFits | Externals/CryptoPP/basecode.cpp:178-197 | Its entries are digits of the base |
| BaseNSessions.PassThrough | Externals/CryptoPP/basecode.cpp:48-240 | Encoder, grouper and decoder, built with the table made for the alphabet and each fed in any pieces of its own, return what was put in, if no letter is taken for a later one and padding, separator and terminator are not taken for letters |
| BaseNFilters.Encoder.Put | Externals/CryptoPP/basecode.cpp:48-113 | Whatever the pieces, the output at the end of the message is the encoding of the whole message with its padding |
| BaseNFilters.Encoder.PutByte | Externals/CryptoPP/basecode.cpp:57-81 | The bits of a byte are spread over the characters at hand and never outside the buffer |
| BaseNFilters.Encoder.EndMessage | Externals/CryptoPP/basecode.cpp:98-111 | The last block, padded if it is to be, and a fresh start |
| BaseNFilters.Encoder.FlushBlock | Externals/CryptoPP/basecode.cpp:84-95 | A full block is sent |
| BaseNFilters.Encoder.constructor | Externals/CryptoPP/basecode.cpp:38-45 | The block is the least number of characters that make up whole bytes |
| BaseNFilters.NewEncoder | Externals/CryptoPP/basecode.cpp:27-28 | Fails exactly for a number of bits outside 1 to 7 |
| BaseNDecoder.Decoder.Put | Externals/CryptoPP/basecode.cpp:133-176 | Whatever the pieces, the output at the end of the message is the decoding of the whole message |
| BaseNDecoder.Decoder.PutValue | Externals/CryptoPP/basecode.cpp:147-163 | The bits of a value go into one byte or two and never outside the buffer |
| BaseNDecoder.Straddles | Externals/CryptoPP/basecode.cpp:152-155 | The two shifts split a value over a byte boundary |
| BaseNDecoder.Decoder.EndMessage | Externals/CryptoPP/basecode.cpp:171-175 | The whole bytes are sent, the few bits behind them dropped |
| BaseNDecoder.Decoder.constructor | Externals/CryptoPP/basecode.cpp:123-130 | The block is the least number of bytes that make up whole characters |
| BaseNDecoder.NewDecoder | Externals/CryptoPP/basecode.cpp:115-131 | Fails exactly for a number of bits outside 1 to 7 |
| BaseNDecoder.Grouper.Put | Externals/CryptoPP/basecode.cpp:214-240 | Whatever the pieces, a separator stands between any two groups and the terminator at the end |
| BaseNDecoder.Grouper.PutGroup | Externals/CryptoPP/basecode.cpp:219-233 | A separator only comes when more bytes follow a full group |
| BaseNDecoder.GroupedFits | Externals/CryptoPP/basecode.cpp:227-232 | Bytes that fit into the last group follow it directly |
| BaseNDecoder.GroupedFull | Externals/CryptoPP/basecode.cpp:221-232 | Behind a full group a separator comes first |
| BaseNNumbers.GroupedByte | Externals/CryptoPP/basecode.cpp:214-240 | Byte i, in group g, stands behind g separators |
| BaseNNumbers.GroupedSeparator | Externals/CryptoPP/basecode.cpp:221-232 | Every group but the first has the separator in front |
| BaseNNumbers.GroupedSize | Externals/CryptoPP/basecode.cpp:214-240 | There is nothing else in the output before the terminator, so no separator comes behind a last full group |
| BaseN.InitializeDecodingLookupArray | Externals/CryptoPP/basecode.cpp:178-197 | Every character is looked up as the last letter it is taken for, or as none |
| BaseN.LookupInverts | Externals/CryptoPP/basecode.cpp:178-197 | The table reads every letter back exactly when no letter is taken for a later one, with and without regard to case |
| BaseN.MatchesIs | Externals/CryptoPP/basecode.cpp:178-197 | A character is taken for a letter when they are the same, or the two cases of a letter where case does not matter |
| BaseN.CasesShare | Externals/CryptoPP/basecode.cpp:178-197 | Where case does not matter the two cases of a letter share their entry, for every alphabet |
| BaseNNumbers.EncodedIs | Externals/CryptoPP/basecode.cpp:48-113 | The characters are the letters of the number the bytes make, written with k bits per digit and no digit more than needed; the fewest padding characters that complete a block follow |
| BaseNNumbers.RepresentedOnce | Externals/CryptoPP/basecode.cpp:48-113 | There is only one such list of digits |
| BaseNNumbers.DecodedIs | Externals/CryptoPP/basecode.cpp:133-176 | The decoded bytes are the number the digits make without its last few bits, fewer than 8 |
| BaseNNumbers.BlockSizeIs | Externals/CryptoPP/basecode.cpp:38-45 | The block is the least number of characters whose bits are whole bytes |
| BaseN.CharacterCount | Externals/CryptoPP/basecode.cpp:48-113 | There are ceil(8n/k) characters before padding |
| BaseN.GroupedValues | Externals/CryptoPP/basecode.cpp:142-144 | Separators without a table entry do not change what is decoded |
| BaseN.SpelledValues | Externals/CryptoPP/basecode.cpp:142-144 | The table reads spelled digits back |
| BaseNFilters.TopBits | Externals/CryptoPP/basecode.cpp:63-75 | The shifts of the encoder take the first bits of what is left of a byte |
| BitStrings.LayoutAppend | Externals/CryptoPP/basecode.cpp:64-64 | Or-ing shifted bits into the cell at hand appends them to the buffer |
| BitStrings.GroupsSpellOut | Externals/CryptoPP/basecode.cpp:48-176 | Spelling out groups of bits gives the bits back, filled up with blank ones |
| BitStrings.BytesReadBack | Externals/CryptoPP/basecode.cpp:147-175 | Fewer than eight bits behind a byte string do not matter |
| BitStrings.OrConcat | Externals/CryptoPP/basecode.cpp:64-64 | Blank bits take on those they are combined with |
| BitStrings.ShlConcat | Externals/CryptoPP/basecode.cpp:74-75 | Shifting a byte to the left drops its first bits |
| BitStrings.ShrConcat | Externals/CryptoPP/basecode.cpp:64-64 | Shifting to the right drops the last bits |
| Asn.DERReencode | Externals/CryptoPP/asn.cpp:271-286 | Takes exactly one BER element from the source or fails, and appends its re-encoding: every element along the indefinite-length spine with minimal definite length and its children in order |
| Asn.ReencodeChildren | Externals/CryptoPP/asn.cpp:271-286 | All children up to the end-of-contents octets, in order |
| Asn.ParseExact | Externals/CryptoPP/asn.cpp:501-567 | Reading succeeds with an element exactly when the input starts with a BER encoding of it |
| Asn.ParseSound | Externals/CryptoPP/asn.cpp:501-567 | What has been read is a BER encoding of what was returned |
| Asn.ParseComplete | Externals/CryptoPP/asn.cpp:501-567 | Every BER encoding is read, whatever follows it |
| Asn.ReencodeIdempotent | Externals/CryptoPP/asn.cpp:271-286 | Re-encoding a re-encoding changes nothing |
| Asn.DerIsBer | Externals/CryptoPP/asn.cpp:271-286 | The re-encoding is one element of definite length |
| AsnReading.ReencodedSays | Externals/CryptoPP/asn.cpp:271-286 | The re-encoding, read as one definite element, has the same tag and says the same: the same contents octets, or, read as a list of definite elements, as many children with the same tags in the same order, each of which says the same |
| AsnReading.ChildrenRead | Externals/CryptoPP/asn.cpp:277-285 | The re-encoded children, read one by one until they are used up, are as many as there were, each with its tag and its re-encoded contents |
| AsnReading.ReencodedIsShortest | Externals/CryptoPP/asn.cpp:271-286 | No definite element that says the same is shorter |
| AsnReading.WorkedExample | Externals/CryptoPP/asn.cpp:271-286 | An integer in a sequence of indefinite length, and a primitive tag that cannot have one |
| AsnReading.IndefiniteIs | Externals/CryptoPP/asn.cpp:501-556 | Indefinite length is refused for tags without bit 0x20, and two zero bytes end the contents |
| AsnReading.DecodeLengthIs | Externals/CryptoPP/asn.cpp:41-77 | The short, the long and the indefinite form, and exactly when the long form fails |
| Asn.LengthRoundTrip | Externals/CryptoPP/asn.cpp:20-77 | Decoding inverts encoding for every 64-bit length, whatever follows |
| Asn.DerLengthIsMinimal | Externals/CryptoPP/asn.cpp:20-39 | No encoding of a length that decodes to it is shorter |
| Asn.DERLengthEncode | Externals/CryptoPP/asn.cpp:20-39 | Appends the encoding and returns its size |
| Asn.BERLengthDecode | Externals/CryptoPP/asn.cpp:41-77 | Takes the length from the queue, and fails exactly at the end of the input or on overflow |
| Asn.MessageEnd | Externals/CryptoPP/asn.cpp:624-631 | The tag, the length and what was put into the encoder |
| Blake2.HashPieces | Externals/CryptoPP/blake2.cpp:536-634 | The digest of any split of the message is that of section 3.3 of RFC 7693 over key block and message, and the object is ready for the next message |
| Blake2.Blake2Hash.Update | Externals/CryptoPP/blake2.cpp:536-571 | Blocks are compressed in order with their byte counts, and never the last one |
| Blake2.Blake2Hash.CompressAllButLast | Externals/CryptoPP/blake2.cpp:540-561 | What waits and all blocks of the input that are not the last |
| Blake2.Blake2Hash.TruncatedFinal | Externals/CryptoPP/blake2.cpp:611-634 | The digest of everything fed, cut to size, and the freshly restarted state; refuses a size above that of the digest and then changes nothing |
| Blake2.Blake2Hash.FinishBlock | Externals/CryptoPP/blake2.cpp:624-628 | The last block is padded, counted without its padding and compressed with the flags |
| Blake2.Blake2Hash.Restart | Externals/CryptoPP/blake2.cpp:474-503 | All fields as at first, with the key block waiting |
| Blake2.Blake2Hash.IncrementCounter | Externals/CryptoPP/blake2.cpp:661-666 | The two words hold the byte count |
| Blake2.CountNext | Externals/CryptoPP/blake2.cpp:661-673 | The second word takes the carry exactly when the first has wrapped |
| Blake2.ChainNext | Externals/CryptoPP/blake2.cpp:551-559 | One more block extends the chain |
| Blake2.ChainBlock | Externals/CryptoPP/blake2.cpp:551-559 | Each block but the last is compressed with the number of bytes up to its end, in two words, and no flag |
| Blake2.LastBlockIs | Externals/CryptoPP/blake2.cpp:611-634 | The last block is filled up with zeros and compressed with the number of bytes without them and the flag of the last block, and that of the last node if it is asked for |
| Blake2.KeyBlockIs | Externals/CryptoPP/blake2.cpp:474-503 | A key is a whole block of its own, filled up with zeros; without a key there is none |
| Adler.Adler32.Update | Externals/CryptoPP/adler32.cpp:8-54 | For every length and split the sums are those of section 2.2 of RFC 1950, reduced at the end |
| Adler.Adler32.AccumulateEight | Externals/CryptoPP/adler32.cpp:29-38 | Eight bytes without a reduction, below 2^32 throughout |
| Adler.Adler32.AccumulateOdd | Externals/CryptoPP/adler32.cpp:15-27 | The bytes in front of the last multiple of eight |
| Adler.SumNext | Externals/CryptoPP/adler32.cpp:19-20 | Unreduced sums stand for the reduced ones |
| Adler.SumsAre | Externals/CryptoPP/adler32.cpp:8-54 | The first sum is one plus all bytes, the second the sum of what the first has been after each byte, both modulo 65521 |

## Left out

- Reading and writing of files, command lines, font rendering, bitmap headers and the discovery of include files.
- Key schedules, S-boxes and the insides of block ciphers: ciphers are parameters, as are the compression function and the chaining value that BLAKE2 starts from.
- Ccm.CcmCipher.Update: the running totals are not reduced modulo 2^64; data of that size is not modelled.
- Ccm.CcmCipher.ProcessData: after a call that has failed, or after lengths that are specified when header bytes have been fed already, nothing is promised about tag and text until the next nonce.
- ChaChaDispatch.KeystreamPolicy.OperateKeystream: input and output are one buffer or two that do not overlap; the NEON and Altivec loops, which have the shape of the 128-bit loop, are not part of this model.
- BlockBatches.AdvancedProcessBlocks: the NEON and Altivec variants are not part of this model.
- CipherModes.CbcDecryption.ProcessData: the register is a field beside the memory, so input and output cannot overlap it; the same holds for encryption.
- CounterMode.CounterModePolicy.OperateKeystream: seeking and the buffering of a partial block above it are not part of this model.
- Yay0.RoundTrip: inputs of 2^31 bytes and more are outside, because the sizes in the header have 32 bits.
- Yay0.Compress: also returns the tokens it has chosen, which the original does not keep.
- Asn.DERReencode: what the destructors of decoder and encoder do while an exception passes, and contents of 2^64 bytes and more, are not part of this model.
- BaseNFilters.Encoder.constructor: the lookup of named parameters is not part of this model; filters run without blocking and resuming.
- BaseNDecoder.Decoder.constructor: table entries from 2^k up to 255, which no table made from an alphabet has, are excluded.
- BaseNDecoder.NewDecoder: excludes the same table entries.
- SlidingWindow.WindowSlider.constructor: window sizes above 7, which no caller asks for, are excluded.
- BaseN.InitializeDecodingLookupArray: letters are those of ASCII, whatever the locale.
- Blake2.Blake2Hash.constructor: salt, personalisation and node parameters enter through the first chaining value; a counter that does not start at zero is not modelled.
- FontImage.Dither: a width of zero, for which the original divides by zero, is excluded, as are widths below 8 in the block format.
- FontBlocks.Encode: masks and shifts of single bytes are written as division and remainder by powers of two.
- ChaCha20-Poly1305 (`chachapoly.cpp`): its padding and lengths on the same streaming interface would repeat the arguments made for CCM with an easier tag.
- Object identifiers, key containers and the filter for encoded objects in `asn.cpp`.
- `Gcd` and the inverse in a quotient ring in `algebra.cpp`: textbook results that nothing else here needs.
- Clearing of memory, alignment, constant-time concerns, running time.
