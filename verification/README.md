# Z-checker kernels, verified

Z-checker assesses lossy compression of scientific data. This project models the algorithmic kernels
inside its plotting and I/O code and proves what they compute. `double` is modelled as an exact `real`,
a C string as a `seq<char>` without NUL, a pointer that may be NULL as an `Option`. Square roots are functions
with `s >= 0` and `s * s == x`; sines and cosines are functions that satisfy the sum formulas, with a positive sine
below half a turn.

| file | kernel |
|---|---|
| Complex, Fourier, Fft | the recursive in-place FFT and its inverse (`zc/src/ZC_DataProperty.c`) |
| Heat, HeatRanks | the heat stencil on one rank and on any number of ranks exchanging rows (`examples/heatdis.c`) |
| Moments, Ssim, SsimImage, SsimNegative | windowed structural similarity of images and volumes (`zc/src/ZC_ssim.c`) |
| Autocorrelation | lag coefficients of a series (`zc/src/ZC_DataProperty_double.c`) |
| EntropyTable, ChainedTable, Dictionary | three hash tables: linear probing, chaining, growing slot arrays |
| IniLine, IniFile, IniRoundTrip | INI lines, the dump and the load loop, and their round trip (`zc/src/iniparser.c`) |
| StringReplace, Base64 | in-place replacement and the base64 codec of section 4 of RFC 4648 |
| ErrorStats, Report, Comparison | the comparison of original and decompressed data, offline and across ranks |
| QuickSort, ErrorBounds, ErrorSetting | sorting, selection of error bounds, settings for a target compression ratio |
| ActionQueue | the server's action queue with many producers and one consumer (`zserver/zserver.cpp`) |
| Options, Arithmetic | the type of values that may be missing; products, quotients and remainders |

Code that changes state is modelled as methods over arrays and class fields. Each method is proved against
a specification function, and the properties of that function are separate lemmas. Message passing between
ranks and between the server's threads is a state machine; its theorems hold for every interleaving.

Where the code does not do what its comments or its callers expect, the model follows the code and a lemma
gives the exact condition:

- The FFT is a DFT for every input only at powers of two, which `ZC_computeFFT` does not check
  (`FastFourier.ExactLengths`).
- The two-dimensional SSIM visits every pixel once only at some sizes, so at the others an image does not score 1
  against itself (`SsimImage.IdenticalScore`); at those sizes it scores 1 against nothing else
  (`SsimImage.PerfectScore`). The three-dimensional maximum starts at 0 and so is a score
  only if some sampled layer's score is not negative (`SsimImage.VolumeExtremes`); for stripes against their
  reflection it is not (`SsimNegative.MaximumOfNoLayer`).
- `ZC_compareData_double_online` keeps the global length of the first data set it sees; for a data set of another
  length its result is right only if original and decompressed values are equal and either vary or are all
  zero (`Comparison.OnlineIsOffline`).
- A constant difference gives a histogram that sums to 0 (`Comparison.PdfIsDistribution`).
- The comment of `dictionary_set` (`zc/src/dictionary.c:196-219`) says that a NULL value deletes the entry; the code
  stores NULL and keeps the key (`Dictionaries.Dictionary.Set`).
- `ht_freePairEntry` finds only keys in the first HASHTABLE_SIZE bins (`ChainedTable.HashTable.FreePairEntry`).
- `iniparser_load` forgets a syntax error as soon as a later line is stored: it fails exactly if a line is too long
  or the last errors have no stored line behind them (`IniRoundTrip.FailsOnlyOnLastErrors`),
  and a dictionary without sections is never loaded back under its own keys (`IniRoundTrip.BareRoundTrip`).
- Blanks inside the quotes of a value are dropped, a missing closing quote is not an error, and a quoted pair of the
  other quotes is stored as the empty value (`IniLines.QuotedValueIsRead`).
- Marking matches with '!' is one pass exactly if the text has no '!' (`StringReplace.MarkingIsOnePass`).

## Model

| member | source | states |
|---|---|---|
| FastFourier.Transform | zc/src/ZC_DataProperty.c:124-176 | at any length and any offsets, the in-place recursion that swaps the roles of data and scratch leaves the radix-2 transform of the old range in it and changes nothing outside the two ranges; at powers of two entry k is the sum of the old entries turned by jk/n of a circle, clockwise forward and counterclockwise backward |
| FastFourier.Deinterleave | zc/src/ZC_DataProperty.c:131-134 | the even-indexed entries end in the low half of the scratch range, the odd ones in the high half |
| FastFourier.Combine | zc/src/ZC_DataProperty.c:137-146 | the loop turns the two half transforms in the scratch into the butterflies of the whole |
| FastFourier.Radix2IsDft | zc/src/ZC_DataProperty.c:124-149 | at every power of two, what the recursion computes is the direct sum of s[j] * w^(jk) for each k |
| FastFourier.SpectrumOf | zc/src/ZC_DataProperty.c:137-146 | at every power of two and in both directions, the real and imaginary parts of every output as sums of the inputs' parts times cosines and sines |
| FastFourier.QuarterTurn | zc/src/ZC_DataProperty.c:138-139 | a quarter turn has cosine 0 and sine 1, so the direction of the turn is fixed |
| FastFourier.RoundTrip | zc/src/ZC_DataProperty.c:124-176 | ifft after fft, and fft after ifft, multiply every entry by n, at every power of two |
| FastFourier.ExactLengths | zc/src/ZC_DataProperty.c:124-149 | the recursion is a DFT for every input of length n if and only if n is a power of two |
| FastFourier.ImpulseTransform | zc/src/ZC_DataProperty.c:124-149 | the impulse transforms to all ones exactly at powers of two |
| FastFourier.TwiddleIsPow | zc/src/ZC_DataProperty.c:138-139 | the cosine and sine computed for m are the m-th power of the root |
| FastFourier.RootFacts | zc/src/ZC_DataProperty.c:138-139 | the root is a principal n-th root, its square is the root of the half length, and the two directions' roots are inverse |
| FastFourier.ComputeFft | zc/src/ZC_DataProperty.c:363-402 | the coefficients of real data are the transform of the data with zero imaginary parts; at powers of two coefficient k is the cosine sum of the data in its real part and minus the sine sum in its imaginary part; each amplitude is the root of the squared parts |
| Fourier.Inversion | zc/src/ZC_DataProperty.c:151-176 | the DFT with the inverse root undoes the DFT up to the factor n |
| Fourier.DftButterfly | zc/src/ZC_DataProperty.c:140-145 | outputs k and k + n/2 of a DFT are the sum and difference of the even part and the twisted odd part |
| Fourier.DftEvenOddOutputs | zc/src/ZC_DataProperty.c:151-176 | the even and odd outputs are the DFTs of the half sums and of the twisted half differences |
| HeatStep.InitData | examples/heatdis.c:25-38 | the grid is cold except, on rank 0, 100 at the columns of the first row above M/10 - 1 and below 9M/10 |
| HeatStep.DoWork | examples/heatdis.c:60-100 | one local step, its received halo, and the largest change among the interior cells |
| HeatStep.Sweep | examples/heatdis.c:86-93 | the double loop relaxes every interior cell from the copy and returns the largest change |
| HeatStep.RunStaysWithin | examples/heatdis.c:86-98 | any bounds on the grid hold over any number of steps |
| HeatStep.TemperatureRange | examples/heatdis.c:25-38 | from the initial grid all values stay between 0 and 100 |
| HeatStep.ChangeShrinks | examples/heatdis.c:86-98 | no cell changes more in a step than the error of the step before |
| HeatStep.ErrorNeverGrows | examples/heatdis.c:162-197 | over every run the global error that the stopping test compares never increases |
| HeatRanks.HaloIsWindow | examples/heatdis.c:67-85 | a rank's halo grid after the exchange is its window of the global grid |
| HeatRanks.LocalStepAgrees | examples/heatdis.c:60-100 | a local step with the right received rows is the rank's part of one step of the global grid |
| HeatRanks.LocalErrorShare | examples/heatdis.c:86-99 | the local error is the largest change of the global step over the rank's rows |
| HeatRanks.RunKeepsInv | examples/heatdis.c:72-85 | over every interleaving of posts and steps, each rank's grid and each row in transit is its part of the global run |
| HeatRanks.Determinate | examples/heatdis.c:60-100 | for any number of ranks and any interleaving, each interior cell has the value of the sequential run at the rank's step count, between 0 and 100 |
| HeatRanks.NoDeadlock | examples/heatdis.c:72-85 | in every reachable state some rank can move |
| HeatRanks.CatchUp | examples/heatdis.c:162-197 | from every reachable state the ranks can bring themselves to any common step that none has passed, so the gather and the reduction are always within reach |
| HeatRanks.GatherIsGlobal | examples/heatdis.c:203-203 | when all ranks have done t steps, the gathered interior rows are those of the global grid |
| HeatRanks.ReduceIsGlobalError | examples/heatdis.c:192-194 | the maximum of the local errors is the error of the global step |
| Moments.CauchySchwarz | zc/src/ZC_ssim.c:248-264 | weighted variances are not negative and the squared covariance is at most their product |
| Ssim.GetSsim | zc/src/ZC_ssim.c:214-277 | the clipped loops compute the score of the window, cut at the image's edge |
| Ssim.GetSsimFullKernel | zc/src/ZC_ssim.c:279-334 | away from the edge, the fixed-weight kernel computes the same score as the clipped one |
| Ssim.InteriorWeight | zc/src/ZC_ssim.c:311-311 | an interior window is the whole 7 by 7 kernel, and its weight is the constant that the fast form divides by |
| Ssim.WindowPsd | zc/src/ZC_ssim.c:231-246 | the sums over a window have positive weight and are moments: no linear combination has a negative square sum |
| Ssim.ScoreBound | zc/src/ZC_ssim.c:248-272 | the score of any moments lies between -1 and 1 |
| Ssim.ScoreOfDiagonal | zc/src/ZC_ssim.c:248-272 | a window compared with itself scores exactly 1 |
| Ssim.ScoreEquations | zc/src/ZC_ssim.c:256-272 | the score is the product of three numbers, each fixed by one equation in the means, the variances or the covariance with its stabilising constant, and each above -1 and 1 exactly for equal means, equal variances or the largest covariance |
| Ssim.ScoreIsOne | zc/src/ZC_ssim.c:256-272 | the score is 1 exactly for equal means, and variances equal to each other and to the covariance |
| Ssim.ScoreOfMeans | zc/src/ZC_ssim.c:268-268 | with variances and covariance equal, the value of the score as the quotient in the means |
| Ssim.ScoreOfVariances | zc/src/ZC_ssim.c:269-269 | with equal means and the covariance as large as it can be, the value of the score as the quotient in the variances |
| Ssim.ScoreOfCovariance | zc/src/ZC_ssim.c:271-271 | with equal means and variances, the value of the score as the quotient in the covariance |
| SsimImage.FindRange | zc/src/ZC_ssim.c:345-355 | the largest minus the smallest pixel |
| SsimImage.RangeIsZero | zc/src/ZC_ssim.c:355-355 | the value range is zero exactly for constant images |
| SsimImage.CalcSsim2D | zc/src/ZC_ssim.c:336-393 | the loops add up the window scores of the visited pixels and divide by the number of pixels; at covered sizes the result is between -1 and 1, and 1 exactly if the images are equal |
| SsimImage.VisitsAllOnce | zc/src/ZC_ssim.c:357-390 | as many scores are added as there are pixels if and only if H >= 6, and W >= 6 unless H is 6 |
| SsimImage.VisitedIsWhole | zc/src/ZC_ssim.c:357-390 | at those sizes the edge and interior loops together visit every pixel exactly once |
| SsimImage.MeanScore | zc/src/ZC_ssim.c:336-393 | at those sizes the result is the mean window score over the pixels and lies between -1 and 1 |
| SsimImage.IdenticalScore | zc/src/ZC_ssim.c:336-393 | an image scores 1 against itself at exactly those sizes |
| SsimImage.PerfectWindow | zc/src/ZC_ssim.c:214-277 | a window scores 1 only if the images agree at every pixel of it |
| SsimImage.PerfectScore | zc/src/ZC_ssim.c:336-393 | at the sizes visited once, the score is 1 if and only if the images are equal |
| SsimImage.CalcSsim3D | zc/src/ZC_ssim.c:431-464 | minimum, mean and maximum over the sampled layers that are not constant, as the loop accumulates them |
| SsimImage.VolumeExtremes | zc/src/ZC_ssim.c:431-464 | at every size the loops can run, the minimum is the least sampled score exactly if one is at most 1, as always at covered sizes; the maximum is the greatest exactly if some sampled layer does not score below 0; the mean lies between |
| SsimImage.ScoresAre | zc/src/ZC_ssim.c:431-464 | the scores that the loop accumulates are exactly those of the sampled layers |
| SsimImage.LayersLookedAt | zc/src/ZC_ssim.c:431-464 | all layers are looked at up to depth 20, and between 20 and 39 beyond |
| SsimNegative.ImageNegative | zc/src/ZC_ssim.c:336-393 | six rows of stripes score below 0 against their reflection, at every width |
| SsimNegative.MaximumOfNoLayer | zc/src/ZC_ssim.c:431-464 | a volume at a covered size whose reported maximum, 0, is the score of no layer |
| Autocorrelation.Autocorrelation1D | zc/src/ZC_DataProperty_double.c:10-93 | each coefficient of the branch that the length selects, with the first one 1 |
| Autocorrelation.LargeBranch | zc/src/ZC_DataProperty_double.c:17-42 | each coefficient is the mean lagged product over the variance, or 0 when that is 0 |
| Autocorrelation.SmallBranch | zc/src/ZC_DataProperty_double.c:43-89 | the correlation of the two overlapping parts at each lag, or all 1 if some lag has a part without variance |
| Autocorrelation.LagStatistics | zc/src/ZC_DataProperty_double.c:47-86 | means, deviations and covariance of one lag give its correlation, and the product of deviations is 0 exactly when the lag is degenerate |
| Autocorrelation.LaggedBound | zc/src/ZC_DataProperty_double.c:36-37 | the lagged product sum is at most the square sum in magnitude, for any reference value |
| Autocorrelation.LargeBound | zc/src/ZC_DataProperty_double.c:17-42 | coefficient delta is at most n / (n - delta) in magnitude |
| Autocorrelation.LargeLevel | zc/src/ZC_DataProperty_double.c:17-42 | where every square is c and every lagged product e, as for data that repeats after delta elements, the coefficient is e / c however short the overlap |
| Autocorrelation.SmallBound | zc/src/ZC_DataProperty_double.c:43-89 | the correlation at a lag that is not degenerate lies between -1 and 1 |
| Autocorrelation.SmallResultBound | zc/src/ZC_DataProperty_double.c:43-89 | every coefficient of the branch lies between -1 and 1 |
| Autocorrelation.ShortestInput | zc/src/ZC_DataProperty_double.c:74-78 | with 101 elements the last lag has one pair, so every coefficient is 1 |
| EntropyTable.HashInit | zc/src/ZC_DataProperty.c:11-16 | an initialised table counts no puts, whatever it held |
| EntropyTable.HashPut | zc/src/ZC_DataProperty.c:29-50 | one more put of the key is counted; it fails, changing nothing, exactly when the key is absent and every slot is used |
| EntropyTable.HashGet | zc/src/ZC_DataProperty.c:18-27 | the search stops and returns the number of puts of the key, or the absent marker |
| EntropyTable.PutAll | zc/src/ZC_DataProperty.c:29-50 | a sequence of puts succeeds exactly if its distinct keys fit in the table |
| EntropyTable.PutAllThenGet | zc/src/ZC_DataProperty.c:11-50 | after any sequence of puts with fewer distinct keys than slots, the get returns the exact count |
| EntropyTable.AbsentKey | zc/src/ZC_DataProperty.c:18-27 | reaching a free slot along the probe sequence, across the wraparound, proves that the key is absent |
| EntropyTable.UniqueSlot | zc/src/ZC_DataProperty.c:29-50 | without gaps in the probe sequences no key is in two slots |
| EntropyTable.StoreNew | zc/src/ZC_DataProperty.c:43-49 | a new key in the first free slot of its probe sequence keeps all probe sequences without gaps |
| EntropyTable.StoredCount | zc/src/ZC_DataProperty.c:29-50 | the stored keys are as many as the slots exactly when every slot is used |
| ChainedTable.HashTable.Hash | zc/src/ZC_Hashtable.c:65-79 | the loop computes the bin of the key, which is below the capacity |
| ChainedTable.HashTable.Set | zc/src/ZC_Hashtable.c:101-143 | the table's map is updated at the key only, and chains, keys and count stay consistent |
| ChainedTable.HashTable.Get | zc/src/ZC_Hashtable.c:145-165 | the value of the key in the table's map, or NULL |
| ChainedTable.HashTable.FreePairEntry | zc/src/ZC_Hashtable.c:195-243 | removes and returns the entry exactly if the key is present and its bin is below HASHTABLE_SIZE; otherwise nothing changes |
| ChainedTable.HashTable.GetAllKeys | zc/src/ZC_Hashtable.c:245-259 | the array has exactly the keys of the map, without repetition, and is exactly full |
| ChainedTable.HashTable.CountIsSize | zc/src/ZC_Hashtable.c:261-264 | the count field is the number of keys of the map |
| Dictionaries.DictionaryHash | zc/src/dictionary.c:88-104 | the loop computes the 32-bit hash, with sign-extended characters and wrapping arithmetic |
| Dictionaries.Dictionary.constructor | zc/src/dictionary.c:117-132 | an empty map with at least DICTMINSZ slots |
| Dictionaries.Dictionary.Get | zc/src/dictionary.c:175-193 | the value of the key, or the default, whatever hashes collide |
| Dictionaries.Dictionary.Set | zc/src/dictionary.c:221-275 | the map is updated at the key only, growing when full; a NULL key fails; a NULL value is stored |
| Dictionaries.Dictionary.Grow | zc/src/dictionary.c:246-258 | doubling keeps the map and the entries' slots |
| Dictionaries.MemDouble | zc/src/dictionary.c:38-49 | a copy of twice the length whose second half is zero |
| Dictionaries.Dictionary.FindEmpty | zc/src/dictionary.c:260-267 | the wraparound search for an empty slot always stops at one |
| Dictionaries.Dictionary.Unset | zc/src/dictionary.c:288-323 | the map loses the key and nothing else |
| Dictionaries.Dictionary.CountIsSize | zc/src/dictionary.c:221-323 | n is the number of entries of the map |
| Dictionaries.OccupiedBound | zc/src/dictionary.c:260-267 | fewer entries than slots leave a slot empty |
| Dictionaries.StoredInsert | zc/src/dictionary.c:268-273 | a new key in an empty slot with its hash adds that one entry to the map and keeps keys unique and hashes right |
| Dictionaries.StoredRemove | zc/src/dictionary.c:310-321 | clearing the key's slot removes that one entry and keeps the invariants |
| Dictionaries.StoredGrow | zc/src/dictionary.c:246-258 | empty slots behind the old ones change neither the map nor the count |
| IniLines.StrLwc | zc/src/iniparser.c:44-58 | the lower-case text, cut at the buffer size |
| IniLines.StrStrip | zc/src/iniparser.c:74-92 | the text without the blanks at both ends, cut at the buffer size |
| IniLines.IniparserLine | zc/src/iniparser.c:579-642 | the branches and scans classify every line as the specification function does, including "[]", quotes and comments |
| IniLines.PlainValueIsRead | zc/src/iniparser.c:609-622 | for any blanks before the key and around the '=', none included, and nothing or blanks and a comment behind, a plain value is stored as it stands under the lower-case key |
| IniLines.QuotedValueIsRead | zc/src/iniparser.c:609-622 | a value behind a quote of either kind is stored up to the closing quote, whatever follows, or up to the end of the line, without the blanks around it; only a quoted pair of the other quotes becomes empty |
| IniLines.EmptyValueIsRead | zc/src/iniparser.c:609-635 | no value, a pair of quotes and a comment in place of a value are all stored as the empty value |
| IniLines.ParseAnyKeyLine | zc/src/iniparser.c:589-622 | for any line with a key, the stored value depends only on what stands behind the '=' and its blanks |
| IniLines.CharacterClasses | zc/src/iniparser.c:53-53 | lower case and blanks are those of the C locale |
| IniLines.SyntaxErrors | zc/src/iniparser.c:597-640 | a line is a syntax error exactly if it is no comment or section and has no '=' behind a key |
| IniLines.EntryRoundTrip | zc/src/iniparser.c:258-263 | the printed line of an entry reads back as the same key and value if and only if the texts meet a checkable condition |
| IniLines.RereadIs | zc/src/iniparser.c:609-622 | a stripped value is scanned back as it is exactly if it has no comment character and does not look quoted |
| IniLines.ParsedEntryFacts | zc/src/iniparser.c:609-635 | every key the parser produces is nonempty, stripped, lower case and free of '='; every value is stripped |
| IniLines.SectionRoundTrip | zc/src/iniparser.c:603-608 | the printed line of a section reads back as the same name exactly if it is stripped, lower case and free of ']' |
| IniFiles.GetNSec | zc/src/iniparser.c:112-127 | the number of keys without a colon |
| IniFiles.GetSecName | zc/src/iniparser.c:143-163 | the n-th key without a colon in slot order, or NULL |
| IniFiles.FindEntry | zc/src/iniparser.c:524-534 | whether the lower-case name is an entry |
| IniFiles.DumpSection | zc/src/iniparser.c:244-268 | the lines of the section's entries in slot order, between blank lines; nothing for an absent name |
| IniFiles.DumpIni | zc/src/iniparser.c:206-230 | the lines of all sections, or of all entries under their whole keys when there is no section |
| IniFiles.Load | zc/src/iniparser.c:658-759 | the read loop with continuation lines, length check and error count gives the dictionary of the specification, or NULL |
| IniFiles.ReadLengthIs | zc/src/iniparser.c:692-692 | one read ends behind a newline, at the end of the file or when the buffer is full, and has no other newline |
| IniRoundTrip.RunJoin | zc/src/iniparser.c:693-742 | the read loop takes lines that fit one by one, whatever text follows |
| IniRoundTrip.LoadEntries | zc/src/iniparser.c:254-265 | loading a section's dumped lines stores every entry of that section with its value, and nothing that the dictionary does not hold |
| IniRoundTrip.LoadOfDump | zc/src/iniparser.c:206-268 | in any slot order, loading the dump of a normalised dictionary with a section gives exactly the sections and the entries whose section is there |
| IniRoundTrip.RoundTrip | zc/src/iniparser.c:658-759 | a normalised dictionary comes back unchanged if and only if every entry's section is an entry |
| IniRoundTrip.LoadOfBareDump | zc/src/iniparser.c:215-224 | without sections every entry comes back under its key with a colon before it |
| IniRoundTrip.BareRoundTrip | zc/src/iniparser.c:215-224 | so a dictionary without sections comes back unchanged if and only if it is empty |
| IniRoundTrip.FailsOnlyOnLastErrors | zc/src/iniparser.c:693-757 | for every text, loading fails exactly if a line, with what it continues, does not fit the buffer, or some syntax error has no stored line behind it |
| StringReplace.CharBuffer.Find | zc/src/ZC_util.c:364-364 | the first occurrence, or none exactly if there is none |
| StringReplace.CharBuffer.ReplaceStr | zc/src/ZC_util.c:359-381 | no match is left, and the text is reached by replacing first matches one after the other, for every other replacement no longer than the match and for every one that no match can touch; in the last case the result is one left-to-right pass; the result code tells whether there was a match |
| StringReplace.ReplaceStr2 | zc/src/ZC_util.c:389-394 | for any nonempty match and replacement without '!', both rounds stop, with the matches marked in one pass and the marks replaced in another |
| StringReplace.MarkingIsOnePass | zc/src/ZC_util.c:383-394 | the two passes equal one pass with the replacement, even one that contains the match, if and only if the text has no '!' |
| StringReplace.NeverStops | zc/src/ZC_util.c:367-378 | a replacement that contains the match leaves a match after every round |
| StringReplace.NothingBehind | zc/src/ZC_util.c:367-378 | if match and replacement neither contain each other nor overlap, no match starts before the end of the latest replacement |
| StringReplace.Overlap | zc/src/ZC_util.c:367-378 | a match that covers a part of a replacement needs a common part of the two texts |
| StringReplace.OrderFalls | zc/src/ZC_util.c:367-378 | replacing a match by another text of its length moves the text in one direction of the alphabetical order, so the loop stops |
| Base64.Encode | zserver/base64.cpp:45-85 | the buffered loop emits the encoding of each group of three bytes and pads the last |
| Base64.Decode | zserver/base64.cpp:87-122 | the buffered loop stops at the first '=' or foreign character and emits the bytes of the characters before |
| Base64.RoundTrip | zserver/base64.cpp:45-122 | decoding an encoding gives the bytes back, for every byte sequence |
| Base64.Shape | zserver/base64.cpp:45-85 | four characters for every three bytes or fewer, all in the alphabet except the final padding |
| Base64.TableIs | zserver/base64.cpp:34-42 | characters and values are the entries of the 64-character table and their positions, and the alphabet is its characters |
| Base64.SextetForms | zserver/base64.cpp:55-58 | the masks, shifts and sums of the encoder, on 8-bit values, are the quotients and remainders of the three bytes |
| Base64.OctetForms | zserver/base64.cpp:99-101 | so are those of the decoder, whose carries are never lost on table positions |
| Base64.Sum | zserver/base64.cpp:55-58 | adding bytes adds their numbers whenever the sum fits in eight bits |
| Base64.SextetsAreGroup | zserver/base64.cpp:55-58 | the values of the four bit expressions are the base-64 digits of the 24-bit number |
| Base64.OctetsAreUngroup | zserver/base64.cpp:99-101 | the values of the three bit expressions are the base-256 digits of the four characters' number |
| Base64.OctetsPrefix | zserver/base64.cpp:109-119 | the bytes emitted for an incomplete group do not depend on what fills it |
| ErrorStats.ReducedStatsAreGlobal | zc/src/ZC_CompareData_double.cpp:477-512 | reducing the ranks' sums, extremes and counts gives those of the concatenated data |
| Report.StatsAre | zc/src/ZC_CompareData_double.cpp:45-77 | the accumulated statistics are the sums over the elements, the count of nonzero originals, and the extremes of differences, errors and relative errors |
| Comparison.LocalPass | zc/src/ZC_CompareData_double.cpp:45-77 | one loop computes all sums, extremes and relative errors and every difference |
| Comparison.Compare | zc/src/ZC_CompareData_double.cpp:22-155 | every field in terms of the data: extremes and mean of the errors, relative to the range and to the originals, root mean square, both correlation coefficients, and for each cell of the histogram the share of the differences between its bounds; infinite and undefined quotients at value range zero |
| Comparison.CountDiffs | zc/src/ZC_CompareData_double.cpp:137-147 | each histogram cell counts the differences whose index it is |
| Comparison.BinIs | zc/src/ZC_CompareData_double.cpp:139-142 | a difference has index k exactly if it lies between min + k * interval and min + (k + 1) * interval, or is the largest and k is the last |
| Comparison.CountIsCell | zc/src/ZC_CompareData_double.cpp:137-144 | the count of cell k is the number of elements whose difference lies there |
| Comparison.ResultDescribes | zc/src/ZC_CompareData_double.cpp:79-250 | for any length that is divided by, all fields of the result as sums, extremes and counts over the data; each correlation by its square and its sign |
| Comparison.PdfIsDistribution | zc/src/ZC_CompareData_double.cpp:127-155 | every index is in range, and the histogram sums to 1 exactly if two differences differ |
| Comparison.SumProducts | zc/src/ZC_CompareData_double.cpp:227-233 | the sums of products and squares of deviations from the means |
| Comparison.CorrelationBound | zc/src/ZC_CompareData_double.cpp:225-244 | the Pearson value lies between -1 and 1 |
| Comparison.Session.CompareOnline | zc/src/ZC_CompareData_double.cpp:403-591 | for any nonempty ranks and any value range, rank 0 stores the offline result of the concatenated data if the stored length is unset or its own; for any stored length, every field describes the concatenated data with means over that length |
| Comparison.OnlineIsOffline | zc/src/ZC_CompareData_double.cpp:403-591 | the whole online result, correlations included, equals the offline one on the concatenation if and only if the stored length is unset or right, or the data do not depend on it |
| Comparison.WrongLength | zc/src/ZC_CompareData_double.cpp:419-420 | with every mean taken over a wrong length, the whole result is still right if and only if the data sets are equal and their values vary or are all zero |
| Comparison.RankBinsInRange | zc/src/ZC_CompareData_double.cpp:567-573 | every rank's histogram index against the global extremes is in range |
| Comparison.ReducedCountIsGlobal | zc/src/ZC_CompareData_double.cpp:575-575 | the summed histograms are the histogram of the concatenation |
| Comparison.ReducedProductsAreGlobal | zc/src/ZC_CompareData_double.cpp:688-714 | the summed products are those of the concatenation |
| QuickSort.Divide | zc/src/ZC_quicksort.c:6-36 | always returns end, with a largest key there, so mid - 1 never wraps; the range is permuted |
| QuickSort.ScanDown | zc/src/ZC_quicksort.c:20-21 | the right-hand scan stops at the pivot at the latest, past larger keys only |
| QuickSort.Sort | zc/src/ZC_quicksort.c:102-112 | the range ends sorted by key and is a permutation; nothing outside changes |
| ErrorBounds.SelectErrorBounds | zc/src/ZC_ReportGenerator.c:147-190 | every interval-th of the sorted bounds is selected: between one and the requested number, descending from the largest |
| ErrorBounds.SelectionFacts | zc/src/ZC_ReportGenerator.c:173-187 | each selected bound is an input with its own value, the first is at least every input, and all are kept when they fit |
| ErrorBounds.SelectionSize | zc/src/ZC_ReportGenerator.c:159-162 | the interval is positive and ceil(n / interval) is between 1 and the requested number |
| ErrorBounds.IntervalIsLeast | zc/src/ZC_ReportGenerator.c:159-162 | a step leaves at most the requested number of bounds if and only if it is at least the interval |
| ErrorSetting.FindReaching | zc/src/ZC_CompareData.c:935-942 | the first ratio that reaches the target, or index 0 when none does |
| ErrorSetting.ComputeErrorSetting | zc/src/ZC_CompareData.c:906-983 | the setting of the nearest mode and of the linear mode in all three branches |
| ErrorSetting.DivisorsNonzero | zc/src/ZC_CompareData.c:961-962 | for ascending ratios, the extrapolation divides by no zero exactly if the first two ratios differ |
| ErrorSetting.Brackets | zc/src/ZC_CompareData.c:943-952 | inside the measured range the result lies between the settings of the two neighbouring ratios |
| ErrorSetting.OutsideBrackets | zc/src/ZC_CompareData.c:953-965 | otherwise the result is on the line through the first two points, or their first setting when that is negative |
| ErrorSetting.ExtrapolatedIsOnLine | zc/src/ZC_CompareData.c:961-962 | the quotient formula is the line through the first two points |
| ErrorSetting.Monotone | zc/src/ZC_CompareData.c:930-966 | with nondecreasing settings the result is nondecreasing in the target over the measured range |
| ErrorSetting.Extract | zc/src/ZC_CompareData.c:985-993 | ratios and settings in the order of the results |
| ErrorSetting.Identify | zc/src/ZC_CompareData.c:1060-1079 | after sorting in place every target gets its estimate; the nearest mode needs one result, the linear mode results that enclose the target or have one least ratio |
| ErrorSetting.OnlyAnswerable | zc/src/ZC_CompareData.c:943-965 | the condition that the linear mode puts on the results in any order is exactly that no divisor is zero after sorting |
| ActionQueue.Server.PushAction | zserver/zserver.cpp:90-112 | one critical section is one producer step |
| ActionQueue.Server.OnOpen | zserver/zserver.cpp:90-96 | queues the subscription |
| ActionQueue.Server.OnClose | zserver/zserver.cpp:98-104 | queues the end of the subscription |
| ActionQueue.Server.OnMessage | zserver/zserver.cpp:106-112 | queues the message |
| ActionQueue.Server.Stop | zserver/zserver.cpp:258-262 | queues the exit |
| ActionQueue.Server.Commit | zserver/zserver.cpp:396-400 | queues the broadcast |
| ActionQueue.Server.ProcessMessages | zserver/zserver.cpp:158-185 | undisturbed, the consumer loop ends having sent exactly what the actions it took demand, stopped or with an empty queue |
| ActionQueue.RunKeepsInv | zserver/zserver.cpp:158-185 | under every interleaving, the connections and what each has received are those that the actions taken so far demand in queue order |
| ActionQueue.Delivered | zserver/zserver.cpp:177-180 | each connection receives exactly the broadcasts processed while it is subscribed, each once and in queue order; only the latest can be missing while the consumer is at work |
| ActionQueue.NothingAfterExit | zserver/zserver.cpp:181-183 | no action queued behind an exit is ever taken |
| ActionQueue.Drain | zserver/zserver.cpp:158-185 | from every reachable state consumer steps alone empty the queue or reach the exit |

## Left out

- Rounding, NaN, infinities and overflow of `double`; the `float` copies of the kernels are the same code.
- Files, directories, gnuplot, LaTeX, HDF5, NetCDF, R, FFTW, libpressio and websocket calls: I/O or foreign libraries.
- Allocation failure and fixed buffers, except the line buffer of the INI parser.
- FastFourier.Transform: `fft` and `ifft` are one method with a sign parameter, as their bodies differ only in that sign.
- FastFourier.ComputeFft: the amplitudes are an array of their own, not a field of the coefficients.
- HeatRanks.RunKeepsInv: the reduction every fifth step only removes interleavings, so it is not a step of the machine; compression and output inside the loop are not part of this model.
- HeatStep.DoWork: a row is received as a parameter; the order of the copy, receive and sweep loops is kept. At least three lines and one column are required, as the loops read neighbours.
- SsimImage.CalcSsim2D: heights below 3, and widths below 3 with more than 6 lines, make an unsigned difference wrap and are excluded; so are constant images, which divide 0 by 0.
- SsimImage.CalcSsim3D: with no layer to score the mean is 0 divided by 0 and stays unspecified; the online averages are not part of this model.
- EntropyTable.HashGet: with a full table and an absent key the loop does not stop, so a free slot or the key is required; the `int` narrowing of the hash and the wrap of the counter are not modelled.
- ChainedTable.HashTable.FreePairEntry: capacities below HASHTABLE_SIZE are excluded, since the loop scans HASHTABLE_SIZE bins whatever the capacity.
- IniFiles.Load: the file is its text; `fgets` and `sscanf` are functions on text. A line of two or more blanks makes the code read the byte before the buffer; the model takes that byte for no backslash.
- IniFiles.DumpIni: a NULL value without sections prints as glibc prints it.
- StringReplace.CharBuffer.ReplaceStr: whether the loop stops for a replacement longer than the match that overlaps it without containing it is the termination of one-rule string rewriting; the cases in the contract and NeverStops are settled. The empty match never stops.
- Comparison.Compare: the relative-error histogram, `snr`, `psnr` and the spectra are not part of this model. A quotient by zero is a value of its own, equal to itself even where it is NaN.
- Comparison.Session.CompareOnline: the online relative-error histogram reduces too few cells and publishes the local buffer, and the online autocorrelation divides by a length that depends on the number of ranks; neither matches its offline form.
- QuickSort.Sort: the four copies of the sort are one method with the key as a parameter, negated for descending order; sorting no elements is excluded where `end` is unsigned.
- ErrorSetting.ComputeErrorSetting: the libpressio mode is not part of this model; where the linear mode divides by zero, or reads a second ratio that is not there, it is excluded.
- ErrorSetting.Identify: the table of targets is a sequence of numbers.
- ActionQueue.Server.ProcessMessages: the contents of the messages, the HTTP handler and the database are not part of this model; the order in which one broadcast reaches the different connections is left open, as each is a step of its own.
- The matrix metrics, gradients, Laplacians and Sobolev norms, the dynamic arrays, byte swaps and dimension strings: easy or repeated, and some have known slips in macros and indices.
