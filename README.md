# A verified model of a lossless predictive image codec

The codec compresses 8-bit gray or RGB images, or int16 colour-transformed planes, in three stages.

1. **Colour transform and channel rule** (`imageIO.cpp`).
   - Gray and RGB images are kept as they are. RGBA images lose their alpha channel. Every other channel count is rejected.
   - RGB can be mapped to a lossless YUV-like plane, `rgb_to_yuv`: Y = (R + 2G + B) >> 2, U = B - G, V = R - G.
   - RGB can also be mapped to a reversible colour transform, `rct_from_rgb`: Y = G, U = R - G, V = B - G.
   - `yuv_to_rgb` and `rct_to_rgb` invert these two, with clamping to bytes.
2. **Prediction** (`predictor.cpp`).
   - Each sample, in raster order with channels innermost, is predicted and replaced by an int16 residual, actual minus prediction.
   - The MED predictor (median edge detector) predicts from the left, above and above-left samples, with a zero border.
   - The LS predictor fits least-squares weights over a causal window of already-coded samples. It falls back to MED when the window is too small, the solve fails or a neighbour is missing.
   - The decoders rebuild the image from the residuals, predicting from the samples they have already rebuilt.
3. **Entropy coding** (`ansResidual.cpp`, `ansResidual.h`).
   - Residuals are zigzagged into 12-bit symbols; residuals outside (-2048, 2048) become an escape symbol and are stored raw.
   - A static frequency model of L = 4096 slots is built.
   - The symbols are coded with a 32-bit rANS coder (range asymmetric numeral systems) and stored in a 'RANS' container file.
   - Separately, the raw residuals can be saved to and loaded from a simple 'R61R' residual file (`residualIO.cpp`).

The Dafny project models each stage in the source's own form.

**How loops and byte formats are modelled**
- The source's loops are methods with loop invariants. Each method is proved equal to a specification function: `Reconstruct`, `ComputeResidualsLs`, `Encode`, `DecodeSymbols`, `BuildModel`, `TransformPixels` and others.
- The properties are lemmas about those functions.
- File writers and readers are functions over byte sequences. Every field is little-endian, as the source writes its integers on a little-endian host.
- Integer widths are explicit. `MachineInts` defines the wrapping casts, `Rans32` models uint32 state arithmetic modulo 2^32, and the histogram of `build_model` counts in wrapping uint16.

**Entropy back end**
- **Symbols and model.**
  - `Symbolizer` models symbolize and unsymbolize, including the escape list.
  - `StaticModel` models `build_model`. It proves that `build_model` always ends with the all-ones model, whatever the input. The reason: ALPHABET = L, and every quantised frequency is at least 1.
- **Coder.**
  - `Rans32` is the coder as written; `Rans32Fixed` is a corrected coder.
  - The corrected coder is proved to round-trip. The as-written coder is shown to lose data (see Findings).
- **Files and pipeline.**
  - `Container` proves that load_file inverts save_file.
  - `AnsPipeline` composes compress_to_file and decompress_file.

**Prediction**
- `Predictor` states what each residual is, and proves that reconstruction inverts residual computation for both MED and LS.
- The LS proof relies on one invariant: the encoder's context buffer is, at every step, exactly the prefix the decoder will have rebuilt.
- `PredictorLoops` holds the loops themselves. `PredictorImages` lifts them to `Image` and `Image16`.

**Images and the residual file**
- `ImageIO` proves that the YUV and RCT transforms round-trip every RGB image. It also models the channel rule and its idempotence.
- `ResidualIO` models the residual file and proves that load_residuals inverts save_residuals.

**What is abstracted**
- **LS solver.** The floating-point solve is a parameter, `Solver`, of type `(context, x, y, ch) -> Option<int>`. It returns the rounded prediction, or None when `gauss_solve` fails. Encoder and decoder are given the same solver.
- **I/O.** File and image I/O is replaced by byte sequences and `Image` values.
- **Errors.** Exceptions, and the out-of-range accesses the source would perform, are `Result` errors (`Wrappers.Error`).

## Model

| member | source | states |
|---|---|---|
| MachineInts.ToI16 | ansResidual.cpp:19-21 | `(int16_t)v` is the unique int16 congruent to v modulo 2^16, and the identity on the int16 range |
| MachineInts.ToU8 | imageIO.cpp:87 | `(uint8_t)v` is the unique byte congruent to v modulo 2^8, and the identity on 0..255 |
| MachineInts.ToU16 | ansResidual.cpp:81 | `(uint16_t)v` is congruent to v modulo 2^16, and the identity on 0..65535 |
| MachineInts.ToU32 | ansResidual.cpp:14-18 | `(uint32_t)v` and wrapping uint32 arithmetic are congruent to v modulo 2^32, and the identity on the uint32 range |
| MachineInts.ToI16Congruent | ansResidual.cpp:19-21 | values congruent modulo 2^16 have the same int16 image |
| MachineInts.WrapCancels | predictor.cpp:110-112 | `pred + (int16_t)(actual - pred)` cast back to int16 is `actual` for every prediction: the two wrapping casts cancel |
| LittleEndian.LeRoundTrip | ansResidual.cpp:193-211 | reading back the n low bytes a little-endian host writes gives the value, for every value below 256^n |
| LittleEndian.U32RoundTrip | ansResidual.cpp:193 | a 4-byte field written and read back is the same uint32 |
| LittleEndian.U64RoundTrip | ansResidual.cpp:198 | an 8-byte field written and read back is the same uint64 |
| LittleEndian.U16RoundTrip | ansResidual.cpp:201-202 | a 2-byte frequency written and read back is the same uint16 |
| LittleEndian.I32RoundTrip | ansResidual.cpp:194-197 | a two's-complement int32 field written and read back is the same int32 |
| LittleEndian.I16RoundTrip | ansResidual.cpp:207-208 | a two's-complement int16 written and read back is the same int16 |
| LittleEndian.U16sRoundTrip | ansResidual.cpp:201-202 | a whole uint16 vector written as bytes and read back is the same vector |
| LittleEndian.I16sRoundTrip | ansResidual.cpp:206-208 | a whole int16 vector written as bytes and read back is the same vector |
| AnsConfig.ConstantsAgree | ansResidual.h:21-24 | L = 4096, MAX_SYM = 4095, ESC_SYM = MAX_SYM, ALPHABET = MAX_SYM + 1 = L, PREC = 12 |
| Symbolizer.Zigzag | ansResidual.cpp:14-18 | zigzag16 maps r >= 0 to 2r and r < 0 to -2r-1, so every int16 gets a code below 65536 |
| Symbolizer.Unzigzag | ansResidual.cpp:19-21 | unzigzag16 maps an even z to z/2 and an odd z to -(z/2)-1, both cast to int16 |
| Symbolizer.ZigzagInverse | ansResidual.cpp:14-21 | unzigzag16 undoes zigzag16 on every int16 |
| Symbolizer.SymbolOf | ansResidual.cpp:33-40 | a residual's symbol is at most MAX_SYM; it is ESC_SYM exactly when the residual is outside (-2048, 2048); otherwise it unzigzags back to the residual |
| Symbolizer.Symbolize | ansResidual.cpp:29-43 | one symbol per residual, each at most MAX_SYM, ESC_SYM exactly at the out-of-range residuals; the escapes kept are those residuals in order, as many (and counted) as there are ESC symbols |
| Symbolizer.EscapesCounted | ansResidual.cpp:36-40 | the escape list has one entry per ESC symbol |
| Symbolizer.CountEscBound | ansResidual.cpp:36-40 | there are never more escapes than symbols |
| Symbolizer.SymbolizeResiduals | ansResidual.cpp:29-43 | the indexed loop with its push_back returns what Symbolize specifies |
| Symbolizer.Unsymbolize | ansResidual.cpp:45-56 | one output per symbol, provided the escape list holds at least one entry per ESC symbol |
| Symbolizer.UnsymbolizeIndex | ansResidual.cpp:51-54 | output i is the escape the cursor points at (the number of ESC symbols before i) for an ESC symbol, and the unzigzagged symbol otherwise |
| Symbolizer.UnsymbolizeResiduals | ansResidual.cpp:45-56 | the loop with its escape cursor returns what Unsymbolize specifies |
| Symbolizer.SymbolizeRoundTrip | ansResidual.cpp:29-56 | unsymbolize after symbolize gives back every residual, and the escape list is long enough for it |
| StaticModel.Owner | ansResidual.cpp:100-103 | every slot below the table sum belongs to a symbol s whose range [cdf[s], cdf[s] + freq[s]) holds it |
| StaticModel.OwnerUnique | ansResidual.cpp:100-103 | the symbol ranges do not overlap: a symbol whose range holds the slot is the owner |
| StaticModel.Cdf | ansResidual.cpp:95-97 | one cdf entry per frequency |
| StaticModel.Lut | ansResidual.cpp:99-103 | the slot table has L entries |
| StaticModel.TablesAgree | ansResidual.cpp:95-103 | cdf is the exclusive prefix sum of freq, and when freq fills L the slot table names s exactly at the slots of s's range |
| StaticModel.OnesModelShape | ansResidual.cpp:66-105 | in the all-ones model freq[s] = 1, cdf[s] = s and the slot table is the identity |
| StaticModel.AllOnesFromSum | ansResidual.cpp:84-93 | a table of ALPHABET entries, each at least 1, that sums to L = ALPHABET is all ones |
| StaticModel.Quantise | ansResidual.cpp:80-83 | `max(1, round(count * L / total))` lies in [1, L] |
| StaticModel.MaxElement | ansResidual.cpp:85-86 | std::max_element: the first index of a largest entry |
| StaticModel.MinElement | ansResidual.cpp:90-91 | std::min_element: the first index of a smallest entry |
| StaticModel.Normalise | ansResidual.cpp:84-93 | the two correction loops, started from entries in [1, L], always end with the sum at L and every frequency 1 |
| StaticModel.FillSlots | ansResidual.cpp:101-102 | writing symbol s over its range extends the slot table by s's slots and leaves the rest zero |
| StaticModel.BuildTables | ansResidual.cpp:95-103 | the cdf and slot-table loops produce the tables Tables describes |
| StaticModel.BuildModel | ansResidual.cpp:66-105 | for every histogram, including the empty one seeded at line 73, build_model returns the all-ones model |
| Rans32.RenormBound | ansResidual.cpp:126 | `f << 20` in uint32 is f * 2^20 for f < L and wraps to 0 for f = L |
| Rans32.Renorm | ansResidual.cpp:126-129 | renormalisation ends below the bound and never raises the state |
| Rans32.RenormLossless | ansResidual.cpp:126-129 | the pushed bytes are the low digits of the state and the new state is the rest: nothing is lost |
| Rans32.PutSymbol | ansResidual.cpp:122-130 | one pass of the encoder loop is one Put step |
| Rans32.FlushBytes | ansResidual.cpp:133-136 | the flush writes the state low byte first |
| Rans32.Encode | ansResidual.cpp:112-138 | the encoder, symbols taken last to first, then the flush, returns EncodeSpec |
| Rans32.EncodeLength | ansResidual.cpp:112-138 | the output is the 4 flushed bytes plus at most 2 bytes per symbol, and ends with the flushed final state |
| Rans32.RenormAtMostTwo | ansResidual.cpp:126-129 | with the bound of a table symbol the loop pushes at most two bytes |
| Rans32.EncStepNoWrap | ansResidual.cpp:130 | below the renormalisation bound the state update does not wrap |
| Rans32.StepInverse | ansResidual.cpp:130 | the new state's slot lies in the symbol's range, and the decoder's formula gives back the old state |
| Rans32.ReadState | ansResidual.cpp:152-156 | the state read succeeds exactly when 4 bytes remain, and consumes the last four |
| Rans32.Refill | ansResidual.cpp:147-166 | a successful refill ends at or above 2^16 (below 2^24 when it had to read), consumes only bytes from the end, and does nothing to a state already at 2^16; its only error is the underflow of get() |
| Rans32.DecodeLoop | ansResidual.cpp:158-167 | a successful loop returns exactly k symbols; it fails only by an underflow or by a step whose slot reads outside lut_sym, cdf or freq |
| Rans32.DecodeLoopStep | ansResidual.cpp:158-167 | one pass of the loop whose table reads are in range: the slot's symbol, then the refill, whose error stops the loop |
| Rans32.RefillAt | ansResidual.cpp:166 | the refill at cursor ip agrees with Refill on the bytes below ip |
| Rans32.ReadStateAt | ansResidual.cpp:152-156 | the four get() calls agree with ReadState |
| Rans32.DecodeSymbol | ansResidual.cpp:159-166 | one pass of the decoder loop, its table reads checked, agrees with DecodeLoop |
| Rans32.DecodeSymbols | ansResidual.cpp:158-167 | the decoder's symbol loop agrees with DecodeLoop |
| Rans32.Decode | ansResidual.cpp:140-169 | the decoder returns DecodeSpec |
| Rans32.TablesDecodable | ansResidual.cpp:242-247 | tables rebuilt from frequencies that fill L can be indexed by the decoder |
| Rans32.DecStepInvertsEncStep | ansResidual.cpp:159-164 | with rebuilt tables the decoder step maps the encoder's new state back to the symbol and the old state |
| Rans32.ReadFlushed | ansResidual.cpp:133-156 | the decoder reads the flushed state byte-reversed |
| Rans32.EmptyRoundTrip | ansResidual.cpp:118-156 | no symbols encode to 00 00 01 00, which decodes to no symbols |
| Rans32.DecodeNothing | ansResidual.cpp:152-158 | with any tables, zero symbols decode when 4 bytes are present and underflow when fewer are |
| Rans32.DecodeKeepsPrefix | ansResidual.cpp:145-167 | the decoder only pops: the bytes a successful decode leaves are a prefix of its input |
| Rans32.OnesModelUsable | ansResidual.cpp:277 | the all-ones model encodes every symbol of the alphabet and can be decoded with |
| Rans32.AsWrittenLosesSymbol | ansResidual.cpp:126-166 | the as-written coder turns the symbols [0] into 00 00 00 10, and decoding that underflows |
| Rans32.EncodeZero | ansResidual.cpp:118-136 | symbol 0 with frequency 1 and cdf 0 encodes to 00 00 00 10 |
| Rans32.DecodeSixteen | ansResidual.cpp:152-166 | the bytes 00 00 00 10 give state 16, symbol 16, state 0 and an underflow on the refill |
| Rans32Fixed.FixedBound | ansResidual.cpp:126 | the corrected bound `f << 12` is f * L and never wraps |
| Rans32Fixed.FixedReadState | ansResidual.cpp:152-156 | the corrected state read succeeds exactly when 4 bytes remain |
| Rans32Fixed.FixedReadFlushed | ansResidual.cpp:133-156 | the corrected read takes back exactly the state the flush wrote |
| Rans32Fixed.DigitsRebuild | ansResidual.cpp:133-136 | the four bytes the flush writes, taken most significant first, rebuild the state |
| Rans32Fixed.RefillUndoesRenorm | ansResidual.cpp:126-166 | refilling from the bytes a renormalisation pushed rebuilds the state it started from |
| Rans32Fixed.RenormFloor | ansResidual.cpp:126-129 | renormalising at or above the bound leaves at least bound / 256 |
| Rans32Fixed.FixedPutInterval | ansResidual.cpp:126-130 | the corrected encoder keeps its state in [2^16, 2^24) |
| Rans32Fixed.TablesValid | ansResidual.cpp:242-247 | tables rebuilt from frequencies that fill L are valid decoder tables |
| Rans32Fixed.ValidStepInverse | ansResidual.cpp:159-164 | under valid tables the decoder step undoes the encoder step |
| Rans32Fixed.FixedRunInterval | ansResidual.cpp:121-131 | after the whole corrected symbol loop the state is in [2^16, 2^24) |
| Rans32Fixed.FixedSymbolInverse | ansResidual.cpp:159-166 | for one symbol, the decoder step gives the symbol back and the refill pops exactly the bytes that symbol's renormalisation pushed |
| Rans32Fixed.FixedDecodeRun | ansResidual.cpp:158-167 | decoding an encoder run gives the symbols back in order, leaves earlier bytes untouched and ends in the initial state |
| Rans32Fixed.FixedRoundTrip | ansResidual.cpp:112-169 | the corrected coder round-trips: with valid tables, decoding the encoding gives back every symbol |
| Rans32Fixed.FixedRoundTripOnes | ansResidual.cpp:275-277 | in particular with the model build_model always produces |
| Rans32Fixed.FixedEncodeLength | ansResidual.cpp:112-138 | the corrected output is the 4 flushed bytes plus at most 2 bytes per symbol |
| Container.Header | ansResidual.cpp:193-200 | the fixed part of the file is 36 bytes |
| Container.Counts | ansResidual.cpp:203-205 | the three 64-bit sizes take 24 bytes |
| Container.SaveFile | ansResidual.cpp:182-214 | the file is the 36 fixed bytes, two bytes per frequency, 24 size bytes, two bytes per escape and the rANS stream, and starts with the bytes of 'RANS' |
| LittleEndian.ReadPadded | ansResidual.cpp:225-237 | a read of n bytes always yields n bytes, and exactly the file's bytes when the file is long enough |
| Container.LoadFile | ansResidual.cpp:216-266 | BadMagic exactly when the file is shorter than 4 bytes or does not start with 'RANS'; a loaded model carries the cdf and slot tables rebuilt from its frequencies, which sum to at most L |
| Container.MagicBytes | ansResidual.cpp:221-223 | the magic test on the little-endian value accepts exactly the bytes 'R' 'A' 'N' 'S' |
| Container.LoadBody | ansResidual.cpp:249-264 | reading the sizes, escapes and stream never touches the model; a stored escape count above max_size() fails to allocate; what loads fits its vectors |
| Container.LoadSized | ansResidual.cpp:254-264 | once the sizes are read, what loads has exactly the stored escape count and stream size; an escape byte count above PTRDIFF_MAX with a storable stream size fails as a short read |
| Container.ReadEscapes | ansResidual.cpp:254-257 | the escape list is resized to the stored count whatever the stored byte count |
| Container.ReadEscapesOf | ansResidual.cpp:254-257 | escapes stored without padding read back as themselves |
| Container.HeaderFields | ansResidual.cpp:193-200 | each header field sits at its offset in little-endian order |
| Container.CountsAt | ansResidual.cpp:249-252 | the three sizes read back from their 24 bytes wherever they sit in a file |
| Container.CountsFields | ansResidual.cpp:203-205 | escape count, escape byte count (twice the count) and stream size sit at offsets 0, 8 and 16 |
| Container.LoadBodyAt | ansResidual.cpp:249-262 | a body laid out as save_file writes it loads back to its escape list and stream |
| Container.LoadBodyRoundTrip | ansResidual.cpp:203-262 | the tail save_file writes loads back to the escape list and stream it came from |
| Container.HeaderRoundTrip | ansResidual.cpp:193-233 | every header field reads back as the value stored |
| Container.LoadFileAt | ansResidual.cpp:216-266 | a file whose fields hold p's values and whose model is rebuildable loads as p |
| Container.SavedLayout | ansResidual.cpp:193-211 | a saved file is header, frequency table, then the body at offset 36 + 2 * ALPH |
| Container.SavedBodyLoads | ansResidual.cpp:203-262 | the body of a saved file loads back to the container's escapes and stream |
| Container.SaveLoadRoundTrip | ansResidual.cpp:182-266 | load_file returns exactly what save_file stored, for every container whose model is the one load_file rebuilds |
| Container.NegativeEscapeReadFails | ansResidual.cpp:254-264 | an escape byte count above PTRDIFF_MAX reads nothing and fails the stream: ShortRead, or AllocationFailure when the stream size is above max_size() |
| Container.SavedTable | ansResidual.cpp:235-237 | a frequency table laid out as save_file writes it reads back as the same frequencies |
| Container.SavedCounts | ansResidual.cpp:203-211 | in a file laid out as save_file writes it, the three sizes are the escape count, twice it and the stream size, and the file ends right after escapes and stream |
| Container.SavedWellFormed | ansResidual.cpp:182-214 | every file save_file writes, for a model whose frequencies sum to at most L, has the magic, a table that sums to at most L and consistent sizes that end the file |
| Container.CutHeader | ansResidual.cpp:221-237 | a prefix of at least 36 bytes keeps magic, L and ALPH, and its zero-padded frequency table sums to no more than the full one |
| Container.CutBodyFails | ansResidual.cpp:249-264 | a body cut anywhere before its last byte fails as a short read |
| Container.CutFileFails | ansResidual.cpp:216-264 | such a well-formed file cut after its fixed header but before its end loads as a short read |
| Container.ShortHeaderFails | ansResidual.cpp:221-233 | a file holding the magic but shorter than the 36-byte header is a short read |
| Container.HeaderPasses | ansResidual.cpp:221-252 | a file with the magic whose frequency read sums to at most L is decided by its body, read right after the table |
| Container.TruncatedFails | ansResidual.cpp:216-264 | every proper prefix of a saved file fails to load: BadMagic below 4 bytes, ShortRead otherwise |
| LittleEndian.ReadPaddedOfPrefix | ansResidual.cpp:225-237 | reading from a prefix of a file gives each byte or a zero in its place |
| LittleEndian.LeMonotone | ansResidual.cpp:193-211 | lowering bytes never raises the little-endian value they encode |
| Container.U16sSumMonotone | ansResidual.cpp:235-237 | lowering bytes of a frequency table never raises its sum |
| AnsPipeline.Pack | ansResidual.cpp:275-287 | the packed container has the all-ones model, one symbol per residual, the symbolizer's escapes and the encoder's stream |
| AnsPipeline.CompressToFile | ansResidual.cpp:269-295 | the file and the returned counts are CompressSpec's: nSyms is the residual count, escapes the number of out-of-range residuals, the stream 4 + at most 2 bytes per residual, and the file size their sum with the fixed parts |
| AnsPipeline.DecodeStored | ansResidual.cpp:140-169 | AllocationFailure exactly when n_syms exceeds max_size(); otherwise rans32::decode on the stored tables, checked step by step; a successful decode yields exactly n_syms symbols |
| AnsPipeline.Restore | ansResidual.cpp:300 | a decode error passes through; a decoded sequence is unsymbolized exactly when the escape list is long enough, with one residual per symbol |
| AnsPipeline.DecompressSpec | ansResidual.cpp:297-301 | load errors pass through, and a result has n_syms residuals |
| AnsPipeline.DecompressFile | ansResidual.cpp:297-301 | decompress_file returns DecompressSpec |
| AnsPipeline.ShortTableDecodes | ansResidual.cpp:140-169 | tables stored with L = 2048 and the one frequency 2048 decode the stream 10 00 00 00 to the symbol 0: only the slots visited must be covered |
| AnsPipeline.ShortTableFileDecompresses | ansResidual.cpp:216-301 | the file saved for those tables decompresses to the residual 0 |
| AnsPipeline.LoadCompressed | ansResidual.cpp:269-298 | the file compress_to_file writes loads back to the container it packed |
| AnsPipeline.PipelineIsCodec | ansResidual.cpp:269-301 | decompressing a compressed file is the rANS coder's own round trip between symbolize and unsymbolize |
| AnsPipeline.EmptyPipelineRoundTrip | ansResidual.cpp:269-301 | no residuals survive compress then decompress |
| AnsPipeline.AsWrittenPipelineLosesResidual | ansResidual.cpp:269-301 | a single zero residual (1 x 1 x 1, mode 0) compresses to a file that decompresses to a rANS underflow |
| AnsPipeline.FixedPack | ansResidual.cpp:275-287 | with the corrected encoder the container holds the all-ones model, the escapes and the corrected stream |
| AnsPipeline.FixedCompressSpec | ansResidual.cpp:291-293 | the returned counts are the residual count and the number of escapes |
| AnsPipeline.FixedDecodeStored | ansResidual.cpp:140-169 | the corrected decoder on stored tables allocates exactly as the original does |
| AnsPipeline.FixedDecompressSpec | ansResidual.cpp:297-301 | load errors pass through the corrected decompressor |
| AnsPipeline.FixedStoredRoundTrip | ansResidual.cpp:298-299 | the corrected decoder gives back the symbols of the packed residuals |
| AnsPipeline.FixedPipelineRoundTrip | ansResidual.cpp:269-301 | with the corrected coder, decompressing a compressed file gives back every residual |
| Raster.Clamp | predictor.cpp:69 | `std::clamp(v, lo, hi)` lies in [lo, hi], is v exactly when v does, and is the nearer bound otherwise |
| Raster.IdxBounds | predictor.cpp:17-20 | a sample inside the image has a buffer index inside w * h * c, and its left, above and above-left neighbours sit c, w * c and w * c + c samples before it |
| Raster.NextIdx | predictor.cpp:34-38 | the next sample of the y, x, ch loops has the next buffer index |
| Raster.CoordsInShape | predictor.cpp:34-38 | the k-th sample of the loops lies inside the image and has buffer index k |
| Raster.IdxInjective | predictor.cpp:45 | two samples inside the image with the same buffer index are the same sample |
| Raster.CoordsOfIdx | predictor.cpp:34-45 | the traversal visits the sample at index Idx(x, y, ch) as its Idx(x, y, ch)-th step |
| Raster.Get | predictor.cpp:17-20 | reads outside the image give the zero border |
| Raster.GetInside | predictor.cpp:17-20 | inside a well-shaped image a read is the buffer entry at (y * w + x) * c + ch |
| Predictor.Med | predictor.cpp:10-14 | med_predict lies between min(A, B) and max(A, B), and is A when A = B |
| Predictor.Store | predictor.cpp:67-69 | storing clamps to a byte (8-bit path) or casts to int16 (int16 path): always in the domain, and the identity on in-domain values |
| Predictor.StoreResidual | predictor.cpp:66-69 | prediction plus the stored residual, stored, is the actual sample (on 8 bits for byte predictions) |
| Predictor.GetInDomain | predictor.cpp:17-26 | reads of an in-domain buffer, border included, are in the domain |
| Predictor.MedInDomain | predictor.cpp:40-43 | the MED prediction from an in-domain buffer is in the domain |
| Predictor.MedFold | predictor.cpp:32-50 | the residual buffer keeps its size while the loops fill it |
| Predictor.MedResiduals | predictor.cpp:32-50 | one residual per sample |
| Predictor.MedFoldIndex | predictor.cpp:45-46 | a residual once written is never overwritten |
| Predictor.MedResidualsIndex | predictor.cpp:43-46 | residual j is sample j minus MED of its source neighbours, cast to int16 |
| Predictor.MedResidualAt | predictor.cpp:40-46 | the residual at (x, y, ch) is actual - med(left, above, above-left), zero border, wrapped to int16 |
| Predictor.MedResidualRange8 | predictor.cpp:40-46 | on 8-bit images every MED residual lies in [-255, 255], so its int16 cast is exact |
| Predictor.FourNeighbors | predictor.cpp:176-190 | with N = 4 the neighbour vector exists exactly off the left, top and right edges |
| Predictor.RowCount | predictor.cpp:209-227 | a window row contributes at most its number of columns |
| Predictor.RowsCountBound | predictor.cpp:204-229 | the window count is at most its rows times its columns |
| Predictor.WindowSamplesBound | predictor.cpp:194-230 | the window holds at most (min(winH, y) + 1) * min(winW, x) samples |
| Predictor.ShapeLs | predictor.cpp:271 | on the 8-bit path the rounded LS prediction is clamped to a byte |
| Predictor.Predict | predictor.cpp:259-286 | LS is used exactly when the window has N + 2 samples, N > 0, the solve succeeds and all N neighbours are inside; its prediction is the shaped solver output; otherwise the prediction is MED on the same buffer |
| Predictor.PredictInDomain | predictor.cpp:271-282 | on 8 bits every prediction from a byte buffer is a byte |
| Predictor.PredictorOfImplements | predictor.cpp:259-286 | the per-sample predictor is the scheme's prediction at the sample's raster position |
| Predictor.PredictorOfFits | predictor.cpp:271-282 | the scheme's predictor gives byte predictions on byte buffers |
| Predictor.Prefix | predictor.cpp:247 | the decoder's buffer before sample k has the full size |
| Predictor.RebuildStep | predictor.cpp:350-352 | one reconstruction step keeps the buffer size |
| Predictor.Rebuild | predictor.cpp:312-357 | the reconstruction buffer keeps the full size |
| Predictor.RebuildInDomain | predictor.cpp:69 | every reconstructed sample is in the domain, so the 8-bit result is a byte image |
| Predictor.LsStep | predictor.cpp:288-294 | one encoder step keeps the buffer sizes and counts the sample exactly once, as LS or as MED |
| Predictor.LsEncode | predictor.cpp:242-308 | after k samples the LS and MED counts sum to k |
| Predictor.GetCausal | predictor.cpp:40-42 | a read before index j sees the same value in the source and in its j-prefix |
| Predictor.MedCausal | predictor.cpp:40-43 | MED reads only samples that come earlier in raster order |
| Predictor.StepRecovers | predictor.cpp:350-352 | predicting from the i-prefix and storing prediction plus residual extends the prefix by sample i |
| Predictor.RebuildPrefix | predictor.cpp:312-357 | after k reconstruction steps the buffer is the source's k-prefix |
| Predictor.LsEncodeContext | predictor.cpp:292-294 | the encoder's context after k samples is the source's k-prefix, which is what the decoder will have rebuilt |
| Predictor.LsEncodeResidual | predictor.cpp:288-290 | residual j is taken against the prediction from the j-prefix |
| Predictor.LsEncodeInvariant | predictor.cpp:254-297 | the encoder's context is the k-prefix and each residual is one the decoder can invert |
| Predictor.MedRoundTrip | predictor.cpp:32-115 | reconstruct_from_residuals_MED(_s16) inverts compute_residuals_MED(_u8/_s16) on every well-shaped image |
| Predictor.LsRoundTrip | predictor.cpp:242-478 | the LS residuals decoded with the same predictor, and so the same solver, give the source back |
| Predictor.LsContextsAgree | predictor.cpp:246-247 | encoder and decoder hold the same buffer before every sample, so they make the same LS/MED choice |
| Predictor.LsEncodeMedOnly | predictor.cpp:277-286 | when LS never applies the LS encoder's residuals are the MED residuals and every sample counts as MED |
| Predictor.MedOnlyCounts | predictor.cpp:305-306 | without LS the LS count stays 0 |
| PredictorLoops.PredictMed | predictor.cpp:279-282 | the MED fallback, with neighbours off the left or top edge read as 0, is MED on the buffer being filled |
| PredictorLoops.BuildNeighborVec | predictor.cpp:176-190 | the result is true exactly when each of the first N of left, above, above-left and above-right lies inside the image, and the vector then holds those samples |
| PredictorLoops.AccumulateRow | predictor.cpp:209-227 | one window row counts the columns whose neighbour vector is complete |
| PredictorLoops.AccumulateWindow | predictor.cpp:194-230 | the count is the number of positions in rows max(0, y - winH)..y and columns max(0, x - winW)..min(w - 1, x - 1) whose neighbour vector is complete |
| PredictorLoops.PredictLs | predictor.cpp:259-286 | the LS-or-MED choice and prediction are Predict's |
| PredictorLoops.MedResidualOf | predictor.cpp:40-46 | one sample's residual is MedSample at its buffer index |
| PredictorLoops.MedResidualStep | predictor.cpp:38-47 | the loop body extends the residual fold by one sample |
| PredictorLoops.MedResidualPixel | predictor.cpp:38-48 | the channel loop extends the fold by one pixel |
| PredictorLoops.MedResidualRow | predictor.cpp:36-48 | the column loop extends the fold by one row |
| PredictorLoops.ComputeResidualsMed | predictor.cpp:32-50 | the three nested loops return MedResiduals |
| PredictorLoops.PredictAt | predictor.cpp:262-286 | the prediction of either scheme at (x, y, ch) is Predict's |
| PredictorLoops.DecodeStep | predictor.cpp:350-352 | the decoder's loop body extends the reconstruction by one sample |
| PredictorLoops.DecodePixel | predictor.cpp:324-353 | the channel loop extends the reconstruction by one pixel |
| PredictorLoops.DecodeRow | predictor.cpp:322-354 | the column loop extends the reconstruction by one row |
| PredictorLoops.Reconstruct | predictor.cpp:312-357 | the reconstruction loop shared by the four decoders returns Rebuild of the first w * h * c residuals |
| PredictorLoops.EncodeStep | predictor.cpp:259-294 | the encoder's loop body extends the context, the residuals and the counts exactly as LsEncode |
| PredictorLoops.EncodePixel | predictor.cpp:256-295 | the channel loop extends the encoder state by one pixel |
| PredictorLoops.EncodeRow | predictor.cpp:255-296 | the column loop extends the encoder state by one row |
| PredictorLoops.ComputeResidualsLs | predictor.cpp:242-308 | the residuals and the LS and MED counts are those of LsEncode for the scheme's predictor |
| PredictorImages.AsBytes | predictor.cpp:69 | a reconstruction buffer of the 8-bit domain is a byte buffer, unchanged |
| PredictorImages.AsI16s | predictor.cpp:111-112 | a reconstruction buffer of the int16 domain is an int16 buffer, unchanged |
| PredictorImages.Decoded | predictor.cpp:312-357 | the decoders rebuild exactly w * h * c samples, all in the domain |
| PredictorImages.DecodeImage8 | predictor.cpp:52-73 | the rebuilt 8-bit image has the shape's dimensions, a full byte buffer and the given format |
| PredictorImages.DecodeImage16 | predictor.cpp:95-115 | the rebuilt int16 image has the shape's dimensions and a full buffer |
| PredictorImages.ComputeResidualsMedU8 | predictor.cpp:32-50 | compute_residuals_MED_u8 returns the MED residuals of the image's samples |
| PredictorImages.ReconstructMedU8 | predictor.cpp:52-73 | reconstruct_from_residuals_MED returns the MED reconstruction with the shape's dimensions and an Unknown format |
| PredictorImages.ComputeResidualsMedS16 | predictor.cpp:75-93 | compute_residuals_MED_s16 returns the MED residuals of the image's samples |
| PredictorImages.ReconstructMedS16 | predictor.cpp:95-115 | reconstruct_from_residuals_MED_s16 returns the MED reconstruction with the shape's dimensions |
| PredictorImages.MedImageRoundTrip8 | predictor.cpp:32-73 | reconstructing an 8-bit image from its MED residuals gives an image images_equal to it |
| PredictorImages.MedImageRoundTrip16 | predictor.cpp:75-115 | reconstructing an int16 image from its MED residuals gives the image back |
| PredictorImages.LsResult | predictor.cpp:242-308 | one residual per sample, and the LS and MED counts add up to w * h * c |
| PredictorImages.ComputeResidualsLsU8 | predictor.cpp:242-308 | compute_residuals_LS_u8 returns LsResult's residuals, and the breakdown it records holds LsResult's two counts |
| PredictorImages.ReconstructLsU8 | predictor.cpp:312-357 | reconstruct_from_residuals_LS_u8 returns the LS reconstruction and keeps the shape's format |
| PredictorImages.ComputeResidualsLsS16 | predictor.cpp:375-436 | compute_residuals_LS_s16 returns LsResult's residuals and counts on the int16 domain |
| PredictorImages.ReconstructLsS16 | predictor.cpp:440-478 | reconstruct_from_residuals_LS_s16 returns the LS reconstruction on the int16 domain |
| PredictorImages.LsImageRoundTrip8 | predictor.cpp:242-357 | with the same N, window and solver, LS-reconstructing an 8-bit image from its LS residuals gives the image back, format included |
| PredictorImages.LsImageRoundTrip16 | predictor.cpp:375-478 | with the same N, window and solver, LS-reconstructing an int16 image from its LS residuals gives the image back |
| ImageIO.Clamp8 | imageIO.cpp:14-19 | clamp8 is the identity on 0..255, 0 below and 255 above |
| ImageIO.YuvRanges | imageIO.cpp:87-89 | on byte pixels Y = floor((R + 2G + B) / 4) lies in [0, 255] and U = B - G, V = R - G in [-255, 255], so none of the casts wrap |
| ImageIO.YuvPixelRoundTrip | imageIO.cpp:87-114 | yuv_to_rgb recovers each byte pixel from rgb_to_yuv's output before clamping, so the clamps change nothing |
| ImageIO.RctPixelRoundTrip | imageIO.cpp:128-151 | rct_to_rgb recovers each byte pixel from rct_from_rgb's output before clamping, so the clamps change nothing |
| ImageIO.MapPixels | imageIO.cpp:81-94 | a per-pixel transform of n pixels yields 3n samples |
| ImageIO.MapPixelsAt | imageIO.cpp:91-93 | output pixel i is the transform of input pixel i |
| ImageIO.MapPixelsPrefix | imageIO.cpp:81-85 | the transform of n pixels reads only the first 3n samples |
| ImageIO.MapPixelsInverse | imageIO.cpp:76-117 | transforming a byte plane and transforming it back gives the plane back, whenever the per-pixel maps are inverse on byte pixels |
| ImageIO.TransformPixels | imageIO.cpp:81-94 | the per-pixel loop shared by the four transforms returns MapPixels |
| ImageIO.YuvImage | imageIO.cpp:76-96 | rgb_to_yuv fails exactly when the image is not 3-channel; otherwise it keeps w and h, has 3 channels and a full buffer |
| ImageIO.RgbImageOfYuv | imageIO.cpp:98-117 | yuv_to_rgb fails exactly when the image is not 3-channel; otherwise it keeps w and h, has 3 channels and a full byte buffer |
| ImageIO.RctImage | imageIO.cpp:120-136 | rct_from_rgb fails exactly when the image is not 3-channel; otherwise it keeps w and h, has 3 channels and a full buffer |
| ImageIO.RgbImageOfRct | imageIO.cpp:138-154 | rct_to_rgb fails exactly when the image is not 3-channel; otherwise it keeps w and h, has 3 channels and a full byte buffer |
| ImageIO.RgbToYuv | imageIO.cpp:76-96 | the loop returns YuvImage |
| ImageIO.YuvToRgb | imageIO.cpp:98-117 | the loop returns RgbImageOfYuv |
| ImageIO.RctFromRgbImage | imageIO.cpp:120-136 | the loop returns RctImage |
| ImageIO.RctToRgbImage | imageIO.cpp:138-154 | the loop returns RgbImageOfRct |
| ImageIO.ImagesEqualIgnoresFormat | imageIO.cpp:156-158 | images_equal holds exactly when the images agree in everything but the format tag |
| ImageIO.YuvRoundTrip | imageIO.cpp:76-117 | yuv_to_rgb(rgb_to_yuv(im)) is images_equal to im for every RGB image |
| ImageIO.RctRoundTrip | imageIO.cpp:120-154 | rct_to_rgb(rct_from_rgb(im)) is images_equal to im for every RGB image |
| ImageIO.YuvImageSamples | imageIO.cpp:81-93 | sample by sample, rgb_to_yuv stores Y = floor((R + 2G + B) / 4) in [0, 255], U = B - G and V = R - G in [-255, 255] |
| ImageIO.DropAlphaPlane | imageIO.cpp:35-40 | dropping alpha from n pixels leaves 3n samples |
| ImageIO.DropAlphaAt | imageIO.cpp:37-39 | sample k of output pixel i is sample k of input pixel i |
| ImageIO.GrayOrRgb | imageIO.cpp:49-64 | gray and RGB images pass unchanged, RGBA becomes RGB with the same w and h, and every other channel count fails |
| ImageIO.GrayOrRgbIdempotent | imageIO.cpp:49-64 | applying the channel rule to its own result changes nothing |
| ImageIO.DropAlpha | imageIO.cpp:36-40 | the alpha-drop loop returns DropAlphaPlane |
| ImageIO.EnsureGrayOrRgb | imageIO.cpp:33-45 | load_image's channel rule gives GrayOrRgb |
| ResidualIO.Header | residualIO.cpp:18-23 | the fixed part of a residual file is 28 bytes |
| ResidualIO.SaveResiduals | residualIO.cpp:8-26 | a residual file is 28 header bytes plus two bytes per residual, and starts with the magic bytes 52 36 31 52 |
| ResidualIO.LoadResiduals | residualIO.cpp:28-50 | BadMagic exactly when the file is shorter than 4 bytes or its magic differs; a loaded file has positive w, h and c, holds all its residuals, and their count is one a vector can hold |
| ResidualIO.MagicValue | residualIO.cpp:33-34 | the magic test on the little-endian value accepts exactly the bytes 52 36 31 52 |
| ResidualIO.HeaderFields | residualIO.cpp:18-23 | mode, w, h, c and the count sit at offsets 4, 8, 12, 16 and 20, little-endian |
| ResidualIO.SavedFields | residualIO.cpp:18-24 | the fields of a saved file read back at their offsets, and the residuals follow the 28 header bytes |
| ResidualIO.SaveLoadRoundTrip | residualIO.cpp:8-50 | load_residuals returns exactly what save_residuals stored, whenever w, h and c are positive |
| ResidualIO.TruncatedFails | residualIO.cpp:33-48 | every proper prefix of a saved file fails to load |
| ResidualIO.SaveLoadRejectsNonPositive | residualIO.cpp:44 | a file saved with a non-positive dimension is rejected as invalid metadata |
| ResidualIO.LoadAcceptsShortVector | residualIO.cpp:44-47 | the loader does not compare the count with w * h * c: a 1 x 1 x 1 file with no residuals loads |

## Left out

**LS predictor**
- `gauss_solve`, the ridge term, the normal-equation sums of `accumulate_window_normal_eq` and `llround` (predictor.cpp:128-171, 194-230, 270) are floating point. They are not modelled. The solve and the rounding are the `Solver` parameter. Only the sample count of the window is modelled, by `WindowSamples`. The round trips hold for every solver that encoder and decoder share.
- Predictor.ValidScheme: limits LS to N in 0..4. `main.cpp:36` accepts any N >= 1, and for N > 4 `build_neighbor_vec` reads past its four-entry offset arrays, which is undefined behaviour.
- PredictorImages.ComputeResidualsLsU8: returns the LS/MED breakdown as an `LsBreakdown` result, instead of writing the global `g_last_ls_breakdown`.
- The statistics printed to `std::cout` (predictor.cpp:299-302, 428-431) are left out.
- `residuals_visual_rgb8` and `residuals_visual_s16` (predictor.cpp:483-500) only render residuals as an image for inspection and are left out.

**Reconstruction preconditions and integer widths**
- PredictorLoops.Reconstruct: requires at least w * h * c residuals, because the source indexes the residual vector without a check and a shorter vector is undefined behaviour. The same holds for the four `Reconstruct*` methods of PredictorImages.
- Products `w * h * c` and the indices `(y * w + x) * c + ch` are computed in `int` and `size_t` in the source. They are unbounded here, so overflow for huge images is not modelled.
- The 8-bit LS prediction `(int)std::llround(p)` is part of the solver abstraction, and so is its truncation to int.

**Entropy back end**
- StaticModel.Quantise: the `double` division and `lround` (ansResidual.cpp:75-81) are modelled as exact rational rounding, halves up. The result does not depend on this: `Normalise` is proved to give all ones for every quantised table with entries in [1, L].
- Rans32.Encode: requires every coded symbol to have a frequency in [1, L). For f = L the bound `f << 20` wraps to 0 and the renormalisation loop never ends. `build_model` never produces such a frequency.
- AnsPipeline.DecodeStored: a decode step whose slot lies beyond lut_sym, or names a symbol beyond freq and cdf, is reported as OutOfBounds. A file with fewer escapes than ESC symbols is OutOfBounds in `Restore`. Both are out-of-range reads in the source. Steps that read inside the tables decode normally, whatever the stored L.
- AnsPipeline.Storable: excludes residual vectors of 2^62 - 2 and 2^62 - 1 entries, although a `std::vector<int16_t>` can hold them. Their encoded stream of up to 4 + 2n bytes could exceed the `max_size()` of a byte vector, and compress_to_file on them is not modelled.
- AnsPipeline.DecodeStored, Container.LoadBody and ResidualIO.LoadResiduals: a size above `max_size()` (PTRDIFF_MAX / sizeof(T) on a 64-bit target) is AllocationFailure. A size below it that the machine still cannot allocate (std::bad_alloc) is not modelled, since it depends on the memory available.
- Container.LoadFile: follows the `load_file` of ansResidual.cpp:216-266, whose `Packed P{}` and counts start at zero. The inline copy in ansResidual.h:206-243 leaves magic, L, ALPH and the three counts uninitialised, and is not modelled. A file shorter than the fixed header is reported as ShortRead, without modelling the partial reads into those zero-initialised fields.
  - A frequency table that sums above L is OutOfBounds, since the rebuild would write past `lut_sym`.
  - An escape byte count larger than twice the escape count is OutOfBounds, since it writes past the escape buffer. A byte count above PTRDIFF_MAX becomes a negative `std::streamsize`. That read extracts nothing and fails the stream, so such a file is ShortRead, or AllocationFailure when ans_size is also too large.
  - A stream shorter than its stated sizes is ShortRead. `Container.TruncatedFails` proves this of every proper prefix of a saved file.

**Residual file**
- ResidualIO.LoadResiduals: reports a file shorter than 4 bytes as BadMagic, since the magic variable is then uninitialised.
  - A negative stored count, which becomes a huge `size_t`, and a count above `max_size()` are AllocationFailure.
  - In a header cut short, the fields not read stay zero, like the source's zero-initialised fields. The metadata check sees those zeros, and a file shorter than its count says is ShortRead.

**I/O**
- `stbi_load`, `stbi_write_png`, `save_png`, `save_image` and all file-stream opening and failure handling are I/O. The model works on `Image` values and byte sequences instead.
- `load_image`'s decoding is not modelled; its channel rule is `ImageIO.EnsureGrayOrRgb`.
- `std::runtime_error` messages are replaced by `Wrappers.Error` values.

## Findings

| source | as written | input that shows it | evidently intended | confidence | as-written member | corrected member |
|---|---|---|---|---|---|---|
| ansResidual.cpp:126-166 | The encoder renormalises against `f << 20` and flushes its state low byte first. The decoder pops the four state bytes starting from the last one written, so it reads the state byte-reversed. It also refills below 2^16, which does not match the encoder's renormalisation interval. | Residuals [0]: the all-ones model encodes them as 00 00 00 10. The decoder reads state 16, outputs symbol 16, reaches state 0 and throws "rANS underflow" while refilling. | Residuals decode back to themselves. Corrected: renormalise against `f << 12`, keeping the state in [2^16, 2^24), and read the flushed state back high byte first. | not executed | Rans32.AsWrittenLosesSymbol, AnsPipeline.AsWrittenPipelineLosesResidual | Rans32Fixed.FixedRoundTrip, AnsPipeline.FixedPipelineRoundTrip |
