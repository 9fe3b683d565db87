# Sankaku: the Wirehair codec and the frame session, in Dafny

Sankaku sends video frames over datagrams that may be lost, repeated and reordered. Each frame is cut
into blocks by a vendored copy of the Wirehair fountain codec; the receiver decodes frame after frame.
This project models the codec's matrix solver, the tools it rests on, the session built on top of it,
and the reader for HEVC byte streams, and proves what they are for.

## The main results

1. **What the decoder gives back is the message.** `Messages.TransferMessage`, and per byte position
   `Codec.Transfer`: an encoder is fed a message, rows of any ids are sent in any order, with losses and
   repetitions, and whenever the decoder says Success, what it writes is the message. `Coding.Relay` says so of
   blocks that arrive padded. This rests on two facts about the solver. Every codeword that agrees with the
   received rows satisfies the equations the solver used, at every moment of every run
   (`Solving.Solver.CodewordUsed`). And the generated recovery blocks satisfy those equations and are the only
   ones that do (`Solving.Solver.Generate`). One condition is attached, a limit in the source that is too low:
   no entry was passed over (see below), which is so in every code of up to 32235 blocks.
   The converse holds too: a decoder asks for more only when another message has every row it holds
   (`Completeness.AnotherMessage`). Whether encoding and decoding succeed follows from the ids of the rows
   alone: it is whether they determine the codeword (`Codec.Codec.EncodeFeed`, `Codec.Codec.DecodeFeed`,
   `Uniqueness.StoppedLeaves`, `Uniqueness.CompleteDetermines`). All lanes agree, as long as no spare row is
   used again. A decoder that waits refuses a row only when every spare row is used and, but for
   one corner, is a pivot (`Codec.Codec.FeedMore`, `Solving.Solver.SlotMeans`).
2. **The solver can be interrupted.** Elimination works in place on a matrix of bits, whose last columns
   turn into bytes half-way, and stops when a pivot is missing. Through every step, stop and resumption each
   original row equals what remains of it plus the multipliers left in place times the upper rows
   (`Triangulation.Eliminator.Resume`, `Progress.FactoringStep`, `Elimination.SoundFactored`).
3. **Fast forms are the simple ones.** Windows of up to seven columns in both substitutions, packed words
   with masks, four heavy columns at a time, the closed-form column step, unrolled shuffles, nibble tables.
4. **Peeling is a solution order.** The mutually recursive avalanche with its stale counters ends, places
   every row once, and leaves rows that can be solved one after the other; deferred rows and columns balance.
5. **Frames arrive, and in order.** `Session.Run`: what the receiver hands out on a stream is a prefix of what was
   sent, whatever the network does and however many datagrams the transport takes of each send, as long as a
   frame given up half-way is the next to be sent on its stream again; a caller who tries a failed frame again
   until it succeeds sees to that (`Session.RetriesSteady`). While such a frame is still to be sent again, it
   may be the last one handed out. `Coding.EncodeBlocks` and `Coding.DecodeBlocks` run the codec as an erasure
   code, `Coding.CodecIsSound` shows that what they promise is what this theorem assumes, and `Coding.RunCodec`
   puts the two together for datagrams of at least 50 bytes. Nothing is lost on the way that the code could
   have recovered: a frame comes out with the very block that makes the ids enough (`Session.StepRight`), so a
   stream on which every frame gets enough blocks across before the next one starts hands out exactly what was
   sent (`Session.Run`, `Coding.RunCodec`), and over a network that loses nothing that is every stream
   (`Session.RunLossless`, `Coding.RunCodecLossless`).
6. **Reading undoes writing** for Annex B streams, emulation prevention and Exp-Golomb numbers, each with
   the exact condition.
7. **The generators reach everything they should.** Decks are single cycles, and every single cycle is dealt
   (`Shuffle.DeckShuffles`, `Shuffle.EveryCycle`); any sequence of such windows is drawn (`Dense.EveryWindow`), in
   each of which the first row has half of the columns and no column changes twice in a half; every walk through the
   columns is drawn (`Rows.EveryWalk`); the heavy matrix is a Cauchy matrix, so any k of its rows solve for any k of
   its columns (`Cauchy.HeavyDistance`).

## How it is modelled

A block is modelled by one byte of it, a lane: the program does the same to every byte position and never
looks at block data to decide what to do. A lane beyond the end of a short final block is padded with zero.
`Messages` and `Coding` put the lanes together again. `Codec`, `Solver`, `Eliminator`, `Peeler`, `Compressor`,
`Assembler`, `Preparer`, `Evaluator`, `Generator`, `Restorer`, the iterators, the session's two ends, the
loss window, the pacer and the bit reader are classes whose methods update their fields as the program's do;
the program's one `Codec` class is split by stage. What the methods compute is stated in terms of pure
definitions (`Equations`, `Linear`, `Triangular`, `Diagonal`, `Meaning`, ...), about which the lemmas speak.

The modules in the order of a decoder's work: `Columns`, `Rows`, `Primes`, `Shuffle`, `Lengths` choose
parameters; `PeelState`, `Tally`, `Peeling` peel; `Diagonal`, `Compression` compress; `Dense`, `Assembly`,
`Cauchy`, `Invertible` build the matrix; `Meaning` says what its rows mean; `Linear`, `Progress`, `Elimination`,
`Triangulation` eliminate; `Preparation`, `Evaluation`, `Spans`, `Windows`, `Substitution`, `Triangular`, `Restoration` solve;
`Skipping` says what the row limit does; `Ambiguity`, `Uniqueness`, `Completeness` say what it means to stop;
`Solving`, `Codec`, `Messages`, `Coding` put it together. `GF256` and `Bulk` are the field and its buffer operations,
`Packed` the word tricks. `Wire`, `Session`, `Feedback` are the protocol, `Hevc` the reader.

Random draws, seed and dense-count tables and the contents of fresh memory are parameters, so everything
holds for every choice of them. Times and ratios are real numbers.

## Where the plain claim is false

- A block count is kept in 16 bits: 65538 one-byte blocks are taken for two (`Lengths.LongMessageAccepted`);
  the count is right exactly up to 65535 blocks (`Lengths.ChoiceRight`).
- The length asked back is computed in 32 bits: accepted exactly below 4 GiB (`Lengths.OutputRight`).
- The encoder looks at 16 bits of an id to find the final block: `Lengths.ShortRecoveryBlock` is a row the
  decoder rejects, `Lengths.SentExpected` says exactly which. Such a row is lost, the message is not harmed:
  `Codec.Transfer` covers all ids.
- Back substitution passes over rows from index 32767 on in windows without heavy columns, although there can
  be rows with such an index. What it leaves is described exactly; it is back substitution for every right
  side if and only if no such row has an entry in such a window (`Skipping.RightUnlessSkipped`), and
  `Skipping.BitIsLost` is a matrix where it is not, with lists of rows as the solver keeps them
  (`Skipping.LastSpareInShape`: from 32742 columns on there are such lists). No particular message and ids that
  lead there are exhibited. Codes whose blocks, dense rows and spare rows together number no more than 32767
  never get there (`Codec.Codec.ReachedWhenDecoded`).
- A send that fails half-way leaves its frame index to be used again. If another frame takes it, the receiver
  can hand out the frame that was not reported as sent: `Session.IndexUsedTwice` is such a run, over a code without
  redundancy, for any two short frames.
- Original block 0 of two fed twice leaves a decoder with as many rows as blocks and a solver that was never set
  up, which the next block would resume (`Codec.RepeatedOriginal`). The session drops the decoder at this point.
- Adaptive padding calls clamp with its bounds the wrong way round for packets longer than both:
  `Wire.LongPacketPanics`; it is defined exactly otherwise (`Wire.PaddingDefined`). A panic counts as a send
  given up.
- With a rate of zero the pacer bounds nothing (`Feedback.Unpaced`); with any other rate the bound holds for
  packets of every size.
- The field's polynomial is 0x14D as the table in gf256.cpp says; the comment in gf256.h says 0x15F. The code is followed.

## Model

| member | source | states |
|---|---|---|
| Codec.Transfer | sankaku-wirehair-sys/wirehair/WirehairCodec.cpp:4250-4361 | For every code, message, block size, lane, and every schedule of row ids (lost, repeated, reordered, ids beyond 2^16 included): if the decoder says Success, by any of its three routes, and back substitution passed over no entry in encoder and decoder, the output array holds the message in every position that has the lane and is untouched elsewhere; in codes with n + dense + 32 up to 32767 no entry is ever passed over; up to n + 32 rows, it says Success exactly when the message can be encoded and the ids are enough, whatever the data |
| Codec.Exchange | sankaku-wirehair-sys/wirehair/WirehairCodec.cpp:4038-4164 | However rows are sent, the decoder keeps holding only rows of the encoder's codeword, and it says it is done only in a state from which output can be written; up to n + 32 rows it is done exactly when the ids alone say so |
| Codec.Deliver | sankaku-wirehair-sys/wirehair/WirehairCodec.cpp:3452-3584 | A decoder that is done and holds only rows of the encoder's codeword writes the message the encoder was fed, unless an entry was passed over |
| Codec.Codec.Encoder | sankaku-wirehair-sys/wirehair/WirehairCodec.cpp:3977-4003 | A fresh encoder is gathering rows, has no spare row and the given final block size |
| Codec.Codec.Decoder | sankaku-wirehair-sys/wirehair/WirehairCodec.cpp:4169-4210 | A fresh decoder is valid, has 32 spare rows, takes rows at full size and gives back the final block at its true size |
| Codec.Codec.EncodeFeed | sankaku-wirehair-sys/wirehair/WirehairCodec.cpp:4005-4036 | Success exactly when every row of the message finds room and these rows determine the codeword, which the number of blocks decides and not the message; otherwise BadPeelSeed. After Success, unless an entry was passed over, the recovery blocks are a codeword of the code in which row i is input block i, zero-padded at the end |
| Codec.Codec.Encode | sankaku-wirehair-sys/wirehair/WirehairCodec.cpp:4038-4164 | The copied block, which is zero-padded, and the regenerated row are the same value of the codeword, with the size rule in 16-bit ids and nothing written into a buffer that is too small |
| Codec.SentRight | sankaku-wirehair-sys/wirehair/WirehairCodec.cpp:4301-4330 | What the encoder sends under an id is stored by the decoder as that row of the codeword, short final block included |
| Codec.Codec.DecodeFeed | sankaku-wirehair-sys/wirehair/WirehairCodec.cpp:4250-4361 | Every codeword that agreed with the rows held still does after a row of it is fed; a block of the wrong size changes nothing and is InvalidInput. Any other answer follows from the new state and from whether all spare rows were used up before: Success exactly when it is Whole or Decoded, InvalidInput exactly when it is Broken, ExtraInsufficient exactly when it waits with every spare row held and none to give up, NeedMore otherwise. While a spare row is left, the new ids, the flag for originals and the state follow from the old ones and the id, whatever the data |
| Codec.RepeatedOriginal | sankaku-wirehair-sys/wirehair/WirehairCodec.cpp:4286-4299 | Block 0 of two fed twice: InvalidInput, and the decoder then counts as many rows as blocks although it never started to solve, so the next block would resume a solver that was never set up |
| Codec.Codec.FeedFirst | sankaku-wirehair-sys/wirehair/WirehairCodec.cpp:4286-4330 | One of the first n rows is kept whole, id and block, exactly when it finds room, and else changes neither list; the n-th row settles the state, and only n originals with a repeat break it; the answer is what the new state calls for, never ExtraInsufficient |
| Codec.Codec.Settle | sankaku-wirehair-sys/wirehair/WirehairCodec.cpp:4330-4361 | The n-th row gives Whole if all are originals and none is missing, Broken if one is missing, and otherwise Decoded exactly when the ids determine the codeword, else Waiting; the answer is Success, InvalidInput or NeedMore to match, never ExtraInsufficient |
| Codec.Codec.FeedMore | sankaku-wirehair-sys/wirehair/WirehairCodec.cpp:4286-4299 | A row after the n-th keeps the decoder valid and honest codewords honest. It is added behind the others while a spare row is left, takes the place of exactly one late row after that, and changes nothing when every spare row is a pivot; the decoder decodes exactly when the ids then held determine the codeword, and answers ExtraInsufficient exactly when nothing could be given up, NeedMore whenever it waits otherwise |
| Codec.Codec.SolveNow | sankaku-wirehair-sys/wirehair/WirehairCodec.cpp:2900-2961 | Solving succeeds exactly when the ids held determine the codeword: it finds every pivot and leaves, unless an entry was passed over, the one set of recovery blocks the equations determine, or it stops at a column no unused row has |
| Codec.Codec.Finish | sankaku-wirehair-sys/wirehair/WirehairCodec.cpp:2954-2961 | Once every pivot is known the recovery blocks are generated, and unless an entry was passed over they are the only solution of the used equations |
| Codec.Codec.IsAllOriginalData | sankaku-wirehair-sys/wirehair/WirehairCodec.cpp:3278-3306 | True exactly when every original block is among the rows held, repeats notwithstanding |
| Codec.Codec.RegenerateRow | sankaku-wirehair-sys/wirehair/WirehairCodec.cpp:3367-3449 | The row read from the recovery blocks is the equation of that id applied to them, one-column rows included |
| Codec.Codec.CopyReceived | sankaku-wirehair-sys/wirehair/WirehairCodec.cpp:3468-3495 | Exactly the original blocks among the received ids are copied, each from a row of that id, and nothing else is touched |
| Codec.Codec.ReconstructOutput | sankaku-wirehair-sys/wirehair/WirehairCodec.cpp:3452-3584 | Rejects exactly a wrong length (computed modulo 2^32) and then leaves the buffer alone; otherwise every block is a received copy or regenerated, and bytes past the final block are not written |
| Codec.Codec.ReconstructBlock | sankaku-wirehair-sys/wirehair/WirehairCodec.cpp:3310-3450 | Rejects exactly ids that are n or more modulo 2^16; otherwise gives that row of every codeword the decoder could be holding |
| Codec.Codec.InitializeEncoderFromDecoder | sankaku-wirehair-sys/wirehair/WirehairCodec.cpp:4214-4248 | A decoder that succeeded becomes an encoder whose recovery blocks are the original encoder's; one that only has originals solves first, and fails exactly when these do not determine the codeword |
| Codec.Codec.BlocksAre | sankaku-wirehair-sys/wirehair/WirehairCodec.cpp:4250-4361 | A decoded decoder that passed over no entry holds the one codeword its rows are rows of: any codeword that agrees with the rows held equals its recovery blocks |
| Codec.Codec.WrittenRight | sankaku-wirehair-sys/wirehair/WirehairCodec.cpp:3452-3584 | Whatever way a block was written, it is that row of every codeword the decoder could be holding, unless an entry was passed over |
| Codec.Codec.ReachedWhenDecoded | sankaku-wirehair-sys/wirehair/WirehairCodec.cpp:2201-2723 | A decoder of a code with n + dense + extra rows up to 32767 has passed over no entry |
| Completeness.WaitingAmbiguous | sankaku-wirehair-sys/wirehair/WirehairCodec.cpp:2963-3274 | A decoder that asks for more cannot know the codeword: whichever it is, another codeword has every row held |
| Completeness.DecodedUnique | sankaku-wirehair-sys/wirehair/WirehairCodec.cpp:4250-4361 | A decoder that solved its rows leaves no two codewords with them |
| Completeness.AnotherMessage | sankaku-wirehair-sys/wirehair/WirehairCodec.cpp:4250-4361 | With a code whose encoder could solve its message, a decoder that asks for more could have received every row it holds from another message |
| Completeness.SameRowsSameOutcome | sankaku-wirehair-sys/wirehair/WirehairCodec.cpp:4250-4361 | Two decoders that hold rows with the same ids, such as two lanes of one transfer, whatever the data, are never one decoded and one asking for more |
| Completeness.OutcomeMeans | sankaku-wirehair-sys/wirehair/WirehairCodec.cpp:4250-4361 | A decoder that has decoded holds ids that determine the codeword, one that asks for more holds ids that do not |
| Uniqueness.StoppedAmbiguous | sankaku-wirehair-sys/wirehair/WirehairCodec.cpp:1053-1147 | When the search for pivots has stopped, no codeword is the only one with the rows held |
| Uniqueness.StoppedLeaves | sankaku-wirehair-sys/wirehair/WirehairCodec.cpp:1053-1147 | When the search for pivots has stopped, a vector other than zero is taken to zero by the code and every row held: the ids do not determine the codeword |
| Uniqueness.CompleteDetermines | sankaku-wirehair-sys/wirehair/WirehairCodec.cpp:1053-1147 | When every pivot is found, no vector but zero is: the ids determine the codeword, whatever was received under them |
| Uniqueness.DeterminesMeans | sankaku-wirehair-sys/wirehair/WirehairCodec.cpp:1053-1147 | Ids determine the codeword exactly when no two codewords have the same values in these rows |
| Uniqueness.PeelExists | sankaku-wirehair-sys/wirehair/WirehairCodec.cpp:2725-2833 | Whatever values the GE columns have, the peeled rows can be made to hold by their columns |
| Ambiguity.StoppedKernel | sankaku-wirehair-sys/wirehair/WirehairCodec.cpp:1123-1136 | At a stop there is a vector, not zero in the column where no pivot was found, to which every listed original row applies as zero |
| Messages.TransferMessage | sankaku-wirehair-sys/wirehair/WirehairCodec.cpp:4250-4361 | The same holds for whole messages of bytes, a short final block included: Success means the output is the message, unless an entry was passed over. Up to n + 32 rows all lanes succeed or none does: exactly when the message can be encoded and the ids are enough, whatever its contents |
| Messages.SameLanes | sankaku-wirehair-sys/wirehair/WirehairCodec.cpp:3452-3584 | A message is determined by its lanes |
| Coding.EncodeBlocks | sankaku-wirehair-sys/wirehair/WirehairCodec.cpp:4005-4164 | Encoding succeeds exactly when the code can be encoded, whatever the message. Every block made is, in every lane it has, the row of its id of one codeword per lane whose first rows are the message, with the size the id calls for |
| Coding.DecodeBlocks | sankaku-wirehair-sys/wirehair/WirehairCodec.cpp:4250-4361 | Whatever blocks are fed, padded, repeated, of wrong sizes and in any order: when all lanes say Success, what is written is in every lane the message of any codeword the blocks are rows of. It fails only for a block of the wrong size, a repeated original, or spare rows used up; and up to n + 32 blocks the sizes and ids alone tell whether it recovers, fails or needs more |
| Coding.DecodeLane | sankaku-wirehair-sys/wirehair/WirehairCodec.cpp:4250-4361 | The same for one lane, with the decoder that did it: what it answers is told by the sizes and ids, and it refuses only a wrong size, a repeated original, or a row when all spare rows are used up |
| Coding.Relay | sankaku-wirehair-sys/wirehair/WirehairCodec.cpp:4250-4361 | Blocks that were sent arrive any number of times, in any order, padded and cut to the packet size, and what is recovered is the message |
| Coding.ArrivedTaken | sankaku-wirehair-sys/wirehair/WirehairCodec.cpp:4260-4328 | A block as it was sent, with anything behind it up to the packet size, is taken by the decoder as a row of the same codeword in every lane |
| Coding.WrittenIsMessage | sankaku-wirehair-sys/wirehair/WirehairCodec.cpp:3452-3584 | What is written from blocks that were sent is the message they were made from |
| Coding.CodecIsSound | sankaku-core/src/fec.rs:35-178 | An erasure code that sends what EncodeBlocks makes and recovers what DecodeBlocks writes, in codes where no entry is passed over, meets the contract the session theorem assumes |
| Coding.SizesWithinLimit | sankaku-core/src/session.rs:1238-1253 | With datagrams of at least 50 bytes every message a session sends, up to 512 KiB, has a code in which no entry is ever passed over |
| Coding.RunCodec | sankaku-core/src/session.rs:1792-1990 | The session theorem for sessions over this codec, with datagrams of at least 50 bytes: nothing is assumed of the code but what EncodeBlocks and DecodeBlocks promise. On a steady stream on which every frame gets enough blocks across before the next one starts, as the ids decide, the frames handed out are exactly the frames sent |
| Coding.CodecServes | sankaku-core/src/fec.rs:35-178 | Which blocks are enough is told by their ids alone for up to n + 32 blocks of a frame, and the n originals in order are enough: the codec is sound, timely and direct in the sense of the session theorems |
| Coding.CodecDirect | sankaku-wirehair-sys/wirehair/WirehairCodec.cpp:4301-4330 | After k < n originals in order the codec asks for more, after n of them it recovers, whatever the code |
| Coding.RunCodecLossless | sankaku-core/src/session.rs:1792-1990 | Over this codec, when every datagram arrives once and in order, each stream hands out exactly the frames sent on it |
| Lengths.CreateCode | sankaku-wirehair-sys/wirehair/WirehairCodec.cpp:2850-2898 | The parameters chosen always satisfy what the column generators need, the moduli being the least primes not below the counts |
| Lengths.ChoiceExact | sankaku-wirehair-sys/wirehair/WirehairCodec.cpp:2850-2898 | For messages of up to 65535 blocks the choice is exact: nothing for an empty message or block, too small for one block, too large from 64001 on, and otherwise the one number of blocks that covers it |
| Lengths.ChoiceRight | sankaku-wirehair-sys/wirehair/WirehairCodec.cpp:2850-2898 | The accepted 16-bit block count covers the message if and only if the message has at most 65535 blocks |
| Lengths.LongMessageAccepted | sankaku-wirehair-sys/wirehair/WirehairCodec.cpp:2850-2898 | A message of 65538 one-byte blocks is accepted as one of two |
| Lengths.OutputRight | sankaku-wirehair-sys/wirehair/WirehairCodec.cpp:3452-3470 | The length asked back is accepted if and only if the message is shorter than 4 GiB |
| Lengths.SentExpected | sankaku-wirehair-sys/wirehair/WirehairCodec.cpp:4051-4058 | The decoder accepts the size the encoder sends if and only if the id is below 2^16, or does not look like the last one in 16 bits, or the final block is full |
| Lengths.ShortRecoveryBlock | sankaku-wirehair-sys/wirehair/WirehairCodec.cpp:4051-4058 | Recovery row 65537 of a two-block message goes out short and is rejected |
| Columns.IterateNextColumnRef | sankaku-wirehair-sys/wirehair/tables/TableGenerator.cpp:888-902 | The repeated addition is the specified step |
| Columns.IterateNextColumn | sankaku-wirehair-sys/wirehair/WirehairTools.h:225-248 | The closed form, with its 32-bit intermediate and its rare branch, equals the repeated addition for every a < b <= p < 65536 |
| Columns.SettleClosed | sankaku-wirehair-sys/wirehair/WirehairTools.h:232-247 | Skipping from any y in [b, p) ends at (a * 65536 - (p - y)) modulo a, however many additions it takes |
| Columns.WalkDistinct | sankaku-wirehair-sys/wirehair/WirehairTools.h:225-248 | For prime p the first b columns of the walk are pairwise different |
| Rows.GeneratePeelRowWeight | sankaku-wirehair-sys/wirehair/WirehairTools.cpp:498-537 | The table search with its shortcuts gives the least weight whose share reaches the value, and weight one only up to its limit |
| Rows.WeightFromLeast | sankaku-wirehair-sys/wirehair/WirehairTools.cpp:498-537 | The search from a position stops at the least weight from there on whose share reaches the value |
| Rows.IdealSoliton | sankaku-wirehair-sys/wirehair/WirehairTools.cpp:474-488 | The shares of the table are those of the ideal soliton distribution in 32 bits: i / (i + 1) of the range, less one |
| Rows.Initialize | sankaku-wirehair-sys/wirehair/WirehairTools.cpp:539-570 | Parameters in range for both generators: 1 to n/2 columns, non-zero steps, starts within the moduli (the next two rows say which parameters come from which draws) |
| Rows.EveryWalk | sankaku-wirehair-sys/wirehair/WirehairTools.cpp:557-568 | Every walk is drawn: any start and step of the sparse columns come from the two halves of the second draw whatever the other draws are, and any start and step of the mixing columns from the third |
| Rows.CountOfWeight | sankaku-wirehair-sys/wirehair/WirehairTools.cpp:549-555 | How many sparse columns a row has depends on the first draw alone: it is the weight, cut to n/2 |
| Rows.RowColumns | sankaku-wirehair-sys/wirehair/WirehairTools.h:313-380 | Every row has 1 to 64 sparse columns, pairwise different and below n |
| Rows.RowMix | sankaku-wirehair-sys/wirehair/WirehairTools.h:383-417 | Every row has exactly three mixing columns, pairwise different and in range |
| Rows.PeelRowIterator.constructor | sankaku-wirehair-sys/wirehair/WirehairTools.h:313-340 | The iterator starts at the first column of the walk |
| Rows.PeelRowIterator.Iterate | sankaku-wirehair-sys/wirehair/WirehairTools.h:341-380 | Each call advances by one column and says false exactly at the end |
| Rows.ListColumns | sankaku-wirehair-sys/wirehair/WirehairTools.h:313-380 | Iterating to the end lists exactly the columns of the row |
| Rows.ListMix | sankaku-wirehair-sys/wirehair/WirehairTools.h:383-417 | The three stored mixing columns are those of the row |
| Shuffle.ShuffleDeck16 | sankaku-wirehair-sys/wirehair/WirehairTools.cpp:377-462 | Writes exactly cells 0..count-1 with the specified deck, by the 4-way and the 2-way unrolled loop and their fall-through tails, and draws that many values |
| Shuffle.DeckShuffles | sankaku-wirehair-sys/wirehair/WirehairTools.cpp:377-462 | Whatever the stream, the deck is a permutation of 0..count-1 and one single cycle |
| Shuffle.EveryCycle | sankaku-wirehair-sys/wirehair/WirehairTools.cpp:377-462 | Conversely every permutation of one single cycle, of up to 65536 cards, is dealt by some values of the stream, which are all it takes from it |
| Primes.NextPrime16 | sankaku-wirehair-sys/wirehair/WirehairTools.cpp:154-224 | The least prime not below n for 2 <= n <= 65521, 0 above 65521 and 1 for n <= 1, as the reference version searches for it |
| Primes.Survives | sankaku-wirehair-sys/wirehair/WirehairTools.cpp:190-223 | Trying the table primes up to the root tells primes from composites |
| Primes.TrialDivision | sankaku-wirehair-sys/wirehair/WirehairTools.cpp:154-224 | A number prime to 210 that no table prime up to its root divides is prime |
| Primes.GapSmall | sankaku-wirehair-sys/wirehair/tables/TableGenerator.cpp:543-560 | The sieve never has to skip more than nine numbers |
| PeelState.ReachCount | sankaku-wirehair-sys/wirehair/WirehairCodec.cpp:193-285 | The 16-bit counter of a row counts the columns still to reach it, wraps only on listed rows, and one or two mean just those columns |
| PeelState.BumpKeeps | sankaku-wirehair-sys/wirehair/WirehairCodec.cpp:140-148 | Counting a weight-two reference keeps the peeling invariant |
| PeelState.SolveKeeps | sankaku-wirehair-sys/wirehair/WirehairCodec.cpp:288-322 | Solving a row whose other columns are all marked keeps the invariant, and starts an avalanche no row has seen |
| PeelState.DeferKeeps | sankaku-wirehair-sys/wirehair/WirehairCodec.cpp:229-231 | Deferring an unlisted row keeps the invariant |
| PeelState.NewRowKeeps | sankaku-wirehair-sys/wirehair/WirehairCodec.cpp:110-151 | A row entered under all its columns keeps the invariant |
| PeelState.DeferColumnKeeps | sankaku-wirehair-sys/wirehair/WirehairCodec.cpp:374-388 | Deferring a column keeps the invariant and leaves fewer columns to place |
| PeelState.SolveOrder | sankaku-wirehair-sys/wirehair/WirehairCodec.cpp:288-322 | Every column of a solved row other than its own is deferred or solved by a row earlier in the list |
| PeelState.AllPlaced | sankaku-wirehair-sys/wirehair/WirehairCodec.cpp:324-390 | When no column is left, every row is on exactly one of the two lists |
| PeelState.RowSettled | sankaku-wirehair-sys/wirehair/WirehairCodec.cpp:193-285 | At rest a row is on one of the two lists exactly when all its columns are marked; a row that still waits has two unmarked columns or more |
| PeelState.ColumnsPlaced | sankaku-wirehair-sys/wirehair/WirehairCodec.cpp:324-390 | Peeled rows and deferred columns together number n |
| Peeling.Peeler.constructor | sankaku-wirehair-sys/wirehair/WirehairCodec.cpp:3644-3729 | No row is read in and no column marked |
| Peeling.Peeler.OpportunisticPeeling | sankaku-wirehair-sys/wirehair/WirehairCodec.cpp:69-152 | A row is taken exactly when no reference list of its columns is full, and a rejected row leaves the whole state as it was; afterwards no row with an unmarked column is deferred and no row down to one unmarked column waits |
| PeelState.ListSize | sankaku-wirehair-sys/wirehair/WirehairCodec.cpp:69-152 | How long a column's reference list is follows from the ids read in: it is the number of rows that have the column |
| Peeling.Peeler.Reference | sankaku-wirehair-sys/wirehair/WirehairCodec.cpp:88-117 | The row is entered under all its columns, or all entries made are undone |
| Peeling.Peeler.FixPeelFailure | sankaku-wirehair-sys/wirehair/WirehairCodec.cpp:154-182 | Undoes exactly the entries made before the full list |
| Peeling.Peeler.PeelAvalancheOnSolve | sankaku-wirehair-sys/wirehair/WirehairCodec.cpp:184-286 | After the avalanche of a column no row waits for it; the mutual recursion ends because fewer columns are unmarked |
| Peeling.Peeler.AvalancheRow | sankaku-wirehair-sys/wirehair/WirehairCodec.cpp:193-285 | One row hears of the column: solved, deferred, rescanned or left to wait, with the invariant kept, so that it is deferred only when all its columns are marked, the weight-two counters right again, and other rows reached at most by deeper avalanches |
| Peeling.Peeler.CandidateCounts | sankaku-wirehair-sys/wirehair/WirehairCodec.cpp:140-148 | What the choice of a column to defer goes by is exact: the counter of an unmarked column is the number of waiting rows with that column and just one other left, and its list is as long as the ids say |
| Tally.TallyAfter | sankaku-wirehair-sys/wirehair/WirehairCodec.cpp:193-256 | Telling a row that a column is marked leaves every counter right but for what the row itself still has to do |
| Tally.WaitsMeans | sankaku-wirehair-sys/wirehair/WirehairCodec.cpp:233-256 | At rest the rows counted for a column are those with two unmarked columns, of which it is one |
| Peeling.Peeler.Rescan | sankaku-wirehair-sys/wirehair/WirehairCodec.cpp:233-256 | The two columns left of a row are found again among all its columns, stale counters notwithstanding |
| Peeling.Peeler.SolveWithPeel | sankaku-wirehair-sys/wirehair/WirehairCodec.cpp:288-322 | Solves a column, lists the row last and lets the avalanche run, with the invariant kept |
| Peeling.Peeler.BestColumn | sankaku-wirehair-sys/wirehair/WirehairCodec.cpp:337-366 | No unmarked column has more waiting rows of two columns than the one chosen, nor as many and more rows |
| Peeling.Peeler.DeferColumn | sankaku-wirehair-sys/wirehair/WirehairCodec.cpp:374-388 | Deferring the best column keeps every list linked and leaves fewer unmarked; afterwards no row with an unmarked column is deferred |
| Peeling.Peeler.GreedyPeeling | sankaku-wirehair-sys/wirehair/WirehairCodec.cpp:324-390 | Ends with every row and column placed, keeping the rows peeled before as a prefix |
| Peeling.Peeler.DeferredBalance | sankaku-wirehair-sys/wirehair/WirehairCodec.cpp:324-390 | With n rows exactly as many rows as columns are deferred, and each row is peeled or deferred, not both |
| Diagonal.PlanIsPlanned | sankaku-wirehair-sys/wirehair/WirehairCodec.cpp:324-390 | What peeling leaves is an order in which the peeled rows can be solved one after the other |
| Diagonal.SolveMeans | sankaku-wirehair-sys/wirehair/WirehairCodec.cpp:498-649 | In every solution of the peeled rows, the peeled column equals its temporary block plus its compression row applied to the GE columns |
| Diagonal.SpreadRow | sankaku-wirehair-sys/wirehair/WirehairCodec.cpp:576-641 | Adding the solved row to a waiting row keeps what the waiting row means, bits and temporary block together |
| Diagonal.DiagonalStep | sankaku-wirehair-sys/wirehair/WirehairCodec.cpp:498-649 | One peeled row after the other, the meaning of all rows is kept |
| Compression.Compressor.constructor | sankaku-wirehair-sys/wirehair/WirehairCodec.cpp:396-420 | Takes over what peeling left, whatever the workspace holds |
| Compression.Compressor.SetDeferredColumns | sankaku-wirehair-sys/wirehair/WirehairCodec.cpp:396-453 | Every row has exactly the bits of its deferred columns, GE columns are numbered and mapped |
| Compression.Compressor.SetMixingColumnsForDeferredRows | sankaku-wirehair-sys/wirehair/WirehairCodec.cpp:455-496 | Deferred rows, and only they, have their mixing bits flipped in and are marked as solving nothing |
| Compression.Compressor.AddToReferencing | sankaku-wirehair-sys/wirehair/WirehairCodec.cpp:576-641 | The solved row is added to each other row with its column once, in bits and in blocks, with the copy-on-first-use of input blocks |
| Compression.Compressor.PeelDiagonal | sankaku-wirehair-sys/wirehair/WirehairCodec.cpp:498-649 | Afterwards the compression rows and temporary blocks mean, in every solution of the peeled rows, what they replace |
| Compression.Compressor.Compress | sankaku-wirehair-sys/wirehair/WirehairCodec.cpp:396-649 | The whole stage from peeled rows to a meaningful compression matrix, GE columns mapped |
| Dense.PatternFlips | sankaku-wirehair-sys/wirehair/WirehairCodec.cpp:709-907 | In every window the first row has the columns at the front of the first deck, every other row differs from the one before in exactly the two listed columns, for any d and stream |
| Dense.FirstHalf | sankaku-wirehair-sys/wirehair/WirehairCodec.cpp:714-749 | The first row of a window has exactly (d + 1) / 2 of its columns |
| Dense.ChangesDisjoint | sankaku-wirehair-sys/wirehair/WirehairCodec.cpp:775-833 | Every later row changes exactly two columns, and over the d / 2 rows behind the first, and again over the rest, no column is changed twice |
| Dense.AnyChange | sankaku-wirehair-sys/wirehair/WirehairCodec.cpp:775-833 | Any two columns can be the pair that changes, and the second deck decides it for the first half of the rows, the third for the rest |
| Dense.EveryWindow | sankaku-wirehair-sys/wirehair/WirehairCodec.cpp:694-712 | Any sequence of windows, each of four decks of one cycle, is drawn by some stream: no deck or window says anything about another |
| Dense.WindowsCover | sankaku-wirehair-sys/wirehair/WirehairCodec.cpp:679-712 | Every column is in exactly one window, and no window is drawn behind the last column |
| Dense.RowSummedDot | sankaku-wirehair-sys/wirehair/WirehairCodec.cpp:719-835 | What a window adds to a dense row is the sum of its pattern of columns |
| Dense.DenseSumAdd | sankaku-wirehair-sys/wirehair/WirehairCodec.cpp:1572-1831 | A dense row is linear in the columns |
| Assembly.Assembler.FirstSum | sankaku-wirehair-sys/wirehair/WirehairCodec.cpp:714-749 | The sum of the first row of a window, which has half of the columns, those beyond the last left out |
| Assembly.Assembler.DenseWindow | sankaku-wirehair-sys/wirehair/WirehairCodec.cpp:694-910 | Every dense row gets the sum of its pattern of the window exactly once |
| Assembly.Assembler.MultiplyDenseRows | sankaku-wirehair-sys/wirehair/WirehairCodec.cpp:679-911 | Every dense row becomes all its windows multiplied by the compression rows; other rows are untouched |
| Assembly.Assembler.DenseBitsDot | sankaku-wirehair-sys/wirehair/WirehairCodec.cpp:679-911 | The multiplied row applied to the GE columns is the dense row applied to what the columns stand for |
| Assembly.Assembler.CopyDeferredRows | sankaku-wirehair-sys/wirehair/WirehairCodec.cpp:651-677 | Each deferred row is below the dense rows, in list order, and its GE row knows it |
| Assembly.Assembler.AddInvertible | sankaku-wirehair-sys/wirehair/WirehairCodec.cpp:2923-2924 | The block is added to the dense rows at the first mixing column and nowhere else |
| Assembly.Assembler.SetHeavyRows | sankaku-wirehair-sys/wirehair/WirehairCodec.cpp:926-955 | The six heavy rows of the fixed matrix come after the space for extra rows |
| Cauchy.HeavyIsCauchy | sankaku-wirehair-sys/wirehair/WirehairCodec.cpp:913-924 | Every entry of the heavy matrix is the inverse of x + y, for six different row values and eighteen different column values, none of them shared |
| Cauchy.Regular | sankaku-wirehair-sys/wirehair/WirehairCodec.cpp:913-924 | A square Cauchy matrix of any size takes no vector but zero to zero |
| Cauchy.HeavyDistance | sankaku-wirehair-sys/wirehair/WirehairCodec.cpp:913-924 | As many heavy rows as a vector has non-zero entries in the heavy columns do not all give zero: any k heavy rows solve for any k heavy columns |
| Assembly.Assembler.Assemble | sankaku-wirehair-sys/wirehair/WirehairCodec.cpp:2900-2952 | The GE matrix is the multiplied dense rows with the block, the deferred rows and the heavy rows |
| Meaning.SourceMeans | sankaku-wirehair-sys/wirehair/WirehairCodec.cpp:679-911 | What stands for a column is its value plus its temporary block, in every solution of the peeled rows |
| Meaning.DeferredMeans | sankaku-wirehair-sys/wirehair/WirehairCodec.cpp:651-677 | A deferred GE row is its equation with all peeled columns eliminated |
| Meaning.DenseMeans | sankaku-wirehair-sys/wirehair/WirehairCodec.cpp:679-911 | A dense GE row is its dense equation with all peeled columns eliminated, the block included |
| Meaning.HeavyMeans | sankaku-wirehair-sys/wirehair/WirehairCodec.cpp:926-955 | A heavy row is its equation on the last mixing columns |
| Meaning.ExtraMeans | sankaku-wirehair-sys/wirehair/WirehairCodec.cpp:3049-3097 | The GE row built for a late row is its equation with all peeled columns eliminated |
| Meaning.PeelUnique | sankaku-wirehair-sys/wirehair/WirehairCodec.cpp:2725-2833 | Two solutions of the peeled rows with equal GE columns are equal |
| Linear.LuStep | sankaku-wirehair-sys/wirehair/WirehairCodec.cpp:1096-1116 | One elimination keeps: the original row is what remains plus the multipliers left in place times the upper rows |
| Progress.FactoringStep | sankaku-wirehair-sys/wirehair/WirehairCodec.cpp:1064-1140 | One pivot keeps the LU identity of every listed row |
| Progress.FactoringAppend | sankaku-wirehair-sys/wirehair/WirehairCodec.cpp:3007-3025 | A reduced late row joins with the LU identity |
| Elimination.SoundClearByLight | sankaku-wirehair-sys/wirehair/WirehairCodec.cpp:1085-1117 | A bit pivot clears bit rows and byte rows below it and keeps the identity of all |
| Elimination.SoundClearByHeavy | sankaku-wirehair-sys/wirehair/WirehairCodec.cpp:1386-1423 | A byte pivot leaves GF(256) multipliers in place and keeps the identity of all |
| Elimination.SoundConvert | sankaku-wirehair-sys/wirehair/WirehairCodec.cpp:1019-1034 | Turning the heavy columns of extra rows from bits to bytes changes no row |
| Elimination.SoundAppendHeavy | sankaku-wirehair-sys/wirehair/WirehairCodec.cpp:1040-1050 | Heavy rows join with nothing eliminated |
| Elimination.SoundFactored | sankaku-wirehair-sys/wirehair/WirehairCodec.cpp:1176-1450 | With a pivot for every column the chosen original rows are factored, with non-zero diagonal |
| Triangulation.Eliminator.constructor | sankaku-wirehair-sys/wirehair/WirehairCodec.cpp:3644-3729 | A matrix of the given shape with no heavy row listed |
| Triangulation.Eliminator.SetupTriangle | sankaku-wirehair-sys/wirehair/WirehairCodec.cpp:961-981 | All light rows are listed once, in order, and every row is its own original |
| Triangulation.Eliminator.InsertHeavyRows | sankaku-wirehair-sys/wirehair/WirehairCodec.cpp:983-1050 | Unused extra rows and heavy rows go last, as bytes, with the list duplicate-free and the LU identity kept |
| Triangulation.Eliminator.TriangleNonHeavy | sankaku-wirehair-sys/wirehair/WirehairCodec.cpp:1053-1147 | Either every column before the heavy ones has a pivot, or it stops at a column no unused row has |
| Triangulation.Eliminator.PlacePivot | sankaku-wirehair-sys/wirehair/WirehairCodec.cpp:1176-1450 | A pivot is found exactly when some unused row has the column; light rows come first; the identity holds either way |
| Triangulation.Eliminator.Triangle | sankaku-wirehair-sys/wirehair/WirehairCodec.cpp:1176-1450 | Complete with a pivot for every column, or stuck at a column that no unused row has |
| Triangulation.Eliminator.FoldLight | sankaku-wirehair-sys/wirehair/WirehairCodec.cpp:3099-3125 | The new row is reduced by the pivots before the heavy columns, multipliers left in place |
| Triangulation.Eliminator.FoldHeavy | sankaku-wirehair-sys/wirehair/WirehairCodec.cpp:3150-3235 | The new row is reduced by bit and byte pivots of the heavy columns, without a division for a one |
| Triangulation.Eliminator.Enlist | sankaku-wirehair-sys/wirehair/WirehairCodec.cpp:3007-3025 | The reduced row is listed with its own LU identity |
| Triangulation.Eliminator.Resume | sankaku-wirehair-sys/wirehair/WirehairCodec.cpp:2963-3274 | From any stop, one more row either completes the elimination or leaves it stopped again, and exactly that row's original changes |
| Triangular.SubstitutionsSolve | sankaku-wirehair-sys/wirehair/WirehairCodec.cpp:1839-2723 | Forward and back substitution on factored rows solve the original rows |
| Triangular.SolutionUnique | sankaku-wirehair-sys/wirehair/WirehairCodec.cpp:1839-2723 | and no other vector does |
| Windows.SelectedField | sankaku-wirehair-sys/wirehair/WirehairCodec.cpp:2038-2050 | The table entry that a window's bits select is that stretch of the row applied to the values |
| Windows.SelectedTop | sankaku-wirehair-sys/wirehair/WirehairCodec.cpp:1965-2018 | Adding one column to an entry gives the entry with that bit set, as the table is built |
| Windows.FillSpare | sankaku-wirehair-sys/wirehair/WirehairCodec.cpp:1965-2018 | Writing an entry into a spare cell fills the table and changes no GE column |
| Preparation.Preparer.Combine | sankaku-wirehair-sys/wirehair/WirehairCodec.cpp:1456-1570 | A cell becomes the input block of a row plus its peeled columns, and nothing else changes |
| Preparation.Preparer.InitializeColumnValues | sankaku-wirehair-sys/wirehair/WirehairCodec.cpp:1456-1570 | Every chosen row starts from its own right side without the dense part, and unused dense rows are marked |
| Preparation.Preparer.MapTargets | sankaku-wirehair-sys/wirehair/WirehairCodec.cpp:1456-1570 | Different dense rows go to different cells, none of them peeled |
| Evaluation.Evaluator.FirstSum | sankaku-wirehair-sys/wirehair/WirehairCodec.cpp:1610-1670 | The temporary cell becomes the half-deck sum of peeled columns, and is known zero when nothing was summed |
| Evaluation.Evaluator.DenseWindow | sankaku-wirehair-sys/wirehair/WirehairCodec.cpp:1592-1828 | Every chosen dense row gets the sum of its pattern of the window, with the decks the matrix was multiplied by |
| Evaluation.Evaluator.MultiplyDenseValues | sankaku-wirehair-sys/wirehair/WirehairCodec.cpp:1572-1831 | Every chosen dense row gets the same dense equation, applied to the temporary blocks, that its matrix row stands for |
| Substitution.Generator.BuildTable | sankaku-wirehair-sys/wirehair/WirehairCodec.cpp:1965-2018 | All sums of up to seven neighbouring columns, in cells no GE column uses |
| Substitution.Generator.ForwardTriangle | sankaku-wirehair-sys/wirehair/WirehairCodec.cpp:1920-1961 | The triangle of a window is finished bit by bit |
| Substitution.Generator.ForwardBelow | sankaku-wirehair-sys/wirehair/WirehairCodec.cpp:2020-2082 | Every row below a window takes it from the table in one addition |
| Substitution.Generator.ForwardWindow | sankaku-wirehair-sys/wirehair/WirehairCodec.cpp:1913-2085 | One window has the same effect as its columns one by one |
| Substitution.Generator.AddSubdiagonalValues | sankaku-wirehair-sys/wirehair/WirehairCodec.cpp:1839-2193 | Windows, narrowing windows, plain rows and heavy columns together are forward substitution |
| Substitution.Generator.Normalize | sankaku-wirehair-sys/wirehair/WirehairCodec.cpp:2364-2390 | An entry is divided by its diagonal, which is never zero |
| Substitution.Generator.BackBitsAbove | sankaku-wirehair-sys/wirehair/WirehairCodec.cpp:2525-2597 | Rows above a window take it from the table, except that a window without heavy columns passes over rows from index 32767 on |
| Substitution.Generator.BackWindow | sankaku-wirehair-sys/wirehair/WirehairCodec.cpp:2270-2600 | One window of back substitution, heavy columns and rows included, equals its columns one by one with the entries passed over left out |
| Substitution.Generator.BackSubstituteAboveDiagonal | sankaku-wirehair-sys/wirehair/WirehairCodec.cpp:2201-2723 | Windows and plain columns together are back substitution with the upper rows without exactly the entries that windows pass over |
| Skipping.RightUnlessSkipped | sankaku-wirehair-sys/wirehair/WirehairCodec.cpp:2525-2597 | That is back substitution for every right side if and only if no upper row from index 32767 on has an entry in a window without heavy columns to its right |
| Skipping.BitIsLost | sankaku-wirehair-sys/wirehair/WirehairCodec.cpp:2525-2597 | In lists as the solver keeps them (as many light and heavy rows as columns, rows listed once and in range, at least 32742 columns), with the first pivot in row 32767: the identity with one bit more in that row, ten columns before the heavy ones, loses the bit, and the result is not what the rows give |
| Skipping.BelowLimit | sankaku-wirehair-sys/wirehair/WirehairCodec.cpp:2525-2597 | With every pivot before the heavy columns below 32767 nothing is passed over |
| Skipping.Widths | sankaku-wirehair-sys/wirehair/WirehairCodec.cpp:2196-2233 | Windows are four to seven columns wide: seven from 135 columns on, six from 70, five from 45 |
| Restoration.Restorer.Substitute | sankaku-wirehair-sys/wirehair/WirehairCodec.cpp:2725-2833 | Every peeled row holds again as it was received and only peeled columns change |
| Solving.Assembled | sankaku-wirehair-sys/wirehair/WirehairCodec.cpp:2900-2952 | Every GE row that is to be searched means its own equation with the peeled columns eliminated |
| Solving.SolveMatrix | sankaku-wirehair-sys/wirehair/WirehairCodec.cpp:2900-2952 | From n rows to a complete or stuck solver whose rows all mean their equations |
| Solving.Solver.constructor | sankaku-wirehair-sys/wirehair/WirehairCodec.cpp:2900-2952 | The invariant of the solver holds for what the first three stages leave |
| Solving.Solver.RightSides | sankaku-wirehair-sys/wirehair/WirehairCodec.cpp:1456-1831 | Every GE cell holds the right side of its pivot's equation |
| Solving.Solver.UsedReduced | sankaku-wirehair-sys/wirehair/WirehairCodec.cpp:2954-2961 | The chosen equations and the reduced system have the same solutions |
| Solving.Solver.UsedUnique | sankaku-wirehair-sys/wirehair/WirehairCodec.cpp:2954-2961 | Two sets of blocks that satisfy the chosen equations are equal |
| Solving.Solver.Generate | sankaku-wirehair-sys/wirehair/WirehairCodec.cpp:2954-2961 | Unless an entry was passed over, the recovery blocks satisfy the chosen equations, and nothing else does |
| Solving.Solver.CodewordUsed | sankaku-wirehair-sys/wirehair/WirehairCodec.cpp:2900-3274 | A codeword that agrees with every row held satisfies the chosen equations |
| Solving.Solver.UsedIsCodeword | sankaku-wirehair-sys/wirehair/WirehairCodec.cpp:4005-4036 | Without extra rows the solution is a codeword that agrees with every row fed |
| Solving.Solver.NewRow | sankaku-wirehair-sys/wirehair/WirehairCodec.cpp:3049-3097 | The bits made for a late row mean its equation |
| Solving.Solver.FindSlot | sankaku-wirehair-sys/wirehair/WirehairCodec.cpp:2976-3001 | Finds the first listed extra row that is not a pivot, or none exactly when NoSlot |
| Solving.Solver.SlotMeans | sankaku-wirehair-sys/wirehair/WirehairCodec.cpp:2976-3001 | There is none exactly when every late row held is a pivot, but for one corner: no pivot is known yet and the first listed row is a late one, whose place 0 reads as none |
| Solving.Solver.TakeSlot | sankaku-wirehair-sys/wirehair/WirehairCodec.cpp:2974-3047 | The row goes to a new slot, or over a useless row once all slots are used, or is refused exactly when neither exists |
| Solving.Solver.Resume | sankaku-wirehair-sys/wirehair/WirehairCodec.cpp:2963-3274 | The solver invariant is kept by one more row; ExtraInsufficient exactly when full and no useless row; otherwise solved or stuck again |
| Packed.ClearRow | sankaku-wirehair-sys/wirehair/WirehairCodec.cpp:1096-1115 | The word loop, with its masked first word, is the bit-by-bit elimination that leaves the multiplier in place |
| Packed.MaskRotates | sankaku-wirehair-sys/wirehair/WirehairCodec.cpp:1139-1140 | The rotated mask is the mask of the next column, across words |
| Packed.WindowIsField | sankaku-wirehair-sys/wirehair/WirehairCodec.cpp:2020-2082 | Window bits read by shifts across a word boundary are the number that indexes the table, nothing above it |
| Packed.MultiplyHeavy | sankaku-wirehair-sys/wirehair/WirehairCodec.cpp:1284-1342 | Odd columns singly, then four columns by one table entry: the same as adding the byte for every set bit |
| Packed.ProductIs | sankaku-wirehair-sys/wirehair/WirehairCodec.cpp:1155-1170 | A table entry times a byte has that byte in exactly the lanes whose bits are set |
| Invertible.AddRow | sankaku-wirehair-sys/wirehair/WirehairTools.cpp:302-370 | Exactly the n columns from the offset on change, by the same n random bits at every offset, taking ceil(n/64) words |
| Invertible.FlippedIsInset | sankaku-wirehair-sys/wirehair/WirehairTools.cpp:267-371 | Those words are a row of the one block, inset at the offset |
| Invertible.AddRandom | sankaku-wirehair-sys/wirehair/WirehairTools.cpp:296-371 | All rows get the same square block whatever the offset, other rows nothing |
| Invertible.AddDiagonals | sankaku-wirehair-sys/wirehair/WirehairTools.cpp:274-294 | For 512 rows and more the block is the diagonal and the bit right of it |
| Invertible.DiagonalsSolved | sankaku-wirehair-sys/wirehair/WirehairTools.cpp:274-294 | That block has a solution for every right side |
| Invertible.DiagonalsUnique | sankaku-wirehair-sys/wirehair/WirehairTools.cpp:274-294 | and only one |
| GF256.MulAssoc | sankaku-wirehair-sys/wirehair/gf256.cpp:362-446 | Multiplication modulo 0x14D is associative |
| GF256.MulComm | sankaku-wirehair-sys/wirehair/gf256.cpp:362-446 | and commutative |
| GF256.MulAddLeft | sankaku-wirehair-sys/wirehair/gf256.cpp:362-446 | and distributes over addition |
| GF256.ExpOrder | sankaku-wirehair-sys/wirehair/gf256.cpp:383-407 | The generator has order 255 |
| GF256.ExpOnto | sankaku-wirehair-sys/wirehair/gf256.cpp:383-407 | and its powers are all non-zero bytes |
| GF256.DivMul | sankaku-wirehair-sys/wirehair/gf256.cpp:414-446 | Division by logarithms undoes multiplication |
| Bulk.FirstPowers | sankaku-wirehair-sys/wirehair/gf256.cpp:383-401 | The first loop writes the powers and logarithms, the last power being one |
| Bulk.ExpLogInit | sankaku-wirehair-sys/wirehair/gf256.cpp:383-407 | The doubled power table and all logarithms, with the log of zero pointing at zeros |
| Bulk.MulDivInit | sankaku-wirehair-sys/wirehair/gf256.cpp:414-446 | Both 256 by 256 tables are the product and quotient of the field |
| Bulk.InvSqrInit | sankaku-wirehair-sys/wirehair/gf256.cpp:453-468 | Inverses and squares of the field |
| Bulk.MulMemInit | sankaku-wirehair-sys/wirehair/gf256.cpp:563-600 | The two nibble tables are the products of low and high nibbles |
| Bulk.Context.constructor | sankaku-wirehair-sys/wirehair/gf256.cpp:626-651 | After initialisation every table is right |
| Bulk.LookedIsMul | sankaku-wirehair-sys/wirehair/gf256.cpp:563-600 | The two nibble products sum to the product |
| Bulk.MulsAgree | sankaku-wirehair-sys/wirehair/gf256.cpp:1108-1270 | Looking up nibbles and looking up bytes give the same product |
| Bulk.AddMem | sankaku-wirehair-sys/wirehair/gf256.cpp:657-831 | Every byte exactly once, for every length and every choice of registers |
| Bulk.Add2Mem | sankaku-wirehair-sys/wirehair/gf256.cpp:833-951 | z += x + y for every length and every choice of registers |
| Bulk.AddSetMem | sankaku-wirehair-sys/wirehair/gf256.cpp:953-1106 | z = x + y for every length and every choice of registers |
| Bulk.MulMem | sankaku-wirehair-sys/wirehair/gf256.cpp:1108-1270 | z = y * x, also in place and for y = 0 and y = 1 |
| Bulk.MulAddMem | sankaku-wirehair-sys/wirehair/gf256.cpp:1272-1499 | z += y * x, for y = 0 and y = 1 too |
| Bulk.DivMem | sankaku-wirehair-sys/wirehair/gf256.h:264-269 | Multiplying by the inverse divides |
| Wire.FromLeLe | sankaku-core/src/session.rs:502-527 | A little-endian field reads back as what was written |
| Wire.LeFromLe | sankaku-core/src/session.rs:502-527 | and any bytes are the number they read as, written out |
| Wire.ParsePacket | sankaku-core/src/session.rs:1798-1850 | Every header field and the block read back, with the padding left behind the block |
| Wire.PaddingDefined | sankaku-core/src/session.rs:529-542 | A target exists if and only if the mode is not adaptive or the packet is within its bounds, and then neither truncates nor exceeds the wire limit |
| Wire.TargetIs | sankaku-core/src/session.rs:529-542 | What the target is: within the bounds the next multiple of 32, raised to the lower and cut to the upper one; in fixed mode the size asked for or the packet; cut to the largest datagram |
| Wire.FlagKind | sankaku-core/src/pipeline.rs:16-31 | A kind flag is read back as the kind that is written with it, and nothing else is |
| Wire.LongPacketPanics | sankaku-core/src/session.rs:533-542 | A packet of 513 bytes with bounds 256 and 512 has none |
| Wire.DeserializeSerialize | sankaku-core/src/session.rs:438-443 | The frame envelope reads back |
| Wire.DeserializeIff | sankaku-core/src/session.rs:438-443 | Bytes read as a frame envelope if and only if they begin with it as it is written |
| Wire.RestoreProtect | sankaku-core/src/pipeline.rs:83-136 | Restoring undoes protecting, payload kind included |
| Session.Sender.constructor | sankaku-core/src/session.rs:759-788 | No frame has been sent on any stream |
| Session.Sender.SendFrame | sankaku-core/src/session.rs:1053-1118 | The datagrams sent are those of this frame under the next index, each with its block and exactly as many zeros behind it as the padding mode says, up to the first that is not taken or cannot be padded; the index advances exactly when all were sent; other streams are untouched |
| Session.Receiver.constructor | sankaku-core/src/session.rs:1446-1463 | No stream is known |
| Session.Receiver.HandleDataPacket | sankaku-core/src/session.rs:1792-1990 | Any datagram whatever, dropped ones included: it does nothing, or one step of the one stream its header names (StepRight and StepAnyway say what that is) |
| Session.StepRight | sankaku-core/src/session.rs:1877-1944 | Reading a block of the next frame keeps the decoder in step. The frame comes out, unchanged and at once, exactly when the code recovers from the blocks held and this one; while the code asks for more the block is kept behind the others, and after a failure the decoder starts afresh |
| Session.StepAnyway | sankaku-core/src/session.rs:1877-1944 | Of any datagram whatever, forged ones included: at most one frame comes out, of the kind and codec its header names, and only then does the stream move on; an empty or over-long block drops the decoder |
| Session.OpenedIff | sankaku-core/src/session.rs:1915-1944 | A recovered message opens to a frame if and only if it begins with the protected envelope of that frame, compressed or not, and the header names its kind and codec |
| Session.PacketRead | sankaku-core/src/session.rs:1226-1306 | An honest datagram parses to its header and block whatever the padding |
| Session.OtherStreams | sankaku-core/src/session.rs:1792-1990 | A datagram of one stream never touches another |
| Session.HonestStep | sankaku-core/src/session.rs:1792-1990 | A datagram of a frame that has an index does nothing unless that frame is next; then the frame is handed out exactly when the code recovers with this block, unchanged, and otherwise the block is kept or the decoder dropped as the code says |
| Session.RunSend | sankaku-core/src/session.rs:1053-1118 | Sending keeps the run invariant, half-way failures included: on a steady stream every datagram on the wire belongs to the frame that has its index |
| Session.RunDeliver | sankaku-core/src/session.rs:1792-1990 | Delivery of any datagram ever sent keeps the run invariant and only adds frames |
| Session.Run | sankaku-core/src/session.rs:1792-1990 | Over every schedule of sends and arrivals (what never arrives is lost, and anything may arrive again, in any order) and every padding: the sends that succeed are told by the schedule, and on each stream where a frame given up half-way is the next to take the index again, the frames handed out are a prefix of the frames sent, contents equal, followed by the frame still given up half-way if there is one. When the code tells in time what is enough and each frame gets that many of its blocks across before the next one starts, they are all of them |
| Session.SourceStarted | sankaku-core/src/session.rs:1053-1118 | Which frame and block each datagram on the wire carries is told by the schedule: it is the frame in the log under its index |
| Session.LosslessIdle | sankaku-core/src/session.rs:1792-1990 | If every datagram of every send arrives once and in order, no frame is left waiting on any stream and every send succeeds, with any code that recovers from the original blocks |
| Session.RunLossless | sankaku-core/src/session.rs:1792-1990 | So over such a network each stream hands out exactly the frames sent on it |
| Session.RetriesSteady | sankaku-core/src/session.rs:1107-1114 | A caller that after a failed send tries the same frame until it succeeds keeps the stream steady, however many datagrams the transport took |
| Session.UnbrokenSteady | sankaku-core/src/session.rs:1107-1114 | A stream on which every send puts all of its datagrams on the wire or none is steady, and no frame is left given up half-way |
| Session.StartedGrows | sankaku-core/src/session.rs:1053-1118 | On a steady stream a frame keeps its index, whatever is sent later |
| Session.IndexUsedTwice | sankaku-core/src/session.rs:1107-1114 | The run in which a send given up half-way is followed by another frame under the same index: the frame handed out is not the one reported sent, and the stream is not steady unless the two frames are equal |
| Feedback.LossFeedbackWindow.constructor | sankaku-core/src/session.rs:1316-1328 | An empty window |
| Feedback.LossFeedbackWindow.ObservePacket | sankaku-core/src/session.rs:1329-1334 | The per-frame sets and maxima describe exactly the packets seen |
| Feedback.LossFeedbackWindow.CountPackets | sankaku-core/src/session.rs:1336-1360 | The saturating counters never saturate |
| Feedback.LossFeedbackWindow.MaybeFlushLossRatio | sankaku-core/src/session.rs:1336-1360 | The ratio is exactly the share of ids up to each frame's maximum that were never seen, and the clamp does nothing |
| Feedback.LossSame | sankaku-core/src/session.rs:1316-1360 | Order and duplicates do not change it |
| Feedback.Pacer.constructor | sankaku-core/src/session.rs:629-638 | The bucket is full and nothing has been let through |
| Feedback.Pacer.Refill | sankaku-core/src/session.rs:645-649 | Time adds at most rate times elapsed |
| Feedback.Pacer.Pace | sankaku-core/src/session.rs:640-672 | Whatever the size, jitter and oversleep, the budget is never exceeded, and no packet waits in vain: it leaves at once if the tokens of that moment are enough, and otherwise exactly when the missing ones have come, plus the oversleep |
| Feedback.Pacer.BudgetShare | sankaku-core/src/session.rs:651-656 | Above its floor the budget is the burst, two and a half times that for a keyframe, divided by one plus the jitter over 200 ms |
| Feedback.Pacer.Bound | sankaku-core/src/session.rs:622-673 | At any time the bytes let through are at most the burst plus rate times elapsed time |
| Feedback.Unpaced | sankaku-core/src/session.rs:640-644 | With rate zero any number of bytes goes out in no time |
| Hevc.FindStartCode | sankaku-core/src/hevc.rs:255-263 | The first start code at or after the position, if any |
| Hevc.AnnexBNalIter.Next | sankaku-core/src/hevc.rs:38-53 | Takes the first unit off the list of units that follow and always advances |
| Hevc.SplitAnnexB | sankaku-core/src/hevc.rs:56-58 | Iterating to the end gives all units |
| Hevc.SplitJoined | sankaku-core/src/hevc.rs:38-53 | Splitting a concatenation of start-code-prefixed units gives them back if and only if each is non-empty and none contains a start code, trailing zeros being no obstacle |
| Hevc.NalsClean | sankaku-core/src/hevc.rs:38-53 | Whatever is split out of any stream could be joined and split again |
| Hevc.EbspToRbsp | sankaku-core/src/hevc.rs:132-151 | The loop is the specified removal of emulation prevention |
| Hevc.UnescapedEscaped | sankaku-core/src/hevc.rs:132-151 | Removal undoes insertion for every payload |
| Hevc.EscapedSafe | sankaku-core/src/hevc.rs:132-151 | An escaped payload never has 00 00 followed by 00, 01 or 02 |
| Hevc.StreamRoundTrip | sankaku-core/src/hevc.rs:38-53 | A stream of escaped payloads, split and unescaped, gives the payloads back |
| Hevc.BitReader.ReadBit | sankaku-core/src/hevc.rs:90-99 | The bit at the position, most significant first, or nothing at the end |
| Hevc.BitReader.ReadBits | sankaku-core/src/hevc.rs:101-111 | Up to 32 bits as a number, or nothing and no reading if too few are left |
| Hevc.BitReader.ReadUe | sankaku-core/src/hevc.rs:113-129 | The Exp-Golomb number at the position, or nothing for 32 zeros or a short rest |
| Hevc.UeRoundTrip | sankaku-core/src/hevc.rs:113-129 | Reading the code of v at any bit offset gives v and consumes exactly its bits if and only if v <= 2^32 - 2 |

## Left out

- Codec.Transfer: whether a code of more than 32235 blocks has seeds for which an entry that matters is passed over. How many columns peeling defers depends on the draws; the condition is stated of the solved matrix instead, where it is exact.
- Messages.TransferMessage: lanes are carried through one after the other instead of together. That all succeed or none does is stated for up to n + 32 rows; which slot a row beyond that takes is not part of the contract of `Solving.Solver.TakeSlot`.
- Codec.Codec.DecodeFeed: feeding more blocks after Success, or after a repeated original block was reported as InvalidInput (`Codec.RepeatedOriginal` is the input), is not modelled; the interface asks callers for different ids and to stop on Success.
- Codec.Codec.InitializeEncoderFromDecoder: a second conversion of a decoder that had only originals, for which the source runs the solver again over rows already peeled, is not modelled.
- Codec.Codec.ReconstructBlock: the branch for a block that was not received although all originals were is unreachable and has no result of its own.
- Session.Run: sending and delivering are whole steps of a run; how many of its datagrams a send produces and how many the transport takes are parameters, since the redundancy controller is left out. At most 65536 datagrams a frame.
- Session.Receiver.HandleDataPacket: errors that end the receive loop (a decoder that cannot be made, a message that cannot be written or opened) leave the state as the source does at that point, and the run goes on; ending it there gives a prefix of the run.
- Session.Run: on a stream that is not steady it depends on the code and on the network whether the wrong frame comes out, which the contract does not say; `Session.IndexUsedTwice` is a case where it does. The datagram size of a session stays as it is during a run.
- Session.Run: a FIN for a stream, audio frames, telemetry and control packets; the theorem is about runs before a FIN.
- Feedback.LossFeedbackWindow.MaybeFlushLossRatio: up to 2^31 frames in a window, so that 64-bit counters cannot saturate.
- Whether particular seeds give an invertible matrix, and how often a decoder succeeds: tables and statistics. That a pivot was found for every column is what Success means here.
- Dense-count tables, seed tables and the generator of random numbers: parameters. The primes table and the heavy matrix are as in the source.
- The table inside FloorSquareRoot16 is replaced by an exact integer square root, the sieve table by the distances its generator computes.
- Growing lists stand for preallocated arrays; the row records of the source are parallel sequences; the map from GE rows to columns is not written back after generation, as nothing reads it then.
- Allocation and its failures, buffer reuse between codecs, CPU detection, SIMD intrinsics beyond the lane-wise meaning of their blocks.
- gf256_memswap, gf256_self_test, OverrideSeeds and the printing functions: nothing in the modelled paths depends on what they compute.
- The OpenZL compressor of SAO parameters is the identity it is in the source; its graph updates are left out.
- AIMD bitrate control, adjust_redundancy and bitrate clamps: single expressions.
- The heuristic SAO scanner and nal_unit_type in hevc.rs: a guess by design, and one expression.
- QUIC, WebRTC, tasks and channels, the handshake, the command line and foreign interfaces.
