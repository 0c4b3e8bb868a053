# Markov image synthesis, two's-complement samples, note names and word counts

A Dafny model of the core of the proc-gen-workshop scripts.

**The Markov-chain image synthesizer** (`ImageGeneration/`) has two parts.

- A colour-transition table, `MarkovData`. It counts how often one RGBA colour is seen next to another:
  - `num_pairs` is the grand total;
  - `first_color_count` holds the per-from-colour totals;
  - `data` is a nested dict of counts.
- A driver with two phases:
  - It trains the table on "look left / look up" neighbour pairs of input images.
  - It grows a new image from a seed pixel with a 4-connected flood in random priority order. Each pixel gets a colour drawn from the table, conditioned on an already enqueued neighbour when one has data.

**Three small utilities** next to it:

- The little-endian two's-complement encoder `twoscompbytes` and the square-wave sample loop `squaresamples`, both in `AudioGeneration/audiowave.py` and `AudioGeneration/Wave.py`.
- The note-name parser `getpianonum` in `AudioGeneration/note.py`.
- The word-frequency count of `MarkovWords.py`.

## How it is modelled

- **Python dicts** keep insertion order, and the synthesizer's sampling depends on that order. So a dict is a sequence of key/value pairs with distinct keys (module `Dict`). "Add a new key" appends; "update" replaces in place.
- **Random numbers** are parameters.
  - In exact arithmetic, a draw `rand` in [0, 1) against running sums of `count / total` picks the same entry as an integer draw `floor(rand * total)` in [0, total) against running sums of counts (module `Roulette`). The sampling functions therefore take that integer draw. Python's floats round the running sums, which can move a slot boundary or leave the scan short of 1 (see "## Left out").
  - The synthesizer takes a stream `rng: nat -> nat` and the index of its next unused number. A draw below `bound` is `rng(k) % bound`. This stands for `random.random()`, `random.choice` and `random.randrange`.
- **Colours.** A pixel is a sequence of channel values. The canonical four-channel colour is the subset type `Rgba`.
- **Images.** A PIL image is a width, a height and a map from in-bounds coordinates to colours. `putpixel` errors are `Result` failures: `InvalidSize` for `Image.new` with a negative size, `OutOfRange` for `IndexError`, and `NoColor` for a `None` colour.
- **`create_image_from_point`** is a method with a loop. One loop iteration is the function `MarkovImages.Step`, and the loop invariant is the conjunction `MarkovImages.Inv`. The method also returns the order in which pixels were painted, so that "every pixel is painted" can be stated.
- **Modules**:
  - `Wrappers`, `Dict`, `Roulette`, `Powers`: generic support;
  - `MarkovData`, `ColorCodec`: `markov_data.py`;
  - `Grid`, `Training`, `MarkovImages`: `markov_images.py`;
  - `TwosComplement`, `SquareWave`, `AudioWave`, `Wave`: the audio scripts;
  - `Note`: `note.py`;
  - `MarkovWords`: `MarkovWords.py`.

### Behaviour of the code worth knowing

- **Painting count.** The seed never goes into `colored`, so the first painted neighbour enqueues it again. When the image has more than one pixel, the seed is painted twice and the loop runs width·height + 1 times (`MarkovImages.CreateImageFromPoint`).
- **One-edge table.** `random_color` returns the to-colour of the pair it lands on, so a table trained only on the pair A → B paints every pixel B (`MarkovImages.OnePairPaintsTo`).
- **Conditioning neighbours.** The test is membership in `colored`, which holds every enqueued coordinate. A neighbour that is enqueued but not yet painted still has the blank `(0, 0, 0, 0)` from `Image.new`, and it conditions the draw whenever that colour has data (`MarkovImages.Eligible`).
- **No early checks.** Nothing validates the size, the seed or the table before the loop:
  - `Image.new` rejects only negative sizes;
  - a zero-sized image or an out-of-bounds seed fails at the first `putpixel`;
  - an empty table fails there too, because `putpixel` receives `None`.
- **Colour padding.** `getRGBA` pads every missing channel with 255, alpha and colour channels alike (`MarkovData.GetRGBA`).
- **Training order.** Dicts keep insertion order. Two training orders give the same counts but may give different key orders, and so different samples for the same draw (`Training.TrainingOrderIrrelevantForCounts`).
- **Note numbers.** `getpianonum` counts octaves from A, while note names change octave at C. For the letters C to G the number is 12 above the key's place on a piano keyboard: it gives 52 for "C4", middle C, which is key 40 (see "## Findings").

## Model

| member | source | states |
|---|---|---|
| MarkovData.Empty | ImageGeneration/markov_data.py:9-12 | A new table has no pairs and satisfies the counter invariant. |
| MarkovData.RecordPair | ImageGeneration/markov_data.py:14-33 | Recording a pair raises the grand total by one and the count of exactly the canonicalised (color1, color2) by one, leaving every other count unchanged. A new from-colour is appended with the single edge (color2, 1); otherwise the from-colour order is unchanged, and within the from-colour's row a new to-colour is appended while a known one keeps its place. The counter invariant is preserved. |
| MarkovData.RecordAllNumPairs | ImageGeneration/markov_data.py:18 | After any sequence of recordings the grand total has grown by the number of pairs recorded. |
| MarkovData.RecordAllValid | ImageGeneration/markov_data.py:18-33 | Any sequence of recordings keeps the invariant: every per-colour total is the sum of its row, the grand total is the sum of all rows, and every stored count is at least 1. |
| MarkovData.RecordAllCounts | ImageGeneration/markov_data.py:25-33 | Each pair's count goes up by the number of times its canonical form occurs in the recorded sequence. |
| MarkovData.RecordAllConcat | ImageGeneration/markov_data.py:14-33 | Recording two sequences one after the other is recording their concatenation. |
| MarkovData.RecordingCommutesOnCounts | ImageGeneration/markov_data.py:14-33 | Recording the same pairs in two orders gives the same grand total and the same count for every pair. |
| MarkovData.GetRGBA | ImageGeneration/markov_data.py:67-77 | The result has four channels: channel i is the input's channel i when the input has one, else 255. |
| MarkovData.GetRGBAIdentity | ImageGeneration/markov_data.py:67-77 | A four-channel colour comes back unchanged. |
| MarkovData.Has | ImageGeneration/markov_data.py:63-64 | On a valid table, membership means the colour has a positive per-colour total. |
| MarkovData.HasIffOutgoingPair | ImageGeneration/markov_data.py:63-64 | On a valid table, membership holds iff the colour is the from-colour of at least one recorded pair. |
| MarkovData.NoPairsIffEmpty | ImageGeneration/markov_data.py:9-33 | A valid table has a zero grand total iff it has no from-colour. |
| MarkovData.OnePairToColor | ImageGeneration/markov_data.py:14-33 | A table trained on one pair (a, b) has exactly one to-colour, the canonical form of b. |
| MarkovData.RandomColor | ImageGeneration/markov_data.py:35-43 | An empty table gives no colour. On a valid table a colour comes back iff the draw is below the grand total. The colour is the to-colour of the pair, in insertion order, whose cumulative slot holds the draw, and so it is a recorded to-colour. |
| MarkovData.NextColor | ImageGeneration/markov_data.py:45-61 | A colour without data gets the unconditioned draw. Otherwise a draw below its total returns the successor whose cumulative slot in its row holds the draw, so (colour, successor) is a recorded pair. |
| Roulette.PickIndex | ImageGeneration/markov_data.py:38-43 | The cumulative scan selects an entry iff the draw is below the sum of all counts, and the entry it selects has the draw in its slot. |
| Roulette.PickIndexIffSlot | ImageGeneration/markov_data.py:52-58 | The scan selects entry i exactly when the draw lies in entry i's slot. |
| Roulette.DrawsSelecting | ImageGeneration/markov_data.py:52-58 | Of the total-many equally likely draws, exactly count-many select each entry, so an entry is chosen with probability count / total. |
| ColorCodec.TupleOfInt | ImageGeneration/markov_data.py:80-97 | Unpacking (`color_tuple`) the packed integer (`ColorCodec.ColorInt`, `color_int`) of a four-channel colour with channels in [0, 255] gives the colour back. |
| ColorCodec.IntOfTuple | ImageGeneration/markov_data.py:80-97 | Packing the unpacked channels of any integer gives that integer modulo 2^32, so integers in [0, 2^32) round-trip. |
| ColorCodec.ColorIntRange | ImageGeneration/markov_data.py:80-87 | Packing channels in [0, 255] gives a value below 256^(number of channels). |
| ColorCodec.ColorTuple | ImageGeneration/markov_data.py:90-97 | Unpacking gives four channels, each in [0, 255], for every integer including negative ones. |
| Grid.NeighborsAreAdjacent | ImageGeneration/markov_images.py:19-20 | The four offsets reach exactly the coordinates at distance 1 horizontally or vertically. |
| Grid.Coords | ImageGeneration/markov_images.py:71-75 | The coordinate set of an image holds exactly the coordinates that satisfy `Grid.InBounds` (`in_bounds`: 0 ≤ x < width and 0 ≤ y < height). |
| Grid.CoordsSize | ImageGeneration/markov_images.py:50 | A width×height image has width·height in-bounds coordinates. |
| Grid.FloodCovers | ImageGeneration/markov_images.py:55-66 | A set of coordinates that holds an in-bounds seed and is closed under taking in-bounds neighbours holds every in-bounds coordinate. |
| Grid.HasNeighborIffSeveral | ImageGeneration/markov_images.py:62-66 | An in-bounds coordinate has an in-bounds neighbour iff the image has more than one pixel. |
| MarkovImages.NewImage | ImageGeneration/markov_images.py:49 | Image creation fails with a size error iff a dimension is negative. Otherwise every in-bounds coordinate has a pixel and every pixel is blank. |
| MarkovImages.InImageIffPixel | ImageGeneration/markov_images.py:71-75 | On a created image, a coordinate passes `MarkovImages.InImage` (`in_bounds` on the image's own width and height) iff it has a pixel. |
| MarkovImages.PutPixel | ImageGeneration/markov_images.py:59 | Out of bounds is an index error, and a missing colour is an error next. Otherwise exactly the given pixel changes, to the given colour, and the shape is kept. |
| MarkovImages.EligibleIndices | ImageGeneration/markov_images.py:30-37 | The eligible neighbours (in bounds, enqueued, colour with data) listed once each, in increasing `DX` index. |
| MarkovImages.Candidates | ImageGeneration/markov_images.py:29-37 | The candidate list holds the colour of every eligible neighbour and nothing else. It is empty iff no neighbour is eligible. |
| MarkovImages.CandidatesFollowEligible | ImageGeneration/markov_images.py:29-37 | The candidate list has one entry per eligible neighbour, in `DX` order: entry j is the colour of the j-th eligible neighbour. A colour shared by two eligible neighbours appears twice, so `random.choice` weights it double. |
| MarkovImages.ColorPixelFromNeighbors | ImageGeneration/markov_images.py:27-44 | With no eligible neighbour the result is the unconditioned draw. On a valid table there is a colour iff the table has pairs, the colour is always a recorded to-colour, and when an eligible neighbour exists it is a recorded successor of some eligible neighbour's colour. |
| MarkovImages.ColorPixelChoice | ImageGeneration/markov_images.py:27-44 | How the colour is drawn. With no eligible neighbour: `random_color` on the first number, one number consumed. Otherwise the first number picks the j-th eligible neighbour in `DX` order, so `random.choice` weights a colour by how many eligible neighbours carry it. `next_color` from that neighbour's colour takes the second number, and two numbers are consumed. |
| MarkovImages.EntryLeTotalOrder | ImageGeneration/markov_images.py:54 | Queue entries compare as (priority, x, y) tuples, a total order. |
| MarkovImages.MinIndex | ImageGeneration/markov_images.py:57 | The dequeued entry is no greater than any entry in the queue. |
| MarkovImages.RemoveAtCoords | ImageGeneration/markov_images.py:57 | Dequeuing removes exactly one occurrence of the entry's coordinate. |
| MarkovImages.EnqueueNeighbors | ImageGeneration/markov_images.py:62-66 | After the enqueue loop every in-bounds neighbour is in the enqueued set, the set only grows, and what it gains are in-bounds coordinates other than the painted one. |
| MarkovImages.EnqueueNeighborsAddsNeighbors | ImageGeneration/markov_images.py:62-66 | Every coordinate the enqueue loop adds to the enqueued set is one of the four neighbours of the painted coordinate. |
| MarkovImages.EnqueueNeighborsCount | ImageGeneration/markov_images.py:62-66 | The queue gains exactly one entry for each coordinate newly added to the enqueued set, so no coordinate is enqueued twice. |
| MarkovImages.EnqueueNeighborsAppends | ImageGeneration/markov_images.py:62-66 | Old entries stay, and the new entries carry newly enqueued coordinates with priorities in [0, width·height). |
| MarkovImages.StepOutcome | ImageGeneration/markov_images.py:55-59 | `MarkovImages.Step` is one iteration of the loop. Only the first iteration can fail. It fails with an index error iff the seed is out of bounds, and with a missing colour iff the seed is in bounds and the table has no pairs. |
| MarkovImages.StepSuccess | ImageGeneration/markov_images.py:55-66 | One loop iteration preserves the loop invariant and makes progress: the enqueued set grows or the queue shrinks. |
| MarkovImages.FinalCoverage | ImageGeneration/markov_images.py:55-68 | When the queue is empty, every in-bounds coordinate has been painted once, plus the seed a second time when the image has more than one pixel. Every pixel holds a recorded to-colour. |
| MarkovImages.CreateImageFromPoint | ImageGeneration/markov_images.py:47-68 | The errors: a negative size is a size error; a seed out of bounds is an index error; an empty table is a missing-colour error. Otherwise it succeeds with the requested shape. The seed is painted first, and the painted sequence is every in-bounds coordinate once, plus the seed again when there is more than one pixel. Every pixel is a recorded to-colour. |
| MarkovImages.Synthesize | ImageGeneration/markov_images.py:140 | Growing from the centre (width // 2, height // 2) is a size error on a negative size, an index error when a dimension is zero, and a missing-colour error on an empty table. Otherwise it paints every pixel, the centre twice when there is more than one pixel, with recorded to-colours. |
| MarkovImages.OnePairPaintsTo | ImageGeneration/markov_images.py:40-44 | With a table trained on the one pair (a, b), every pixel a synthesis paints is b's canonical colour. |
| Training.TrainingPairsShape | ImageGeneration/markov_images.py:129-136 | Training a w×h image yields 2·(w−1)·(h−1) pairs (none when w < 2 or h < 2). For each x ≥ 1, y ≥ 1 it yields the pair with the left neighbour, then the pair with the upper neighbour, at a fixed position in column-major order. |
| Training.PairsAreNeighbors | ImageGeneration/markov_images.py:129-136 | Every training pair is (pixel, left neighbour) or (pixel, upper neighbour) of an interior pixel with x ≥ 1, y ≥ 1. |
| Training.TrainColumn | ImageGeneration/markov_images.py:130-136 | The inner loop records the left and up pairs of every pixel in one column, rows 1 upward. |
| Training.Train | ImageGeneration/markov_images.py:129-136 | Training records the image's pairs in loop order. The total grows by 2·(w−1)·(h−1), and the invariant is kept. |
| Training.TrainAll | ImageGeneration/markov_images.py:126-137 | Training on several images records each image's pairs in argument order, keeping the invariant. |
| Training.TrainingOrderIrrelevantForCounts | ImageGeneration/markov_images.py:126-137 | Training on two images in either order gives the same total and the same count for every pair. |
| TwosComplement.TwosCompBytes | AudioGeneration/audiowave.py:103-119 | Encoding succeeds iff the byte count is non-negative and x is in [−256^n, 256^n). The result is exactly n bytes whose little-endian value is x mod 256^n. A negative count and an out-of-range value are distinct errors. |
| TwosComplement.EncodeNonNegative | AudioGeneration/Wave.py:97-101 | A value in [0, 256^n) is encoded as its own base-256 little-endian digits. |
| TwosComplement.EncodeWraps | AudioGeneration/audiowave.py:113-116 | A negative x in [−256^n, 0) encodes the same as x + 256^n. |
| TwosComplement.XorMask | AudioGeneration/Wave.py:97-99 | Python's `^` on naturals (`TwosComplement.Xor`, bit by bit): xor with 2^k − 1 is 2^k − 1 − a for a below 2^k, and at least 2^k otherwise. |
| TwosComplement.SignedRoundTrip | AudioGeneration/audiowave.py:112-119 | Every value in the signed range [−256^n/2, 256^n/2) encodes, and reading the bytes back as a signed number gives it back. |
| TwosComplement.EncodeInjective | AudioGeneration/Wave.py:88-101 | Two values in the signed range with equal encodings are equal. |
| TwosComplement.ToBytesLittle | AudioGeneration/audiowave.py:119 | Conversion to bytes succeeds iff the length is non-negative and the value fits. The result then has that length and reads back as the value. |
| SquareWave.Samples | AudioGeneration/audiowave.py:84-98 | The loop succeeds iff every sample is encodable. It then gives count·bytes bytes, and sample i occupies bytes i·b to (i+1)·b as the encoding of minvolume or maxvolume, chosen by the phase test. |
| SquareWave.SamplesAreVolumes | AudioGeneration/Wave.py:69-83 | Every sample is the encoding of minvolume or of maxvolume. |
| AudioWave.SquareSamples | AudioGeneration/audiowave.py:67-100 | A zero frequency is a division error. Otherwise it succeeds iff every sample's volume is encodable in bytespersamp bytes, and then has numsecs·sampfreq samples (none when that is negative) of bytespersamp bytes each, every one encoding minvolume or maxvolume. |
| Wave.SquareSamples | AudioGeneration/Wave.py:52-85 | A zero frequency, or a zero sample rate with at least one sample, is a division error. Otherwise it succeeds iff every sample's volume is encodable in bytespersamp bytes, and then has numsamp samples (none when negative) of bytespersamp bytes each, every one encoding minvolume or maxvolume. |
| Note.LetterOffset | AudioGeneration/note.py:34-47 | The offset is that of the first of A, B, …, G (1, 3, 4, 6, 8, 9, 11) occurring anywhere in the name, and 0 when none does. |
| Note.Semitone | AudioGeneration/note.py:49-53 | +1 iff the name has '#'; −1 iff it has no '#' but a lowercase 'b'; 0 otherwise. |
| Note.OffsetsIgnorePosition | AudioGeneration/note.py:34-53 | Letter and semitone depend only on which characters occur, not on where: swapping two parts of the name changes neither. |
| Note.OctaveDigits | AudioGeneration/note.py:56 | The search finds nothing iff the name has no digit. Otherwise it finds the leftmost maximal run of digits. |
| Note.DecimalValueOfText | AudioGeneration/note.py:57 | Reading (`Note.DecimalValue`, `int` on a digit string) the decimal text of a number gives the number back. |
| Note.PianoNum | AudioGeneration/note.py:21-59 | The parse fails iff the name has no digit. Otherwise it is letter offset + semitone + 12 × the value of the first digit run. |
| Note.PianoNumOfNoteName | AudioGeneration/note.py:21-59 | Every name made of a letter, an optional '#' or 'b', and an octave number parses to offset + accidental + 12·octave. |
| Note.PianoNumOfSpelling | AudioGeneration/note.py:21-59 | A letter, an optional '#' or 'b', and any non-empty run of digits parse to offset + accidental + 12 × the digits' value, and the letter alone decides the offset. |
| Note.ExamplesNatural | AudioGeneration/note.py:22-24 | `getpianonum` returns 1 for "A0" and 49 for "A4", the keyboard's numbers for those keys. |
| Note.ExamplesAccidental | AudioGeneration/note.py:24 | `getpianonum` returns 77 for "C#6" and 26 for "Bb2". "C#6" is key 65 on a keyboard. |
| Note.OctaveJumpAtC | AudioGeneration/note.py:34-59 | As written, C of one octave is numbered 13 above B of the octave below, although the two keys are adjacent. |
| Note.OctaveJumpExample | AudioGeneration/note.py:21-59 | `getpianonum` returns 39 for "B3" and 52 for "C4". |
| Note.KeyNumberOfSpelling | AudioGeneration/note.py:22 | The corrected number `Note.KeyNumber` counts octaves from C: it is `getpianonum`'s value for A and B, and 12 less for C to G. |
| Note.KeyNumbersRise | AudioGeneration/note.py:22 | Within an octave the corrected numbers of the natural notes increase in keyboard order C, D, E, F, G, A, B. |
| Note.KeyNumberBToC | AudioGeneration/note.py:22 | With the correction, C of the next octave is one above B. |
| Note.KeyNumberAnchors | AudioGeneration/note.py:22 | With the correction, "A0" is 1, "C4" is 40 and "C8" is 88, as on an 88-key piano. |
| MarkovWords.SplitWords | MarkovWords.py:11 | Splitting yields only non-empty tokens without whitespace, where whitespace is the set `str.isspace` accepts. |
| MarkovWords.SeparatorExample | MarkovWords.py:11 | The control character U+001C separates words, as it does for `str.split()`. |
| MarkovWords.SplitJoin | MarkovWords.py:11 | Splitting words joined by single spaces gives the words back. |
| MarkovWords.CountWordsCounts | MarkovWords.py:10-15 | After counting (`MarkovWords.CountWords`, the loop over one line's tokens), each word's count is its old count plus its number of occurrences among the tokens. |
| MarkovWords.CountWordsKeys | MarkovWords.py:12-15 | A word is a key after counting iff it was a key before or occurs among the tokens. |
| MarkovWords.CountWordsWellFormed | MarkovWords.py:12-15 | Counting keeps keys distinct and every count at least 1. |
| MarkovWords.CountWordsTotal | MarkovWords.py:10-15 | The sum of all counts grows by the number of tokens. |
| MarkovWords.CountWordsConcat | MarkovWords.py:5-15 | Counting two token sequences in turn into the same dict is counting their concatenation, so counts accumulate across lines. |
| MarkovWords.CountWordsOrder | MarkovWords.py:17-18 | The keys, in the order they are printed, are the old keys followed by the new words in first-occurrence order. |
| MarkovWords.CountTextMeaning | MarkovWords.py:8-18 | For a whole file: keys are the distinct words in first-occurrence order, each count is the word's number of occurrences, and the counts sum to the number of words. |
| MarkovWords.CountTextLineByLine | MarkovWords.py:10-11 | Counting the words of one more line extends the count of the preceding lines. |

## Left out

- Image file I/O (`Image.open`, `save`, `close`) and the command-line parsing and help text of `main` and `printhelp`. The model starts from in-memory pictures and arguments.
- The random number generator itself. Draws are parameters, and the model fixes how many raw random numbers each step consumes: one for an unconditioned pixel, two for a conditioned one, one per enqueue. `MarkovImages.ColorPixelChoice` states the exact indices. A conditioned pixel also passes the third number to `next_color` for its fall-through to `random_color`. A valid table never reaches that fall-through, and the number is the next step's first. That bookkeeping is a modelling choice, not a property of the source.
- MarkovData.RandomColor: the integer draw matches the float scan only in exact arithmetic. Python rounds the running sums of `count / num_pairs`. A draw equal to a rounded boundary can select the next entry, and a draw just below 1 can run past a sum that ends below 1, so `random_color` returns `None` on a non-empty table. The model always returns a colour for a draw below the grand total.
- MarkovData.NextColor: the fall-through to `random_color` after a scan that selects nothing exists only because of float rounding. With integer counts it is reached only by a draw at or above the colour's total, which the synthesizer never makes. It is modelled but nothing is claimed about it.
- Floating-point code: `sinesamples`, the sine-based fades, and `LinearBoxBlur.py`. The square wave's phase test (`pos_in_period % 1 < 0.5`) is the parameter `lowHalf` of `SquareWave.Samples`, and the wave's frequency is only compared with zero.
- `twoscompint` (AudioGeneration/audiowave.py:122-141): it calls `from_bytes` on a bytes object and parses `x ^ complementbits + 1` as `x ^ (complementbits + 1)`. No round trip with `twoscompbytes` is claimed for it. `TwosComplement.SignedValue` is an independent signed reading used instead.
- `getfreq`, `SineWave.getsamples`, `mixsamples`, `waveviewer.py`, `multi_wave_evolution.py` and `MultiWaveEvolution.py`: stubs, plotting, wave-file output, or code that raises as written.
- Reading `input.txt` and printing in `MarkovWords.py`. The model counts a sequence of lines, and `CountWordsOrder` states the printing order.
- Note.PianoNum: reads only the ASCII digits 0-9. Python's `\d` and `int` also accept other Unicode decimal digits, so "A٤" (Arabic-Indic four) gives 49 in Python and an error in the model. The model also has no limit on the length of the digit run, while Python 3.11 and later make `int` refuse strings of more than 4300 digits.
- Note.OctaveDigits: matches only the ASCII digits 0-9, for the reason given for `Note.PianoNum`.
- Module-global state. `markov_data` and `colored` in `markov_images.py` are globals, and `main` calls `create_image_from_point` once per run, so the model passes the table explicitly and starts the enqueued set empty. `words_dict` is modelled as the dict passed into the count.
- MarkovImages.CreateImageFromPoint: requires a valid table, because tables are only ever built by `record_pair`, which keeps the invariant (`MarkovData.RecordAllValid`).
- MarkovImages.CreateImageFromPoint: treats a seed with a negative coordinate as out of range, while PIL's `putpixel` may wrap a negative index around. The driver's seed `(width // 2, height // 2)` is never negative on an image that is not empty.
- Greyscale images whose `getpixel` returns a bare integer. `getRGBA` would raise on those, and the model takes every pixel to be a tuple of channels.
- TwosComplement.TwosCompBytes: a negative byte count is the single error `NegativeLength`. Python raises `ValueError` from `to_bytes` for a non-negative `x` but `TypeError` from the xor with a float mask for a negative one.
- Queue tie-breaking beyond tuple order: two entries with equal priority and coordinate would be equal tuples. That cannot happen, because a coordinate is in the queue at most twice (the seed) and the seed's first entry is gone before it is enqueued again.

## Findings

| source | as written | input that shows it | evidently intended | confidence | as-written member | corrected member |
|---|---|---|---|---|---|---|
| AudioGeneration/note.py:34-59 | the number is letter offset + semitone + 12·octave, with the offsets counted from A (A 1 … G 11) | "C4" gives 52 and "B3" gives 39, so adjacent keys are 13 apart | the key on a piano, as the docstring at line 22 says (1 is A0): "C4" is 40 | not executed | Note.OctaveJumpAtC | Note.KeyNumberBToC |
