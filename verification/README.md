# Models of anionpy's own algorithms

anionpy re-creates numpy's public interface over a Rust engine. Most of its Python files forward to
that engine; the ones modelled here carry an algorithm or a state machine of their own. Arrays are a
shape with row-major data (`RowMajor`); the engine's elementwise arithmetic, reshape, `expand_dims`,
`diff` and `cumsum` have their plain mathematical meaning.

| files | what they model |
|---|---|
| `RowMajor`, `Selection`, `Odometer`, `Subscript`, `Arrayterator`, `Subselection` | the buffered block iterator over an n-dimensional strided selection, and when subscripting it is right |
| `Kron` | the Kronecker product by inserted axes, broadcasting and reshaping, for all ranks including scalars |
| `Codec`, `Layout`, `Memmap`, `MemmapTrace`, `MemmapProtection`, `MemmapRuns` | the file-backed array: byte codec, C and F order, window arithmetic, views and copies, flush; whole runs of calls, as a pure machine and on the heap |
| `Unwrap`, `Chebyshev` | phase unwrapping over reals and over integers; the Clenshaw loop |
| `IntRepr` | `binary_repr` and `base_repr` |
| `Polynomial`, `Poly1d`, `RaisePower` | coefficient lists highest power first, the `poly1d` object with its shared coefficient array, the two-line exponent layout |
| `SuppressWarnings`, `SuppressedRuns` | the warning-suppressing context; whole programs of warnings, new filters and nested contexts |
| `Audit` | the falsifiability audit, which patches modules and specification objects and puts them back |
| `Ledger` | the coverage ledger: report, axis failures, verdicts, counts |

`Arith`, `RealArith`, `Sequences` and `Wrappers` are helpers. A method is proved against a specification function or predicate;
the lemmas then say what that specification is good for.

Where the code does not do what its documentation or its callers would expect, the model keeps the code
and a theorem gives the exact condition:

- An `Arrayterator` slice that stops at 0 is read as a slice without a stop, and a slice of a stepped
  iterator moves its start by unscaled positions (`SliceStoredIff` for one axis, `SubscriptCommutes` for
  all; `SteppedAxis` and `StopAtZeroIgnored` show it happen).
- The C-contiguity of the source alone decides whether a reshaped or ravelled memmap keeps its mode and
  file name; whether it shares the elements is the engine's decision. So an object that has lost its
  mode, and so accepts assignments even under a read-only root, may still share the root's elements
  (`ReadOnlyChanged`). A read-only array stays protected exactly if no sharing reshape or ravel is
  applied to an object over it that is not C-contiguous (`ProtectedIff`, `ProtectedMeans`). The file
  stays safe in any case (`Run`, `LastFlush`, `CopiesNeverReachFile`).
- Flushing a freshly opened array restores the file exactly unless a boolean was stored as a byte
  other than 0 and 1 (`FlushUnchangedIff`, `TwoBecomesOne`).
- The exponent layout is not injective: `x**1 **2` and `x**12` look the same (`LayoutIsAmbiguous`).
  Two rows look the same exactly when they are equal after every base that is a lone blank has been
  merged into the exponent before it (`SameLinesIff`), and a text is given back by its lines exactly
  when no row needs merging (`RebuildIff`).
- Two `poly1d` objects made from one another share their coefficients until one of them grows (`AssignShared`).
- Assigning 0 to the leading coefficient of a `poly1d` leaves a leading zero in place (`SetItem` says
  when), and then `==` compares lengths as well as functions (`Equals`, `LeadingZeroDiffers`).
- `audit` undoes its resolver override by deleting it. A resolver that was set on the specification
  object beforehand is lost, which can change how a later item is graded (`LostResolver`). For one run,
  `AuditedAsAlone` says exactly when everything is put back; grading as if alone is certain, whatever
  the tests do, exactly if no item whose resolver can be lost comes before one that can be graded
  (`AlwaysAsAloneIff`).
- A ledger row can read "ok" although its item is failing, phantom or undeclared (`ReasonMisleadsIff`,
  `PhantomReadsOk`).

## Model

| member | source | states |
|---|---|---|
| RowMajor.UnravelOfRavel | anionpy/_shape_compose.py:114-115 | row-major rank and multi-index determine each other, so a reshape moves no element in row-major order |
| RowMajor.RavelCons | anionpy/_shape_compose.py:114-115 | row-major order: the first index counts blocks as large as the rest of the shape, and a shape has as many elements as the product of its extents |
| Selection.GridAt | anionpy/lib.py:208-212 | the selection as a list: its entry at the row-major rank of a multi-index is that multi-index's lattice point |
| Selection.GridOrdered | anionpy/lib.py:208-212 | the listed positions are in strictly increasing lexicographic order, so none occurs twice |
| Selection.GridMember | anionpy/lib.py:208-212 | a position is listed if and only if on every axis it lies on the step lattice between start and stop |
| Selection.AxisLenIsCount | anionpy/lib.py:224-228 | the extent formula with its floor division counts exactly the lattice points below stop |
| Odometer.NestedIsQuotient | anionpy/lib.py:241-260 | the repeated floor divisions by one extent after the other equal one division by their product |
| Odometer.SearchFindsRunning | anionpy/lib.py:246-260 | the last axis the loop limits is the running dimension, whichever axes it meets on the way |
| Odometer.ReadBlock | anionpy/lib.py:247-264 | reading one block takes exactly its positions off the front of what remains, in order |
| Odometer.Carry | anionpy/lib.py:269-272 | carrying out of an axis loses and repeats no position |
| Odometer.ReadBlockCount | anionpy/lib.py:240-274 | each round lowers the number of blocks left by exactly one, which is the loop's measure |
| Odometer.BlocksInAll | anionpy/lib.py:240-274 | the number of blocks is the product of the extents before the running dimension times the pieces it is cut into, rounded up |
| Odometer.RunningUnique | anionpy/lib.py:243-260 | there is one axis only whose later axes fit into a buffer that is too small for it and them |
| Subscript.Complete | anionpy/lib.py:182-196 | the loop over the index with its changing length yields the completed index |
| Subscript.EllipsisFills | anionpy/lib.py:185-196 | one ellipsis aligns the items before it with the first axes, those after it with the last, and fills the rest with whole-axis slices |
| Subscript.PlainFills | anionpy/lib.py:184-196 | without an ellipsis the items belong to the first axes, an integer i as the slice from i to i + 1, and every further axis gets the slice without start, stop and step |
| Subscript.SlicedMember | anionpy/lib.py:199-206 | what a slice should select: the positions not before its start, before its stop, and a whole number of steps after its start |
| Subscript.SlicedOrdered | anionpy/lib.py:199-206 | they lie inside the axis in increasing order, so none is there twice |
| Subscript.PositionAlone | anionpy/lib.py:191-192 | the slice an integer stands for selects the position of that number alone, if there is one |
| Subscript.EverythingKept | anionpy/lib.py:195-196 | the slice that fills up selects every position, as it should and as it is stored |
| Subscript.UnitStepExtent | anionpy/lib.py:202-205 | on an axis with step 1 the stored extent is that of the slice, except that a stop of 0 keeps what it should cut off |
| Subscript.SlicingIsSoundIff | anionpy/lib.py:202-205 | all forward slices not stopping at 0 are stored correctly on an axis if and only if its step is 1 or it has at most one position |
| Arrayterator.SliceAt | anionpy/lib.py:208-212 | an element of the selected array is the element of the source at start + index * step, with stops clipped to the shape |
| Arrayterator.SliceReadsGrid | anionpy/lib.py:208-212 | a slice read row-major visits exactly the listed positions in their order |
| Arrayterator.Arrayterator.constructor | anionpy/lib.py:168-174 | a new iterator selects its whole source |
| Arrayterator.Arrayterator.GetItem | anionpy/lib.py:179-206 | a new iterator over the same source with the stored starts, steps and clipped stops, again inside the source for forward slices |
| Subscript.SliceStoredIff | anionpy/lib.py:202-205 | one forward slice of an axis with any step is stored correctly if and only if the extent comes out right and, unless it is empty, the start is 0 or the step 1 |
| Subscript.SteppedAxis | anionpy/lib.py:202-205 | on a stepped axis one slice that is stored correctly and two that are not |
| Subselection.SubscriptCommutes | anionpy/lib.py:199-206 | for any steps, subscripting the iterator selects what subscripting its array selects if and only if every extent comes out right and, unless nothing is selected, so does every start |
| Subselection.UnitStepsCommute | anionpy/lib.py:199-206 | for unit steps, that is if and only if no slice stops at 0 where this would cut something off |
| Subselection.StopAtZeroIgnored | anionpy/lib.py:204 | over three elements the slice that stops at 0 selects all three |
| Arrayterator.Arrayterator.Iterate | anionpy/lib.py:230-274 | for every rank from 1, shape, steps and buffer size the blocks concatenated are the row-major elements of the selection; for a buffer size n above 0 every block has between 1 and n elements, and their number and shapes are given by n and the extents; without one, or with 0, there is one block, the whole selection; a selection of nothing gives no block; a 0-d array raises |
| Arrayterator.ConcatMeans | anionpy/lib.py:214-222 | concatenating blocks puts their elements one block after the other |
| Arrayterator.ReadBlocks | anionpy/lib.py:235-274 | the while loop: order, content, count, shape and size of the blocks, the running dimension being the same in every round |
| Arrayterator.FindBlock | anionpy/lib.py:246-260 | the inner loop sets stop and running dimension as the nested division says, axis by axis |
| Arrayterator.FoundBlock | anionpy/lib.py:246-260 | what it sets is one position before the running dimension, at most the chunk on it, everything after it |
| Arrayterator.Advance | anionpy/lib.py:266-274 | the carry loop keeps the remaining positions and the blocks left, and stops exactly past the end or at a state with the same invariant |
| Arrayterator.BlockFits | anionpy/lib.py:241-264 | a block of that shape has between one and budget elements |
| Kron.KronIsDirect | anionpy/_shape_compose.py:84-115 | kron succeeds on all arrays of all ranks and equals the direct definition by quotients and remainders of the index |
| Kron.KronElement | anionpy/_shape_compose.py:84-115 | the shape is the product of the padded shapes and the element at i * bs + j is a[i] * b[j] |
| Kron.KronAt | anionpy/_shape_compose.py:84-115 | with both shapes aligned at their last axes the lengths multiply, and the element whose index on every axis is the one in a times the length of b plus the one in b is the product of these two |
| Kron.KronAssoc | anionpy/_shape_compose.py:84-115 | kron(kron(a, b), c) equals kron(a, kron(b, c)) in shape and every element, for all ranks |
| Kron.MixedRadix | anionpy/_shape_compose.py:109-115 | row-major order over interleaved axes is row-major order over the multiplied axes |
| Kron.InterleaveProd | anionpy/_shape_compose.py:114-115 | the reshape keeps the number of elements |
| Kron.BroadcastInterleaved | anionpy/_shape_compose.py:109-112 | the two expanded shapes always broadcast, to the interleaved shape |
| Kron.PadByExpanding | anionpy/_shape_compose.py:101-107 | inserting leading axes is padding the shape with ones, and keeps the data |
| Kron.SplitUnique | anionpy/_shape_compose.py:109-115 | every index of the product comes from one pair of indices of the factors only |
| Kron.ScalarProduct | anionpy/_shape_compose.py:91-92 | multiplying by a scalar is the same product with the scalar padded to the other's rank |
| Codec.DecodeEncoded | anionpy/memmap.py:100-125 | decoding what was encoded gives the items back, for every dtype |
| Codec.EncodeDecoded | anionpy/memmap.py:100-125 | encoding what was decoded gives the bytes back if and only if every boolean byte is 0 or 1 |
| Codec.Encode | anionpy/memmap.py:113-125 | the flattening loop and the packing yield the item-by-item encoding, which decodes to the items |
| Codec.PackUnpack | anionpy/memmap.py:108-125 | the same for a flat run of scalars |
| Codec.SizesOf | anionpy/memmap.py:75-95 | the bytes an item takes, dtype by dtype |
| Codec.FromBytesSnoc | anionpy/memmap.py:108-110 | the number some bytes make up is the sum of byte times power of 256, the last byte counting most |
| Codec.ScalarMeans | anionpy/memmap.py:108-110 | a decoded scalar is that number; 0 or 1 for a boolean; 256^n less for a signed integer whose last byte has the top bit set |
| Codec.DecodedSingle | anionpy/memmap.py:108-110 | item k of a dtype that is not complex is the scalar of the k-th group of bytes |
| Codec.DecodedPair | anionpy/memmap.py:105-107 | item k of a complex dtype is the two scalars of the k-th group of bytes, the real part first |
| Layout.PlaceOfRank | anionpy/memmap.py:257-258 | rank and place in C or F order determine each other |
| Layout.FirstFastest | anionpy/memmap.py:257-258 | in F order the first axis runs fastest: it counts single places, and the rest counts in steps of its length |
| Layout.LastFastest | anionpy/memmap.py:257-258 | in C order the last axis does |
| Layout.RankIsOffset | anionpy/memmap.py:257-258 | the place of an element is the sum of its indices, each times the product of the extents before it in F order and after it in C order |
| Layout.FlatReadAt | anionpy/memmap.py:439 | reading in an order lists every element at that sum |
| Layout.OrdersAgreeIff | anionpy/memmap.py:257-258 | the two orders place every element alike if and only if there is none or no two axes are longer than one |
| Layout.ReshapeKeepsReading | anionpy/memmap.py:257-258 | a reshape in an order changes nothing about the reading in that order |
| Layout.ReshapedAt | anionpy/memmap.py:460-488 | after a reshape an element is the one that had the same place in that order before |
| Memmap.WindowAligned | anionpy/memmap.py:241-246 | after the zero-length adjustment too, the window starts at a multiple of the granularity, less than one granule before the offset or, if it was empty there, one granule earlier, and ends at nbytes |
| Memmap.LoadIff | anionpy/memmap.py:241-255 | mapping and decoding succeed exactly when the window lies in a non-empty file, and decode the bytes at offset |
| Memmap.Product | anionpy/memmap.py:128-132 | the loop multiplies the extents |
| Memmap.Memmap.MapFile | anionpy/memmap.py:241-270 | the opened object's window lies in its mapping, the mapping in the file, its items are those of the file, and its element at an index is the item at the sum of index times stride in its order |
| Memmap.Memmap.Open | anionpy/memmap.py:166-270 | opening succeeds exactly on a stated condition over mode, dtype, file, offset and shape; each of the eight spellings gives its mode; 'r' and 'c' leave the file alone, 'r+' at most appends zeros, 'w+' leaves only zeros; without a shape the items are the rest of the file; the element at an index is the item at the sum of index times stride |
| Memmap.ModeSpelled | anionpy/memmap.py:138-145 | which two spellings each mode has, and that there are no others |
| Memmap.OpenedElement | anionpy/memmap.py:253-258 | an element of an opened array is the item decoded from the bytes at the offset whose number is the sum of its indices times the strides of its axes |
| Memmap.OpenedContiguousIff | anionpy/memmap.py:255-258 | an array just opened is contiguous in C order always, and in F order if and only if it is empty or has no two axes longer than one |
| Memmap.ConsecutiveIff | anionpy/memmap.py:460-494 | contiguous means that every element lies right behind the one before it |
| Memmap.Memmap.NewArray | anionpy/memmap.py:255-258 | the array has the shape asked for, its reading in the given order is the decoded list, and its element at an index is the one at the sum of index times stride |
| Memmap.FlatReadIsStorage | anionpy/memmap.py:439 | what flush reads is the decoded list's storage in its original order |
| Memmap.Memmap.AsView | anionpy/memmap.py:284-295 | the derived object keeps mode, file and offset and has the same root |
| Memmap.Memmap.AsCopy | anionpy/memmap.py:297-308 | the derived object loses them, and is its own root unless it was given a base |
| Memmap.Memmap.GetView | anionpy/memmap.py:403-407 | an array-shaped item shows the selected elements, sharing them for basic keys |
| Memmap.Memmap.Reshape | anionpy/memmap.py:460-488 | fails exactly on a wrong element count; keeps the reading; keeps the base always and the mode only for a C-contiguous source |
| Memmap.Memmap.Ravel | anionpy/memmap.py:490-494 | the reading in the order asked for; the root is lost exactly for a source that is not C-contiguous |
| Memmap.Memmap.Flatten | anionpy/memmap.py:496-501 | always elements of its own, and its own root |
| Memmap.Memmap.CopyOf | anionpy/memmap.py:512-516 | copy and astype: elements of its own, and its own root |
| Memmap.Memmap.SetItem | anionpy/memmap.py:409-414 | refused exactly in mode 'r'; otherwise the assignment in order, and no other item changes |
| Memmap.WrittenAt | anionpy/memmap.py:409-414 | after an assignment every item is the last value assigned to it or what it was |
| Memmap.Memmap.Fill | anionpy/memmap.py:416-419 | exactly the items the object shows get the value |
| Memmap.Memmap.Flush | anionpy/memmap.py:421-449 | from any derived object the walk ends at the root and its current items replace exactly its window, for a root opened in mode 'r+' or 'w+'; for 'r' and 'c' nothing changes |
| MemmapRuns.Step | anionpy/memmap.py:284-516 | one call on any object of a family does to the objects, the root's items and the file what it does in the pure machine |
| MemmapRuns.Run | anionpy/memmap.py:284-516 | after any sequence of calls the objects, the root's items and the file are those of the pure run; the file is the old one, or has the flushed items in the window and nothing else changed |
| MemmapTrace.LastFlush | anionpy/memmap.py:421-449 | the flushed items are the root's items at the last flush of any object that leads back to a writable root; without one nothing is flushed |
| MemmapTrace.ItemsKept | anionpy/memmap.py:409-419 | the root's items change only by an assignment through an object over its own elements whose mode allows it |
| MemmapTrace.CopiesNeverReachFile | anionpy/memmap.py:284-516 | runs that differ only in what they assign to, or put into, data that is not the root's own keep the same items and flush the same at every moment |
| MemmapTrace.CopiesStayApart | anionpy/memmap.py:284-516 | over a whole run, no object that descends, through any chain of calls, from one that does not show the root's elements shows them, and none regains the way back to the root |
| MemmapTrace.CreatedApart | anionpy/memmap.py:284-516 | the way back to the root is lost by flatten, copy, astype and a copying ravel only |
| MemmapProtection.ProtectedIff | anionpy/memmap.py:284-494 | over any run, all objects over a read-only root's elements still refuse assignments if and only if no object over them that is not C-contiguous was reshaped or ravelled with sharing |
| MemmapProtection.ProtectedMeans | anionpy/memmap.py:409-419 | some assignment would reach the root's elements if and only if they are not protected |
| MemmapProtection.ProtectedItems | anionpy/memmap.py:409-419 | without such a reshape or ravel a read-only root's elements never change |
| MemmapProtection.RavelBypasses | anionpy/memmap.py:490-494 | through its sharing ravel any array that is not C-contiguous can be assigned to, whatever its mode |
| MemmapProtection.ReadOnlyChanged | anionpy/memmap.py:490-494 | a protected 2x2 array in F order in mode 'r', ravelled and then assigned to |
| MemmapRuns.OpenedProtected | anionpy/memmap.py:166-270 | a run starts out protected if and only if the array was opened in mode 'r' |
| MemmapRuns.FlushAndReopen | anionpy/memmap.py:241-449 | flushing and reopening in a mode that keeps the file gives the same array, for every shape and both orders |
| MemmapRuns.FlushUnchangedIff | anionpy/memmap.py:421-449 | flushing what was just opened leaves the file as it is if and only if its boolean bytes are 0 and 1 |
| MemmapRuns.TwoBecomesOne | anionpy/memmap.py:421-449 | a boolean byte 2 becomes 1 |
| Unwrap.UnwrapRecovers | anionpy/_window_math.py:283-344 | a signal wrapped anywhere is recovered up to the first offset if and only if its jumps are below half a period, or half in the direction of the wrapped jump |
| Unwrap.UnwrapCongruent | anionpy/_window_math.py:308-344 | every output is congruent to its input modulo the period, whatever the threshold |
| Unwrap.UnwrapSmooth | anionpy/_window_math.py:310-323 | output jumps are at most half a period, and a tie keeps the sign of the input jump |
| Unwrap.UnwrapJumps | anionpy/_window_math.py:321-344 | the first value is kept and the cumulative sum corrects every jump on its own |
| Unwrap.UnwrapThreshold | anionpy/_window_math.py:321-344 | for any discont a jump below it in size is kept, and every other one comes out within half a period |
| Unwrap.ThresholdDefaultIff | anionpy/_window_math.py:289-323 | a discont gives the default result if and only if no jump below it is larger than half a period |
| Unwrap.WrappedUnique | anionpy/_window_math.py:310-320 | the wrapped jump is the only congruent one within half a period with that tie rule |
| Unwrap.UnwrapIdempotent | anionpy/_window_math.py:283-344 | unwrapping twice is unwrapping once |
| Unwrap.ThresholdIrrelevant | anionpy/_window_math.py:289-323 | a discont of at most half a period gives the default result |
| Unwrap.IntUnwrapAgrees | anionpy/_window_math.py:309-323 | the integer branch, with floor division and no tie rule for odd periods, computes the same as the exact real branch |
| Unwrap.IntUnwrapRecovers | anionpy/_window_math.py:283-344 | the exact recovery condition for integer signals |
| Unwrap.IntUnwrapCongruent | anionpy/_window_math.py:309-344 | integer outputs are congruent to their inputs |
| Unwrap.IntUnwrapSmooth | anionpy/_window_math.py:309-323 | for every discont of at most half a period, integer output jumps are at most half a period, ties keeping the sign of the input jump |
| Unwrap.IntThresholdIrrelevant | anionpy/_window_math.py:289-323 | for integers, too, a discont of at most half a period gives the default result |
| Unwrap.IntUnwrapThreshold | anionpy/_window_math.py:321-344 | for integers and any discont a jump below it in size is kept, and every other one comes out within half a period |
| Unwrap.IntThresholdDefaultIff | anionpy/_window_math.py:289-323 | for integers, too, a discont gives the default result if and only if no jump below it is larger than half a period |
| Unwrap.IntUnwrapIdempotent | anionpy/_window_math.py:283-344 | unwrapping integers twice is unwrapping them once |
| Chebyshev.Chbevl | anionpy/_window_math.py:180-192 | the three-variable loop computes the sum of vals[i] * T(n-1-i) at x/2, the last term halved |
| Chebyshev.ClenshawIsSeries | anionpy/_window_math.py:187-192 | half the difference of two recurrence values two coefficients apart is that series |
| Chebyshev.SeriesMeans | anionpy/_window_math.py:180-192 | at (z + 1/z)/2 the series is half the sum of the polynomial with the same coefficients at z and at 1/z, less half the last coefficient |
| Chebyshev.FirstKindIsMeanOfPowers | anionpy/_window_math.py:180-192 | the polynomials of the series are the Chebyshev ones: at (z + 1/z)/2 they are the mean of z^k and its inverse |
| IntRepr.BinaryReprAccepts | anionpy/_intrepr_compose.py:83-122 | for every number and width, accepted exactly if zero or within -2^(width-1) <= num < 2^width |
| IntRepr.BinaryReprBits | anionpy/_intrepr_compose.py:97-122 | an accepted number gives exactly width bits whose unsigned value is num mod 2^width |
| IntRepr.BinaryReprCollision | anionpy/_intrepr_compose.py:97-122 | two accepted numbers print alike if and only if they are congruent modulo 2^width |
| IntRepr.BinaryReprParses | anionpy/_intrepr_compose.py:94-106 | without a width, sign and magnitude parse back |
| IntRepr.BinaryReprShape | anionpy/_intrepr_compose.py:94-106 | without a width 0 gives "0"; any other number a minus sign exactly if it is negative and then a 1 that starts the least number of bits holding its magnitude |
| IntRepr.BinaryReprZero | anionpy/_intrepr_compose.py:94-95 | with a width 0 gives that many zeros, one for a width of 0 and none for a negative one |
| IntRepr.PosWidthFits | anionpy/_intrepr_compose.py:109-118 | the boundary fix gives the least width that holds the magnitude, so the two's complement has one bit more |
| IntRepr.DivisionDigits | anionpy/_intrepr_compose.py:132-136 | the division loop yields the canonical digits, last first, and none for zero |
| IntRepr.BaseRepr | anionpy/_intrepr_compose.py:125-141 | both base errors, and otherwise a text that parses back to the number |
| IntRepr.BaseTextParses | anionpy/_intrepr_compose.py:125-141 | parsing the text in its base gives the number back, for every padding |
| IntRepr.BaseTextLeadingZeros | anionpy/_intrepr_compose.py:132-141 | after the sign come exactly padding zeros and then a significant digit |
| IntRepr.BaseTextZero | anionpy/_intrepr_compose.py:132-141 | the number 0 gives exactly padding zeros, and a single one without padding |
| IntRepr.BaseTextNegativePadding | anionpy/_intrepr_compose.py:137-138 | a negative padding is no padding for any other number |
| IntRepr.DigitsReadBack | anionpy/_intrepr_compose.py:80 | the digits are 0 to 9 and then A to Z, and read back as their places |
| Polynomial.EvalAdd | anionpy/_polynomial_legacy.py:149-165 | adding coefficient lists of any lengths adds the polynomials everywhere |
| Polynomial.EvalSub | anionpy/_polynomial_legacy.py:168-184 | subtracting them subtracts the polynomials everywhere |
| Polynomial.EvalScale | anionpy/_polynomial_legacy.py:587-589 | a scalar product of the list scales the polynomial |
| Polynomial.EvalIsSum | anionpy/_polynomial_legacy.py:658-662 | the value at x is the sum of coefficient times power of x |
| Polynomial.AddCoefficient | anionpy/_polynomial_legacy.py:149-165 | a sum is as long as the longer list and has the sums of the coefficients |
| Polynomial.SubCoefficient | anionpy/_polynomial_legacy.py:168-184 | a difference is as long as the longer list and has the differences of the coefficients |
| Polynomial.NormalFacts | anionpy/_polynomial_legacy.py:477-483 | trimming yields the normal form and changes no value and no coefficient |
| Polynomial.EqualIffSameFunction | anionpy/_polynomial_legacy.py:646-651 | normal forms are equal lists if and only if they are the same function |
| Polynomial.TrimmedEqualIff | anionpy/_polynomial_legacy.py:646-651 | normal forms are equal lists if and only if all coefficients agree |
| Polynomial.SameValuesSameList | anionpy/_polynomial_legacy.py:646-651 | agreeing at all integers from some point on is enough |
| Poly1d.Poly1d.FromList | anionpy/_polynomial_legacy.py:477-484 | a new object is in normal form with coefficients of its own |
| Poly1d.Poly1d.FromPoly | anionpy/_polynomial_legacy.py:469-474 | an object made from another shares its coefficients |
| Poly1d.Poly1d.GetItem | anionpy/_polynomial_legacy.py:658-662 | the coefficient of a power, zero outside the stored ones |
| Poly1d.Poly1d.SetItem | anionpy/_polynomial_legacy.py:664-672 | fails exactly for negative powers; otherwise changes the coefficient function at one power only, growing or not, and leaves a normal form exactly if there was one or the leading coefficient set is not 0 |
| Poly1d.AssignShared | anionpy/_polynomial_legacy.py:664-672 | an object sharing the coefficients sees an assignment exactly if it needed no growth |
| Poly1d.Poly1d.Equals | anionpy/_polynomial_legacy.py:646-651 | true exactly if the two are the same function and equally long; for normal forms, exactly if they are the same function |
| Polynomial.SameLengthSameFunction | anionpy/_polynomial_legacy.py:646-651 | lists of any form are equal if and only if they are the same function and equally long |
| Polynomial.LeadingZeroDiffers | anionpy/_polynomial_legacy.py:646-651 | with a leading zero the same function is a different list |
| Poly1d.Poly1d.Add | anionpy/_polynomial_legacy.py:605-607 | a new normal form whose values are the sums |
| Poly1d.Poly1d.Sub | anionpy/_polynomial_legacy.py:626-628 | a new normal form whose values are the differences |
| Poly1d.Poly1d.Neg | anionpy/_polynomial_legacy.py:581-582 | a new normal form whose values are the negatives |
| Poly1d.Poly1d.Scale | anionpy/_polynomial_legacy.py:587-589 | a new normal form whose values are scaled |
| RaisePower.RaisePower | anionpy/_polynomial_legacy.py:434-457 | the string-building loop writes the layout of the text's terms, pair of lines by pair of lines, and the tail |
| RaisePower.LayoutIff | anionpy/_polynomial_legacy.py:447-456 | the layout is the only way to put the terms in order on rows that are within wrap unless a single term, none of which could have begun on the row before |
| RaisePower.LayoutFits | anionpy/_polynomial_legacy.py:449-456 | both lines of a row of more than one term, and of the first row, are within wrap; the first term of a later row would have made a line of the row before it longer than wrap |
| RaisePower.WrittenMeans | anionpy/_polynomial_legacy.py:438-457 | the output opens with a blank, then come the exponent and the base line of the first row and, each on new lines opening with a blank, those of the others, then the tail |
| RaisePower.SplitText | anionpy/_polynomial_legacy.py:440-446 | the found terms and the tail put together are the text |
| RaisePower.SplitIff | anionpy/_polynomial_legacy.py:440-446 | the found terms and tail are the only way to cut the text so that every base ends at the first two stars, every exponent is all digits behind them, and the tail has no two stars |
| RaisePower.RowAligned | anionpy/_polynomial_legacy.py:447-455 | the exponent and base line of a row of proper terms have equal length |
| RaisePower.RowGrows | anionpy/_polynomial_legacy.py:447-455 | a term adds its exponent behind one blank less than its base is long, and its base with one blank less than its exponent is long |
| RaisePower.TermColumns | anionpy/_polynomial_legacy.py:438-457 | every base is at its column and its exponent starts over its last character, which the leading blank moves one to the right |
| RaisePower.ReadBackIff | anionpy/_polynomial_legacy.py:447-455 | a row can be read back from its two lines if and only if no later base is a single blank |
| RaisePower.ReadBackMerges | anionpy/_polynomial_legacy.py:447-455 | the two lines of any row of proper terms read back as the row with its lone-blank bases merged |
| RaisePower.SameLinesIff | anionpy/_polynomial_legacy.py:447-455 | two rows of proper terms have the same two lines if and only if they merge into the same row, so legible rows are told apart |
| RaisePower.RebuildIff | anionpy/_polynomial_legacy.py:434-457 | a text of proper terms is rebuilt from its line pairs, all equal in length, and the tail if and only if every row is legible |
| RaisePower.LayoutIsAmbiguous | anionpy/_polynomial_legacy.py:447-455 | two different texts of proper terms with the same two lines |
| SuppressWarnings.RecordOf | anionpy/testing.py:768-781 | nothing if no filter applies, else where the newest one that applies records |
| SuppressWarnings.Suppress.AddFilter | anionpy/testing.py:709-731 | a new filter is in force for this entry only exactly if made while entered |
| SuppressWarnings.Suppress.Enter | anionpy/testing.py:733-756 | refused while entered; otherwise the handler is replaced, exactly the record lists of the lasting filters are emptied, and these filters go in front of the list |
| SuppressWarnings.PushedMeans | anionpy/testing.py:744-753 | the filters put in front stand in the list last one first, before the list as it was |
| SuppressWarnings.Suppress.Exit | anionpy/testing.py:758-764 | handler and filter list are those found on entering; only an entered context can be left |
| SuppressWarnings.Suppress.ShowWarning | anionpy/testing.py:766-793 | a matched warning is recorded under its newest filter only; an unmatched one is forwarded unless its kind was before; under 'always' exactly those go on for which no filter has a class above theirs, a matching pattern and a fitting module file |
| SuppressWarnings.Suppress.ShowAll | anionpy/testing.py:766-793 | for any sequence of warnings, the exact forwarded list, log and every record list; with nothing forwarded before, a warning goes on exactly if no filter applies and no earlier such warning has its category, or category and file, or category, file and line, as the rule says |
| SuppressWarnings.KeyMeans | anionpy/testing.py:789-792 | when two warnings are of one kind, rule by rule |
| SuppressWarnings.UnmatchedIff | anionpy/testing.py:767-776 | what it is that no filter applies: class, pattern and module file |
| SuppressWarnings.ForwardedOnce | anionpy/testing.py:782-793 | under a rule other than 'always' each kind of unmatched warning is forwarded exactly once |
| SuppressedRuns.Show | anionpy/testing.py:766-793 | the handlers ask each other as the warning's meaning says, context by context |
| SuppressedRuns.WarningShown | anionpy/testing.py:766-793 | through any nesting of contexts a warning is shown if and only if all of them let it pass |
| SuppressedRuns.WarningNoted | anionpy/testing.py:766-793 | exactly the entered contexts a warning reaches note it |
| SuppressedRuns.WarningElsewhere | anionpy/testing.py:766-793 | a context that is not entered notes nothing |
| SuppressedRuns.WarningsInBlock | anionpy/testing.py:766-793 | any warnings in one block show exactly the unmatched ones, or the first of each kind, and fill every record list with those of its newest filters |
| SuppressedRuns.FirstsInBlock | anionpy/testing.py:766-793 | in a context that has forwarded nothing yet these are the warnings no filter applies to and no earlier such warning holds back by its category, file and line |
| SuppressedRuns.Execute | anionpy/testing.py:709-793 | any program of warnings, filters and nested blocks shows and notes exactly what it means, and leaves the handler and the entered contexts as they were, also if it ends early |
| SuppressedRuns.Block | anionpy/testing.py:733-764 | the same for one block, with the filter list restored too; entering twice is refused |
| Audit.World.SubModule | tools/falsifiability.py:184-197 | refused exactly for a missing or unassignable attribute, and then without effect |
| Audit.World.SubResolve | tools/falsifiability.py:162-165 | sets the override and hands back its deletion |
| Audit.World.Attempt | tools/falsifiability.py:322-333 | the test sees exactly the one wrong object, and the strategy is undone whatever it says |
| Audit.World.Sabotage | tools/falsifiability.py:283-341 | the loop over strategies with its early exit is the specified audit of one item |
| Audit.World.Audit | tools/falsifiability.py:200-341 | the three lists and all patched state after any registry |
| Audit.OutcomeMeans | tools/falsifiability.py:260-341 | caught if and only if the item is gradable and some installable wrong object fails its test; unfalsifiable if and only if some is installable and none does |
| Audit.SkippedMeans | tools/falsifiability.py:258-335 | each of the four reasons for skipping an item, if and only if: resolving raised, gave nothing, the test does not pass as things are, or there is an adapter and no attribute to assign to |
| Audit.RunRestores | tools/falsifiability.py:162-197 | module attributes are always as found, and no override is added or changed |
| Audit.AuditedAsAlone | tools/falsifiability.py:258-341 | all patched state is as found if and only if no preset resolver is overridden, and then every item is classified as if audited alone |
| Audit.AlwaysAsAloneIff | tools/falsifiability.py:162-341 | every item is classified as if audited alone, whatever the tests and the package do, if and only if no item that has a preset resolver giving something and no adapter comes before one that can be graded |
| Audit.AuditPartitions | tools/falsifiability.py:256-341 | every item visited ends up in exactly one list, always |
| Audit.ListsMean | tools/falsifiability.py:256-341 | each list holds exactly the items visited with its outcome, the skipped ones with their reason |
| Audit.LostResolver | tools/falsifiability.py:162-165 | a preset resolver is lost and a second item over the same object is graded differently than alone |
| Ledger.AllItems | tools/coverage.py:64-110 | refused exactly for a malformed class entry or an item listed twice, naming all of those; else all items |
| Ledger.ItemsAre | tools/coverage.py:90-102 | the items are the names and, for every class, its name, a dot and each of its members |
| Ledger.LoadTestResults | tools/coverage.py:407-481 | the two sets and four tolerance maps, and refusal exactly if a tolerant pass names an unknown mechanism |
| Ledger.FoldAxisFailures | tools/coverage.py:484-520 | exactly the failures and the items some failed axis case is named after |
| Ledger.LastPart | tools/coverage.py:515-517 | the text after the last slash: no slash in it, and one right before it |
| Ledger.BlamesMeans | tools/coverage.py:511-519 | a key counts against an item if it is the item or ends in a slash and the item, which has no slash |
| Ledger.BuildLedger | tools/coverage.py:523-720 | refused only for a bad surface or report, never by its own two checks; counts add up to the items, five tolerance buckets to the covered; covered are exactly the items that earned it; every row has its verdict, declared state, tolerance, reason and ulp bound by a stated condition on package and report |
| Ledger.Tally | tools/coverage.py:641-643 | each count is the number of rows with that verdict, and no verdict is missing |
| Ledger.Sum | tools/coverage.py:697-703 | the counts add up to the number of rows |
| Ledger.Total | tools/coverage.py:641-703 | for distinct items neither consistency check can fail |
| Ledger.CreditedByKind | tools/coverage.py:657-692 | every covered item is in exactly one of the five buckets |
| Ledger.RowsMean | tools/coverage.py:538-632 | each of the seven verdicts of a row, if and only if, from package and report; its tolerance, bound and reason are those of its entry |
| Ledger.FailuresUncover | tools/coverage.py:484-570 | any new or changed failing entries take exactly the items they test and the items their axis names end in out of the covered ones, and never raise their number |
| Ledger.PassingAxisEarnsNothing | tools/coverage.py:502-520 | an axis entry new to the report never makes an item covered |
| Ledger.AxisPassCovers | tools/coverage.py:502-520 | turning a failed axis entry into a pass makes covered exactly the items whose own test passes and that nothing else blames |
| Ledger.PhantomReadsOk | tools/coverage.py:566-613 | an item declared but not there, whose test passed under a tolerance, reads ok |
| Ledger.ReasonMisleadsIff | tools/coverage.py:546-632 | exactly when a row says ok without being credited |

## Left out

- Floating-point rounding, signed zero, NaN, narrow-integer overflow and dtype promotion: `unwrap` and `_chbevl` are modelled over exact reals and unbounded integers, `kron` over unbounded integers, polynomials over reals (not complex numbers).
- `unwrap` over several axes is one application per lane, so one lane is modelled; a period that is zero or negative is not.
- `Arrayterator` with negative steps, indices or buffer sizes, with non-integer items, its `flat` iterator and attribute forwarding; generator laziness (the blocks are collected, so a caller changing the array between two blocks is not modelled).
- SubscriptCommutes: covers forward slices only; negative starts and stops are stored unresolved by the source and are left out with the other negative values.
- EncodeDecoded: floats are opaque bit patterns, so the source's passage of a NaN through a Python float, which may change its payload depending on the platform, is not covered.
- PackUnpack: the same restriction on NaN payloads.
- FlushUnchangedIff: the same restriction on NaN payloads.
- FromList: the argument is a value, not an array; the source copies an array argument only where trimming does, so that a new object may share an array it was given is not modelled.
- `kron`'s `matrix` subclass and memory layout: the reshape of a non-contiguous operand to its own shape changes no element.
- `memmap`: index parsing, broadcasting and value conversion are abstracted to a list of selected positions with converted values; whether a reshape or ravel shares storage is a parameter, as it is decided in the engine; in which cases `mmap` refuses a window is taken from Python's documentation of it.
- `memmap`: bytes are little-endian and floats opaque bit patterns, so a NaN payload survives (the source goes through Python floats); orders other than 'C' and 'F', negative extents, two memmaps over one file at a time, truncating a file that is still mapped, closing, and read failures of the file system.
- `binary_repr` and `base_repr` of values that are not integers (`operator.index`, `int`).
- `poly1d` from roots, its text form apart from the exponent layout, division, fitting, powers, the variable's name, and comparison with other types.
- `suppress_warnings`: the filter list only grows at its front (Python also drops an earlier equal entry); which warnings reach `showwarning` at all is decided by the `warnings` module and is not modelled, nor are the registries, the decorator form, and a `showwarning` of None; matching and subclass tests are parameters.
- `audit`: a resolver set beforehand gives one fixed result (a value, nothing, or an exception); the wrong value, the test and the resolution are parameters that do not change what is patched; sorting the registry is not modelled (the order is a parameter), nor is an import that fails in an unexpected way.
- `build_ledger`: sorting the items, the percentage and its rounding, reading JSON (a report that cannot be read counts as none), and how a name is resolved on the package, which is a parameter.
- Rust kernels, `random`, `fft`, `ma`, `char`, printing, finfo tables and error-message texts.
