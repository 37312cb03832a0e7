# Verified models of a PS3 runtime

A small runtime executes recompiled PlayStation 3 code on a host computer. It interprets the
Cell's SPU processors, provides the LV2 kernel objects, reads the RSX graphics command queue, and
replaces a handful of PowerPC instructions by C code. These files model that hand-written
machinery in Dafny and prove what it is for.

| Files | Subject | Form |
|---|---|---|
| `Bits`, `Quad` | unsigned machine arithmetic, 128-bit big-endian registers | functions |
| `Lanes`, `LaneMeanings`, `Shifts`, `Wide` | what one SPU lane computes; quadword shifts as byte loops, and as arithmetic on 128-bit integers | functions, methods with loops |
| `Spu`, `SpuDma`, `SpuMasks`, `SpuRuns` | fetch, decode, execute and DMA as a state transformer; whole runs | functions |
| `SpuReference`, `SpuMeanings`, `SpuFetch`, `SpuIsaLanes`, `SpuIsaQuads`, `SpuIsaControl`, `SpuIsaRest` | an independent description of every instruction by its opcode, on numbers and bits, which every step meets | relations, lemmas |
| `SpuContext` | the same machine as a class that updates its register file and local store in place | class, loops |
| `SpuCode`, `SpuDecode` | an assembler that the decoder inverts | functions, lemmas |
| `SpuIdioms`, `SpuInsert`, `SpuStraight`, `SpuPrograms`, `SpuLoads`, `SpuLoops` | instruction sequences and a loop that span opcodes, up to their instruction words in local store | lemmas |
| `EventQueue`, `EventProtocol` | the 128-entry ring with its lock and counting semaphore; every interleaving of its users | class; transition system |
| `Kernel`, `KernelCalls`, `KernelOrder`, `KernelContext` | the next-fit object pool, event ports and queues | functions; class |
| `Draw`, `DrawFetch`, `Fifo`, `FifoStream`, `FifoDraws`, `RsxReference`, `RsxContext` | the RSX register handler, the rasterizer's vertex fetch, and the command queue | functions, loops; class |
| `Morton`, `Blend` | texture de-swizzling, alpha blending | functions, array loops |
| `Rotate`, `VectorLoad` | PowerPC rotate-and-mask and unaligned vector load | functions; class |

Imperative code is a method or a class whose contract ties the new state to a function of the old
one; the properties are then proved of that function. Numbers are naturals with every truncation
written out.

Where the code departs from its comments, or from what one would expect of it:

- The comment above the command loop lays a header out differently from the code. The model
  follows the code: register in bits 0 to 17, count in bits 18 to 28, jump in bit 29,
  non-incrementing in bit 30 (`runtime_glue.cpp:614-624`).
- Generated insertion controls name source bytes 0 to `size - 1` for every size, whereas section 3
  of the Synergistic Processor Unit Instruction Set Architecture v1.2 takes a byte from byte 3 and
  a halfword from bytes 2 and 3 of the register. `InsertsScalarIff` says exactly when the two
  agree, and `ByteScalarMissed` gives an input for which they do not.
- A swizzled texture that is neither square nor twice as wide as high is addressed outside its own
  pixels; `InsideIffSquareOrDouble` is the exact condition, `LastPixelOutside` names the pixel, and
  `TallTextureOverruns` is the case of 64 by 128, which the loader accepts.
- A write to channel SRR0 can move the SPU's program counter off an instruction boundary;
  `RunAligned` is the exact condition, and `StrayingStrays` a state in which it happens.
- The rasterizer takes one range of vertices, from the first start of a batch, and of it the whole
  triangles only. `FetchesTrianglesIff` says exactly when it fetches the whole triangles that the
  batch's DRAW_ARRAYS chunks name, and `FetchesBatchIff` exactly when it fetches every vertex they
  name. `ScatteredTriangles` (chunks 0-2 and 100-102) fails the first, `FourthVertexDropped` the
  second; `StrayVertexHarmless` shows that chunks need not be contiguous for the first. A count of
  2^32 - 1 wraps the loop's counter, and more vertices than that are fetched (`FetchedIs`).
- The displacement forms of the sub-quadword store take the quadword and the element from two
  separate displacements. `StoreElementDisplacedStores` says exactly when they agree.

## Model

| member | source | states |
|---|---|---|
| Quad.GetSetW | spu_interp.h:42-49 | a word element reads back what was stored in it, and storing one leaves the other three alone |
| Quad.GetSetH | spu_interp.h:50-57 | the same for halfword elements |
| Quad.WordsDetermine | spu_interp.h:42-49 | a register is determined by its four word elements |
| Quad.HalvesDetermine | spu_interp.h:50-57 | a register is determined by its eight halfword elements |
| Quad.WordOfHalves | spu_interp.h:42-57 | a word element is its two halfword elements, the more significant first |
| Quad.ValByWords | spu_interp.h:42-49 | the 128-bit big-endian value of a register is the base-2^32 value of its words |
| Lanes.Clz | spu_interp.cpp:699-705 | the number of leading zeros is 32 exactly for zero and otherwise brackets the word between two powers of two |
| LaneMeanings.ShlMultiplies | spu_interp.cpp:776-778 | `shl` multiplies by 2^(count mod 64) modulo 2^32, also for counts of 32 and more |
| LaneMeanings.RotmDivides | spu_interp.cpp:770-772 | `rotm` divides by 2^(-count mod 64) |
| LaneMeanings.RotmaDivides | spu_interp.cpp:773-775 | `rotma` divides the signed word by 2^(-count mod 64) rounding down, so clamping the count to 31 loses nothing |
| LaneMeanings.RotMovesBits | spu_interp.cpp:767-769 | `rot` moves every bit up by the count, modulo 32 |
| LaneMeanings.HalfShifts | spu_interp.cpp:782-790 | the halfword shifts multiply or divide by the power of two of their count, and clamping the arithmetic one to 15 loses nothing |
| LaneMeanings.SignedReadings | spu_interp.cpp:774-882 | the signed value of a lane is the number of its signed range congruent to it |
| LaneMeanings.ProductsExact | spu_interp.cpp:859-882 | the 16-bit products are exact, signed or unsigned as the instruction reads its halves, and `mpys` is the product divided by 2^16 rounding down |
| LaneMeanings.ProductsAccumulate | spu_interp.cpp:883-890 | the accumulating products are the plain product added to the third operand |
| LaneMeanings.SubtractAddBack | spu_interp.cpp:657-660 | adding RA to what `sf` leaves gives RB back |
| LaneMeanings.HalfSubtractAddBack | spu_interp.cpp:661-664 | adding RA to what `sfh` leaves gives RB back |
| LaneMeanings.SumsExact | spu_interp.cpp:657-660 | `a` and `sf` give the signed sum and the signed difference RB - RA whenever these fit a word |
| LaneMeanings.HalfSumsExact | spu_interp.cpp:661-664 | `ah` and `sfh` likewise whenever they fit a halfword |
| LaneMeanings.ExtensionKeepsValue | spu_interp.cpp:711-714 | sign extension keeps the signed value of the narrower element |
| LaneMeanings.ComparisonsDecide | spu_interp.cpp:836-850 | of equal, greater and less exactly one mask is all ones, and the signed and unsigned orders differ on mixed signs |
| LaneMeanings.HalfComparisonsDecide | spu_interp.cpp:838-849 | the same for halfwords, and the orders agree on non-negative operands |
| LaneMeanings.ByteComparisonsDecide | spu_interp.cpp:840-851 | the same for bytes |
| LaneMeanings.RothMovesBits | spu_interp.cpp:779-781 | `roth` moves every bit up by the count, modulo 16 |
| LaneMeanings.SfxSubtracts | spu_interp.cpp:671-682 | `sfx` and `bgx` give the difference with borrow-in modulo 2^32, and whether it is non-negative |
| LaneMeanings.DistancesAndMeans | spu_interp.cpp:683-690 | `absdb` is the distance of its operands and `avgb` their mean rounded up |
| LaneMeanings.LogicFits | spu_interp.cpp:532-552 | the word logic instructions lose nothing to their lane |
| LaneMeanings.HalfLogicFits | spu_interp.cpp:535-555 | the halfword logic instructions lose nothing to their lane |
| LaneMeanings.ByteLogicFits | spu_interp.cpp:746-751 | the byte logic instructions lose nothing to their lane |
| LaneMeanings.SelectsBits | spu_interp.cpp:412-416 | `selb` takes each bit from RB where the mask has a one and from RA elsewhere |
| LaneMeanings.ComplementsBits | spu_interp.cpp:752-761 | `nand`, `nor`, `andc`, `orc` and `eqv`, bit by bit |
| LaneMeanings.CntbCounts | spu_interp.cpp:706-710 | `cntb` is the number of one bits |
| Shifts.QShlBytes | spu_interp.cpp:316-320 | the loop shifts the sixteen bytes towards byte 0, filling with zeros, for every count |
| Shifts.QShrBytes | spu_interp.cpp:321-325 | the loop shifts the sixteen bytes towards byte 15, filling with zeros, for every count |
| Shifts.QRotBytes | spu_interp.cpp:326-330 | the loop rotates the sixteen bytes |
| Shifts.QShlBits | spu_interp.cpp:331-338 | the ascending loop shifts the whole byte string left by 0 to 7 bits |
| Shifts.QShrBits | spu_interp.cpp:339-346 | the descending loop shifts the whole byte string right by 0 to 7 bits |
| Shifts.QRotBits | spu_interp.cpp:347-353 | the loop rotates the whole byte string by 0 to 7 bits |
| Wide.ShlBytesVal | spu_interp.cpp:316-320 | shifting left by n bytes multiplies the 128-bit value by 256^n modulo 2^128 |
| Wide.ShrBytesVal | spu_interp.cpp:321-325 | shifting right by n bytes divides it by 256^n |
| Wide.RotBytesVal | spu_interp.cpp:326-330 | rotating by n bytes rotates it by 8n bits |
| Wide.ShlBitsVal | spu_interp.cpp:331-338 | shifting left by s bits multiplies it by 2^s modulo 2^128 |
| Wide.ShrBitsVal | spu_interp.cpp:339-346 | shifting right by s bits divides it by 2^s |
| Wide.RotBitsVal | spu_interp.cpp:347-353 | rotating by s bits rotates it by s bits |
| Wide.ShlWide | spu_interp.cpp:316-338 | a byte shift by w/8 and a bit shift by w mod 8 multiply by 2^w modulo 2^128, for every w |
| Wide.ShrWide | spu_interp.cpp:321-346 | the right shifts together divide by 2^w for every w below 256 |
| Wide.RotWide | spu_interp.cpp:326-353 | the rotates together rotate by w for every w below 128 |
| Wide.RotLBack | spu_interp.cpp:326-353 | rotating by w and then by 128 - w gives the number back |
| Spu.ElementStart | spu_interp.cpp:307-312 | the element that holds a byte position is size-aligned, inside the quadword, and contains the byte |
| SpuMasks.FieldsAreMasked | spu_interp.cpp:62-73 | every register, channel and unsigned immediate field of an instruction word that the model decodes is the shift and mask of the code |
| SpuMasks.OpcodesAreMasked | spu_interp.cpp:74-78 | the five opcode fields are the shifts and masks of the code |
| SpuMasks.SignsAreMasked | spu_interp.cpp:56-70 | the signed 7-, 10- and 16-bit immediates are the code's test of the top bit and OR of the bits above the field |
| SpuMasks.AddressesAreMasked | spu_interp.cpp:36-54 | aligning an address inside local store is the mask of the code |
| SpuDma.TransferFrame | spu_interp.cpp:142-194 | a GET changes local store in its range only, a PUT main memory or the windowed local store in its range only, and other commands nothing |
| SpuDma.PutThenGet | spu_interp.cpp:142-194 | what a PUT stores in main memory a later GET of the same range brings back, to any place in local store |
| SpuDma.TransferMeans | spu_interp.cpp:142-194 | byte by byte: which command codes move how many bytes between which addresses, when they move none, and that all other bytes stay |
| SpuDma.UndefinedIff | spu_interp.cpp:142-194 | a command is left to the host exactly when its copy would run past local store or overlap itself |
| SpuIsaLanes.WordInstructions | spu_interp.cpp:657-890 | every word instruction with two registers, told by its opcode: the relation between the lanes of RA, RB and RT and the new lanes of RT, and that nothing else changes |
| SpuIsaLanes.HalfInstructions | spu_interp.cpp:661-849 | the same for halfword instructions |
| SpuIsaLanes.ByteInstructions | spu_interp.cpp:683-851 | the same for byte instructions, logic bit by bit |
| SpuIsaLanes.WordShiftInstructions | spu_interp.cpp:791-802 | the word shifts and rotates by a 7-bit constant are those by a register |
| SpuIsaLanes.HalfShiftInstructions | spu_interp.cpp:803-816 | the halfword shifts and rotates likewise |
| SpuIsaLanes.WordImmediateInstructions | spu_interp.cpp:520-596 | the word instructions with a sign-extended 10-bit operand are those with a register holding it in every lane |
| SpuIsaLanes.HalfImmediateInstructions | spu_interp.cpp:526-585 | the halfword instructions likewise, with its low 16 bits |
| SpuIsaLanes.ByteImmediateInstructions | spu_interp.cpp:538-588 | the byte instructions likewise, with its low 8 bits |
| SpuIsaQuads.QuadInstructions | spu_interp.cpp:819-827 | the quadword shifts and rotates by a register, on 128-bit values: rotation, division or multiplication by the power of two of their count |
| SpuIsaQuads.QuadImmediateInstructions | spu_interp.cpp:828-833 | the same by a 7-bit constant |
| SpuIsaQuads.SelectInstruction | spu_interp.cpp:412-416 | `selb` takes each bit from RB where RC has a one and from RA elsewhere |
| SpuIsaQuads.ShuffleInstruction | spu_interp.cpp:291-304 | `shufb` gives each byte as its control byte asks: 00, FF, 80, or a byte of RA or RB |
| SpuIsaQuads.MultiplyAddInstruction | spu_interp.cpp:420-427 | `mpya` adds RC to the signed product of the low halves, modulo 2^32 |
| SpuIsaQuads.LoadAddressInstruction | spu_interp.cpp:446-448 | `ila` leaves its 18-bit constant in every word |
| SpuIsaQuads.ConstantInstructions | spu_interp.cpp:493-511 | `il`, `ilhu`, `ilh`, `iohl` and `fsmbi`: the constant sign-extended, in the high halves, in every halfword, or-ed in, or spread over the bytes |
| SpuIsaQuads.FormMaskInstructions | spu_interp.cpp:735-744 | `fsm`, `fsmh` and `fsmb` spread bit after bit of RA's word over the lanes |
| SpuIsaQuads.GatherInstructions | spu_interp.cpp:723-734 | `gb`, `gbh` and `gbb` gather the lowest bits of the lanes, the leftmost highest, and leave zeros behind |
| SpuIsaQuads.AcrossInstructions | spu_interp.cpp:691-722 | `orx` or-s the four words, `sumb` sums the bytes of each word, `xswd` keeps the odd words and turns the even ones into their signs |
| SpuIsaQuads.ControlsInstructions | spu_interp.cpp:647-654 | the control instructions number the bytes of the element at the address, and keep the identity elsewhere |
| SpuIsaQuads.ClearInstructions | spu_interp.cpp:633-944 | `mfspr` and `fscrrd` clear RT, `fi` copies RB |
| SpuIsaControl.MemoryInstructions | spu_interp.cpp:470-645 | the eight loads and stores move exactly the quadword at their address, which is absolute, relative, displaced or indexed, modulo the size of local store |
| SpuIsaControl.BranchInstructions | spu_interp.cpp:456-910 | a branch goes exactly when the first word of RT, or its low halfword, is or is not zero, as its opcode says; where it goes; and that `brasl`, `brsl` and `bisl` leave the following address |
| SpuIsaControl.EventBranchInstruction | spu_interp.cpp:901-902 | `bisled` leaves the following address and goes on |
| SpuIsaControl.StopInstructions | spu_interp.cpp:626-900 | `stop`, `stopd` and `iret` stop the SPU, the first two with their code |
| SpuIsaControl.ReadInstruction | spu_interp.cpp:240-608 | `rdch` by channel number: the value returned and what becomes of mailbox, signals and the tag update |
| SpuIsaControl.WriteInstruction | spu_interp.cpp:199-616 | `wrch` by channel number: the one field written, or the DMA command |
| SpuIsaControl.CountInstruction | spu_interp.cpp:274-621 | `rchcnt` by channel number |
| SpuIsaControl.FloatInstructions | spu_interp.cpp:428-982 | which words are floating point, and which registers the host gets |
| SpuIsaRest.OtherWords | spu_interp.cpp:394-1000 | every word that is none of the instructions above only moves the program counter on |
| SpuIsaRest.PatchMeans | spu_interp.cpp:361-380 | the patch writes D0100000 into bytes 4 to 7 of the descriptor, and makes r49 and r124 name it where they named none |
| SpuIsaRest.PatchedStep | spu_interp.cpp:358-383 | SPU 2 executes the word at 0x35FC in the patched state |
| SpuContext.CountLeadingZeros | spu_interp.cpp:699-705 | the shift-until-set loop computes the number of leading zeros |
| SpuContext.CountBits | spu_interp.cpp:706-710 | the shift-and-add loop counts one bits |
| SpuContext.Context.WordLoop | spu_interp.cpp:657-682 | the in-place word loop leaves in RT the lane function of the old registers, including the carry-in read from the old RT, whichever registers coincide, and changes no other register |
| SpuContext.Context.HalfLoop | spu_interp.cpp:779-817 | the same for the in-place halfword loops |
| SpuContext.Context.ByteLoop | spu_interp.cpp:683-690 | the same for the in-place byte loops |
| SpuContext.Context.MultiplyAddLoop | spu_interp.cpp:420-427 | the `mpya` loop adds RC to the signed product of the low halves, lane by lane |
| SpuContext.Context.SelectLoop | spu_interp.cpp:412-416 | the `selb` loop selects bit by bit in all sixteen bytes |
| SpuContext.Context.ShuffleLoop | spu_interp.cpp:291-304 | the `shufb` loop computes each byte from its control byte: one of three constants, or byte 0 to 31 of RA followed by RB |
| SpuContext.Context.ControlsLoop | spu_interp.cpp:307-312 | the two control loops give the identity controls with the element's bytes replaced by 0 to size - 1 |
| SpuContext.Context.FormMaskLoop | spu_interp.cpp:735-744 | the form-select loops turn bit n-1-i of the mask into all-ones or all-zeros lane i |
| SpuContext.Context.GatherLoop | spu_interp.cpp:723-734 | the gather loops collect the lowest bit of every lane, the leftmost lane highest |
| SpuContext.Context.SumBytesLoop | spu_interp.cpp:691-698 | `sumb` puts the byte sums of RB and RA in alternating halfwords |
| SpuContext.Context.EffectiveAddress | spu_interp.cpp:514-519 | the four addressing forms give a quadword address inside local store |
| SpuContext.Context.BranchTo | spu_interp.cpp:893-910 | a branch reads its target before it links, links only when taken, and otherwise changes nothing |
| SpuContext.Context.ReadChannelInto | spu_interp.cpp:240-272 | a channel read returns the channel's value, consumes mailbox and signal entries, and stops the SPU when there is none |
| SpuContext.Context.CopyIn | spu_interp.cpp:163-166 | the copy replaces exactly its range of local store |
| SpuContext.Context.GetInto | spu_interp.cpp:152-167 | a GET in place is the abstract transfer, or touches nothing when the copy has no defined result |
| SpuContext.Context.PutFrom | spu_interp.cpp:168-190 | a PUT in place is the abstract transfer, or touches nothing when the copy has no defined result |
| SpuContext.Context.ExecuteDma | spu_interp.cpp:142-194 | a DMA command in place is the abstract command |
| SpuContext.Context.WriteChannelFrom | spu_interp.cpp:199-238 | a channel write updates exactly the field its number names, or executes the DMA command |
| SpuContext.Context.CountChannelInto | spu_interp.cpp:274-284 | a channel count reads the entries available and changes no channel |
| SpuContext.Context.Execute | spu_interp.cpp:400-982 | executing an instruction in place is `Spu.Exec` of the old state |
| SpuContext.Context.PatchStreamDescriptor | spu_interp.cpp:361-380 | the stream-descriptor patch changes the four bytes, and the two registers when redirected, and nothing else |
| SpuContext.Context.StepOnce | spu_interp.cpp:358-398 | one step in place is `Spu.Step` of the old state |
| SpuContext.Context.RunFor | spu_interp.cpp:1032-1068 | the run loop computes `Spu.Run` of the old state and returns its count |
| SpuRuns.ExecFrame | spu_interp.cpp:400-910 | an instruction writes no register but RT, no local store unless it stores or commands a DMA, no program counter unless it branches or writes SRR0, and never restarts a stopped SPU |
| SpuRuns.StepAligned | spu_interp.cpp:358-383 | from an aligned program counter a step leaves one that is aligned and inside local store exactly when it does not write a stray address to SRR0 |
| SpuRuns.RunAligned | spu_interp.cpp:1032-1068 | every state of a run has such a program counter exactly when no step of the run writes a stray address to SRR0 |
| SpuRuns.StrayingStrays | spu_interp.cpp:232 | any state with a `wrch` of 2 to channel SRR0 at address 0 steps from an aligned program counter to 2 |
| SpuRuns.RunCounts | spu_interp.cpp:1032-1068 | a run returns the growth of the instruction counter, at most what it was allowed, and less only if the SPU stopped |
| SpuRuns.RunCompose | spu_interp.cpp:1032-1068 | a run of m + n instructions is a run of m followed by a run of n, in state and in count |
| SpuIdioms.RippleCarry | spu_interp.cpp:665-682 | word additions chained by carries are one 128-bit addition |
| SpuIdioms.AddQuadwordAdds | spu_interp.cpp:665-677 | `cg`, two rounds of `shlqbyi 4` and `cgx`, `shlqbyi 4` and `addx` leave A + B modulo 2^128, whatever RT held, and change nothing else |
| SpuIdioms.SubtractQuadwordSubtracts | spu_interp.cpp:667-682 | the `bg`, `bgx`, `sfx` chain with carry-in 1 in the lowest lane leaves B - A modulo 2^128 |
| SpuIdioms.ShiftLeftQuadword | spu_interp.cpp:819-833 | `shlqbybi` then `shlqbi` multiplies by 2^(count mod 256) modulo 2^128 and changes no other register |
| SpuIdioms.RotateQuadword | spu_interp.cpp:819-833 | `rotqbybi` then `rotqbi` rotates by count mod 128 and changes no other register |
| SpuIdioms.ShiftRightQuadword | spu_interp.cpp:819-833 | `rotqmbybi` by 7 - n then `rotqmbi` by -n divides by 2^(n mod 256) and changes no other register |
| SpuIdioms.ProductOfHalves | spu_interp.cpp:859-870 | the signed `mpyh` products and the unsigned `mpyu` product add up to a*b modulo 2^32 |
| SpuIdioms.MultiplyWordsMultiplies | spu_interp.cpp:859-870 | the five-instruction multiply leaves a*b modulo 2^32 in every lane and touches only its three targets |
| SpuLoads.ScalarLoadLoads | spu_interp.cpp:639-831 | `lqx`, `a`, `rotqby` bring the bytes from the address on to the front of the register |
| SpuLoads.ScalarLoadRuns | spu_interp.cpp:358-383 | the three instruction words, run, bring every aligned element of 1 to 16 bytes to the front of the register |
| SpuLoads.SubtractAddRestores | spu_interp.cpp:657-660 | `sf t,a,b` and `a t,t,a` leave RB in RT |
| SpuLoads.SubtractAddRuns | spu_interp.cpp:358-383 | the two instruction words, run, do so and change nothing else |
| SpuLoads.SequencesLoad | spu_interp.cpp:36-40 | both sequences can be loaded wherever there is room |
| SpuLoops.CountdownRuns | spu_interp.cpp:1032-1068 | the loop `ai r,r,-1; brnz r,-4`, started with n > 0 in every word, runs 2n instructions, leaves r zero and falls through, with nothing else changed |
| SpuLoops.CountdownStays | spu_interp.cpp:1032-1068 | until then it stays in its two instructions |
| SpuInsert.ControlsInsert | spu_interp.cpp:291-312 | `shufb` under generated controls replaces exactly the addressed element by the leading bytes of RA |
| SpuInsert.InsertsScalarIff | spu_interp.cpp:307-312 | that is the insertion of the preferred-slot scalar exactly when the leading bytes equal the preferred slot, which for sizes 4 and 8 is always |
| SpuInsert.ByteScalarMissed | spu_interp.cpp:307-312 | a byte held in its preferred slot, byte 3, is not what gets inserted |
| SpuInsert.StoreElementAtStores | spu_interp.cpp:514-654 | in any addressing form that does not depend on the program counter: load, generate controls, `shufb`, store replaces exactly `size` bytes of local store and no register but the two scratch ones; they are the element at the controls' address exactly when load and store use its quadword |
| SpuInsert.StoreElementStores | spu_interp.cpp:639-654 | with `lqx`, `c?x` and `stqx` it is always the size-aligned element at the address |
| SpuInsert.StoreElementDisplacedStores | spu_interp.cpp:514-650 | with `lqd`, `c?d` and `stqd` it is the element at the control displacement exactly when the base's place in its quadword plus that displacement rounds down to the other one |
| SpuInsert.GatherOfMask | spu_interp.cpp:723-744 | gathering a form-select mask gives back the low bits it was formed from |
| SpuDecode.DecodeAssemble | spu_interp.cpp:394-910 | decoding an assembled instruction gives that instruction: no opcode is shadowed by a shorter format or an earlier case, and every field comes back |
| SpuDecode.DecodedAssembles | spu_interp.cpp:394-982 | every word decodes to an instruction the assembler has, so none is left out; of floating point the instruction keeps the word |
| SpuPrograms.CodeLoads | spu_interp.cpp:36-40 | the words of any assembled code, written to local store, read back as that code |
| SpuPrograms.IdiomsLoad | spu_interp.cpp:36-40 | the arithmetic idioms can be loaded at any aligned address that has room, whatever registers they use |
| SpuPrograms.StoreElementLoads | spu_interp.cpp:36-40 | so can the store of an element, with any address and displacement that the instructions can hold |
| SpuPrograms.RunStraight | spu_interp.cpp:1032-1068 | running straight-line code loaded in local store executes its instructions one after the other, as long as its stores spare the instructions still to come |
| SpuPrograms.AddQuadwordRuns | spu_interp.cpp:358-383 | seven instruction words in local store, run, add two registers as 128-bit integers |
| SpuPrograms.SubtractQuadwordRuns | spu_interp.cpp:358-383 | ten instruction words, run, subtract them |
| SpuPrograms.ShiftLeftQuadwordRuns | spu_interp.cpp:358-383 | two instruction words, run, shift a register left by its count modulo 256 |
| SpuPrograms.RotateQuadwordRuns | spu_interp.cpp:358-383 | two instruction words, run, rotate a register by its count modulo 128 |
| SpuPrograms.ShiftRightQuadwordRuns | spu_interp.cpp:358-383 | two instruction words, run, shift a register right by its count modulo 256 |
| SpuPrograms.MultiplyWordsRuns | spu_interp.cpp:358-383 | five instruction words, run, multiply all four lanes |
| SpuPrograms.StoreElementAtRuns | spu_interp.cpp:358-383 | four instruction words, run, store one element, in any addressing form that does not depend on the program counter, and change no register but the two scratch registers |
| SpuPrograms.StoreElementRuns | spu_interp.cpp:358-383 | in the indexed forms, the addressed element |
| SpuPrograms.StoreElementDisplacedRuns | spu_interp.cpp:358-383 | in the displacement forms, the addressed element exactly when the two displacements match |
| EventQueue.PushAppends | runtime_glue.cpp:1663-1667 | storing at the tail appends to the queued events and keeps tail = head + count modulo 128 |
| EventQueue.PopRemoves | runtime_glue.cpp:1593-1596 | reading at the head gives the oldest event and removes exactly it |
| EventQueue.Queue.Store | runtime_glue.cpp:1662-1671 | the locked part of a send accepts unless 128 events are queued, and only then releases a token |
| EventQueue.Queue.TakeToken | runtime_glue.cpp:1589-1590 | a wait succeeds exactly when a token is left, and takes one |
| EventQueue.Queue.Remove | runtime_glue.cpp:1592-1597 | the locked part of a receive |
| EventQueue.Queue.Send | runtime_glue.cpp:1654-1674 | an undisturbed send appends unless the queue is full |
| EventQueue.Queue.TryReceive | runtime_glue.cpp:1608-1627 | an undisturbed try-receive hands over the oldest event exactly when there is one |
| EventProtocol.NextKeepsInv | runtime_glue.cpp:1553-1674 | every step of every thread keeps: count = tokens + holders + pending release, ring indices agree, and accepted events are delivered ones followed by queued ones |
| EventProtocol.PopDeliversNext | runtime_glue.cpp:1590-1597 | no receiver holding a token finds the ring empty; it is handed the oldest undelivered event |
| EventProtocol.ReleaseSucceeds | runtime_glue.cpp:1559-1561 | the semaphore never reaches its limit, so no token is lost |
| EventProtocol.SendRefusedWhenFull | runtime_glue.cpp:1663-1670 | an event is dropped exactly when 128 accepted ones are undelivered |
| EventProtocol.Progress | runtime_glue.cpp:1580-1627 | while an event is undelivered, at most four steps of the threads inside and one idle receiver, and no new send, deliver the oldest one and nothing else |
| EventProtocol.SendProgress | runtime_glue.cpp:1654-1674 | a thread in no call can send: at most two steps of whoever is inside let it in, and the event is accepted unless 128 are undelivered |
| EventProtocol.StoreIsSend | runtime_glue.cpp:1662-1671 | the queue object's locked send is the protocol's two send steps |
| EventProtocol.TokenIsTake | runtime_glue.cpp:1589-1590 | its wait succeeds exactly when the protocol's step is enabled, and is that step |
| EventProtocol.RemoveIsPop | runtime_glue.cpp:1592-1597 | its locked receive is the protocol's pop |
| EventProtocol.RunsKeepInv | runtime_glue.cpp:1553-1674 | the invariant at every moment of every run, for any number of threads |
| EventProtocol.RunsDeliverInOrder | runtime_glue.cpp:1553-1674 | over every run, delivered events are a prefix of accepted ones and histories only grow |
| EventProtocol.QuietTokens | runtime_glue.cpp:1553-1674 | with no thread inside a call, the semaphore counts exactly the undelivered events |
| Kernel.FirstFree | runtime_glue.cpp:257-269 | the scan stops at the first free slot going round from the cursor |
| Kernel.GrantIsNearest | runtime_glue.cpp:257-272 | allocation returns 0 exactly when all 511 slots are in use, and otherwise grants the free identifier nearest to the cursor, never a live one |
| Kernel.SweepExamines | runtime_glue.cpp:257-272 | until an identifier is granted, every slot between the cursor and it is examined |
| Kernel.ExaminedMeans | runtime_glue.cpp:257-272 | an examined slot was granted or was in use |
| Kernel.GrantedAgainAfterAll | runtime_glue.cpp:257-272 | between two grants of one identifier every other identifier was granted or found in use |
| Kernel.SendTouchesRoute | runtime_glue.cpp:1654-1674 | a send appends one event with the port's name to at most the one live queue the port's stored id names, and changes nothing else; with no such queue it changes nothing |
| Kernel.NewPortIsSilent | runtime_glue.cpp:1629-1652 | a new port sends nowhere until it is connected, through any calls, even on a recycled slot |
| Kernel.QueueConserves | runtime_glue.cpp:1553-1674 | over any calls a live queue neither loses, duplicates nor reorders: what was queued and then entered is what left and then is queued |
| KernelCalls.DestroyFrees | runtime_glue.cpp:281-286 | destroying frees exactly the slot named, if it is one of 1 to 511 |
| KernelCalls.CreateFills | runtime_glue.cpp:257-272 | a creation puts its object into the next free slot going up from the cursor and round, and moves the cursor past it |
| KernelCalls.CreateFails | runtime_glue.cpp:269-272 | with all 511 slots in use it returns 0 and changes nothing |
| KernelCalls.ReceiveTakesOldest | runtime_glue.cpp:1608-1627 | a receive takes exactly the oldest event of a live queue, and otherwise changes nothing |
| KernelCalls.ConnectedSends | runtime_glue.cpp:1645-1674 | once connected to a queue with room, a port sends there under its name, and no other slot changes |
| KernelCalls.ConnectedForLong | runtime_glue.cpp:1645-1674 | after any calls that neither destroy port or queue nor reconnect the port, every send enters the queue unless it holds 128 events |
| KernelCalls.SendFollowsConnect | runtime_glue.cpp:1645-1674 | a send enters a queue only if the last Connect of its port, or its first connection, named that queue, through any reuse of identifiers |
| KernelOrder.PickedAreSent | runtime_glue.cpp:1654-1674 | the events in a queue that a port sent are exactly those its accepted sends put there, in order |
| KernelOrder.PortOrder | runtime_glue.cpp:1580-1674 | for any ports, names and reuse of identifiers: what is received is first what was queued before, and then, of each port's events, the first ones sent, in the order of the sends |
| KernelOrder.NamedAreSent | runtime_glue.cpp:1654-1674 | while a name is one port's alone, events of that name are exactly those the port sent |
| KernelOrder.PortOrderByName | runtime_glue.cpp:1580-1674 | the same order for a receiver that tells ports by name, if in the initial table and the calls the name is one port's alone |
| KernelContext.Pool.Scan | runtime_glue.cpp:259-262 | the scan loop finds the first round that meets a free slot |
| KernelContext.Pool.PoolAlloc | runtime_glue.cpp:257-272 | the granted slot is cleared and given its kind, the cursor moves past it, and no other slot changes |
| KernelContext.Pool.CreateObject | runtime_glue.cpp:1629-1641 | creation in place is the abstract allocation; a port starts unconnected with its name |
| KernelContext.Pool.CreateQueue | runtime_glue.cpp:1553-1566 | queue creation in place is the abstract allocation of an empty queue |
| KernelContext.Pool.DestroyAny | runtime_glue.cpp:1568-1579 | destruction in place frees exactly the named slot |
| KernelContext.Pool.ConnectPort | runtime_glue.cpp:1645-1652 | connecting stores the queue's id in a live port and changes nothing otherwise |
| KernelContext.Pool.SendOn | runtime_glue.cpp:1654-1674 | the send in place is the abstract send |
| KernelContext.Pool.ReceiveFrom | runtime_glue.cpp:1608-1627 | the receive in place is the abstract receive, with the event it hands over |
| DrawFetch.FetchVertices | runtime_glue.cpp:885-890 | the triangle loop ends for every count, and what it fetches is `Fetched`, its unsigned counter included |
| DrawFetch.FetchTriangle | runtime_glue.cpp:887-890 | the inner loop fetches the triangle's three vertices, sixteen bytes apart |
| DrawFetch.FetchedIs | runtime_glue.cpp:885-890 | the vertices fetched are those of the whole triangles, in order, for every count but 2^32 - 1, for which the counter wraps and more vertices are fetched than the draw has |
| DrawFetch.FetchesTrianglesIff | runtime_glue.cpp:885-890 | the vertices fetched for a batch's draw are those of the whole triangles its chunks name, in order, if and only if these are consecutive and their number is not 2^32 - 1 |
| DrawFetch.FetchesBatchIff | runtime_glue.cpp:885-890 | they are all the vertices its chunks name, in order, if and only if the chunks are contiguous, their total is a multiple of three, and it is not 2^32 - 1 |
| DrawFetch.DrawNamesVerticesIff | runtime_glue.cpp:513-538 | the accumulated start and total are the range of the vertices the chunks name, in order, if and only if the chunks are contiguous |
| DrawFetch.ContiguousFetch | runtime_glue.cpp:513-890 | for contiguous chunks of whole triangles: one address per vertex, sixteen bytes apart, from the batch's first vertex in the attribute's array on |
| DrawFetch.ScatteredTriangles | runtime_glue.cpp:530-535 | for chunks of vertices 0 to 2 and 100 to 102 the rasterizer does not fetch the two triangles they name |
| DrawFetch.FourthVertexDropped | runtime_glue.cpp:885 | for one chunk of four vertices it does not fetch all that the chunk names |
| DrawFetch.StrayVertexHarmless | runtime_glue.cpp:885 | for chunks of vertices 0 to 2 and 100, not contiguous, it fetches the one whole triangle |
| Draw.ChunksAccumulate | runtime_glue.cpp:530-536 | after the chunks the accumulator holds their first start and their total |
| Draw.BatchDraws | runtime_glue.cpp:501-536 | a batch gives one draw with its first vertex's address and its total when it has three vertices and attribute 0 has an offset, none otherwise, and clears the accumulator |
| RsxReference.HandleMeans | runtime_glue.cpp:470-577 | by register address: which field a write sets, how a clear orders its colour, and what the end of a batch draws |
| RsxReference.MoveMeans | runtime_glue.cpp:607-636 | by the bits of a header: where the loop goes next, and which registers get which words |
| RsxReference.ReadMeans | runtime_glue.cpp:465-468 | command words are read most significant byte first |
| Fifo.HeaderIsMasked | runtime_glue.cpp:610-626 | register, count, jump and non-increment bits are the masks of the code |
| Fifo.ProgramIs | runtime_glue.cpp:607-636 | the writes of a run that ends do not depend on how many rounds one looks at |
| Fifo.RevisitNeverEnds | runtime_glue.cpp:607-622 | a run that visits a read position twice never ends |
| Fifo.EndsWithinPositions | runtime_glue.cpp:607-636 | a run that visits none twice ends within the number of buffer positions |
| Fifo.HaltsIffNoRevisit | runtime_glue.cpp:607-636 | the command loop ends exactly when no read position is visited twice |
| FifoStream.ParseItem | runtime_glue.cpp:610-635 | one encoded NOP or command is read in one round, which dispatches exactly its register writes |
| FifoStream.StreamRoundTrip | runtime_glue.cpp:594-638 | an encoded list of NOPs and commands with PUT at its end is dispatched exactly, in order, and the loop ends |
| FifoStream.FlushStream | runtime_glue.cpp:594-638 | flushing a stream applies its writes to the registers and sets GET to PUT |
| FifoStream.FlushingInPieces | runtime_glue.cpp:594-638 | flushing at any ascending series of command boundaries gives the same GET, registers and draws as one flush at the last |
| FifoDraws.BatchesDraw | runtime_glue.cpp:501-538 | the register writes of any list of batches give one draw each, in order |
| FifoDraws.HandleAllMasked | runtime_glue.cpp:471 | the handler looks at the low 16 bits of a register number only |
| FifoDraws.EveryWriteEncodes | runtime_glue.cpp:624-635 | every list of register writes has a command stream |
| FifoDraws.FlushedBatchesDraw | runtime_glue.cpp:501-638 | any stream of commands and NOPs that writes a list of batches, flushed, gives exactly one draw per batch, in order; for each draw the rasterizer fetches exactly the vertices its chunks name, or those of their whole triangles, under the exact conditions of `FetchesBatchIff` and `FetchesTrianglesIff` |
| RsxContext.Rsx.HandleWrite | runtime_glue.cpp:470-577 | the handler in place is the abstract register write |
| RsxContext.Rsx.DispatchCommand | runtime_glue.cpp:630-634 | the argument loop applies the command's writes in order |
| RsxContext.Rsx.Round | runtime_glue.cpp:607-636 | one round of the loop moves and dispatches as the parser says |
| RsxContext.Rsx.ProcessFifo | runtime_glue.cpp:594-638 | the command loop in place is the abstract flush, on every input on which it ends |
| Morton.MortonSpreadSpreads | runtime_glue.cpp:667-673 | the four mask-and-shift stages move bit i to bit 2i, for every 16-bit argument |
| Morton.BitSpread | runtime_glue.cpp:664-673 | the recursive spread has bit k exactly when k is even and bit k/2 was set |
| Morton.Morton2dInterleaves | runtime_glue.cpp:674-676 | the pixel index has the column in its even and the row in its odd bits |
| Morton.InsideIffSquareOrDouble | runtime_glue.cpp:674-676 | for power-of-two sides all pixel indices lie inside the texture exactly when it is square or twice as wide as high |
| Morton.SwizzleBijective | runtime_glue.cpp:674-676 | in those sizes every source pixel is the index of exactly one pixel of the grid |
| Morton.EachSourcePixelOnce | runtime_glue.cpp:753-756 | the copy loop then reads every source pixel for exactly one result pixel |
| Morton.LastPixelOutside | runtime_glue.cpp:674-676 | in any other size the index of the last pixel lies outside the texture |
| Morton.TallTextureOverruns | runtime_glue.cpp:674-676 | the index of pixel (63, 127) of a 64 by 128 texture is at least 64 * 128 |
| Morton.Deswizzle | runtime_glue.cpp:727-763 | for every size and format the loader accepts, the copy loops stay inside the source exactly when the texture is linear, square or twice as wide as high, and then leave every result pixel showing its source pixel |
| Morton.LinearInOrder | runtime_glue.cpp:733-754 | a linear texture is copied pixel for pixel |
| Morton.SwizzledByBits | runtime_glue.cpp:733-754 | a swizzled one from the pixel whose index has the column in its even and the row in its odd bits |
| Morton.CopiedKeepsWord | runtime_glue.cpp:756-759 | an ARGB word becomes the same word in the other byte order |
| Morton.PureColors | runtime_glue.cpp:739-745 | pure red, green, blue and white of the 565 format become those of the result |
| Morton.Widened | runtime_glue.cpp:739-745 | widening a 565 pixel is opaque, repeats the high bits and loses nothing of the three fields |
| Blend.CBlendMixes | runtime_glue.cpp:819-821 | the wrapped unsigned blend is d + floor((s - d) * a / 256), plus 2^24 when the difference wrapped |
| Blend.MixBetween | runtime_glue.cpp:819-821 | the blended channel lies between source and destination |
| Blend.CPackPacks | runtime_glue.cpp:822 | packing drops the wrapped carries and keeps the channels apart |
| Blend.COverIsOver | runtime_glue.cpp:812-823 | one pixel: alpha 0 keeps it, alpha 255 replaces it, anything else gives opaque alpha and blended channels without spill |
| Blend.SourceInside | runtime_glue.cpp:802-811 | the scaled source pixel lies inside the source for every covered position |
| Blend.OverMeans | runtime_glue.cpp:812-823 | the drawn word by its alpha: as before, replaced and opaque, or opaque with each channel moved by a / 256 of the way, rounding down |
| Blend.BlitOverlay | runtime_glue.cpp:798-826 | for every placement and size: a covered pixel on the screen is drawn over with the source pixel whose row and column, scaled to the drawn size, round down to it; every other pixel is unchanged |
| Blend.BlitUnscaled | runtime_glue.cpp:798-826 | drawn at its own size, pixel (i, j) of the source is drawn over pixel (ox + i, oy + j) |
| Blend.NearestExists | runtime_glue.cpp:802-811 | every covered place has such a source pixel, inside the source |
| Rotate.RotlMovesBits | extra_funcs.cpp:49-52 | rotating left by n moves every bit n places up modulo 64, for any n |
| Rotate.RotationsAdd | extra_funcs.cpp:49-52 | two rotations are one by the sum, and rotating back undoes a rotation |
| Rotate.MaskIsRange | extra_funcs.cpp:53-62 | the mask has exactly the IBM-numbered bits mb to me, wrapping when mb > me |
| Rotate.RldiclBits | extra_funcs.cpp:63-65 | `rldicl` rotates and clears the mb most significant bits |
| Rotate.RldicrBits | extra_funcs.cpp:66-68 | `rldicr` rotates and clears the bits below me |
| Rotate.RldiclShiftsRight | extra_funcs.cpp:63-65 | `rldicl(x, 64 - n, n)` is floor(x / 2^n) |
| Rotate.RldicrShiftsLeft | extra_funcs.cpp:66-68 | `rldicr(x, n, 63 - n)` is x * 2^n modulo 2^64 |
| Rotate.RldiclKeepsLow | extra_funcs.cpp:63-65 | `rldicl(x, 0, n)` is x modulo 2^(64 - n) |
| VectorLoad.PairLoadsUnaligned | _apply_lvlx.py:28-38 | for every address p whose first and last byte lie in readable blocks, `lvlx(p)` OR `lvrx(p + 16)` is the 16 bytes from p on, modulo 2^32 |
| VectorLoad.EachReadsOneBlock | _apply_lvlx.py:28-38 | with nothing readable but the block of the first byte `lvlx` gives the same, and with nothing but that of the last byte so does `lvrx`; aligned, `lvrx` needs nothing |
| VectorLoad.Ppu.EaMeans | _apply_lvlx.py:22-26 | the address is the sum of the two 64-bit registers modulo 2^32, where rA is left out if its number is 0 |
| VectorLoad.Ppu.CopyLeft | _apply_lvlx.py:28-32 | the copy loop reads inside the one block it may read, left-justifies the bytes from the address to the end of that block and zeroes the rest |
| VectorLoad.Ppu.CopyRight | _apply_lvlx.py:34-38 | the copy loop reads inside the one block it may read, and nothing when aligned, right-justifies the bytes from the block's start to the address and zeroes the rest |
| VectorLoad.Ppu.Lvlx | _apply_lvlx.py:28-32 | `lvlx` leaves the left part of rA + rB modulo 2^32 in vD and no other vector register changed |
| VectorLoad.Ppu.Lvrx | _apply_lvlx.py:34-38 | `lvrx` leaves the right part of it likewise |

## Left out

- SpuContext.Context.Execute: floating-point instructions are host arithmetic, a parameter of the model (`Host.fp`).
- SpuContext.Context.WriteChannelFrom: a DMA command whose copy runs past local store or overlaps itself is a parameter of the model (`Host.dma`), because C gives it no result; every other DMA command is modelled.
- Logging, instruction traces and the trace counters.
- Loading SPU programs, and the SPURS support code: input and game-specific probes.
- SpuPrograms.RunStraight: excludes code of SPU 2 that includes address 0x35FC, where a game-specific patch of registers and local store precedes the instruction; `Spu.Step` models that patch.
- KernelOrder.PortOrder: speaks of one life of a queue, because destroying it discards its events.
- SpuInsert.StoreElementAtStores: assumes scratch registers distinct from the operands, as a compiler chooses them. PC-relative loads and stores are excluded, since the same offset means another address two instructions on.
- DrawFetch.FetchesBatchIff: speaks of batches with fewer than 2^32 vertices; above that the 32-bit total wraps. The primitive type plays no part in the code or the model, and the rasterizer's test for a missing frame buffer is not modelled.
- SpuMasks.FieldsAreMasked: the 8-bit scale of the floating-point conversions stays in the word handed to the host.
- Gather and byte-sum inner loops, `orx` and `xswd`: computed as values, not as nested loops over the register.
- Waiting with a time limit: a step that takes no token; time itself is not modelled.
- KernelContext: calls are atomic there; the interleavings of sends and receives are those of `EventProtocol`. The union in a pool slot is modelled as separate fields.
- Destroying a queue while a receiver is inside it, and destroying by an id of another kind: such calls free the slot under a user, with no defined result.
- Semaphores, mutexes, condition variables and lightweight locks beyond their pool slots: thin wrappers of host primitives.
- RsxContext.Rsx.ProcessFifo: requires that the command loop ends; `HaltsIffNoRevisit` is the exact condition.
- FifoStream.FlushingInPieces: claimed at command boundaries only; a PUT inside a command makes the loop read arguments past it.
- Clearing the frame buffer, and what the rasterizer draws of the vertices it fetches (floating point): a draw is an output event of the model.
- Morton.Deswizzle: a read outside the source, which C leaves undefined, ends the model's copy. Both pixel formats share one loop nest. Header scanning and file reading are not modelled.
- Blend.BlitOverlay: coordinates are unbounded integers, so overflow of the host's `int` is not modelled.
- Rotate.Rotl64: a shift by the full width has no value in C; rotation by 0 is taken to do nothing. The 32-bit rotate is not part of the model.
- Lifted PowerPC functions, window code and the other patch scripts: generated, host I/O, or text rewriting.
