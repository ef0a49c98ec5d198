# Verification models of the HALCS register engine and its tools

HALCS (Hardware Abstraction Layer for Control Systems) drives FPGA boards of a particle
accelerator. This project models its hardest logic in Dafny and proves what callers rely on.

- **The register-access engine** (`Bits`, `Wbgen`, `Fields`, `Registers`, `RwParam`, `ClientView`,
  `Channels`, `ChannelStore`, `Interleaving`). Every parameter of every device is a bit field of a
  32-bit register that is read, modified and written back in two separate bus messages, each of
  which may fall short. The macros of `include/rw_param.h` are the methods of class
  `RwParam.Device`, proved against functions on the register contents and the bus log. On top of
  these: an arbitrary layout of disjoint fields behaves as independent variables; a whole run of
  commands refines a simple store under any bus behaviour; a run of channel commands refines a store
  with one cell per channel and field; and an interleaving of actors is serialisable, in the
  registers and in every answer, when the actors keep out of each other's registers, also when
  transfers fall short.
- **Acquisitions** (`AcqBlocks`, `AcqCurve`, `AcqRequest`): the driver's reader of one block of an
  acquisition from the circular memory of its channel, the client's loop that puts the blocks
  together, which requests the driver accepts and whether they can be read back, and the client's
  call that asks for an acquisition and its curve at once.
- **The trigger utility** (`TriggerLoop`, `TriggerBoard`): its channel range and the loop that programs
  the channels, run against the engine, and its options on the registers of a real board.
- **The changelog script** (`Text`, `Changelog`, `ChangelogSafety`, `ChangelogBlocks`, `GitLog`): the
  line-by-line machine with six flags, from the text of a git log to the file it writes.
- **The Si57x encodings** (`Si57x`): HS_DIV, N1 and RFREQ in the chip's six bytes and in the timing
  core's three words, and the driver's reading and writing of them.
- **Arithmetic of the tools** (`DivRound`, `Dump`, `Fofb`): rounding division, the acquisition dump
  loops, and the FOFB packet decomposition.

Words are natural numbers below 2^32 and every C operator on them is defined explicitly in `Bits`,
with truncation where C truncates. Two words are equal when their bits are; that is how the facts
about masks and shifts are proved.

`dafny verify dfyconfig.toml` checks the whole project.

## Where the code does not do what it says

Each of these is stated with the exact condition under which the code does meet the promise.

- A SET whose read falls short reports RW_WRITE_EAGAIN but still writes the register, with whatever
  the read left in the variable, and can destroy the neighbouring fields (`ShortReadStillWrites`,
  `NeighboursSafeIff`, `ShortReadLosesNeighbour`).
- Two actors that set disjoint fields of one register can lose an update (`LostUpdate`, `LostBit`).
- With a channel count of 0 the range check lets every channel through (`RangeCheckExact`); with an
  offset that does not fit `uint32_t` two channels share a register (`DistinctRegistersExact`).
- The device's base is or-ed to the address of a register, which keeps registers apart for an aligned
  base only (`BaseKeepsApartExact`, `UnalignedBaseMerges`).
- The trigger utility accepts the range `[5:4]` as empty although it asks for an ascending one, and
  does not visit a range that ends at 2^32-1 (`RangePromiseExact`, `DescendingByOneIsAccepted`).
- The reader of acquisition blocks reads beyond the end of a channel's memory, or jumps to before its
  start, when that end splits a shot of several or the padding between two (`GetBlock` with
  `ReadsRight`, `SplitShotIsWrong`); and its reply for a block of several shots that does not end with
  a shot is longer than the block (`ReplyFitsExact`, `ReplyIsTooLong`).
- The acquisition client asks for one block too many when the last one is full, and then reports that
  the whole curve failed (`AskedExact`, `OwnCurveExact`, `FullBlockIsRefused`); and the curve of several
  shots that it puts together is right only if nothing that it copies is split and a reply that is
  too long fills the buffer (`GetCurve` with `CurveRight`).
- The driver accepts requests of which the samples are overwritten before they can be read, because
  what is taken, without the padding in front, does not fit the memory of the channel, and requests
  without any sample (`AcceptedKeptExact`, `AcceptedIsOverwritten`); and numbers of shots that do not
  fit the register (`ShotsWritten`, `NoShotsWritten`).
- The client drops the answer to its request, and a refused one can return the curve of the
  acquisition before (`AcquireAndGet`, `RefusedReturnsPrevious`).
- The dump shows all of what it spans only for atoms of 2, 4 or 8 bytes (`RowsShownExact`, `ThreeByteAtom`).
- The last commit of a log gets no changelog entry when no further line follows its "files changed"
  line (`EveryLoggedCommitHasEntryIff`, `LastCommitIsLost`).
- The options of the acquisition client let requests through for which the size of the buffer wraps
  around `uint32_t` (`RoomPerSampleExact`, `AcceptedButEmpty`).
- Unsigned rounding division is wrong when x + d/2 wraps around (`UnsignedExact`, `LargestHalved`).
- `WBGEN2_SIGN_EXTEND` needs its argument to have no bit above the sign bit when that is clear
  (`SignExtendExact`, `StrayBitKept`), and the FOFB conversion is wrong for numbers that are already
  unsigned (`ToUint32Exact`, `SmallestTooLarge`).
- The Si57x header names the two halves of register 9 the wrong way round (`NibbleNamesAreSwapped`,
  `NibbleOfBit24`), and the driver's read-back of an even raw N1 above 0 is written back as one less
  (`WriteBackExact`, `WriteBackOfTwo`).
- SW_TAG is not determined by its fields (`RebuildExact`, `SwTagLosesHoles`).

## Model

| member | source | states |
|---|---|---|
| `Wbgen.BitOfMask` | include/hw/wb_acq_core_regs.h:29 | the mask macro selects exactly the bits of the field |
| `Wbgen.ReadIsDivMod` | include/hw/wb_acq_core_regs.h:31 | the read macro extracts (reg / 2^offset) mod 2^size |
| `Wbgen.WriteIsModMul` | include/hw/wb_acq_core_regs.h:30 | the write macro places value mod 2^size at the offset |
| `Wbgen.WidthsAgree` | include/hw/wb_pos_calc_regs.h:40-41 | the 64-bit mask and write macros agree with the 32-bit ones on every field of a 32-bit register, also complemented and stored back; the read macro is one function here, `Read`, because its value does not depend on the width |
| `Wbgen.SignExtendExact` | include/hw/wb_acq_core_regs.h:32 | sign extension yields the two's complement extension of the field if and only if the sign bit is set or no bit lies above it |
| `Wbgen.StrayBitKept` | include/hw/wb_acq_core_regs.h:32 | an input with a stray bit that is not extended correctly |
| `Wbgen.SignExtendKeepsNumber` | include/hw/wb_pos_calc_regs.h:43 | on a field of bits+1 bits it keeps the signed number, for any width |
| `Fields.BitOfSetWord` | include/rw_param.h:147-162 | after a SET the bits of the field are those of the normalised value and all other bits are unchanged, single-bit or multi-bit, 32-bit or 64-bit macros |
| `Fields.GetOfSet` | include/rw_param.h:102-109 | reading back what was set gives the value mod 2^size, or 0/1 for a single bit |
| `Fields.GetOfOther` | include/rw_param.h:147-162 | setting a field leaves every disjoint field unchanged |
| `Fields.ClearIsSetZero` | include/rw_param.h:156-161 | CLR_FIELD on a multi-bit field is a SET of 0 |
| `Fields.DecodeIsDivMod` | include/rw_param.h:102-109 | GET gives the field's digits of the word, for both variants |
| `Fields.StaleReadHarmless` | include/rw_param.h:137-162 | a write computed from another word lands correctly if and only if the two words agree outside the field |
| `Fields.EveryFieldReadsBack` | include/hw/wb_acq_core_regs.h:29-31 | after writing any list of disjoint fields each one reads back its own value |
| `Fields.WriteOrderIrrelevant` | include/hw/wb_acq_core_regs.h:29-31 | the order of such writes does not matter |
| `Fields.RebuildExact` | include/hw/wb_acq_core_regs.h:29-31 | decode then encode gives the word back if and only if the word written over agrees with it wherever no field lies |
| `Fields.DecodeThenEncode` | include/hw/wb_acq_core_regs.h:29-31 | for fields that tile the word, decode then encode is the identity |
| `Registers.LayoutsRoundTrip` | include/hw/wb_acq_core_regs.h:41-213 | the layouts of CTL, STA, TRIG_CFG, SHOTS, ACQ_CHAN_CTL and of the position calculation's TBT_TAG and MONIT_AMP tile the word, so decode then encode is the identity on them |
| `Registers.SwTagLosesHoles` | include/hw/wb_pos_calc_regs.h:574-586 | SW_TAG has disjoint fields but is not determined by them |
| `RwParam.Device.GetParam` | include/rw_param.h:82-117 | GET_PARAM_GEN equals the specification Get and changes no register |
| `RwParam.Device.SetParam` | include/rw_param.h:125-185 | SET_PARAM_GEN equals the specification Set; a value is refused if and only if both limits are given and it fails them, or it fails the check, and then without bus traffic; other addresses are unchanged, and on RW_OK the field holds the value |
| `RwParam.Device.SetGetParam` | include/rw_param.h:198-229 | SET_GET_PARAM_GEN equals the specification Execute; the reply is written only when the result is positive |
| `RwParam.Device.SetGetParamChannel` | include/rw_param.h:243-282 | the same for the channel variant |
| `RwParam.SetSucceeds` | include/rw_param.h:134-184 | SET is RW_OK if and only if the checks pass and both transfers are four bytes; then the field has the value and every disjoint field and every other register is unchanged |
| `RwParam.SetWithinLimits` | src/sm_io/rw_param/rw_param.c:33-38 | with complete transfers a SET is done if and only if min <= value <= max, when both are given, and the check passes; the field then holds 0, whether the value is not 0, or the value mod 2^size |
| `RwParam.DirectionIsSet` | src/sm_io/modules/trigger_iface/sm_io_trigger_iface_exp.c:48-55 | the direction bit takes 0 and 1 and refuses every other value |
| `RwParam.AnswersInNumbers` | include/rw_param_codes.h:15-20 | the number that goes back to a client for every outcome of a command |
| `RwParam.GetFormats` | include/rw_param.h:102-116 | a successful GET replies with the content of the field, or with the format function of it when there is one |
| `RwParam.AdcDataIsSigned` | src/sm_io/modules/fmc130m_4ch/sm_io_fmc130m_4ch_exp.c:112-131 | a GET of an ADC data register gives its 16 bits as a signed number |
| `RwParam.CommandDiscipline` | include/rw_param.h:95-228 | each result code occurs exactly under its condition, the exact bus traffic of each, no outcome touches another address, and only a successful GET fills the reply |
| `RwParam.ShortReadStillWrites` | include/rw_param.h:137-164 | after a short read the field is written all the same, and the rest of the register survives if and only if the leftover word agrees with it |
| `RwParam.NeighboursSafeIff` | include/rw_param.h:137-164 | a neighbouring field is safe under every bus behaviour if and only if the read is complete |
| `RwParam.ShortReadLosesNeighbour` | include/rw_param.h:137-164 | a concrete short read that destroys the neighbouring bit |
| `ClientView.ViewSound` | include/rw_param.h:82-229 | over any run, any layout and any bus behaviour, what a client infers from return values alone is what the registers hold |
| `ClientView.GetReturnsView` | include/rw_param.h:211-221 | every successful GET of a field the client knows returns what it knows |
| `ClientView.GetReturnsLastSet` | include/rw_param.h:82-229 | a successful GET returns the last accepted SET of that field, or its initial content, if no SET of the register was cut short before |
| `ClientView.CompleteTransfers` | include/rw_param.h:134-184 | with complete transfers a GET succeeds and a SET succeeds if and only if its value is accepted |
| `Channels.ChannelCommandDiscipline` | include/rw_param.h:259-281 | -RW_INV if and only if the channel is out of range, then without bus traffic; otherwise exactly the command on that channel |
| `Channels.RangeCheckExact` | include/rw_param.h:259-261 | the range check is right if and only if there is at least one channel |
| `Channels.Channel24IsRefused` | include/rw_param.h:259-261 | channel 24 of 24 is refused with -3 |
| `Channels.AddressExact` | include/rw_param.h:263-264 | a register of a channel lies chan strides and its offset above the base, when nothing wraps around |
| `Channels.WrappedChannel` | include/rw_param.h:263-264 | when the last offset does not fit uint32_t some channel lands inside channel 0 |
| `Channels.DistinctRegistersExact` | include/rw_param.h:276-277 | base + chan*stride + reg is injective in channel and register if and only if (channels-1)*stride < 2^32 |
| `Channels.AlignedBaseAdds` | src/sm_io/sm_io.c:1031-1034 | or-ing a register to an aligned base is adding it |
| `Channels.BaseKeepsApartExact` | src/sm_io/sm_io.c:1031-1034 | or-ed to a base, the 2^bits registers of a device have different bus addresses if and only if the base is a multiple of 2^bits |
| `Channels.UnalignedBaseMerges` | src/sm_io/sm_io.c:1031-1034 | a base that is not aligned merges two registers |
| `Channels.OtherChannelsUntouched` | include/hw/wb_trigger_iface_regs.h:1041-1184 | a command on one channel changes no register of another one |
| `ChannelStore.StoreRefined` | include/rw_param.h:243-282 | with complete transfers, after any run of channel commands each (channel, field) holds its last accepted value or its initial content |
| `ChannelStore.AnswersRefined` | include/rw_param.h:259-281 | every command of the run returns what that simple store answers |
| `Interleaving.SerialIsEngine` | include/rw_param.h:137-164 | the serial reference is what the engine does with the same commands and transfers in order of completion |
| `Interleaving.SerialExactlyWhenFresh` | include/rw_param.h:137-164 | an interleaving stays in step with the serial execution if and only if each write was computed from a word still right outside its field |
| `Interleaving.AnswersInStep` | include/rw_param.h:211-228 | in step with the serial execution every GET and SET gets the answer that the engine gives there |
| `Interleaving.InterferenceFreeIsSerial` | include/rw_param.h:137-164 | if no other actor writes the register between the read and the write of a SET, registers and answers are at every moment those of the serial execution, whatever the transfers do |
| `Interleaving.DisjointWindowsAreSerial` | include/dev_io_core.h:104-109 | all runs of actors that write in disjoint address windows are serialisable, in the registers, in the values of GETs and in the results of SETs |
| `Interleaving.ViewsStaySound` | include/rw_param.h:198-229 | beside other actors in disjoint windows, what an actor infers from its own commands and answers is what the registers hold |
| `Interleaving.GetReturnsOwnView` | include/rw_param.h:211-221 | a successful GET of a field the actor knows returns what it knows |
| `Interleaving.LostUpdate` | include/rw_param.h:137-164 | two overlapping SETs of disjoint fields end as the serial execution if and only if the first one changes nothing |
| `Interleaving.LostBit` | include/rw_param.h:137-164 | a legal run of two actors in which a bit is lost |
| `AcqBlocks.AlignedExact` | src/sm_io/modules/acq/sm_io_acq_exp.c:181-184 | the samples taken are the least multiple of the alignment that holds those asked for, and at least one alignment where the FPGA needs it |
| `AcqBlocks.FirstAddressExact` | src/sm_io/modules/acq/sm_io_acq_exp.c:445-462 | the start address is that of the first sample taken, around the end of the memory, for any number of shots |
| `AcqBlocks.BlockBytes` | src/sm_io/modules/acq/sm_io_acq_exp.c:362-431 | which block numbers are refused, and the size of the others |
| `AcqBlocks.BlockStart` | src/sm_io/modules/acq/sm_io_acq_exp.c:468-484 | the converted offset is where the first byte of the block lies among the padded samples |
| `AcqBlocks.PieceExact` | src/sm_io/modules/acq/sm_io_acq_exp.c:539-540 | a piece is read right if and only if it starts at its place and the end of the memory does not split it |
| `AcqBlocks.ReadPieces` | src/sm_io/modules/acq/sm_io_acq_exp.c:506-555 | the loop gives a block if and only if all its transfers are complete: one or two for a single shot, one per shot touched for several; it reads the block of a single shot right, around the end of the memory; for several shots it reads on to the end of a shot, right up to where the end of the memory splits what is read |
| `AcqBlocks.GetBlock` | src/sm_io/modules/acq/sm_io_acq_exp.c:317-571 | a block is given if and only if it is in range and all its transfers are complete; the reply is exactly the user's bytes of the block for a single shot, and for several if and only if the block ends with a shot and is not split; and how long the reply is and how far it is right in any case |
| `AcqBlocks.ReplyFitsExact` | src/sm_io/modules/acq/sm_io_acq_exp.c:511-527 | the reply for a block of several shots fits the size of a block if and only if the block ends with a shot |
| `AcqBlocks.ReplyIsTooLong` | src/sm_io/modules/acq/sm_io_acq_exp.c:511-527 | an acquisition whose first reply is longer than a block |
| `AcqCurve.AskedExact` | libs/acqclient/src/acq_client_core.c:546-548 | the client's last block is one beyond the driver's if and only if the last block is full |
| `AcqCurve.GetCurve` | libs/acqclient/src/acq_client_core.c:528-598 | the curve succeeds if and only if the last block asked for is in range, every transfer of every block is complete and no interrupt comes before one; it then has the bytes of the blocks asked for, in order, up to the room in the buffer, for a single shot or when every block is read right; and for several shots, any number asked for and any room, if and only if `CurveRight` holds |
| `AcqCurve.ProgressNext` | libs/acqclient/src/acq_client_core.c:559-584 | after each block of several shots: the bytes so far are right if and only if nothing copied was split, and a reply that was too long cannot be made good unless it fills the buffer |
| `AcqCurve.FullBlockIsRefused` | libs/acqclient/src/acq_client_core.c:546-559 | an acquisition of one full block for which the client asks for a second one |
| `AcqBlocks.SplitShotIsWrong` | src/sm_io/modules/acq/sm_io_acq_exp.c:524-552 | an acquisition of two shots that is not read right |
| `AcqBlocks.KeptExact` | src/sm_io/modules/acq/sm_io_acq_exp.c:437-466 | none of the bytes asked for is written over by a later one around the memory if and only if what is taken, without the padding in front, fits it |
| `AcqRequest.AcceptedKeptExact` | src/sm_io/modules/acq/sm_io_acq_exp.c:108-191 | what is asked for by an accepted request is still in the memory when it is complete if and only if there is at least one sample and what is taken, without the padding in front, fits |
| `AcqRequest.AcceptedFitsExact` | src/sm_io/modules/acq/sm_io_acq_exp.c:108-191 | an accepted request is one that the reader is modelled for if and only if there is at least one sample and all that is taken fits |
| `AcqRequest.AcceptedIsOverwritten` | src/sm_io/modules/acq/sm_io_acq_exp.c:122-136 | a request of 100 shots that is accepted and whose first byte is written over |
| `AcqRequest.OnlyPaddingOverwritten` | src/sm_io/modules/acq/sm_io_acq_exp.c:122-136 | an accepted request that does not fit although all that is asked for is kept |
| `AcqRequest.ShotsWritten` | src/sm_io/modules/acq/sm_io_acq_exp.c:168-172 | the number of shots written is the one asked for if and only if it is below 2^16 |
| `AcqRequest.NoShotsWritten` | src/sm_io/modules/acq/sm_io_acq_exp.c:168-172 | with 2^16 shots a 0 is written |
| `AcqRequest.Driver.Acquire` | src/sm_io/modules/acq/sm_io_acq_exp.c:76-248 | each answer to a request if and only if its cause holds and none before it does, in particular too many samples exactly when one shot exceeds what the channel holds or several exceed the memory for several shots; an accepted request sets up its channel and no other, a refused one changes nothing |
| `AcqRequest.AnswersInNumbers` | src/sm_io/modules/acq/sm_io_acq_codes.h:62-70 | the number that goes back to a client for every request |
| `AcqRequest.OneShotIsLimited` | src/sm_io/modules/acq/sm_io_acq_exp.c:122-136 | 1500 samples refused for one shot and accepted for each of two |
| `AcqRequest.MaxSamplesExact` | src/sm_io/modules/acq/sm_io_acq_core.c:129-135 | a channel holds n samples if and only if n+1 fit its memory |
| `AcqRequest.AcceptedShotFits` | src/sm_io/modules/acq/sm_io_acq_exp.c:122-136 | the samples of an accepted single shot fit the memory of the channel |
| `AcqRequest.SetUpLeast` | src/sm_io/modules/acq/sm_io_acq_exp.c:174-191 | what is set up is as asked for, and on either side of the trigger the least multiple of the alignment that holds it |
| `AcqRequest.Driver.Check` | src/sm_io/modules/acq/sm_io_acq_exp.c:250-286 | completion stores the trigger position for the channel of the last accepted request |
| `AcqRequest.AcquireAndGet` | libs/acqclient/src/acq_client_core.c:600-630 | the curve is that of the last acquisition accepted on the channel, exactly when the call succeeds and what the curve holds then; and that acquisition is the one of this call if and only if this request was accepted |
| `AcqRequest.OwnCurveExact` | libs/acqclient/src/acq_client_core.c:544-559 | for its own acquisition the client asks for all of it, and is served, for any number of shots, if and only if the last block is not full |
| `AcqRequest.RefusedReturnsPrevious` | libs/acqclient/src/acq_client_core.c:608-613 | a refused request for which the call succeeds with the acquisition before |
| `TriggerLoop.SelectChannels` | examples/src/trigger.c:214-238 | the channel range of each form of the option, and that an accepted one is ascending |
| `TriggerLoop.RangePromiseExact` | examples/src/trigger.c:223-237 | a range [lo:hi] is accepted if and only if ascending, and then visits lo to hi, except exactly for hi = 2^32-1 and lo = hi+1 |
| `TriggerLoop.DefaultVisitsFirst` | examples/src/trigger.c:217-221 | without the option exactly channel 0 is visited |
| `TriggerLoop.OneVisitsExactly` | examples/src/trigger.c:223-229 | a single channel is visited alone, and refused if and only if it is 2^32-1 |
| `TriggerLoop.MalformedIsRefused` | examples/src/trigger.c:224-227 | an option of another form is refused |
| `TriggerLoop.DescendingByOneIsAccepted` | examples/src/trigger.c:234-237 | the descending range [5:4] is accepted as empty |
| `TriggerLoop.RunAction` | examples/src/trigger.c:282-293 | one option on one channel succeeds if and only if the channel exists, a value is accepted, and the transfers of the set, or of the read of a counter, are complete; it sets, then reads back; on a failure at most its own register changed |
| `TriggerLoop.ProgramChannels` | examples/src/trigger.c:279-414 | with complete transfers the loop succeeds if and only if every option can be done on every channel, and otherwise fails at the first that cannot; on success every channel of the range had every option, once and in order, and nothing else was accessed; on a failure earlier channels are complete and later ones untouched |
| `TriggerLoop.AfterChannelsSets` | examples/src/trigger.c:279-414 | with independent options every selected field of every channel of the range ends as asked |
| `TriggerLoop.AfterChannelsFrame` | examples/src/trigger.c:279-414 | a field that no option names keeps its value |
| `TriggerBoard.SelectedExact` | examples/src/trigger.c:281-413 | the settings of the loop are exactly those asked for |
| `TriggerBoard.CountedExact` | examples/src/trigger.c:309-318 | and the counters read exactly those asked for |
| `TriggerBoard.AllInOrder` | examples/src/trigger.c:281-413 | with all options given the ten actions, in order |
| `TriggerBoard.OrderIsThatOfAll` | examples/src/trigger.c:281-413 | options left out leave the order of the others as it is |
| `TriggerBoard.RequestIsProgrammed` | examples/src/trigger.c:279-414 | each of the eight settable options takes effect on every channel of the range, when the options are independent |
| `TriggerLoop.SameBlockIndependent` | include/hw/wb_trigger_iface_regs.h:1041-1050 | options on disjoint fields of one block of channels are independent |
| `TriggerBoard.UpToIndependent` | include/hw/wb_trigger_mux_regs.h:34-55 | on a board with multiplexer and interface apart the options of every request are independent over every range of its 24 channels |
| `TriggerBoard.BoardIsProgrammed` | examples/src/trigger.c:279-414 | so on a board every option of every request ends as asked on every channel of any range |
| `TriggerBoard.BoardKeepsTheRest` | include/hw/wb_trigger_iface_regs.h:34-60 | and the field of an option that is not given, or of a channel outside the range, keeps its value |
| `Text.SplitMeaning` | scripts/gitlog2changelog.py:88-89 | a split succeeds if and only if the separator occurs, is at its first occurrence, and loses nothing |
| `Text.AppendIsJoin` | scripts/gitlog2changelog.py:78-81 | growing a text part by part gives the parts joined by the separator, without empty ones at the front |
| `Text.ContainsExact` | scripts/gitlog2changelog.py:47-65 | a text contains another if and only if that begins at some place of it |
| `Text.StripKeepsExact` | scripts/gitlog2changelog.py:79-93 | stripping keeps a text if and only if it has no white space at its ends |
| `Changelog.AuthorLineReadBack` | scripts/gitlog2changelog.py:47-51 | the author line that git writes is read back as its author |
| `Changelog.DateLineReadBack` | scripts/gitlog2changelog.py:53-57 | the date line likewise |
| `Changelog.ClassifyExact` | scripts/gitlog2changelog.py:35-66 | which lines are commit, author, date, ignored or malformed lines, by the texts in them |
| `Changelog.SignOffIsIgnored` | scripts/gitlog2changelog.py:65-66 | a sign-off in a message is ignored |
| `Changelog.SvnIdIsIgnored` | scripts/gitlog2changelog.py:62-63 | a git-svn-id likewise |
| `Changelog.FossilIdIsIgnored` | scripts/gitlog2changelog.py:59-60 | a Fossil-ID likewise |
| `Changelog.SvnTagIsIgnored` | scripts/gitlog2changelog.py:59-60 | an SVN tag likewise |
| `Changelog.SummarySaysChanged` | scripts/gitlog2changelog.py:83 | the line that sums up the changes is found for one file and for several |
| `Changelog.Script.ReadLine` | scripts/gitlog2changelog.py:36-93 | the chain of tests on a line, and when it continues |
| `Changelog.Script.WriteEntry` | scripts/gitlog2changelog.py:95-121 | the emission of an entry with its author header, and the reset |
| `Changelog.Script.Convert` | scripts/gitlog2changelog.py:34-121 | the loop reads up to the first malformed header line and ends in the state of the machine's run; found parts always have values |
| `ChangelogSafety.NoMixingAcrossCommits` | scripts/gitlog2changelog.py:36-45 | entries written after a commit line do not depend on anything before it |
| `ChangelogSafety.NoMixingAcrossEntries` | scripts/gitlog2changelog.py:113-121 | nor on anything before the previous entry |
| `ChangelogSafety.EntryFromOwnLines` | scripts/gitlog2changelog.py:36-121 | an entry is made of the lines since the last fresh start alone: these give exactly this entry, contain no commit line, and hold its author and date |
| `ChangelogSafety.EntriesComeFromLines` | scripts/gitlog2changelog.py:47-57 | author and date of each entry were read from the lines |
| `ChangelogSafety.EntriesBounded` | scripts/gitlog2changelog.py:34-121 | at most as many entries as author lines, as date lines, and as "files changed" lines |
| `ChangelogSafety.OutputGroupsEntries` | scripts/gitlog2changelog.py:96-121 | on every input the headers are the entries' date and author with immediate repetitions left out, and the file read back gives every entry once, in order, under its own header |
| `ChangelogSafety.DedupHasNoRepeats` | scripts/gitlog2changelog.py:99-104 | no two successive headers are equal |
| `ChangelogBlocks.MessageLineExact` | scripts/gitlog2changelog.py:68-81 | which lines of a message end it, are passed over, or are added to it |
| `ChangelogBlocks.RunBlock` | scripts/gitlog2changelog.py:34-121 | from any state a well-formed commit block adds exactly its own entries |
| `ChangelogBlocks.LogIsConverted` | scripts/gitlog2changelog.py:34-121 | a log of such blocks yields exactly the promised entries, in order |
| `ChangelogBlocks.EveryCommitHasEntryIff` | scripts/gitlog2changelog.py:82-95 | every commit gets an entry if and only if each block has a line that reaches the emission check |
| `GitLog.CommitIsBlock` | scripts/gitlog2changelog.py:36-93 | the lines that git prints for a commit are classified as its block |
| `GitLog.LogTextIsConverted` | scripts/gitlog2changelog.py:34-121 | on the text of any log without keyword collisions the file lists one entry per commit, in order, under its own date and author, with messages stripped and joined by a space and file names by a comma |
| `GitLog.ParagraphText` | scripts/gitlog2changelog.py:98-111 | paragraph k of the file is "* ", the file names with commas, ": ", and the message lines with spaces, under "date  author" of commit k |
| `GitLog.SampleText` | scripts/gitlog2changelog.py:17 | a commit with two message lines and two files, word for word |
| `GitLog.SampleParagraph` | scripts/gitlog2changelog.py:98-111 | and its paragraph and header, word for word |
| `GitLog.EveryLoggedCommitHasEntryIff` | scripts/gitlog2changelog.py:82-95 | on the text of any log every commit gets an entry if and only if each is ended by a line that reaches the emission check |
| `GitLog.LastCommitIsLost` | scripts/gitlog2changelog.py:82-95 | the text of a log whose last commit is lost |
| `Si57x.ToChipHsN1` | include/chips/si57x_regs.h:46-66 | register 7 holds HS_DIV above the upper five bits of N1 |
| `Si57x.ToChipN1Rfreq0` | include/chips/si57x_regs.h:68-89 | register 8 holds the lower two bits of N1 above bits 37 to 32 of RFREQ |
| `Si57x.ToChipRfreq` | include/chips/si57x_regs.h:91-147 | registers 9 to 12 are the lower four bytes of RFREQ, highest first |
| `Si57x.ToTimingValue` | include/hw/wb_slave_afc_timing_regs.h:54-70 | the timing core's words are RFREQ above bit 20, RFREQ below it, and HS_DIV above N1 |
| `Si57x.ChipRoundTrip` | include/chips/si57x_regs.h:46-147 | encoding into the chip's six bytes and decoding is the identity |
| `Si57x.ChipRoundTripBack` | include/chips/si57x_regs.h:46-147 | decoding any six bytes and encoding is the identity |
| `Si57x.TimingRoundTrip` | include/hw/wb_slave_afc_timing_regs.h:54-70 | the same for the three words of the timing core |
| `Si57x.TimingRoundTripBack` | include/hw/wb_slave_afc_timing_regs.h:114-130 | and back |
| `Si57x.TranslationIsLossless` | include/hw/wb_slave_afc_timing_regs.h:54-70 | each encoding translates into the other and back without loss, for every input |
| `Si57x.NibbleNamesAreSwapped` | include/chips/si57x_regs.h:94-111 | the mask named RFREQ_31_28 selects bits 27 to 24, and is right if and only if the halves are equal |
| `Si57x.NibbleOfBit24` | include/chips/si57x_regs.h:103-111 | an RFREQ for which that mask finds the wrong half |
| `Si57x.GetDivsValue` | src/sm_io/chips/sm_ch_si57x.c:439-453 | the driver's divisors are the raw HS_DIV plus 4 and the raw N1 plus 1, an odd N1 above 1 taken for the even one below |
| `Si57x.WriteBackExact` | src/sm_io/chips/sm_ch_si57x.c:439-453 | writing back what the driver read is the identity if and only if the raw N1 is 0 or odd; otherwise the raw N1 becomes one less |
| `Si57x.WriteBackOfTwo` | src/sm_io/chips/sm_ch_si57x.c:443-446 | a raw N1 of 2 is written back as 1 |
| `Si57x.SettingsReadBackExact` | src/sm_io/chips/sm_ch_si57x.c:266-268 | settings are read back as written if and only if N1 is 1 or even |
| `DivRound.DivRoundExact` | include/hal_stddef.h:45-55 | DIV_ROUND_CLOSEST gives q if and only if q is the nearest quotient with ties away from zero, for all signs |
| `DivRound.DivRoundOdd` | include/hal_stddef.h:45-55 | it is odd in the dividend and in the divisor |
| `DivRound.DivRoundMonotone` | include/hal_stddef.h:45-55 | it is monotone in the dividend for a positive divisor |
| `DivRound.UnsignedExact` | include/hal_stddef.h:60-67 | the unsigned forms round correctly if and only if x + d/2 does not wrap around |
| `DivRound.LargestHalved` | include/hal_stddef.h:60-67 | (2^32-1)/2 comes out as 0 |
| `Dump.OffsetsDoNotWrap` | examples/src/acq.c:73-76 | no uint32_t offset of the loop wraps around or leaves the buffer, for any atom size from 2 |
| `Dump.PrintText` | examples/src/acq.c:62-79 | TEXT prints exactly the rows of the buffer up to the first interrupt |
| `Dump.RowsShown` | examples/src/acq.c:68-78 | for atoms of 2, 4 or 8 bytes the atoms read cover the first rows*sample_size bytes in order, each once |
| `Dump.RowsShownExact` | examples/src/acq.c:41-78 | the rows show all the bytes they span if and only if there are none or the atoms have 2, 4 or 8 bytes |
| `Dump.ThreeByteAtom` | examples/src/acq.c:41-78 | an atom of 3 bytes of which only 2 are shown |
| `Dump.TextAgainstBinary` | examples/src/acq.c:67-82 | TEXT shows a prefix of BINARY; uninterrupted they are equal if and only if size mod sample_size < atom_size |
| `Dump.ReadWidthExact` | examples/src/acq.c:41-60 | print_sample reads atom_size bytes if and only if that is 2, 4 or 8 |
| `Dump.RoomPerSampleExact` | examples/src/acq.c:268-315 | the buffer asked for by a request that the options let through has room for every sample if and only if the acquisition is smaller than 2^32 bytes |
| `Dump.DataSizeIsMod` | examples/src/acq.c:510 | data_size is the exact product modulo 2^32 |
| `Dump.PrintFour` | examples/src/acq_trigger.c:27-58 | the specialised dump prints the rows of the generic one with four atoms of 2 or 4 bytes |
| `Dump.NestedDivision` | examples/src/acq_trigger.c:32-46 | its nested division gives the same number of rows |
| `Fofb.ToUint32Exact` | examples/scripts/reformat_fofb_packet.py:6-9 | the conversion gives the congruent number in [0, 2^32) if and only if the input is an int32 |
| `Fofb.SmallestTooLarge` | examples/scripts/reformat_fofb_packet.py:6-9 | 2^31 comes out as 2^31 + 2^32 |
| `Fofb.DecomposeValue` | examples/scripts/reformat_fofb_packet.py:20-27 | each printed field is its own range of digits of its word |
| `Fofb.DecomposeIsLossless` | examples/scripts/reformat_fofb_packet.py:20-27 | the printed fields determine the four words |
| `Fofb.DecomposeIsOnto` | examples/scripts/reformat_fofb_packet.py:20-27 | every combination of fields is the decomposition of some words |
| `Fofb.PacketIsLossless` | examples/scripts/reformat_fofb_packet.py:18-27 | the four int32 numbers of a line can be rebuilt from the printed fields |

## Left out

- ZeroMQ and Malamute messaging, PCIe access and tracing: a bus transaction is a function from its
  number to a byte count and the word an incomplete transfer leaves behind.
- `check_param_limits` and the check and format callbacks: they are arbitrary functions of a
  parameter.
- Hardware side effects (self-clearing, read-only and FIFO registers): registers are plain memory, and
  a register never written reads as 0.
- CLR_FIELD on a single bit (include/rw_param.h:153-155): the expression lacks an operator and does
  not compile.
- Fields of 31 or 32 bits through the int-based macros, where C leaves the shift undefined.
- The bus address of the engine is the register's offset; the device's base is or-ed to it in
  src/sm_io/sm_io.c:1031-1034 and is taken to be aligned above the registers.
- More than one client thread per actor.
- How the FPGA fills the memory of a channel: the shots, padded to the alignment, are taken to follow
  each other around the memory as the comments in src/sm_io/modules/acq/sm_io_acq_exp.c:437-442 say,
  and to be written in this order. The memory has at most 2 GB, as on the boards, so that no address
  computed on `uint32_t` wraps around. Samples divide the blocks, as line 472 of that file demands, and
  are not larger than what the FPGA writes at once. The second attempt at a failed transfer, the
  polling for completion and its timeout are not modelled.
- AcqBlocks.GetBlock: is modelled for acquisitions of which all that is taken fits the memory
  (`AcceptedFitsExact`). It leaves out those that are still readable because only padding in front is
  overwritten, as in `OnlyPaddingOverwritten`, and those of which samples are overwritten.
- AcqCurve.GetCurve: leaves out the same acquisitions.
- AcqRequest.AcquireAndGet: leaves out the same acquisitions, and a channel on which no request was
  ever accepted.
- Other bodies of the device drivers, of the device loop and of the client library. A client call in
  the trigger utility is taken to be the channel command it sends.
- Command-line parsing, help and error texts: options arrive as values.
- TextWrapper's filling of paragraphs: an entry is the unfilled text it is given.
- `git log` lines are ASCII text; Python 2 semantics are taken for the comparison in line 83 of the
  changelog script and for its whitespace.
- How printf renders an atom, and byte order: an atom is the bytes it is read from.
- DivRound.DivRoundExact: signed overflow of x + d/2 is not modelled, because C leaves it undefined; the
  integers are unbounded.
- Dump.PrintText: asks for an atom size of at least 2 and for atoms that lie within a sample, because
  otherwise the loop divides by zero or reads past the buffer.
- `swap`, `container_of` and the other macros of `include/hal_stddef.h`, constant tables and error strings.
