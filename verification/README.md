# Verified models of the codecs, check sequences and engines

A Dafny model of the arithmetic and state machinery in `lib/` and `server/`: the Reed-Solomon encoder and
decoder, the frame check sequences, the loading order of channel segments, the registry of loaded modules, the
LCP automaton, IPv4 fragmentation and PPP byte stuffing. `dafny verify dfyconfig.toml` checks all of it.

Code that works on arrays and fields is a class or a method with loops, proved against a function of its inputs;
what the code is for is then proved about that function.

## Layout

| files | what they hold |
|---|---|
| `Bits`, `Galois`, `Polynomial` | exclusive-or on numbers, GF(2^m) by exponents, polynomials over it |
| `BerlekampMassey`, `Massey`, `Forney`, `Code`, `Decoding`, `Completeness`, `Exactness`, `Codes` | one codeword: syndromes, locator and why it is a shortest one, correction; what decoding returns, for which parameters it always succeeds, and that the codes in use have such parameters |
| `Encoding`, `DualBasis`, `Traces`, `Message`, `Bursts`, `Reports` | systematic encoding, the dual basis and the traces it consists of, interleaved messages with virtual fill, bursts, and what is reported for any message at all |
| `RSBase`, `RSEncoder`, `RSDecoder`, `Packing` | the classes over tables and buffers, and bit packing |
| `Cyclic`, `AosFrame`, `FcsTables`, `HdlcFrame` | division by a binary polynomial; the CRC of AOS frames and the FCS of HDLC frames as fast forms of it |
| `Channel`, `DllRegistry`, `RegistryNames` | dependency closure, load order, the loaded set, and for which module names it stays closed |
| `Fsm`, `LcpFsm` | the table-driven engine with its event queue, and the LCP table on it |
| `Ipv4Packet`, `PppFrame` | fragmentation and reassembly, byte stuffing |

## Main results

* **Tables are a field.** The products and quotients read from the tables are shift-and-exclusive-or
  multiplication modulo a primitive polynomial, for every width up to 8, with all accesses in bounds.
* **Encoder.** The in-place division yields the one parity that makes message and parity a codeword.
* **Decoder soundness.** Any word that comes out is a codeword, and within E erasures and F errors with
  E + 2F at most the parity length it is the codeword that was sent, for every code length.
* **Decoder completeness, exactly.** Within that capability the result is known in full: the codeword with the
  number of corrected positions, or the exception. With two or more parity symbols the decoder corrects every such
  word if and only if the first root times the code length is a multiple of the field's order and, when symbols
  leave room for erasures (fewer than 8 bits), the primitive root index is 1 modulo the order; the exact condition
  for fewer parity symbols is there as well. The code of the AOS headers and the full-length codes meet it.
* **Messages.** Encoding and decoding an interleaved message gives it back with nothing corrected, for every
  length, depth and basis; and so does decoding any received message whose rows are within capability, in particular
  after any burst as long as depth times half the parity symbols of a row.
* **Beyond capability.** A message that is returned is one whose encoding lies within the corrected positions of what
  was received. Otherwise the errors of all rows with too many are added up; a row reports the degree of the shortest
  recurrence of its syndromes, which is never more than the number of its errors.
* **Dual basis.** The bits of a converted symbol are the traces of the symbol times the powers 0, 117, 234, ... of
  the primitive element of the field of 0x187.
* **Packing.** As many symbols as fit and are wanted are packed, and unpacking gives back all that fit.
* **Check sequences.** The CRC and the table-driven FCS are polynomial division bit by bit; valid frames are
  exactly those that end in their check sequence; bursts within its width are always noticed, and a change goes
  unnoticed exactly when it is a multiple of the generator.
* **Load order.** The closure is exactly the reachable names, cycles or not, and fails exactly when one is not
  configured. When no listed segment reaches itself the sort is topological. For any list, it is topological
  whatever the order of the list and of the merges if and only if no two segments reach each other and a tie
  between a segment and one it reaches ties with no segment of other dependencies.
* **Loaded modules.** Every run of loads and unloads, failures included, keeps the loaded set closed under
  dependencies, over every acyclic set of modules with names from a given set, if and only if none of the names
  occurs in others joined together. Only what a module needs is loaded with it, only its recorded dependants are
  unloaded with it, and failures are due to one of these. Unloading everything ends if and only if no object refers to a
  loaded module.
* **LCP.** Each accepted event, with all that its callbacks post, folds the table over the events in posting order;
  after every run the state tells the last Up or Down and the last Open or Close; every entry into Opened has
  seen both a good Configure-Request and a Configure-Ack. Conversely the state is exactly what the events say about
  five facts, among them whether the peer's latest request is good and our own acknowledged: both in Opened only.
* **IPv4 and PPP.** Fragments tile the payload, each as full as the limit allows, and reassemble; stuffing is undone
  if and only if the escape byte is mapped, and hides exactly the mapped bytes that are not the escape and that no mapped
  byte escapes to.

## Where the code does less than its documentation says

* `correctErrata_` multiplies by the root to the power first times (position + 1). The Forney factor is right only
  if first times code length is a multiple of the field's order (`Exactness.NeedsAlignment`); the full-length
  codes and the (10,6) code with 4-bit symbols, first root 6, meet this. Soundness does not depend on it because syndromes are
  checked again.
* `forneySyndromes_` omits the primitive root index, so with another root a single erasure is not corrected
  (`Exactness.NeedsPlainRoot`).
* `fragment` may draw 0 as the common identity, and `isFragment` then recognises none of the fragments
  (`Ipv4Module.RecognisedIff`).
* The guards of `loadIfNotLoaded` and `unloadIfLoaded` search for a name in the joined names. A module can be
  loaded without a dependency whose name occurs there (`DllRegistryModule.NeedsSilent` for one name in another);
  `RegistryNames.SafeNamesIff` says for which names this never happens.
* A segment that outputs to itself makes the comparator of `autoLoad` inconsistent, and the order can come out
  wrong for other segments (`ChannelModule.NeedsAcyclic`); `ChannelModule.OrderlyIff` has the exact condition.
* The comparator of `autoLoad` is not a strict ordering: `doesNotDependOn(x, x)` holds whenever x does not depend on
  itself, on acyclic channels too. `std::list::sort` promises nothing for such a comparator; the results here are
  about sorts that merge, and hold for every order of merging.
* `loadIfNotLoaded` makes an entry for a dependency that is not available when the guard lets it pass
  (server/CE_DLL_Registry.cpp:361); the model has these entries, and they arise only where the guard errs.

## Model

| member | source | states |
|---|---|---|
| Galois.GF.MulIsShiftXor | lib/RSBase.hpp:98-103 | adding exponents is shift-and-exclusive-or multiplication modulo the primitive polynomial |
| Galois.GF.PowSurjective | lib/RSBase.cpp:106-116 | repeated doubling from 1 reaches every nonzero symbol, so the logarithm table has no holes |
| Galois.GF.PowInjective | lib/RSBase.cpp:109-114 | no power is written twice by the table loop |
| Galois.GF.MulAssoc | lib/RSBase.hpp:98-103 | the product is associative on all symbols |
| Galois.GF.MulXor | lib/RSBase.hpp:98-103 | the product distributes over exclusive-or |
| Galois.GF.MulInv | lib/RSBase.cpp:139-143 | every nonzero symbol has an inverse |
| RSBaseModule.RSBase.constructor | lib/RSBase.cpp:60-98 | the tables hold the powers, the logarithms and both basis conversions |
| RSBaseModule.RSBase.LoadPowers | lib/RSBase.cpp:106-120 | from cleared tables the loops leave powers at every index, logarithms of all symbols, and the order as logarithm of zero |
| RSBaseModule.RSBase.FirstPowers | lib/RSBase.cpp:109-114 | the doubling loop records each power and its logarithm |
| RSBaseModule.RSBase.RepeatPowers | lib/RSBase.cpp:118-120 | the second half of the table continues the powers |
| RSBaseModule.RSBase.LoadDualBasis | lib/RSBase.cpp:122-136 | both conversion tables are filled and inverse to each other |
| RSBaseModule.RSBase.GfMul | lib/RSBase.hpp:100-103 | the table lookup is the field's product and stays in bounds |
| RSBaseModule.RSBase.GfDiv | lib/RSBase.cpp:139-143 | the table lookup is multiplication by the inverse; zero divisors throw |
| RSBaseModule.RSBase.RootPower | lib/RSDecoder.cpp:40 | the exponent reduced modulo the order gives the power of the primitive root |
| RSBaseModule.RSBase.GfPolyScale | lib/RSBase.cpp:145-150 | the loop scales every coefficient |
| RSBaseModule.RSBase.GfPolyAdd | lib/RSBase.cpp:152-164 | the loops add, aligned at the constant terms |
| RSBaseModule.RSBase.GfPolyMul | lib/RSBase.cpp:166-175 | the nested loops compute the convolution |
| RSBaseModule.RSBase.GfPolyEval | lib/RSBase.cpp:177-181 | Horner's loop computes the value |
| RSBaseModule.RSBase.CcsdsInterleave | lib/RSBase.cpp:183-200 | filling from the back deals the message out row by row behind its virtual fill |
| RSBaseModule.RSBase.CcsdsDeinterleave | lib/RSBase.cpp:202-219 | reads the data columns of the rows |
| RSBaseModule.RSBase.CcsdsDualBasisToConventional | lib/RSBase.cpp:221-229 | converts the symbols of the range, or all, by the inverse table and leaves the others |
| RSBaseModule.RSBase.CcsdsConventionalToDualBasis | lib/RSBase.cpp:231-239 | converts the symbols of the range, or all, by the table and leaves the others |
| Polynomial.EvalProduct | lib/RSBase.cpp:166-181 | evaluation turns products of polynomials into products of values |
| Polynomial.RootCount | lib/RSDecoder.cpp:118-127 | a polynomial with as many distinct roots as coefficients is zero |
| Polynomial.Elimination | lib/RSDecoder.cpp:36-43 | at most n distinct locators whose first n power sums vanish have zero weights, one locator eliminated at a time |
| DualBasis.DualEntry | lib/RSBase.cpp:122-136 | the triple loop computes the linear map of the eight constants |
| DualBasis.AddBits | lib/RSBase.cpp:128-131 | the inner loop adds one bit column of the chosen constants |
| DualBasis.Inverse | lib/RSBase.cpp:122-136 | the two conversions undo each other on every byte |
| Traces.DualBits | lib/RSBase.cpp:122-132 | bit 7 - i of a converted byte is the trace of the byte times the power 117 i of the primitive element |
| Traces.FromDualBits | lib/RSBase.cpp:134 | the bits of a byte in the dual basis are the traces of the byte it is converted back to |
| Encoding.GeneratorRoot | lib/RSEncoder.cpp:39-46 | every root of a factor is a root of the generator |
| Encoding.DividedKeeps | lib/RSEncoder.cpp:53-59 | division clears the symbols passed and keeps the value at every syndrome root |
| Encoding.Systematic | lib/RSEncoder.cpp:48-64 | message followed by the remainder has all syndromes zero |
| Encoding.ParityUnique | lib/RSEncoder.cpp:48-64 | no other parity completes the message to a codeword |
| RSEncoderModule.RSEncoder.constructor | lib/RSEncoder.cpp:19-33 | the encoder holds the generator polynomial of its parameters |
| RSEncoderModule.RSEncoder.InitGeneratorPoly | lib/RSEncoder.cpp:39-46 | the loop multiplies all linear factors into the field |
| RSEncoderModule.RSEncoder.EncodeOneWord | lib/RSEncoder.cpp:48-64 | the in-place division, and a codeword when the original is copied back over a full message |
| RSEncoderModule.RSEncoder.SubtractGenerator | lib/RSEncoder.cpp:56-58 | one multiple of the generator is subtracted in place |
| RSEncoderModule.RSEncoder.Encode | lib/RSEncoder.cpp:66-88 | the parity of the interleaved message, column by column, in the transmitted basis |
| RSEncoderModule.RSEncoder.EncodeRows | lib/RSEncoder.cpp:70-75 | every row is divided |
| RSEncoderModule.RSEncoder.CollectParity | lib/RSEncoder.cpp:77-82 | the nested loops read the parity columns of the rows |
| Code.Distance | lib/RSDecoder.cpp:36-43 | two words with zero syndromes that differ in at most parity-length positions are equal |
| Code.SyndromesArePowerSums | lib/RSDecoder.cpp:36-43 | near a codeword the syndromes are the power sums of the errors at their locators |
| BerlekampMassey.RunConsistent | lib/RSDecoder.cpp:92-112 | before iteration i the lengths add up to i + 2, the constant term is 1, the locator annihilates all syndromes so far, and the old one is off by one exactly at the last |
| BerlekampMassey.StepConsistent | lib/RSDecoder.cpp:97-112 | one iteration keeps that invariant in all three branches |
| BerlekampMassey.LengthBound | lib/RSDecoder.cpp:97-114 | the degree never exceeds the number of errors |
| BerlekampMassey.Locates | lib/RSDecoder.cpp:92-125 | with two syndromes per error the degree is the number of errors and the roots are exactly their locators |
| BerlekampMassey.NonzeroLength | lib/RSDecoder.cpp:114-127 | nonzero syndromes never give an empty list of errors |
| Massey.LongEnough | lib/RSDecoder.cpp:99-108 | when a recurrence fails at a syndrome, the degrees of it and of any that does not fail there exceed the number of syndromes before it |
| Massey.Shortest | lib/RSDecoder.cpp:92-112 | no recurrence for the syndromes is shorter than the locator |
| Massey.ComplexityIff | lib/RSDecoder.cpp:114 | the number of errors assumed is the degree of the shortest recurrences |
| Forney.EvaluatorValue | lib/RSDecoder.cpp:56-62 | at a locator the evaluator is the error weight times the locator polynomial's quotient there |
| Forney.ErrorWeight | lib/RSDecoder.cpp:64-75 | the ratio of evaluator and derivative is exactly the weight of the error |
| Decoding.ReturnsCodeword | lib/RSDecoder.cpp:133-177 | whatever goes in, a word that comes out is a codeword |
| Decoding.RepairReturns | lib/RSDecoder.cpp:160-176 | a repaired word differs from the received one only at the erasures and at most half of the remaining parity |
| Decoding.Soundness | lib/RSDecoder.cpp:92-177 | within E + 2F at most the parity length, a word that is returned is the codeword sent, for every code length |
| Decoding.SomethingFound | lib/RSDecoder.cpp:156-163 | correction never starts with an empty list of positions |
| Decoding.ReturnsNear | lib/RSDecoder.cpp:133-177 | a word that comes out is a codeword, differs at no more positions than are counted, and these are few enough for the parity |
| Decoding.DistanceSet | lib/RSDecoder.cpp:36-43 | codewords that differ only within a set of parity-length positions are equal |
| Completeness.FindsErrors | lib/RSDecoder.cpp:92-130 | the search returns exactly the error positions |
| Completeness.RepairAtValue | lib/RSDecoder.cpp:165-176 | correcting at the right positions gives the codeword if first root and length are aligned, and the exception otherwise |
| Completeness.CorrectErrataValue | lib/RSDecoder.cpp:45-77 | every listed position is changed by its error times one factor common to all of them |
| Completeness.FactorIsOne | lib/RSDecoder.cpp:75 | the common factor is 1 if and only if first root times code length is a multiple of the order |
| Completeness.Decodes | lib/RSDecoder.cpp:133-177 | the complete outcome for every word within capability, codeword and count or exception, unless the decoder takes a wrong locator for an erased position and syndromes are left to search |
| Exactness.ExactlyCorrects | lib/RSDecoder.cpp:45-177 | for every parity length the parameters with which all words within capability are corrected: root and length aligned, and erasures impossible or the root index plain; less for up to one parity symbol |
| Exactness.FullLengthDecodes | lib/RSDecoder.cpp:45-177 | at full code length every word within half the parity of a codeword decodes to it and its errors are counted |
| Exactness.NeedsAlignment | lib/RSDecoder.cpp:75 | for all other parameters a word with a single error, or with a single erasure if there is one parity symbol, that is not corrected |
| Exactness.NeedsPlainRoot | lib/RSDecoder.cpp:83 | for all other root indices a word with a single erasure that is not corrected |
| Codes.AosHeader | modules/AOS/modAOS_AF_Rcv.cpp:29 | the code of the frame headers is proper and corrects everything within capability |
| Codes.Ccsds | modules/ECC/modRSDecode.cpp:134-141 | so are the full-length codes over the field of 0x187 with root index 11, for every parity length and first root |
| Message.ColumnsOfInterleaved | lib/RSBase.cpp:183-219 | reading the columns of the dealt rows gives the message preceded by its fill |
| Message.SentRowIs | lib/RSEncoder.cpp:66-88 | interleaving message and parity together puts a codeword into every row |
| Message.ConversionInverse | lib/RSBase.cpp:221-239 | the basis conversions of messages undo each other |
| Message.DecodeRecovers | lib/RSDecoder.cpp:179-218 | a received message decodes to the sent one whenever each row is within capability |
| Message.RoundTrip | lib/RSDecoder.cpp:179-218 | decoding a message with its own parity gives it back with zero corrections, for every length, depth and basis |
| Bursts.BurstInRow | lib/RSBase.hpp:126-131 | of a burst of depth times t symbols every row gets at most t |
| Bursts.BurstRecovers | lib/RSDecoder.cpp:179-218 | every burst of up to depth times half the parity symbols is corrected, wherever it starts, for all parameters for which the decoder is faultless |
| Reports.ReportIs | lib/RSDecoder.cpp:190-209 | unless a row ends the correction, a message is returned exactly when every row is, otherwise the errors of all rows are reported together; the counter is the sum of corrected positions |
| Reports.ReportEnds | lib/RSDecoder.cpp:191-200 | other exceptions: the first row that throws one decides, and the counter holds what was corrected before it |
| Reports.ReturnedIsNear | lib/RSDecoder.cpp:179-209 | whatever is received, encoding the message returned gives in every row a codeword within the corrected positions of the row received |
| Reports.TooManyIff | lib/RSDecoder.cpp:114-116 | too many errors are reported, and how many, exactly when the syndromes left have no recurrence of half their number |
| Reports.ReportsNoMore | lib/RSDecoder.cpp:114-116 | the number reported is beyond capability, and no codeword differs from the word in fewer places |
| RSDecoderModule.RSDecoder.constructor | lib/RSDecoder.cpp:19-29 | tables ready, counter at zero |
| RSDecoderModule.RSDecoder.CalcSyndromes | lib/RSDecoder.cpp:36-43 | the values of the word at the consecutive roots |
| RSDecoderModule.RSDecoder.RemoveErasures | lib/RSDecoder.cpp:79-90 | the nested loops remove the erased locators one at a time |
| RSDecoderModule.RSDecoder.Discrepancy | lib/RSDecoder.cpp:99-102 | the inner loop computes the window value, its index never below zero |
| RSDecoderModule.RSDecoder.LocatorPolynomial | lib/RSDecoder.cpp:92-112 | the loop computes the locator |
| RSDecoderModule.RSDecoder.FindErrors | lib/RSDecoder.cpp:92-130 | positions in the order of the search, or which exception |
| RSDecoderModule.RSDecoder.ErrataLocator | lib/RSDecoder.cpp:47-54 | the product of the linear factors |
| RSDecoderModule.RSDecoder.ErrataEvaluator | lib/RSDecoder.cpp:56-62 | the low half of reversed syndromes times locator |
| RSDecoderModule.RSDecoder.Derivative | lib/RSDecoder.cpp:64-67 | every other coefficient, from the right parity on |
| RSDecoderModule.RSDecoder.CorrectErrata | lib/RSDecoder.cpp:69-76 | the word is corrected in place, or division by zero throws |
| RSDecoderModule.RSDecoder.FindErasures | lib/RSDecoder.cpp:136-146 | symbols beyond the field are zeroed in place and listed |
| RSDecoderModule.RSDecoder.CorrectOneWord | lib/RSDecoder.cpp:133-177 | result, exception and counter of one word |
| RSDecoderModule.RSDecoder.Correct | lib/RSDecoder.cpp:179-209 | result, exception and counter of a message; too many errors are collected over the rows, other exceptions escape |
| RSDecoderModule.RSDecoder.Decode | lib/RSDecoder.cpp:211-218 | as correct, without the virtual fill |
| Packing.Pack | lib/RSBase.cpp:273-303 | after packing behind an offset, every bit of the buffer is the bit of its symbol or zero |
| Packing.PlainOffset | lib/RSBase.cpp:252-258 | without an offset no symbol reaches a third byte |
| Packing.PackSymbol | lib/RSBase.cpp:289-302 | one symbol goes into the one or two bytes it falls in |
| Packing.SymbolBits | lib/RSBase.cpp:293-301 | adding a symbol sets exactly its bits |
| Packing.HoldsNext | lib/RSBase.cpp:289-302 | packing the next symbol keeps all the earlier ones |
| Packing.Unpack | lib/RSBase.cpp:241-264 | every symbol that fits is read from its place, in bounds |
| Packing.UnpackPack | lib/RSBase.cpp:241-303 | a packed symbol reads back at the same offset as its low bits, hence as itself when it fits |
| Packing.Count | lib/RSBase.cpp:278-280 | all symbols, or as many as wanted, or so many that one more does not fit |
| Packing.RoundTrip | lib/RSBase.cpp:241-303 | packing symbols that fit and unpacking as many gives them back, reduced to their low bits |
| Packing.HoldsNumber | lib/RSBase.cpp:273-303 | read as one number, most significant byte first, a packed buffer is the number whose digits are the symbols, first symbol first |
| Cyclic.IsDivision | lib/AOS_Transfer_Frame.hpp:447-456 | the register ends as the remainder: shifted message = quotient times generator plus register |
| Cyclic.Linear | lib/AOS_Transfer_Frame.cpp:115-128 | register and message add up bit by bit |
| Cyclic.Injective | lib/AOS_Transfer_Frame.cpp:115-128 | feeding the same message keeps different registers different |
| Cyclic.UndetectedIff | lib/AOS_Transfer_Frame.hpp:466-469 | a change goes unnoticed exactly when it is a multiple of the generator |
| Cyclic.BurstDetected | lib/AOS_Transfer_Frame.hpp:466-469 | changes within one register's width always change the register |
| Cyclic.ZeroResidue | lib/AOS_Transfer_Frame.hpp:466-469 | exactly the register's own bits lead it to zero |
| Cyclic.ComplementResidue | lib/HdlcFrame.hpp:92-97 | exactly the register's complement leads it to the fixed good value |
| Cyclic.StartAdded | lib/AOS_Transfer_Frame.cpp:115-128 | starting from a register is starting from zero with the register added to the first bits |
| AosFrameModule.ComputeCcitt16Crc | lib/AOS_Transfer_Frame.cpp:115-128 | the loop folds the five word operations over the bytes |
| AosFrameModule.ByteIsDivision | lib/AOS_Transfer_Frame.cpp:120-124 | the five word operations are eight steps of division by x^16 + x^12 + x^5 + 1 |
| AosFrameModule.CrcIsRemainder | lib/AOS_Transfer_Frame.cpp:115-128 | the CRC is the remainder of the frame's bits, high bit first |
| AosFrameModule.InitialComplements | lib/AOS_Transfer_Frame.cpp:31 | the initial value complements the first sixteen bits of the frame before it is divided |
| AosFrameModule.ValidIff | lib/AOS_Transfer_Frame.hpp:466-469 | the CRC over everything is zero if and only if the last two bytes are the CRC of the rest |
| AosFrameModule.BurstInvalidates | lib/AOS_Transfer_Frame.hpp:466-469 | flipping bits of a valid frame within 16 consecutive bits makes it invalid, for every length |
| AosFrameModule.UndetectedFrames | lib/AOS_Transfer_Frame.hpp:466-469 | two frames share a CRC exactly when their difference is a multiple of the generator |
| AosFrameModule.AosTransferFrame.GetFrameCrc16 | lib/AOS_Transfer_Frame.hpp:440-445 | the CRC of all but the last two bytes |
| AosFrameModule.AosTransferFrame.SetFrameErrorControl | lib/AOS_Transfer_Frame.hpp:434-438 | writes the field and nothing else |
| AosFrameModule.AosTransferFrame.InitializeCrc | lib/AOS_Transfer_Frame.hpp:458-464 | sets and returns the CRC, after which the frame is valid; without the field it throws |
| AosFrameModule.AosTransferFrame.HasValidCrc | lib/AOS_Transfer_Frame.hpp:466-469 | true exactly when the field is the CRC of the rest |
| HdlcFrameModule.TablesAre | lib/HdlcFrame.cpp:84-186 | every entry of both tables is eight steps of division of its index |
| FcsTables.Rows16 | lib/HdlcFrame.cpp:84-117 | each row of the literal 16-bit table is computed from the reversed polynomial |
| FcsTables.Rows32 | lib/HdlcFrame.cpp:119-186 | each row of the literal 32-bit table is computed from the reversed polynomial |
| HdlcFrameModule.Fcs16 | lib/HdlcFrame.cpp:58-63 | the table-driven loop computes the bitwise form |
| HdlcFrameModule.Fcs32 | lib/HdlcFrame.cpp:71-76 | the table-driven loop computes the bitwise form |
| HdlcFrameModule.ByteIsDivision | lib/HdlcFrame.cpp:58-76 | one lookup is eight steps of the division |
| HdlcFrameModule.FcsIsRemainder | lib/HdlcFrame.cpp:58-76 | the FCS is the remainder of the frame's bits, low bit of each byte first |
| HdlcFrameModule.GoodFcs16Iff | lib/HdlcFrame.hpp:92-94 | the FCS over everything is 0xF0B8 if and only if the trailer is the complement, low byte first |
| HdlcFrameModule.GoodFcs32Iff | lib/HdlcFrame.hpp:95-97 | the FCS over everything is 0xDEBB20E3 if and only if the trailer is the complement, low byte first |
| HdlcFrameModule.GoodIff | lib/HdlcFrame.hpp:157-173 | the same for any generator and width for which the good value is the residue of all ones |
| HdlcFrameModule.BurstSpoils16 | lib/HdlcFrame.hpp:92-94 | changing a good frame within 16 consecutive bits spoils it |
| HdlcFrameModule.BurstSpoils32 | lib/HdlcFrame.hpp:95-97 | changing a good frame within 32 consecutive bits spoils it |
| PppFrameModule.PppFrame.Escape | lib/PppFrame.cpp:47-66 | the buffer becomes flag, stuffed interior, flag |
| PppFrameModule.PppFrame.Unescape | lib/PppFrame.cpp:68-86 | the buffer becomes what a reader of escapes gets from it |
| PppFrameModule.PppFrame.StuffInner | lib/PppFrame.cpp:54-62 | the loop writes the stuffed interior behind the flag, within the doubled buffer |
| PppFrameModule.PppFrame.Stuff | lib/PppFrame.cpp:55-61 | one byte becomes one or two |
| PppFrameModule.PppFrame.ReplicateBuffer | lib/PppFrame.cpp:65 | the frame becomes a copy of the bytes written |
| PppFrameModule.UnescapeEscape | lib/PppFrame.cpp:47-86 | unescaping undoes escaping on delimited frames when 0x7D is mapped |
| PppFrameModule.RoundTripIff | lib/PppFrame.cpp:47-86 | it does so on all delimited frames if and only if 0x7D is mapped |
| PppFrameModule.TransparentIff | lib/PppFrame.cpp:54-62 | no frame keeps a flag inside if and only if 0x7E is mapped and 0x5E is not |
| PppFrameModule.FlippedIs | lib/PppFrame.cpp:59 | escaping adds 0x20 to a byte without that bit and takes it from one with it |
| PppFrameModule.HiddenIff | lib/PppFrame.cpp:54-62 | no frame keeps a byte inside if and only if it is mapped, is not the escape, and no mapped byte escapes to it |
| PppFrameModule.LineHides | lib/PppOptions.hpp:28-30 | with some control characters, the escape and the flag mapped, exactly those characters and the flag are hidden |
| Fsm.AddRow | lib/fsm.hpp:904-959 | a row is accepted exactly when it has the right width, a new event and registered states only |
| Fsm.IndexOf | lib/fsm.hpp:1148-1167 | the first occurrence, or the length |
| Fsm.DrainFolds | lib/fsm.hpp:1073-1085 | the processed events are the queue followed by all posted events in order, and the state is the fold of the table over them |
| Fsm.DrainNext | lib/fsm.hpp:1078-1082 | processing a queue is processing its front, then the rest with what was posted |
| Fsm.DrainEnds | lib/fsm.hpp:1113-1145 | every callback bound to a transition made runs once, and processing ends early only when the last event is refused or its callback throws |
| Fsm.Machine.constructor | lib/fsm.hpp:1036-1042 | the machine starts at its initial state with an index that matches |
| Fsm.Machine.Reset | lib/fsm.hpp:1049-1056 | initial state, matching index, empty queue, not in process |
| Fsm.Machine.AcceptEvent | lib/fsm.hpp:1073-1085 | inside a callback the event is queued only; otherwise the queue is drained, or the machine is reset and the exception escapes |
| Fsm.Machine.ProcessFront | lib/fsm.hpp:1080-1081 | the front event is processed and removed, the outcome of the whole queue unchanged |
| Fsm.Machine.ProcessEvent | lib/fsm.hpp:1113-1145 | transition before callback; forbidden transitions and throwing callbacks reset |
| LcpFsmModule.LookupIs | lib/LcpFsm.cpp:221-243 | the engine finds the table's entry for every state and event |
| LcpFsmModule.RunIsPath | lib/LcpFsm.cpp:218-246 | every run is a path of table steps and resets |
| LcpFsmModule.PathRemembers | lib/LcpFsm.cpp:221-243 | along every path the state tells whether the link is up and whether Open was asked for last |
| LcpFsmModule.HistoryInState | lib/LcpFsm.cpp:221-243 | the same after every run of events with callbacks |
| LcpFsmModule.Handshake | lib/LcpFsm.cpp:232-235 | between the last state outside Ack-Rcvd and Ack-Sent and any entry into Opened, even one whose callback throws, there are a good Configure-Request and a Configure-Ack |
| LcpFsmModule.TableIs | lib/LcpFsm.cpp:221-243 | every entry: an event is allowed, and leads where, as the facts about layer, link and requests say |
| LcpFsmModule.LayerCallbacks | lib/LcpFsm.cpp:221-243 | into and out of Opened there is always a callback |
| LcpFsmModule.PathLearns | lib/LcpFsm.cpp:221-243 | along every path the state is what the events say about those facts |
| LcpFsmModule.StateLearned | lib/LcpFsm.cpp:221-243 | the same after every run; Opened exactly when the peer's latest request is good and our own acknowledged |
| LcpFsmModule.LcpFsm.constructor | lib/LcpFsm.cpp:189-247 | the automaton starts in Initial |
| LcpFsmModule.LcpFsm.Start | lib/LcpFsm.cpp:346-356 | Open, then Up, with everything their callbacks post; no exception escapes |
| LcpFsmModule.QuietStart | lib/LcpFsm.cpp:346-356 | with quiet callbacks starting reaches Req-Sent from a link that is down, and resets one that is up |
| LcpFsmModule.LcpFsm.ReceiveRequest | lib/LcpFsm.cpp:252-280 | state and remaining reactions for each packet, and exactly when an exception reaches the caller |
| LcpFsmModule.LcpFsm.Terminate | lib/LcpFsm.cpp:272-278 | the event sequence up to its first exception, then the start |
| LcpFsmModule.QuietTerminate | lib/LcpFsm.cpp:272-278 | with quiet callbacks every link that is up ends in Req-Sent, and one that is down is reset with an exception |
| LcpFsmModule.QuietHandshake | lib/LcpFsm.cpp:232-235 | with quiet callbacks a good Configure-Request and a Configure-Ack, in either order, lead from Req-Sent to Opened |
| LcpFsmModule.QuietConfigure | lib/LcpFsm.cpp:255-271 | with quiet callbacks a Configure-Request tells a negotiating link whether it is good; at a bad time it resets the machine, which only a bad one reports |
| LcpFsmModule.LcpFsm.Accept | lib/LcpFsm.cpp:260-277 | one event on the machine: the drained queue or the reset and the exception; the object's state stays that of the run of its inputs, to which history and handshake apply |
| LcpFsmModule.SentIsAccepted | lib/LcpFsm.cpp:260-277 | where the machine goes on an event is where the run of its inputs goes |
| ChannelModule.Segment.Outputs | server/Channel.cpp:180-190 | visits exactly the targets that the settings of the segment name |
| ChannelModule.Segment.Loadable | server/Channel.cpp:55-59 | a segment has a module and does not switch loading off |
| ChannelModule.GetDependencies | server/Channel.cpp:177-191 | adds reachable names only, and all of them that the set did not hold, or stops at one that is not configured |
| ChannelModule.AddDependency | server/Channel.cpp:193-201 | the same for one name, on cyclic channels too |
| ChannelModule.Dependencies | server/Channel.cpp:61-62 | from the empty set the result is exactly the reachable names, and it fails exactly when one of them is not configured |
| ChannelModule.MergeOrders | server/Channel.cpp:146-175 | merging keeps every entry allowed before all later ones, if the comparator is total and transitive on them |
| ChannelModule.OutcomeOrdered | server/Channel.cpp:69-70 | so does sorting by merges in any order |
| ChannelModule.CoherentIff | server/Channel.cpp:146-175 | closures of listed segments shrink strictly along dependencies if and only if no listed segment reaches itself |
| ChannelModule.SortIsTopological | server/Channel.cpp:69-70 | if no listed segment reaches itself none comes before one it reaches |
| ChannelModule.OutcomeTopological | server/Channel.cpp:69-70 | an orderly list is sorted topologically however the sort merges |
| ChannelModule.OrderlyIff | server/Channel.cpp:69-70 | a list is sorted topologically in every order and by all merges if and only if it is orderly |
| ChannelModule.NeedsAcyclic | server/Channel.cpp:69-70 | a channel with a self-output, all segments loadable and configured, whose sorted order breaks another dependency |
| ChannelModule.Channel.AutoLoad | server/Channel.cpp:42-83 | the loadable segments with their exact dependencies are added once, as sorted, in topological order if none reaches itself; it throws exactly when a reachable target is missing |
| ChannelModule.Channel.Loadables | server/Channel.cpp:52-67 | the loadable segments in the order of the settings, each with its exact dependencies |
| ChannelModule.Channel.LoadableNamesAre | server/Channel.cpp:52-67 | exactly the settings that are loadable, in their order |
| DllRegistryModule.LoadKeeps | server/CE_DLL_Registry.cpp:333-374 | loading keeps the loaded set closed and the reverse dependencies honest, even when it fails |
| DllRegistryModule.UnloadKeeps | server/CE_DLL_Registry.cpp:376-417 | unloading keeps it closed and spares modules that objects refer to |
| DllRegistryModule.RunKeeps | server/CE_DLL_Registry.cpp:333-417 | while the guard is silent every run of loads and unloads keeps it closed, and no unload removes a busy module |
| DllRegistryModule.LoadFrame | server/CE_DLL_Registry.cpp:333-374 | whatever the guard finds, only modules that the named one needs are loaded with it and recorded, and it fails only if one of them is missing or throws |
| DllRegistryModule.LoadStops | server/CE_DLL_Registry.cpp:348-371 | a module that fails leaves the dependencies before the one to blame loaded and recorded |
| DllRegistryModule.UnloadFrame | server/CE_DLL_Registry.cpp:376-417 | whatever the guard finds, only recorded dependants are unloaded with a module, and it fails only if one of them is busy |
| DllRegistryModule.UnloadStops | server/CE_DLL_Registry.cpp:394-407 | a module that fails to unload stays, and the dependants before the one to blame are gone |
| DllRegistryModule.RecordedDepends | server/CE_DLL_Registry.cpp:361 | honest records lead to dependants only |
| DllRegistryModule.LessIff | server/CE_DLL_Registry.hpp:209 | the names recorded are compared character by character, a name before its extensions |
| DllRegistryModule.RunSorts | server/CE_DLL_Registry.cpp:98 | after every run the reverse dependencies are recorded in that order, each once |
| RegistryNames.SafeNamesIff | server/CE_DLL_Registry.cpp:333-417 | every run over every acyclic set of modules with given names keeps it closed if and only if no name occurs in others joined |
| RegistryNames.SafeRunKeeps | server/CE_DLL_Registry.cpp:333-417 | names that occur in no others joined keep it closed, available or not |
| RegistryNames.UnsafeBreaks | server/CE_DLL_Registry.cpp:337-343 | other names can belong to modules, each with one dependency at most, of which one is loaded without its dependency |
| DllRegistryModule.TidyIsSilent | server/CE_DLL_Registry.cpp:337-343 | without cycles, names that do not occur in joined other names keep the guard silent |
| DllRegistryModule.NeedsSilent | server/CE_DLL_Registry.cpp:337-343 | whenever a module's name contains a dependency's name, loading it breaks the invariant |
| DllRegistryModule.ShadowedStays | server/CE_DLL_Registry.cpp:337-343 | a name that the guard contains is never loaded below it |
| DllRegistryModule.LoadSucceeds | server/CE_DLL_Registry.cpp:348-373 | with all dependencies available and no exception, loading succeeds |
| DllRegistryModule.CeDllRegistry.constructor | server/CE_DLL_Registry.cpp:333-347 | nothing is loaded at first |
| DllRegistryModule.CeDllRegistry.LoadIfNotLoaded | server/CE_DLL_Registry.cpp:333-374 | result and registry after a load, on every path, with the entries it makes for unknown dependencies |
| DllRegistryModule.CeDllRegistry.UnloadIfLoaded | server/CE_DLL_Registry.cpp:376-417 | result and registry after an unload, on every path |
| DllRegistryModule.UnloadSpares | server/CE_DLL_Registry.cpp:376-417 | whatever the guard finds, busy modules stay, and without any unloading succeeds |
| DllRegistryModule.CeDllRegistry.UnloadEverything | server/CE_DLL_Registry.cpp:419-429 | the loop ends with nothing loaded when no loaded module is busy |
| DllRegistryModule.UnloadingEndsIff | server/CE_DLL_Registry.cpp:426-428 | in whatever order modules are picked the loop ends if and only if no loaded module is busy |
| DllRegistryModule.EmptyNameStays | server/CE_DLL_Registry.cpp:337-343 | the empty name is never loaded |
| Ipv4Module.ChecksumIff | lib/IPv4Packet.cpp:51-67 | the stored checksum makes the ones' complement sum zero exactly when it is the computed one, or the other zero |
| Ipv4Module.Sealed | lib/IPv4Packet.cpp:47-48 | after storing the checksum the packet is valid and nothing else changed |
| Ipv4Module.BuiltIs | lib/IPv4Packet.cpp:69-90 | the fields and the payload of a packet built on another's header |
| Ipv4Module.FragmentFlags | lib/IPv4Packet.cpp:84-85 | the bitwise operations set offset and more-fragments flag and keep the rest |
| Ipv4Module.FragmentIs | lib/IPv4Packet.cpp:69-90 | what one fragment says and carries |
| Ipv4Module.FragmentsAreSeries | lib/IPv4Packet.cpp:92-106 | the fragments tile the payload without gap or overlap, each valid and within the limit, all but the last with the flag |
| Ipv4Module.FragmentsFull | lib/IPv4Packet.cpp:94-105 | fragments with another behind them could not hold eight bytes more, and the last one is not empty unless the packet is |
| Ipv4Module.SeriesWhole | lib/IPv4Packet.cpp:92-106 | the payloads of a series joined in order are the payload |
| Ipv4Module.RecognisedIff | lib/IPv4Packet.hpp:285-289 | fragments of a split packet are recognised if and only if the identity drawn is not zero |
| Ipv4Module.Reassembly | lib/IPv4Packet.cpp:25-106 | reassembling at the last fragment gives the packet back, identity cleared, length and checksum computed |
| Ipv4Module.ReassemblyRestores | lib/IPv4Packet.cpp:25-49 | a packet with a right length field comes back the same but for identity and checksum |
| Ipv4Module.Ipv4Packet.constructor | lib/IPv4Packet.hpp:84-86 | a packet over the given bytes |
| Ipv4Module.Ipv4Packet.ComputeChecksum | lib/IPv4Packet.cpp:51-67 | the loops compute the complement of the folded sum |
| Ipv4Module.Ipv4Packet.Seal | lib/IPv4Packet.cpp:47-48 | stores the computed checksum |
| Ipv4Module.Ipv4Packet.MakeOneFragment | lib/IPv4Packet.cpp:69-90 | a new packet with header, part of the payload and adjusted fields |
| Ipv4Module.Ipv4Packet.Fragment | lib/IPv4Packet.cpp:92-106 | the loop makes all fragments in order |
| Ipv4Module.Ipv4Packet.Defragment | lib/IPv4Packet.cpp:25-49 | the packet is rebuilt in place |

## Left out

* Setters of codec parameters after construction, and the constructor's exceptions: a codec has a primitive
  polynomial, at most 8 bits per symbol, a depth of at least 1, a root index coprime to the order, and
  parity length < code length <= order.
* The text of exceptions; of `TooManyErrors` only the counts are kept.
* Overloads that take buffers and `NetworkData` objects; a packet or frame is its bytes.
- RSDecoderModule.RSDecoder.Decode: asks for at least the parity symbols, because with fewer the original forms an iterator beyond the end of the corrected message.
- Packing.Pack: only offsets with which no symbol reaches a third byte, because the original then shifts by a negative count.
- Packing.Unpack: the same offsets, for the same reason.
- Completeness.Decodes: erased words for which the decoder removes a wrong locator and has syndromes left, because what the search finds then depends on the word; `Exactness.NeedsPlainRoot` has a word that fails for every such root index.
- Reports.ReportsNoMore: not for erasures whose locators the decoder takes wrongly, because the syndromes left then say nothing about the errors.
- HdlcFrameModule.Fcs16: the running value is a 32-bit word, because it fits 16 bits throughout when the initial value does.
* The members `fcs16()` and `fcs32()` of a frame, which infer from a zero field whether the FCS is there; the
  trailer's byte order is that of a little-endian host.
* AOS frame layout other than the error control field, which is the last two bytes; the frame's other fields,
  M_PDU and idle frames.
* LCP transition actions, packet sending and option parsing: callbacks run where the table binds one and are a script
  of events to post or exceptions to throw, and whether a Configure-Request is good is a parameter.
- LcpFsmModule.LcpFsm.ReceiveRequest: callbacks throw exceptions of the standard kind only, because others escape its handler.
- ChannelModule.Channel.AutoLoad: records the names added, because `add` loads modules and creates handlers outside this model.
- ChannelModule.SortIsTopological: a merge sort by halves, because the library leaves the algorithm open; `OutcomeTopological` covers every order of merging.
* Setting files, the parsing of segment groups and the handlers' map of a channel.
- DllRegistryModule.CeDllRegistry.UnloadEverything: only while no loaded module is busy, because the original loops forever otherwise (`UnloadingEndsIff`).
* Opening shared objects, property files, rebuilding the method registry, and refreshing the list of available
  modules, which forgets reverse dependencies. Loading may fail for any set of modules and any set may be busy.
* The random identity of fragments is a parameter; the don't-fragment flag, which `fragment` ignores, and the
  subclasses of IPv4 packets.
* TM transfer frames (the same CRC), CLCW, ARP and MAC frames, bit-field helpers, XML-RPC, timers and signals.
