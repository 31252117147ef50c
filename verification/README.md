# libnxpsc secure messaging, verified

A Dafny model of the DESFire secure-messaging stack of libnxpsc: the reader's
session state machine, the message encoders and decoders of the D40, EV1, EV2
and LRP channels, the CBC, CMAC, CRC and LRP routines below them, frame
chaining, the three pass authentications, ChangeKey, the transaction MAC, the
SDM settings builder, and the transactional files of the mock card. The two
sides of the protocol are modelled as one system: what the reader encodes, an
honest card opens, over whole runs.

AES and DES are an abstract pair of inverse permutations (`Ciphers.Primitives`);
triple DES is built from DES. Everything above the block cipher is concrete.

How the files fit together:

- `ByteStrings`, `Results`, `Ciphers`: bytes, buffers, error codes, block ciphers.
- `Crc`, `CrcSearch`, `CrcExact`: the checksums, their algebra, and the search
  that guesses where a deciphered payload ends.
- `Cbc`, `Cmac`, `Lrp`, `LrpContext`: the algorithms, as functions with their
  laws and as loops over buffers proved equal to them.
- `Sessions`, `Codecs`: the session as a value, and what each encoder and
  decoder does to it. `Cards` holds the same session in a mutable object with
  fixed buffers; its methods are written step by step as the C code is and are
  proved to do exactly what the functions say. `CardAuth` and `CardKeys` do the
  same for the authentications and ChangeKey, `Picc` for the card's answers.
- `Framing`, `Exchanges`: frames, chaining, `nxpsc_exchange` and the calls around it,
  against a transport that may answer anything.
- `Peer`, `PeerLegacy`: the card side of the channels. `Handshakes`: both sides
  of the authentications.
- `Layouts`, `HandshakeLayouts`: what every MAC covers, what every initial value, padded
  block, payload and session vector holds, byte by byte and with the constants written
  out, what each side accepts and refuses, and what the reader's calls send.
  Agreement between the two sides holds of whatever both compute alike; these files
  say what that is.
- `Gate`, `Lockstep`, `Ev1Lockstep`, `Degraded`: statements over whole runs. `Linked`
  and `LinkedEv1` carry the two lockstep theorems over to the library on a link:
  frames, chaining and chained answers included.
- `KeyChange`, `Tmac`, `RecordWrites`, `Sdm`: the builders and what the card makes of
  them. `MockFrames`, `Files`, `MockFiles`: how the mock card reads a write command,
  and the state it keeps.

The card side follows `tests/mockcard.c` where that file has one. Where the mock
takes shortcuts (it does not decipher requests, does not keep the LRP counter,
and does not check nonces) the card is the mirror of the library's encoder.

## What the code does not quite do

Properties that hold only under a condition are stated with the exact condition.

- Lockstep ends with the reader's 4096-byte buffer: an answer beyond it makes the
  exchange a length error and leaves the reader's counter and IV where they were,
  while the card has carried the command out. On EV2 and LRP a command keeps the
  two sides in step if and only if its answer fits (`Lockstep.CommandInStep`,
  `Lockstep.TooLongToFollow`); on EV1 if and only if it fits, or the MAC of the lost
  answer happens to equal the chaining value it replaces (`Ev1Lockstep.TradeInStep`); in
  every session there is an answer for which it does not (`Ev1Lockstep.AnswerEndsStep`).
- A refusal ends the reader's session if and only if all request frames were out
  and the answers so far fit the buffer. A refusal of any earlier part is reported
  and leaves the session standing (`Gate.RefusalEnds`, `Gate.RefusedPartStands`), so the lockstep results speak
  of commands whose parts are all acknowledged.
- On EV1 a request that is refused without a frame moves the reader's chain if and
  only if it fits the buffer without its MAC but not with it
  (`Ev1Lockstep.RefusedYetMoved`, `Ev1Lockstep.RequestEndsStep`).
- Response chaining ends, after every history and for every buffer, if and only if
  there is no history after which the card answers empty 0xAF frames for ever
  (`Framing.EndsExactly`, `Framing.AskedForever`). Everything said of "any card" below is
  said of every card that does not; the handshakes do not follow answers and need
  no such condition.
- The CRC16 search of the D40 channel loses the last payload byte exactly when
  the second checksum byte is zero (`CrcExact.Exact16`, `CrcExact.TwoBytesLost`). The
  CRC32 search of the EV1 channel loses payloads whose top checksum byte is zero and
  which end in the status byte, such as two zero bytes under status 0x00, and from
  four bytes on some whose upper three checksum bytes are all zero
  (`CrcExact.Exact32`, `CrcExact.TwoZerosLost`, `CrcExact.ShortPayloads`).
  With the 0x80 pad byte both are exact (`CrcSearch.ExactWithPadByte`).
- The CRC32 fallback of the D40 decoder never helps an answer that carries a CRC16
  (`PeerLegacy.FallbackDoesNotHelp`). One that carries a CRC32 is lost where two of its
  last bytes are the CRC16 of those before (`PeerLegacy.D40LateAnswer`,
  `PeerLegacy.LateAnswerLost`).
- An enciphered EV2 or LRP answer with an empty payload is reported as a crypto
  error although its MAC is right (`Peer.AnswerRoundTrip`).
- A comment at src/nxpsc_desfire.c:485-490 promises that changing the session's
  own key is not reported as a length error. On EV1 it is: the plain receive mode
  still wants eight MAC bytes (`CardKeys.BareAnswer`).
- change_key compares whole key numbers, but only six bits travel. A key number that
  differs from the session's above them, such as 0x41 in a session on key 1, makes a
  payload the card refuses on every channel (`KeyChange.ChangeInSync`,
  `KeyChange.NumberCutOff`).
- auth_legacy compares the two halves of a two-key key as the caller gave them,
  the card as it stored them. They disagree for halves that differ in low bits
  only (`KeyChange.HalvesCheckAgrees`, `KeyChange.LowBitsOnly`).
- The mock card tells enciphered write data from plain by lengths alone. It takes
  `n` enciphered bytes for plain ones exactly on D40 when `n + 4`, and on EV1 when
  `n + 8`, is a whole number of cipher blocks; then it stages the ciphertext, and adds
  it to the transaction MAC input (`RecordWrites.WriteRead`,
  `RecordWrites.CiphertextStaged`). Otherwise later reads of a data file fail, as the
  comment at tests/mockcard.h:66-68 says, but an enciphered record is dropped and the
  old ones are read. ReadRecords answers newest first, as its loop does and unlike
  the comment on its case label.
- The mock card takes every 55-byte frame for a part of a chained command, also one
  that is complete: such a record never reaches the transaction MAC input, and the
  commit is rejected (`Tmac.FullFrameIsLost`, `Tmac.FortySevenBytes`).
- A record for a file the card does not have, or that takes no records, ends the
  transaction on the card: what was written before it is no longer accounted for. A
  host that starts over on the error agrees with the card in every run
  (`Tmac.ValuesAgree`), one that keeps its records does not (`Tmac.InputsAgree`,
  `Tmac.RefusedStartsOver`).

## Model

| member | source | states |
|---|---|---|
| Crc.NibbleStepIsBitSteps | src/nxpsc_crypto.c:418-422 | the nibble form of the CRC16 byte step equals eight single-bit steps of the reflected polynomial x^16+x^12+x^5+1 |
| Crc.WriteCrc16 | src/nxpsc_crypto.c:415-426 | the loop writes the bit-serial CRC_A of the message into the buffer and nothing else |
| Crc.WriteCrc32 | src/nxpsc_crypto.c:395-413 | the loop writes the bit-serial reflected CRC32 without final inversion |
| Crc.FromLinear | src/nxpsc_crypto.c:395-426 | both checksums are affine: registers and messages add up under exclusive or |
| Crc.FromAppend | src/nxpsc_crypto.c:395-426 | the checksum of a concatenation continues from the register of its front |
| Crc.Residue | src/nxpsc_crypto.c:395-426 | a message followed by its own checksum leaves register zero, which is why a search also matches behind the checksum |
| Crc.BurstDetected | src/nxpsc_crypto.c:395-426 | equal-length messages that differ only within two (CRC16) or four (CRC32) consecutive bytes have different checksums |
| Crc.KnownValues | src/nxpsc_crypto.c:395-426 | the published CRC_A values of 00 00 and 12 34 (ISO/IEC 14443-3 Annex B), and the CRC32 of nothing and of a zero byte |
| CrcSearch.SearchCrcPos | src/nxpsc_channel.c:118-159 | the loop returns the least matching position among the last Size+2 before the content end, zero if none |
| CrcSearch.CrcPos | src/nxpsc_channel.c:118-159 | any nonzero result is a real match |
| CrcSearch.ExactWithPadByte | src/nxpsc_channel.c:118-159 | with a 0x80 byte behind the checksum the search finds every nonempty payload, for both checksums |
| CrcExact.Exact16 | src/nxpsc_channel.c:118-159 | for any zero padding the CRC16 search returns the payload length if and only if the second checksum byte is nonzero (or the payload is one byte) and it fits the buffer |
| CrcExact.TwoBytesLost | src/nxpsc_channel.c:118-159 | a concrete two-byte payload the CRC16 search does not find |
| CrcExact.Exact32 | src/nxpsc_channel.c:118-159 | for any zero padding the CRC32 search returns the payload length if and only if Findable32 holds of payload, checksum and status |
| CrcExact.ShortPayloads | src/nxpsc_channel.c:118-159 | under every status but 0xFF one byte is always found, two or three exactly if the top checksum byte is nonzero or the last byte is not the status |
| CrcExact.TwoZerosLost | src/nxpsc_channel.c:118-159 | a concrete two-byte payload the CRC32 search does not find, under status 0x00 |
| CrcExact.ShadowOne | src/nxpsc_channel.c:140-157 | from any register: a prefix one byte shorter matches exactly if the top checksum byte is zero and the last byte is the status |
| CrcExact.ShadowTwo | src/nxpsc_channel.c:140-157 | a prefix two bytes shorter matches only payloads that end in the status byte |
| CrcExact.ShadowThree | src/nxpsc_channel.c:140-157 | a prefix three bytes shorter matches only payloads that end in the status byte |
| Ciphers.EcbInverse | src/nxpsc_crypto.c:170-242 | for every key type, deciphering a block undoes enciphering it and the other way round |
| Ciphers.DegradedBlock | src/nxpsc_crypto.c:147-168 | a two-key key with equal halves is the single DES key, in both directions |
| Ciphers.EcbIs | src/nxpsc_crypto.c:147-242 | which primitive a block goes through under which part of the key: the whole key for AES and DES, first, second, third or first part in the order of NIST SP 800-67 for triple DES |
| Cbc.CryptInto | src/nxpsc_crypto.c:244-295 | the in-place loop equals CBC in all four variants, also when input and output are the same buffer, and leaves the final chaining value in the IV |
| Cbc.Split | src/nxpsc_crypto.c:244-295 | processing a then b with the carried IV is processing their concatenation |
| Cbc.ReceiveUndoesSend | src/nxpsc_crypto.c:244-295 | send with one primitive is undone by receive with the other, and both end with the same IV |
| Cbc.SendUndoesReceive | src/nxpsc_crypto.c:244-295 | and the other way round: what was received is the only thing that gives that data when sent |
| Cbc.BlockAt | src/nxpsc_crypto.c:268-292 | for all four variants and any block: its input or output is combined with the block before it on the wire, that of the first with the IV |
| Cbc.FinalIv | src/nxpsc_crypto.c:268-292 | the final IV is the last block on the wire |
| Cbc.DegradedRun | src/nxpsc_crypto.c:147-168 | CBC in every direction under a key of equal halves is CBC under the DES key |
| Cmac.DoubleIsFieldDoubling | src/nxpsc_crypto.c:305-339 | byte-wise shift with conditional exclusive or doubles the big-endian number modulo x^64+x^4+x^3+x+1 (0x1B) for eight-byte blocks and x^128+x^7+x^2+x+1 (0x87) for sixteen (section 6.1 of NIST SP 800-38B) |
| Cmac.DoubleInPlace | src/nxpsc_crypto.c:305-339 | the in-place shift and reduction computes that doubling |
| Cmac.SubkeysInto | src/nxpsc_crypto.c:312-339 | the two subkeys written are the doublings of the enciphered zero block |
| Cmac.MaskedIsCbc | src/nxpsc_crypto.c:341-390 | masking the last block in the buffer and running CBC is the chained MAC of section 6.2 |
| Cmac.PadBuffer | src/nxpsc_crypto.c:368-374 | the padding loop ends at the least multiple of the block that holds the message, the 0x80 byte and the minimum length |
| Cmac.LayOut | src/nxpsc_crypto.c:347-378 | the message with the right mask is laid out inside the allocated buffer, for every length, block size and minimum length |
| Cmac.Mac | src/nxpsc_crypto.c:341-390 | nxpsc_cmac returns the CMAC started from the given IV and leaves it there |
| Cmac.DegradedMac | src/nxpsc_crypto.c:341-390 | the MAC under a key of equal halves is the MAC under the DES key |
| Cmac.TruncatedOdd | src/nxpsc_crypto.c:99-103 | the eight bytes of a truncated MAC are those at odd positions |
| Cmac.FrontMovesChain | src/nxpsc_crypto.c:341-390 | section 6.2 from the front: a whole block ahead of a nonempty rest only moves the chaining value |
| Cmac.LastBlock | src/nxpsc_crypto.c:347-390 | and at the end: the last block is masked with the enciphered zero block doubled once, or padded with 0x80 and zeros and masked with it doubled twice |
| Cmac.IvTells | src/nxpsc_crypto.c:341-390 | under every key, one message has different MACs from different chaining values |
| Cmac.BlockTells | src/nxpsc_crypto.c:341-390 | under every key and chaining value, messages of one length that differ only within one block have different MACs |
| Lrp.IncrementAddsOne | src/nxpsc_crypto.c:732-753 | incrementing adds one modulo 16^n to the number in the first n nibbles, n odd included, and changes no other nibble |
| Lrp.CounterIsBigEndian | src/nxpsc_crypto.c:720-736 | the number in the first n nibbles: the big-endian number of the bytes, for odd n with the high half of the next byte behind it |
| Lrp.ChainAt | src/nxpsc_crypto.c:676-692 | table entry i is AA..AA enciphered under the key that 55..55 leads to in i steps, i + 1 for the plaintexts |
| Lrp.WalkStart | src/nxpsc_crypto.c:687-730 | an evaluation starts from the updated key the context names, whose chain starts from AA..AA under the master key, and ends by enciphering zeros |
| Lrp.WalkLast | src/nxpsc_crypto.c:720-724 | its last step enciphers the plaintext of the last nibble |
| LrpContext.IncCounter | src/nxpsc_crypto.c:732-753 | the carry loop does exactly that in place, to the number Lrp.CounterIsBigEndian says |
| LrpContext.GeneratePlaintexts | src/nxpsc_crypto.c:676-692 | the loop fills the sixteen secret plaintexts of algorithm 1 |
| LrpContext.LrpCtx.Evaluate | src/nxpsc_crypto.c:716-730 | the nibble walk with the final step is the evaluation function of algorithm 3 |
| LrpContext.LrpCtx.EncodeInto | src/nxpsc_crypto.c:756-800 | writes the counter mode encipherment and advances the counter, or writes nothing if it does not fit |
| LrpContext.LrpCtx.DecodeInto | src/nxpsc_crypto.c:803-833 | the same for decoding, with the bit padding removed |
| LrpContext.LrpCtx.Mac | src/nxpsc_crypto.c:859-889 | the loop is CMAC over the evaluation function (algorithm 6) |
| Lrp.DecryptUndoesEncrypt | src/nxpsc_crypto.c:756-833 | from equal counters, decryption undoes encryption and both counters end equal |
| Lrp.DecodeUndoesEncode | src/nxpsc_crypto.c:756-833 | decode undoes encode for every message, with bit padding exactly, without it up to zero padding; only the empty message without padding is refused |
| Lrp.CounterPerBlock | src/nxpsc_crypto.c:756-833 | the counter afterwards depends on the number of blocks only, not on data or direction |
| Lrp.BlockAt | src/nxpsc_crypto.c:756-833 | block i goes through AES under the evaluation of the counter i steps on, and the counter ends as many steps on as there are blocks |
| Lrp.AdvancedAdds | src/nxpsc_crypto.c:732-753 | after i steps the counter has gone up by i modulo 16^n |
| Lrp.PaddingHolds | src/nxpsc_crypto.c:756-800 | 0x80 and zeros to the next whole block with bit padding, zeros alone without |
| Lrp.FrontMoves | src/nxpsc_crypto.c:859-889 | LRP-CMAC from zero: a block in front only moves the chaining value, by one evaluation |
| Lrp.LastBlock | src/nxpsc_crypto.c:836-889 | the last block is masked like that of CMAC, with the evaluation of zero under updated key 0 doubled once or twice |
| Cards.Card.PaddingLength | src/nxpsc_channel.c:161-171 | the backward loop finds the padding method 2 boundary |
| Peer.UnpadPad | src/nxpsc_channel.c:161-171 | padding method 2 of ISO/IEC 9797-1 is undone for every string |
| Peer.IvsDistinct | src/nxpsc_channel.c:185-202 | in one EV2 session no two messages have the same IV before the counter wraps |
| Layouts.CounterLittle | src/nxpsc_channel.c:196-197 | the two counter bytes give back the counter, least significant first |
| Layouts.MacCovers | src/nxpsc_channel.c:205-238 | on EV2 and LRP the MAC is the truncated CMAC or LRP-CMAC, under the MAC key and from zero, of a message that is the command byte, the two counter bytes, the four TI bytes and the data, each at its place |
| Layouts.MacInputTells | src/nxpsc_channel.c:213-219 | equal MAC inputs come from equal command, counter, TI and data |
| Layouts.EveryFieldTells | src/nxpsc_channel.c:213-234 | on EV2, under every key, the same data under another command, counter or TI always has another CMAC before truncation |
| Layouts.IvHolds | src/nxpsc_channel.c:185-202 | an EV2 initial value deciphers to A5 5A or 5A A5 by direction, TI, counter and zeros |
| Layouts.PaddingBehind | src/nxpsc_channel.c:510-521 | padding method 2: 0x80, then zeros to the next whole block |
| Layouts.UnpaddedIs | src/nxpsc_channel.c:161-171 | a length is found exactly in front of 0x80 and nothing but zeros |
| Layouts.CipherIs | src/nxpsc_channel.c:523-535 | EV2 enciphers by CBC from the initial value of that direction, LRP in counter mode under updated key 1 from the first four bytes of the IV buffer, which take the counter left behind |
| Layouts.RequestHolds | src/nxpsc_channel.c:476-559 | a protected EV2 or LRP request ends in the MAC over what is in front of it, which is the data or the clear header and the enciphered padded rest, and goes out exactly if that fits |
| Layouts.AnswerChecked | src/nxpsc_channel.c:720-773 | an answer is accepted exactly if it ends in the MAC under command byte zero, and what of it is returned |
| Layouts.CardChecksEv2 | tests/mockcard.c:651-671 | the card opens no request whose MAC is wrong, and keeps its session as it was |
| Layouts.Ev1ClearHolds | src/nxpsc_channel.c:384-409 | without enciphering the EV1 chain moves to the CMAC over command byte and data; eight bytes of it are sent in MAC mode where the command sends one |
| Layouts.Ev1AnswerChecked | src/nxpsc_channel.c:661-694 | an EV1 answer on the chain is accepted exactly if it ends in eight bytes of the CMAC over what is in front and the status, and the chain moves there either way |
| Layouts.Ev1PlainHolds | src/nxpsc_channel.c:412-470 | what EV1 enciphers: the data, the CRC32 over command byte, header and data, 0x80 in the padded mode, zeros to the next block |
| Layouts.OtherCommandRefused | src/nxpsc_channel.c:423-426 | an enciphered EV1 request is refused by the card under every other command with as long a header |
| Layouts.CardChecksEv1 | src/nxpsc_channel.c:364-474 | the card opens an EV1 request only with the right MAC where one is sent, and enciphered data only with the checksum and padding the reader puts there |
| Layouts.D40MacIs | src/nxpsc_channel.c:257-290 | the D40 MAC is the front half of the last block of CBC from zero over the data and zeros to a whole block, under the MAC key |
| Layouts.D40ClearHolds | src/nxpsc_channel.c:257-290 | a D40 request in the clear carries the MAC over what is behind the header, where the command sends one |
| Layouts.D40PlainHolds | src/nxpsc_channel.c:292-352 | what D40 enciphers: the data, the CRC16 over them alone, 0x80 in the padded mode, zeros to the next block |
| Layouts.D40AnswerChecked | src/nxpsc_channel.c:595-623 | a D40 answer in MAC mode is accepted exactly if it ends in the MAC over what is in front, where the command is answered with one |
| Layouts.CardChecksD40 | src/nxpsc_channel.c:243-362 | the card opens a D40 request only with the right MAC where one is sent, and enciphered data only with the right checksum and padding |
| Layouts.HeaderTable | src/nxpsc_channel.c:37-73 | how many leading bytes of each command stay in the clear |
| Layouts.MacTables | src/nxpsc_channel.c:76-107 | which commands send a MAC, which are answered with one, how long it is; and which statuses leave a session standing |
| Layouts.Noted | src/nxpsc_channel.c:561-575 | the encoder leaves the command and whether there was anything to encipher |
| Layouts.ResetClears | src/nxpsc_core.c:201-214 | what a reset clears and what it keeps |
| Cards.Card.MacEv2 | src/nxpsc_channel.c:205-238 | the buffer assembled in place has the MAC of nxpsc_ev2_cmac: CMAC on EV2, LRP-CMAC on LRP, over command, counter, TI and data as Layouts.MacCovers places them |
| Cards.Card.EncodeD40Into | src/nxpsc_channel.c:243-362 | encode_d40 on buffers: frame, length, error and mode are those of the session function |
| Cards.Card.EncodeEv1Into | src/nxpsc_channel.c:364-474 | encode_ev1 on buffers, the chain moved in place |
| Cards.Card.EncodeEv2Into | src/nxpsc_channel.c:476-559 | encode_ev2 on buffers, with the LRP counter kept in the IV buffer |
| Cards.Card.ChannelEncode | src/nxpsc_channel.c:561-590 | dispatch, last command and zero-length flag |
| Cards.Card.DecodeD40Into | src/nxpsc_channel.c:595-659 | decode_d40 on buffers, with the CRC32 fallback on later silicon |
| Cards.Card.DecodeEv1Into | src/nxpsc_channel.c:661-718 | decode_ev1 on buffers; the enciphered branch leaves the IV alone |
| Cards.Card.DecodeEv2Into | src/nxpsc_channel.c:720-773 | decode_ev2 on buffers |
| Cards.Card.ChannelDecode | src/nxpsc_channel.c:775-801 | dispatch of the decoders |
| Peer.RequestRoundTrip | src/nxpsc_channel.c:476-559 | every EV2 or LRP request that goes out is opened by the card to exactly the payload, its MAC verifies, and the IV buffers end equal |
| Peer.AnswerRoundTrip | src/nxpsc_channel.c:720-773 | every answer the card seals is decoded: in MAC mode every payload, enciphered every payload but the empty one |
| PeerLegacy.Ev1RequestRoundTrip | src/nxpsc_channel.c:364-474 | every EV1 request is opened to exactly the payload and both chains end equal |
| PeerLegacy.Ev1AnswerRoundTrip | src/nxpsc_channel.c:661-694 | every MACed EV1 answer is decoded to its payload and both chains end equal |
| PeerLegacy.Ev1EncipheredAnswer | src/nxpsc_channel.c:696-715 | an enciphered EV1 answer comes back whole if and only if the search can find its end |
| PeerLegacy.D40RequestRoundTrip | src/nxpsc_channel.c:243-362 | a card that only enciphers opens every D40 request to exactly the payload |
| PeerLegacy.D40AnswerRoundTrip | src/nxpsc_channel.c:595-659 | D40 answers in the clear come back: plain always, MACed exactly if nonempty |
| PeerLegacy.D40EncipheredAnswer | src/nxpsc_channel.c:625-656 | on every card type, an enciphered answer with a CRC16 comes back whole if and only if the CRC16 search can find its end |
| PeerLegacy.FallbackDoesNotHelp | src/nxpsc_channel.c:625-656 | where the CRC16 search finds nothing, the CRC32 search does not find the end of such an answer |
| PeerLegacy.D40LateAnswer | src/nxpsc_channel.c:625-656 | one with the CRC32 of later silicon comes back whole if and only if LateFindable holds of payload, checksum and sizes: no CRC16 stands in its last bytes, the card is known as later and the CRC32 search finds it, or the payload's own CRC16 is the first there |
| PeerLegacy.LateAnswerLost | src/nxpsc_channel.c:625-656 | a concrete two-byte answer with a CRC32 that the CRC32 search would find and the decoder loses, on every card type |
| PeerLegacy.RequestArrives | src/nxpsc_channel.c:561-590 | on every channel, in every mode, whatever nxpsc_channel_encode puts out is opened to the payload by an agreeing card |
| Framing.UnwrapUndoesWrap | tests/mockcard.c:1090-1110 | the card's unwrapping of an ISO 7816-4 frame recovers command and data |
| Framing.WrapHolds | src/nxpsc_core.c:322-341 | the bytes of a native frame and of an APDU, by position |
| Framing.ParseHolds | src/nxpsc_core.c:348-372 | what is taken from a response: the first byte and the rest, or the last byte behind 91 and what is in front; anything else is an error |
| Framing.Chunks | src/nxpsc_core.c:392-402 | a payload is cut into max(1, ceil(len/54)) parts of at most 54 bytes that concatenate to it |
| Framing.ChunksGoOut | src/nxpsc_core.c:391-421 | whatever the card answers, a nonempty prefix of the request frames goes out, each but the last acknowledged; success means all of them |
| Framing.SendOutcome | src/nxpsc_core.c:391-421 | the newest answer decides: an error, a missing acknowledgement, an answer that does not fit, or the result |
| Framing.AllChunksTaken | src/nxpsc_core.c:391-421 | a card that acknowledges every part gets the whole payload, and its last answer is the result if it fits the buffer |
| Framing.FollowCollects | src/nxpsc_core.c:423-436 | following an answer sends only empty 0xAF frames and appends exactly their data, in order, until one is an error, the last, or does not fit |
| Framing.Conservation | src/nxpsc_core.c:377-441 | for every card: what was sent is a prefix of the request frames, or all of them and then empty 0xAF frames, and the result is, exactly, the newest error, a refusal, a full buffer, or the answer to the last request frame followed by all continuation answers |
| Framing.Replied | src/nxpsc_core.c:377-441 | a card that acknowledges every part and answers in one piece or in chained parts: the result is the parts put together, or a length error exactly if they exceed the buffer |
| Framing.EndsExactly | src/nxpsc_core.c:423-436 | response chaining ends after every history if and only if the card never answers empty 0xAF frames for ever |
| Framing.AskedForever | src/nxpsc_core.c:423-436 | a card that answers every frame with a bare 0xAF: no number of rounds is enough |
| Framing.RawExchangeInto | src/nxpsc_core.c:377-441 | the two loops over `sent` and `total` into the response buffer do that, and end; a caller that does not follow needs nothing of the card |
| Exchanges.Delivered | src/nxpsc_core.c:448-514 | when all parts are acknowledged and the answer comes in one piece or in chained parts, nxpsc_exchange is its part before the frame followed by its part behind the whole answer, or a length error that leaves the session alone |
| Exchanges.EndOnRefusal | src/nxpsc_core.c:486-491 | an error status inside a session resets it and marks it lost |
| Exchanges.CounterMoves | src/nxpsc_core.c:492-503 | the counter moves by one exactly for a command that was carried out in an EV2 or LRP session, and the answer is decoded behind that, in the mode asked for |
| Sessions.CounterRises | src/nxpsc_core.c:496 | to a greater number, unless it is the last one |
| Sessions.CounterWraps | src/nxpsc_core.c:496 | from the last number, and from no other, to zero |
| Sessions.CounterInjective | src/nxpsc_core.c:496 | and no number is reached from two |
| Exchanges.HandshakeDelivered | src/nxpsc_channel.c:845-1201 | a handshake over the wire is the reader's reply to the first answer and its check of the second |
| Cards.Card.constructor | src/nxpsc_core.c:165-190 | a new card has no session and cleared keys |
| Cards.Card.ResetChannel | src/nxpsc_core.c:201-214 | resets exactly the session fields, not the log |
| Cards.Card.Conclude | src/nxpsc_core.c:486-497 | the status ends, keeps or advances the session |
| Cards.Card.ExchangeInto | src/nxpsc_core.c:448-514 | nxpsc_exchange on buffers: result, session and frames are those of the exchange function |
| Cards.Card.SelectApplication | src/nxpsc_desfire.c:143-165 | resets the session, then sends the three byte identifier in the clear |
| Gate.AlwaysCoherent | src/nxpsc_core.c:201-214 | over every run of calls against any card: authenticated exactly when a channel is set, and a lost session is unauthenticated with cleared keys |
| Gate.LostSendsNothingProtected | src/nxpsc_core.c:467-481 | from a loss until reset, select or authentication, the wire carries exactly the frames of the calls that asked for no protection |
| Gate.LostStep | src/nxpsc_desfire.c:32-37 | a call that asked for protection on a lost session sends nothing and leaves it lost |
| Gate.LiveKeepsModes | src/nxpsc_desfire.c:32-37 | inside a session a call is an exchange in exactly the modes the caller asked for, and the frames that go out are those of the encoder in that mode |
| Gate.SessionlessIsPlain | src/nxpsc_desfire.c:32-37 | with no session and no loss the frames are those of the bare data, whatever was asked for |
| Gate.ExchangeSends | src/nxpsc_core.c:467-484 | against any card an exchange sends nothing but the frames of the encoded command and what follows them |
| Gate.StandsOrLost | src/nxpsc_core.c:486-491 | after a command inside a session the reader is in it or knows that it is lost |
| Gate.SelectGoesOut | src/nxpsc_desfire.c:143-165 | a selection forgets the session and sends 0x5A with the identifier in the clear, least significant byte first |
| Gate.ExchangeKeeps | src/nxpsc_core.c:448-514 | one exchange with any card keeps the session coherent and a loss a loss |
| Gate.RefusalEnds | src/nxpsc_core.c:407-491 | for every card and every exchange: the session ends if and only if the newest frame was refused, all request frames were out and the answers so far fit; then it is reset and marked lost, and after any other refusal it is as before the frame |
| Gate.RefusedPartStands | src/nxpsc_core.c:407-413 | sixty plain bytes against a card that refuses every frame: the first part is refused, the call fails, and the session stands |
| Gate.HandshakeKeeps | src/nxpsc_channel.c:845-1201 | so does one authentication, whatever the card answers |
| Handshakes.LegacyAgrees | src/nxpsc_channel.c:845-977 | D40 and EV1: with the same key the card recovers RndA, the reader RndB, both accept, and each enters its session with the key of both nonces |
| Handshakes.SameEntered | tests/mockcard.c:109-130 | from equal buffers the two sessions so entered have the same channel, keys, TI, IV and counter |
| Handshakes.Ev2Agrees | src/nxpsc_channel.c:980-1095 | EV2 first and non-first: both accept, and the reader ends with the card's TI and the session keys of both nonces |
| Handshakes.LrpAgrees | src/nxpsc_channel.c:1098-1201 | LRP first and non-first: both MACs verify, the identifier is deciphered and the counter left behind is the card's |
| HandshakeLayouts.LegacyKeyBytes | src/nxpsc_crypto.c:539-571 | which bytes of the nonces make the D40 and EV1 session key, for every key type and for equal halves |
| HandshakeLayouts.Ev2KeyVector | src/nxpsc_crypto.c:574-595 | the EV2 session key is the CMAC over A5 5A or 5A A5, 00 01 00 80 and the two nonces mixed, by position |
| HandshakeLayouts.Ev2KeysDiffer | src/nxpsc_crypto.c:574-595 | encryption and MAC key of an EV2 session are never the same, whatever the authentication key and the nonces |
| HandshakeLayouts.LrpKeyVector | src/nxpsc_crypto.c:598-620 | the LRP session key is the LRP-CMAC over 00 01 00 80, the same mixture and 96 69 |
| HandshakeLayouts.MixedTells | src/nxpsc_crypto.c:588-592 | with one of the nonces the mixture determines the other |
| HandshakeLayouts.LegacyEntered | src/nxpsc_channel.c:963-970 | a D40 or EV1 authentication sets channel, type, number, both keys and a zero IV, and nothing else |
| HandshakeLayouts.Ev2Entered | src/nxpsc_channel.c:1075-1088 | EV2: each key in its own buffer; TI and a zero counter from a first authentication alone |
| HandshakeLayouts.LrpEntered | src/nxpsc_channel.c:1173-1193 | LRP: the same, one key in both buffers, and the counter behind the identifier block in the IV |
| HandshakeLayouts.LegacyReplyHolds | src/nxpsc_channel.c:873-918 | RndB is the challenge deciphered from zero; the reply holds RndA and RndB turned by one byte, on the chain of the challenge on EV1, as two deciphered halves on D40 |
| HandshakeLayouts.LegacyOneAnswer | src/nxpsc_channel.c:926-977 | of all last answers the reader accepts exactly one |
| HandshakeLayouts.LegacyCardHolds | src/nxpsc_channel.c:845-937 | the card accepts exactly if its RndB comes back turned by one byte, and returns RndA turned likewise |
| HandshakeLayouts.Ev2ReplyHolds | src/nxpsc_channel.c:980-1039 | what is taken for a challenge, and that the reply deciphers to RndA and RndB turned by one byte |
| HandshakeLayouts.Ev2FinishHolds | src/nxpsc_channel.c:1041-1095 | the last answer is accepted exactly if it deciphers to RndA turned by one byte, behind TI in a first authentication; in another one exactly one answer is |
| HandshakeLayouts.Ev2CardHolds | src/nxpsc_channel.c:980-1073 | the card accepts exactly the turned RndB, and its answer deciphers to TI, turned RndA and capabilities |
| HandshakeLayouts.LrpReplyHolds | src/nxpsc_channel.c:1098-1143 | the reply is RndA and the MAC over RndA and RndB under the new session key |
| HandshakeLayouts.LrpFinishHolds | src/nxpsc_channel.c:1145-1201 | the last answer is accepted exactly if its MAC over RndB, RndA and the identifier block is right; TI and counter come from deciphering that block at counter zero |
| HandshakeLayouts.LrpCardHolds | src/nxpsc_channel.c:1098-1161 | the card accepts exactly the right MAC over both nonces |
| HandshakeLayouts.ImpostorDropped | src/nxpsc_channel.c:980-1201 | who sends the wrong nonce or MAC gets an AUTHENTICATION_ERROR and leaves the card without a session |
| HandshakeLayouts.LoginGoesOut | src/nxpsc_channel.c:1203-1229 | an authentication is refused or opens with the frame of its channel, and a success leaves a session on that channel with that key number |
| HandshakeLayouts.NonFirstGoesOut | src/nxpsc_channel.c:1231-1247 | the same for a non-first one, which stays on the channel |
| CardAuth.DeriveLegacy | src/nxpsc_channel.c:939-951 | the session key bytes of D40 and EV1, doubled for a key of equal halves |
| CardAuth.PutSessionKeyD40 | src/nxpsc_crypto.c:539-571 | which nonce bytes go where, for every key type |
| CardAuth.DeriveEv2 | src/nxpsc_crypto.c:574-595 | the session vector assembled in place is that of the session key function |
| CardAuth.DeriveLrp | src/nxpsc_crypto.c:598-620 | the same for LRP |
| CardAuth.Rol | src/nxpsc_channel.c:806-810 | rotates a buffer left by one byte in place |
| CardAuth.ReplyLegacy | src/nxpsc_channel.c:845-922 | the reader's second frame, with the chain restarted on D40 and carried on EV1 |
| CardAuth.FinishLegacy | src/nxpsc_channel.c:926-977 | accepts exactly the rotated RndA, and then writes keys, type and cleared IV |
| CardAuth.FinishEv2 | src/nxpsc_channel.c:1041-1095 | accepts exactly the rotated RndA; TI and counter are set by a first authentication only |
| CardAuth.FinishLrp | src/nxpsc_channel.c:1145-1201 | accepts exactly the card's MAC; a refused answer clears the IV |
| CardAuth.Shake | src/nxpsc_channel.c:845-1201 | the whole handshake on the card object over the transport |
| CardAuth.Login | src/nxpsc_channel.c:1203-1229 | resets first; EV2 and LRP refuse other than AES-128 keys |
| CardAuth.LoginNonFirst | src/nxpsc_channel.c:1231-1247 | only inside an EV2 or LRP session |
| Lockstep.BothAgree | tests/mockcard.c:132-144 | after any EV2 or LRP authentication with one key, reader and card hold the same keys, TI, IV and counter |
| Lockstep.AcceptedInStep | tests/mockcard.c:146-151 | a command checked at counter n and answered at n+1, with the answer delivered, leaves both sides at n+1 in the same session |
| Lockstep.CommandInStep | src/nxpsc_core.c:448-514 | a command, accepted or refused, keeps the two sides in step if and only if its answer fits the reader's buffer; beyond it the card is one counter ahead; a refusal leaves both without a session; the card's application gets exactly the payload either way |
| Lockstep.ForgedIsDropped | tests/mockcard.c:1153-1158 | a request whose MAC is wrong is not heard and ends the card's session |
| Lockstep.TooLongToFollow | src/nxpsc_core.c:431-433 | an accepted answer of 4097 bytes puts the two sides out of step |
| Lockstep.AlwaysInStep | src/nxpsc_core.c:448-514 | in every run of authentications, commands with answers that fit, refusals, selections and resets: an authenticated reader agrees with the card on TI, keys, IV and counter, and no answer MAC is ever rejected |
| Lockstep.Conveyed | src/nxpsc_core.c:448-514 | in step, the reader returns exactly the card's answer, if that fits |
| Linked.CommandOverLink | src/nxpsc_core.c:377-514 | on a link that answers the frames as the card does, nxpsc_exchange has the session and result of the two-party step, chained answers and over-long ones included |
| Linked.HandshakeOverLink | src/nxpsc_channel.c:980-1201 | on such a link auth_ev2 and auth_lrp have the session and result of the two-party authentication |
| Linked.StepOverLink | src/nxpsc_core.c:377-514 | so has every call: authentications, commands, selection, reset |
| Linked.AlwaysInStepOverLink | src/nxpsc_core.c:377-514 | over every run of library calls on a link to an honest card, session and result are after each call those of the two-party system, which is in step |
| Linked.HonestLinkExists | src/nxpsc_core.c:377-514 | for every honest run, with either framing, there is a link that plays its card, so that the theorem is about something |
| Ev1Lockstep.TradeInStep | src/nxpsc_channel.c:364-409 | an EV1 command, in any request mode, keeps the two sides on one chain if and only if its request is not too long by its MAC and its MACed answer fits, or the MAC only one side computed equals the value it replaces; what goes out is opened to the payload, and the answer returned |
| Ev1Lockstep.AnswerEndsStep | src/nxpsc_core.c:431-433 | in every EV1 session there is an answer of 4089 bytes that puts the two sides out of step |
| Ev1Lockstep.RequestEndsStep | src/nxpsc_channel.c:394-408 | in every EV1 session there is a MACed WriteData of 4089 bytes that is never sent and puts the two sides out of step |
| Cmac.LastByteTells | src/nxpsc_crypto.c:341-390 | under every key and chaining value, messages that differ in their last byte have different MACs |
| Ev1Lockstep.AlwaysInStep | src/nxpsc_channel.c:661-694 | in every EV1 run of such commands an authenticated reader agrees with the card on keys and IV, and no answer MAC is ever rejected |
| Ev1Lockstep.ChainIsTranscript | src/nxpsc_channel.c:384-409 | after plain and MAC-mode commands both IVs are the CMAC fold over the transcript of all that went out |
| Ev1Lockstep.RefusedYetMoved | src/nxpsc_channel.c:394-408 | a request that is not sent moves the chain if and only if it is too long by its MAC alone, and then to that MAC |
| Ev1Lockstep.TooLongIsRefused | src/nxpsc_channel.c:394-408 | every request too long by its MAC is refused with a length error |
| LinkedEv1.StepOverLink | src/nxpsc_core.c:377-514 | on a link that answers the frames as the EV1 card does, every library call has the session and result of the two-party step |
| LinkedEv1.AlwaysInStepOverLink | src/nxpsc_core.c:377-514 | over every run of library calls on such a link, session and result are after each call those of the two-party system, which is in step |
| LinkedEv1.HonestLinkExists | src/nxpsc_core.c:377-514 | for every run of such commands, with either framing, there is a link that plays its card |
| Degraded.ExchangeAsDes | src/nxpsc_channel.c:939-951 | with a doubled session key one command sends the same frames and returns the same result as single DES |
| Degraded.SameSessions | src/nxpsc_channel.c:939-951 | over every D40 or EV1 run against any card, holding the DES session key twice cannot be told from holding it once |
| Degraded.EqualHalvesEnterDoubled | src/nxpsc_channel.c:939-951 | authenticating with a key of equal halves enters such a session |
| Picc.ReplyEv2 | tests/mockcard.c:438-624 | the card's answer on EV2 and LRP: computed at the advanced counter, in a buffer; unlike the mock, the card keeps its LRP counter, as the reader does |
| Picc.ReplyEv1 | tests/mockcard.c:491-511 | the card's MACed EV1 answer, the chain kept |
| Picc.ReplyEv1Enciphered | tests/mockcard.c:565-589 | the card's enciphered EV1 answer, from a copy of the chain value |
| Picc.ReplyD40 | tests/mockcard.c:469-563 | the card's D40 answers, with CRC16 or the CRC32 of later silicon; an empty payload cannot be MACed |
| KeyChange.VersionRoundTrip | src/nxpsc_crypto.c:431-452 | the version read from a key is the version written into it |
| KeyChange.VersionBits | src/nxpsc_crypto.c:431-443 | the lowest bit of byte i is bit 7 - i mod 8 of the version, every other bit is the key's |
| KeyChange.SetVersionInto | src/nxpsc_crypto.c:431-443 | the nested loops set the low bit of every key byte and nothing else |
| KeyChange.DesHalvesEqual | src/nxpsc_desfire.c:505-523 | a DES key is stored with equal halves whatever its version |
| KeyChange.StoredHolds | src/nxpsc_desfire.c:505-523 | what is stored for each key type: AES keys as given, others with their version, a DES key twice, zeros behind |
| KeyChange.HalvesCheckAgrees | src/nxpsc_channel.c:946-951 | the reader's and the card's test for a degraded key agree exactly if the halves are equal or differ in more than low bits |
| KeyChange.LowBitsOnly | src/nxpsc_channel.c:946-951 | a concrete key on which they disagree |
| KeyChange.KeyNoRoundTrip | src/nxpsc_desfire.c:496-500 | the low six bits of the number and the type field are read back, and the number is those bits exactly below 0x40 |
| KeyChange.KindReadRight | src/nxpsc_desfire.c:496-500 | which type the card takes the new key for: for the PICC master key type field and payload length tell all stored types apart |
| KeyChange.FrameFits | src/nxpsc_desfire.c:535-541 | the 48-byte frame holds every payload |
| KeyChange.PayloadHolds | src/nxpsc_desfire.c:543-585 | the key bytes combined with the old ones, the version of an AES key, and which checksum stands where and covers what on each channel |
| KeyChange.OtherPrefixRefused | src/nxpsc_desfire.c:566-569 | on EV1 a payload built under one command and number byte is refused under every other, for every key type, same or other key |
| KeyChange.AlteredRefused | src/nxpsc_desfire.c:556-575 | on D40 and EV1 a payload changed within as many bytes as the checksum has is refused |
| KeyChange.WrongOldKeyRefused | src/nxpsc_desfire.c:544-584 | on every channel a payload combined with an old key that differs from the card's within as many bytes is refused |
| KeyChange.DataHolds | src/nxpsc_desfire.c:496-500 | command byte, key set, number byte with the type of a PICC master key, and payload, each at its place |
| KeyChange.CardRecoversKey | src/nxpsc_desfire.c:535-585 | on every channel, for every key type, same or other key: undoing the exclusive or and checking every checksum, as KeyChange.PayloadHolds places them, yields exactly the normalised key and its version |
| KeyChange.CardRefuses | src/nxpsc_desfire.c:535-585 | a payload for another key type, or combined with the old key where the card expects none, is refused on every channel |
| KeyChange.ChangeInSync | src/nxpsc_desfire.c:475-610 | the card reads slot, type and whether it is the session's own key off the data field and its session: it stores the new key if and only if both sides mean the same by the session's key and the type is told, and else refuses |
| KeyChange.NumberCutOff | src/nxpsc_desfire.c:478-496 | key number 0x41 in a session on key 1 is refused on every channel |
| KeyChange.StaysInSync | src/nxpsc_desfire.c:475-610 | after any sequence of key changes, carried out or refused, the card stores exactly the normalised keys the reader last wrote |
| CardKeys.NormaliseInto | src/nxpsc_desfire.c:514-533 | copying, setting the version and doubling in the 32-byte buffer gives the stored key |
| CardKeys.BuildFrame | src/nxpsc_desfire.c:535-585 | the frame built in place holds the prefix and the payload and stays inside 48 bytes |
| CardKeys.ChangeKeyInto | src/nxpsc_desfire.c:475-610 | the call: exchange in the ChangeKey mode, and a session reset when the session's own key changed |
| CardKeys.KeyArrives | src/nxpsc_desfire.c:589-603 | through any session the card opens the command to the data field, reads the slot off it and stores exactly the new key, or refuses, as ChangeInSync says |
| CardKeys.ChangeGoesOut | src/nxpsc_desfire.c:589-610 | nothing goes out but the command in the ChangeKey style mode; the call ends the session exactly for its own key, and then takes a bare answer |
| CardKeys.BareAnswer | src/nxpsc_desfire.c:484-491 | a bare success answer to a change of the session's own key is accepted on every channel but EV1, where it is a length error |
| Tmac.WriteTmi | src/nxpsc_advanced.c:178-208 | the builder writes the block of section 10.3.4.2 and nothing behind it, or nothing at all |
| Tmac.BlockHolds | src/nxpsc_advanced.c:172-208 | the block of section 10.3.4.2 by position: command, file number, offset and length with their least significant bytes first, zeros, data, zeros |
| Tmac.HostInput | src/nxpsc_advanced.c:172-208 | every input ends on a 16-byte boundary |
| Tmac.FramesOfRecord | src/nxpsc_core.c:391-402 | a record command goes out as one frame up to 55 bytes, else as a full one and continuation frames |
| Tmac.CardAddsHostBlock | tests/mockcard.c:1738-1760 | from the frames of a record, with or without a MAC, the card adds exactly the host's block if there is room; a record for a file that takes none empties its input, and of a record that fills a frame it sees nothing |
| Tmac.InputsAgree | tests/mockcard.c:390-403 | the card's input is the host's if and only if no record fills a frame, every record is for a record file of the card, and all fit its buffer |
| Tmac.InputDeterminesRecords | src/nxpsc_advanced.c:172-208 | equal inputs come from the same records in the same order |
| Tmac.HostValue | src/nxpsc_advanced.c:131-170 | the value of section 10.3.2, and which arguments are refused |
| Tmac.SessionVector | src/nxpsc_advanced.c:118-170 | the session key is the CMAC over 5A 00 01 00 80, the counter and the UID, and the value the truncated CMAC over the input under it |
| Tmac.SessionsDiffer | src/nxpsc_advanced.c:118-170 | under one key, different counters or UIDs always give different session keys |
| Tmac.U32Little | src/nxpsc_advanced.c:121-124 | the counter bytes, least significant first, and no two counters alike |
| Tmac.ValuesAgree | tests/mockcard.c:1738-1868 | in every run of writes that fill no frame, accepted or refused, commits and aborts, each reported value is the host's for its records at the reported counter; the host starts over when a record is refused |
| Tmac.RefusedStartsOver | tests/mockcard.c:1746-1756 | with a refused record between two accepted ones the card reports the value of the last record alone, which is no value of all three or of the two accepted |
| Tmac.RefusedIsLost | tests/mockcard.c:1746-1756 | after a refused record alone the card rejects the commit |
| Tmac.FullFrameIsLost | tests/mockcard.c:1134-1146 | a record that fills a frame, also one that is complete in it: the card rejects the commit while the host holds a value |
| Tmac.FortySevenBytes | tests/mockcard.c:1134-1146 | such a record: 47 bytes in plain mode |
| RecordWrites.WireIsRecordFrame | src/nxpsc_desfire.c:977-1008 | nxpsc_write_record in plain or MAC mode puts exactly the frames of that record on the wire, on every channel: one frame up to 55 bytes, several beyond |
| MockFrames.MeasureWrite | tests/mockcard.c:168-188 | the length a write frame is taken for, or that it counts as enciphered |
| MockFrames.CarriedBehind | tests/mockcard.c:168-188 | behind a header the declared bytes are taken exactly if the rest of the frame is that long, or longer by a MAC |
| RecordWrites.LengthsTell | tests/mockcard.c:168-188 | enciphered data is longer than plain by exactly a MAC if and only if, on D40, n + 4, or on EV1, n + 8 is a whole number of blocks, and never on EV2 and LRP |
| RecordWrites.WriteSeen | tests/mockcard.c:168-188 | of every write the library sends, the mock sees the data in plain and MAC mode, and of an enciphered one the start of the ciphertext exactly for those lengths, else nothing |
| RecordWrites.WriteRead | tests/mockcard.c:1738-1813 | so what each such write does to the file: forgotten behind a full frame, staged as seen, dropped or forgotten where nothing is seen |
| RecordWrites.CiphertextStaged | tests/mockcard.c:1738-1775 | four enciphered bytes on D40 under an eight-byte block are staged as ciphertext and lengthen the transaction MAC input |
| Sdm.Unambiguous | src/nxpsc_ntag424.c:62-178 | for all flags and keys: at most 27 bytes, and a reader that knows only the bytes recovers every emitted offset and stops exactly where the payload ends |
| Sdm.EmittedAsAsked | src/nxpsc_ntag424.c:112-173 | each offset is emitted exactly when the caller's flags and keys ask for it, in the order of the fields, with the caller's value |
| Sdm.HeaderHolds | src/nxpsc_ntag424.c:84-138 | the header by bits: mode and mirroring, access nibbles, options, key nibbles |
| Sdm.BuildSettings | src/nxpsc_ntag424.c:62-178 | the builder writes that payload, nothing behind it, and refuses short buffers and wide offsets |
| Files.ReadsSeeCommitted | tests/mockcard.c:1379-1629 | reads of two files that differ only in pending changes are the same |
| Files.NewestAt | tests/mockcard.c:1379-1431 | records are read newest first: which record each piece of the answer is |
| Files.RecordsRead | tests/mockcard.c:1379-1431 | what ReadRecords returns piece by piece, no count meaning all to the oldest, and what it refuses |
| Files.AbortUndoes | tests/mockcard.c:325-331 | a transaction that is aborted has changed nothing, while it ran or afterwards |
| Files.ForgottenStays | tests/mockcard.c:1379-1629 | once a file's contents are unknown every later read is refused, whatever is written, committed or aborted |
| Files.RecordHistory | tests/mockcard.c:295-313 | a record file holds exactly the last min(n, capacity) committed records in order |
| Files.ValueHistory | tests/mockcard.c:1555-1579 | a value is its initial value plus the committed deltas, the pending one adds the open ones |
| Files.BackupHistory | tests/mockcard.c:335-344 | a backup file holds its initial data with the committed writes applied in order |
| Files.FilesAreIndependent | tests/mockcard.c:1738-1868 | in a run over all files, each goes through exactly the operations that concern it; a refused record ends the transaction on every file |
| Files.CardHistory | tests/mockcard.c:295-344 | the three histories, for every file of a card and any run of commands |
| MockFiles.MockFile.Commit | tests/mockcard.c:295-323 | commit on the file's arrays, with the record slots moved down when full |
| MockFiles.MockFile.WriteTarget | tests/mockcard.c:335-344 | where writes land, and the copy a backup file starts from |
| MockFiles.MockFile.WriteData | tests/mockcard.c:1807-1813 | the copy to the write target, staged or at once, or a boundary error |
| MockFiles.MockFile.AddValue | tests/mockcard.c:1555-1579 | credit and debit on the pending value, inside int32 |
| MockFiles.MockFile.WriteRecord | tests/mockcard.c:1762-1773 | the pending record, cut or zero-filled to its slot |
| MockFiles.MockFile.ReadRecordsInto | tests/mockcard.c:1379-1431 | the loop walks back from the newest committed record, or refuses |
| MockFiles.MockFile.ReadDataInto | tests/mockcard.c:1581-1629 | the committed bytes of the range, shortened by read_len, or a refusal |
| MockFiles.EndTransaction | tests/mockcard.c:295-331 | the loops over all files commit or abort each of them |
| MockFiles.WriteRecordCommand | tests/mockcard.c:1738-1775 | from the received frame: the record and the transaction MAC input, or the transaction is aborted on all files |
| MockFiles.WriteDataCommand | tests/mockcard.c:1777-1813 | from the received frame: the write, a file whose contents are forgotten, or the error status |
| MockFiles.FullFrame | tests/mockcard.c:1134-1146 | a full write frame makes the file unknown and asks for more |
| MockFiles.Accumulate | tests/mockcard.c:390-403 | the block is laid out behind the input, or left out if it does not fit |

## Left out

- AES and DES themselves, and any claim of cryptographic strength.
- Random number sources, clocks, the transport implementation, PC/SC, memory
  clearing and allocation failure: nonces, answers and TI are parameters; null
  pointer checks are not modelled.
- The choice of a channel by card type (src/nxpsc_channel.c:812-842): the channel is given.
- last_status, selected_aid and the stored copy of the authentication key: no
  modelled decision reads them, except that ChangeKey is told whether an
  application is selected.
- ISO 7816 commands, GetVersion, card identification, string tables,
  SetConfiguration, applications and file creation: fixed-field parsing and thin wrappers.
- MIFARE Plus (src/nxpsc_plus.c), proximity check, virtual card, delegated
  applications: their flags mix with the DESFire session.
- Callers of eff_mode in src/nxpsc_advanced.c:30-35, which does not look at the
  lost session: the gate is stated for modes chosen by eff.
- Lockstep.AlwaysInStep: failed non-first authentications and commands refused
  between their parts are not steps of the runs, because the reader keeps its session
  there; nor are answers beyond the reader's buffer, which CommandInStep treats.
- Ev1Lockstep.AlwaysInStep: answers take the CMAC path; where the EV1 chain stands
  after an enciphered answer is not modelled.
- PeerLegacy.RequestArrives: on D40 and EV1 the card is told how long an enciphered
  request is, as it knows from the command; zero padding does not say it.
- Framing.RawExchangeInto: needs a card that does not answer empty 0xAF frames for
  ever, as the loop would otherwise not end (Framing.EndsExactly).
- KeyChange.StaysInSync: changes of keys in slots the reader knows; what the card
  makes of a change for a slot the reader holds a wrong old key for is not stated.
- Cards.Card.ChannelEncode: source buffers are values, so a source that overlaps the
  destination is not captured; input and output of the CBC routine may be the same memory.
- Tmac.ValuesAgree: a commit without the option byte leaves the mock's input standing
  and is not a step of the runs; records that fill a frame are excluded by the
  hypothesis (Tmac.FullFrameIsLost), and enciphered ones are not steps either. The
  application is assumed to hold a transaction MAC file.
- Tmac.FramesOfRecord, RecordWrites.WriteRead: native frames only. The mock looks at
  the length of a frame before it unwraps it, so under ISO 7816-4 wrapping a data field
  of 49 bytes is taken for a chained part as well as one of 54.
- MockFiles.WriteRecordCommand: the answer frame and the end of the secure session on
  an error are not part of the file model.
- Files.ValueHistory: sums are exact integers; the methods require them to stay inside
  int32, where the C code has no defined result otherwise.
- Creating, deleting and re-creating files, GetFileSettings and the mock's canned answers.
- SDM read counters and the deciphering of mirrored PICC data.
