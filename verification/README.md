# Verified model of the Trust Onboard SDK

The Trust Onboard SDK reads certificates and keys from a SIM card and lets the card sign and decipher. Its
host-to-card stack is modelled here in Dafny, layer by layer, over a model of the card:

| file | what it models |
|---|---|
| `Bytes.dfy` | bytes, 16-bit words, bitwise or |
| `Instructions.dfy` | what a card that goes by ISO/IEC 7816-3, -4 and -8 understands of a command |
| `Cards.dfy` | the card: files by application, logical channels with a selected application and a current file, and an environment that makes every choice the standard leaves to the card |
| `Wire.dfy` | the T=0 procedure answers 6Cxx and 61xx around a card (section 5.1.3 of ISO/IEC 7816-4:2005) |
| `SEInterface.dfy` | the command buffer and the recursion that hides the procedure answers |
| `Channels.dfy` | logical channels over whole runs of two applets |
| `Applet.dfy` | one applet: channel, selection, commands, file access |
| `Fcp.dfy`, `MF.dfy` | control parameter templates and the elementary files of MF |
| `Directory.dfy`, `P11Objects.dfy`, `P11Layout.dfy` | the directory and PKCS#11 data objects: what a reader must find, and how an issuer lays them out |
| `Chunks.dfy` | reading a value chunk by chunk, with chunks lost |
| `KeyIndex.dfy`, `Listing.dfy`, `KeyLayout.dfy` | the key index: as the card says it, as the program builds it from the files, as it builds it from the answers, and as an issuer lays it out |
| `Pso.dfy` | command chains and collected answers |
| `MIAS.dfy` | the MIAS applet |
| `Base64.dfy`, `Pem.dfy`, `Matcher.dfy`, `Chain.dfy` | base64 (section 4 of RFC 4648), PEM text, and the cropping of a chain |
| `AtCommands.dfy`, `AtInterface.dfy`, `Modem.dfy` | the AT+CSIM line protocol (section 8.17 of 3GPP TS 27.007) |
| `Sdk.dfy` | the public calls |
| `Conversations.dfy` | what the card is told in them |
| `Extraction.dfy` | callers that query a size, allocate it, and extract |
| `Refusal.dfy` | a card on which query and delivery disagree |
| `Loss.dfy` | a card on which the key index stays wrong |
| `Service.dfy` | whole programs: creation, initialization, and any sequence of public calls |

The card's environment `env(t)` fixes for the t-th command whether it is lost, whether an open, a selection or a
close is refused, which channel is offered, where a read is cut short, which procedure answers come first, and how a
command whose meaning is opaque here is answered. The card remembers every command it has received, and opaque answers
are functions of this whole conversation. A theorem about every card is therefore a theorem about every such schedule,
and a contract that equates the card with the one `Send` leaves behind says exactly what was sent.
The number of lost commands (`Losses`) is that of the commands sent less those received. What a call delivers is stated
for calls during which this number stays the same, whatever is lost before or after; what is stated without it holds
with lost commands too. Only what a buffer must hold depends on the future: a program that may lose a command may go on
to a longer object, so the buffers are measured by all objects unless no command is lost from then on (`Steady`).

The program's objects are classes with the same buffers and flags. Every method is proved against a function of its
inputs and of the card (`Send`, `Selected`, `InChunks`, `PoolRead`, `Object`, `Encoded`, ...), and the lemmas prove
what is meant to hold of those functions. The main results:

- **Transport.** `SEInterface.Transmit` refines a card that answers directly, whatever it asks for in between
  (`NextAwaited`).
- **Channels.** In every run the open channels are those of the selected applets (`RunKeepsChannels`), a selection
  keeps this exactly when no close it needs is refused (`SelectKeepsExactly`), and no public call leaves a channel open.
- **Objects.** `P11GetObjectByLabel` returns exactly the specified object, and for every laid-out card that is the
  first object stored under the label (`StoredObjectIsFound`).
- **Key index.** The index of a laid-out card inverts the issuer's layout (`IssuedIsKnown`). For any files the index says
  what the card says under an exact condition on the numbers of the usable containers (`IndexIsDirectExactly`); the one
  built from the answers is `PoolRead`, whatever is lost.
- **Chunks.** What a chunked read leaves in the buffer is pinned byte by byte; it is the value for every previous content
  exactly when no read of the loop is lost (`ReadWholeExactly`).
- **Encoders.** Base64 and PEM round trips with exact lengths; the cropper's exact condition; the AT+CSIM
  round trip through a modem (`GenericModem.TransmitApdu`), which can take the place of the interface's device driver
  (`GenericModem.Carry`).
- **Commands.** What the card receives for hashing, deciphering and signing is pinned to the byte, the continuation of
  a signature to the Le the card gave (`HashHeard`, `DecipherHeard`, `RequestsHeard`); and what a card that goes by the
  standard understands of it is what the caller asked for (`SigningTold`, `DecryptingTold`, `HashTold`).
- **Public calls.** Each is one session, or two where an older name is tried, returns the error of the first failing
  step, and delivers the specified bytes; whole programs are sequences of such sessions and leave no channel open
  (`Service.Use`). Callers that query, allocate and extract get what they asked for on cards that treat repeated reads
  alike.

Properties that do not hold of the program as one would expect, each with its exact condition:

- A value with a one-byte BER length (0x81) has the right size only by chance (`HeaderDeterminesExactly`,
  `OneLengthByteMisread`).
- A value with fewer than five bytes from its header to the end of its file is not found (`HeaderFoundExactly`).
- A value with five or more length bytes is given a size from bytes left in the record buffer
  (`FiveBytesDetermineExactly`).
- A value is delivered with success though chunks of it were lost; their bytes are what the buffer held
  (`MIAS.ReadValue`, `ReadWholeExactly`).
- A listing of the key pairs that lost a read is kept for good (`ListKeyPairs`, `WrongForGood`).
- The size of a certificate file that does not state one is that of a variable nobody has set (`SizeStatedExactly`,
  `SizeLeftToChance`).
- A usable container with a number from 15 to 255 is not found, or found under another number, and so may be one from
  256 on (`IndexIsDirectExactly`, `SeventeenthContainer`).
- A footer directly behind extra dashes is missed unless their number is a multiple of six (`CropsBehindDashes`,
  `CropsBehindText`, `OneDashTooMany`).
- A cipher text of more than 509 bytes is not sent completely (`DecipherBlocks`); one of more than 511 overruns the
  command buffer, and no longer one is modelled.
- A selection loses a channel when a close it needs is refused (`SelectKeepsExactly`, `ChannelLost`).
- A certificate refused as compressed has already been written to the caller's buffer (`RefusedIsWritten`).
- A size query and the delivery after it may concern different objects (`QueriesAgreeExactly`, `QueryMisleads`).

`dafny verify dfyconfig.toml` checks everything.

## Model

| member | source | states |
|---|---|---|
| `SEInterfaces.SEInterface.Transmit` | external_libs/tob_sim/common/src/SEInterface.cpp:67-113 | Against any card that answers with finitely many 6Cxx and 61xx before the outcome, the recursion ends (measure: the card's remaining procedure answers) and the buffers hold exactly the outcome the card would have given directly; it returns true exactly when the command reached the card. The card only goes on when it receives exactly the command awaited, which `Wires.NextAwaited` gives byte by byte. |
| `Wires.NextAwaited` | external_libs/tob_sim/common/src/SEInterface.cpp:67-113 | By the bytes of an answer: after 61 xx the card awaits GET RESPONSE with Le xx on the channel of the command, after 6C xx the same header with Le xx. |
| `SEInterfaces.SEInterface.Transmit1` | external_libs/tob_sim/common/src/SEInterface.cpp:24-31 | The case 1 command built in the buffer is the one that is executed; outcome as for the direct card. |
| `SEInterfaces.SEInterface.Transmit2` | external_libs/tob_sim/common/src/SEInterface.cpp:33-41 | The same for case 2. |
| `SEInterfaces.SEInterface.Transmit3` | external_libs/tob_sim/common/src/SEInterface.cpp:43-52 | The same for case 3; Lc is the low byte of the data length. |
| `SEInterfaces.SEInterface.Transmit4` | external_libs/tob_sim/common/src/SEInterface.cpp:54-65 | The same for case 4. |
| `Instructions.PartsOfCases` | external_libs/tob_sim/common/src/SEInterface.cpp:24-65 | Taking a command apart by its length, as the card does, gives back header, data of up to 255 bytes and Le of each of the four cases; longer data cannot be taken apart. |
| `SEInterfaces.SEInterface.GetStatusWord` | external_libs/tob_sim/common/src/SEInterface.cpp:115-123 | The last two bytes of the answer, big-endian, or 0 for a shorter one. |
| `SEInterfaces.SEInterface.GetResponse` | external_libs/tob_sim/common/src/SEInterface.cpp:125-136 | Copies the answer without its status word and no other byte of the target changes; only the length when the target is null. |
| `SEInterfaces.SEInterface.GetResponseLength` | external_libs/tob_sim/common/src/SEInterface.cpp:138-146 | The number of data bytes of the answer. |
| `Applets.CloseAllChannels` | external_libs/tob_sim/common/src/Applet.cpp:29-35 | When closes succeed exactly the channels outside 1..13 stay open; in any case none is opened and none changes. |
| `Applets.Applet.Init` | external_libs/tob_sim/common/src/Applet.cpp:37-39 | The applet uses the interface; its channel and selection are unchanged. |
| `Applets.Applet.Select` | external_libs/tob_sim/common/src/Applet.cpp:45-84 | Card and applet change as the transition `Selected` says, including refused opens, refused applications and refused closes. |
| `Applets.Applet.Deselect` | external_libs/tob_sim/common/src/Applet.cpp:86-99 | Card and applet change as the transition `Deselected` says: the applet stays selected when the close is not confirmed. |
| `Applets.Applet.Transmit1` | external_libs/tob_sim/common/src/Applet.cpp:101-106 | The outcome is that of the command with the channel or-ed into its class byte; nothing is sent, and nothing changes, when the applet is not selected. |
| `Applets.Applet.Transmit2` | external_libs/tob_sim/common/src/Applet.cpp:108-113 | The same for case 2. |
| `Applets.Applet.Transmit3` | external_libs/tob_sim/common/src/Applet.cpp:115-120 | The same for case 3. |
| `Applets.Applet.Transmit4` | external_libs/tob_sim/common/src/Applet.cpp:122-127 | The same for case 4. |
| `Applets.Applet.GetStatusWord` | external_libs/tob_sim/common/src/Applet.cpp:129-137 | The interface's status word, 0 when not selected. |
| `Applets.Applet.GetResponse` | external_libs/tob_sim/common/src/Applet.cpp:139-147 | The interface's data, nothing when not selected. |
| `Applets.Applet.GetResponseLength` | external_libs/tob_sim/common/src/Applet.cpp:149-157 | The interface's data length, 0 when not selected. |
| `Channels.SelectedEffect` | external_libs/tob_sim/common/src/Applet.cpp:45-84 | What every outcome of a selection does to the card's channels and to the applet's record of its own. |
| `Channels.SelectKeepsExactly` | external_libs/tob_sim/common/src/Applet.cpp:45-84 | A selection keeps "open channels = channels of the selected applets" if and only if neither the old channel nor a new one that cannot be used is left open because its close was refused. |
| `Channels.ChannelLost` | external_libs/tob_sim/common/src/Applet.cpp:62-77 | A card on which the invariant breaks: it opens a channel, has no applet, refuses to close, and is left with a channel no applet holds. |
| `Conversations.ChannelCommands` | external_libs/tob_sim/common/src/Applet.cpp:45-99 | A card that goes by the standard understands the commands as: open a channel and tell its number, close this channel, select this application on this channel. |
| `Conversations.Applications` | external_libs/tob_sim/common/src/MIAS.cpp:18 | The applications selected are the two of the SDK, by their identifiers. |
| `Conversations.FileCommands` | external_libs/tob_sim/common/src/MIAS.cpp:311-339 | Likewise: select the file at this path, read so many bytes at this offset. |
| `Channels.DeselectKeeps` | external_libs/tob_sim/common/src/Applet.cpp:86-99 | A deselection keeps that invariant for every card, also one that refuses the close. |
| `Channels.TransmitReachesOwnApplication` | external_libs/tob_sim/common/src/Applet.cpp:101-127 | An applet's command runs on its own channel, on which its own application is selected, and leaves every other channel as it was. |
| `Channels.RunKeepsChannels` | external_libs/tob_sim/common/src/Applet.cpp:45-127 | In every run of selections, deselections and commands of two applets on one card that closes channels when told, with opens and selections refused and commands lost at will, the open channels are exactly those of the selected applets and pairwise distinct. |
| `Channels.NothingLost` | external_libs/tob_sim/common/src/Applet.cpp:45-84 | On a card that closes channels when told, no selection loses a channel. |
| `Channels.SelectIdle` | external_libs/tob_sim/common/src/Applet.cpp:45-84 | Selecting an idle applet opens one fresh channel with its application, or leaves the open channels as they were. |
| `Channels.DeselectRestores` | external_libs/tob_sim/common/src/Applet.cpp:86-99 | After a session in which only commands were sent on the applet's channel, deselection restores exactly the channels open before it. |
| `Channels.VisitQuiet` | src/BreakoutTrustOnboardSDK.cpp:53-70 | One session (selection, whether or not it succeeds, commands, deselection) leaves both applets deselected and the card with no channel more than before. |
| `Channels.VisitsLeaveNoChannel` | src/BreakoutTrustOnboardSDK.cpp:53-70 | Over every run of such sessions no channel is left open between them. |
| `Channels.SessionEnds` | src/BreakoutTrustOnboardSDK.cpp:53-70 | Selection, commands on the applet's channel and deselection make up one session: what the card has received is the selection, those commands, and last the close of that channel; its open channels are as before. |
| `Channels.SessionIsDetermined` | src/BreakoutTrustOnboardSDK.cpp:53-70 | What the card has received later on tells where in the conversation a session ended, and at which command if none was lost by then. |
| `Applets.Applet.SelectPath` | external_libs/tob_sim/common/src/MIAS.cpp:581-583 | SELECT by path: card and outcome are those of exactly this command; if it is not lost it succeeds when the file exists, and success means that the file is current and its control parameters are the answer. |
| `Applets.Applet.ReadBinary` | external_libs/tob_sim/common/src/MIAS.cpp:513-517 | READ BINARY with a 16-bit offset split over P1 and P2: card and answer are those of exactly this command; success means a non-empty prefix of the bytes at the offset; it succeeds when all the bytes asked for exist and it is not lost. |
| `Applets.Applet.ReadInto` | external_libs/tob_sim/common/src/MIAS.cpp:622-628 | One chunk read into a buffer: exactly those bytes at the place given, every other byte of the buffer unchanged. |
| `Fcp.GetEFSize` | external_libs/tob_sim/common/src/MF.cpp:22-55 | On every template of one-byte-length TLVs the scan returns the first value under tag 0x80 as a 16-bit number, or false exactly when there is none. |
| `Fcp.BuiltFileSize` | external_libs/tob_sim/common/src/MF.cpp:22-55 | Reading inverts building: for a template encoded from any list of TLVs that size is the first value under tag 0x80 in the list. |
| `MFs.AnnouncedSize` | external_libs/tob_sim/common/src/MF.cpp:100-107 | A file whose template is built from any TLVs announces the first value under tag 0x80 as a 16-bit number. |
| `Fcp.ReadNumber` | external_libs/tob_sim/common/src/MF.cpp:35-43 | Shifting bytes into a `uint16_t` gives the big-endian number modulo 2^16, for any number of bytes. |
| `Fcp.GetTotalSize` | external_libs/tob_sim/common/src/MIAS.cpp:321-334 | The walk with 8-bit counters ends and finds the last value under tag 0x81 of any template short enough for them. |
| `Fcp.BuiltTotalSize` | external_libs/tob_sim/common/src/MIAS.cpp:323-334 | Reading inverts building for tag 0x81: the last such value in the list of TLVs. |
| `MFs.MF.VerifyPin` | external_libs/tob_sim/common/src/MF.cpp:57-73 | True exactly when the card accepts the VERIFY with the padded eight-byte block, which is the one command it receives; a PIN of more than eight bytes is refused without a command. |
| `Conversations.PinCommands` | external_libs/tob_sim/common/src/MF.cpp:57-73 | The card understands the PIN checks of both applets: MIAS's PIN as given under reference 0x81, if shorter than 256 bytes, MF's under 0x01 as the PIN followed by 0xFF up to eight bytes. |
| `MFs.MF.ReadContent` | external_libs/tob_sim/common/src/MF.cpp:108-126 | The chunk loop ends under every schedule of non-empty short reads; success means the file's first bytes, and unless a command of the loop is lost it fails only when the file is shorter than asked. |
| `MFs.MF.ReadEF` | external_libs/tob_sim/common/src/MF.cpp:95-131 | Returns exactly the announced number of bytes of the file; unless a command of this call is lost it succeeds if and only if the file announces a size and has as many bytes (or only the size is asked for). |
| `MIASs.MIAS.ReadDirectory` | external_libs/tob_sim/common/src/MIAS.cpp:589-604 | The file pool holds entries of the directory only, and exactly these, in order, unless a read of the loop is lost. |
| `MIASs.MIAS.AddFile` | external_libs/tob_sim/common/src/MIAS.cpp:594-599 | Enters the file of one record behind those before it. |
| `MIASs.MIAS.TrimmedLength` | external_libs/tob_sim/common/src/MIAS.cpp:630-635 | The length of the label without its trailing spaces. |
| `P11Objects.TrimPadded` | external_libs/tob_sim/common/src/MIAS.cpp:630-635 | A name that does not end in a space, followed by any number of 0x20, is trimmed to that name. |
| `MIASs.MIAS.CompareLabel` | external_libs/tob_sim/common/src/MIAS.cpp:628-638 | The label just read, without its trailing spaces, is compared with the one asked for: true exactly when they are equal. |
| `MIASs.MIAS.MatchLabel` | external_libs/tob_sim/common/src/MIAS.cpp:619-638 | Found only when the complete, trimmed label equals the one asked for, and then exactly unless a command is lost; with the offset behind it. |
| `MIASs.MIAS.SkipField` | external_libs/tob_sim/common/src/MIAS.cpp:640-644 | The offset behind a length-value field, when there is one and the read is not lost. |
| `MIASs.MIAS.FindValue` | external_libs/tob_sim/common/src/MIAS.cpp:617-657 | Found only when the file holds an object with the label, and then exactly unless a command is lost; with the offset of its value header and the five bytes there. |
| `MIASs.MIAS.DecodeSize` | external_libs/tob_sim/common/src/MIAS.cpp:658-667 | For every header byte: the size the shifts leave in the uninitialised 16-bit variable and the header length; for one-byte lengths and for 2 to 4 length bytes these are those of the BER header. |
| `P11Objects.TwoBytesDetermine` | external_libs/tob_sim/common/src/MIAS.cpp:661-664 | From two length bytes on, the value is the big-endian number modulo 2^16 and nothing of the uninitialised variable is left. |
| `P11Objects.OneByteIsLeftToChance` | external_libs/tob_sim/common/src/MIAS.cpp:661-664 | With one length byte (0x81) the shifts give the right size if and only if the low byte of the uninitialised variable happened to be zero. |
| `P11Objects.HeaderDeterminesExactly` | external_libs/tob_sim/common/src/MIAS.cpp:575-664 | The size decoded from the bytes read at a value header is the same whatever the uninitialised variable held if and only if the first of them is below 0x80 or announces at least two length bytes. |
| `P11Objects.FiveBytesDetermineExactly` | external_libs/tob_sim/common/src/MIAS.cpp:654-664 | Only five bytes are read at the header. With more than four length bytes the size is made of two bytes of which at least one is left in the record buffer from before; the five bytes determine the size if and only if the first is below 0x80 or announces two to four length bytes. |
| `P11Objects.DeterminedExactly` | external_libs/tob_sim/common/src/MIAS.cpp:661-664 | Length bytes give their big-endian number modulo 2^16 for every initial value if and only if there are at least two. |
| `P11Layout.OneLengthByteMisread` | external_libs/tob_sim/common/src/MIAS.cpp:654-667 | A stored object with a one-byte long form (DER's own for 128 to 255 bytes): its header is found and reads 0x81, and the size decoded is the value's if and only if the variable happened to end in a zero byte. |
| `MIASs.MIAS.ReadValue` | external_libs/tob_sim/common/src/MIAS.cpp:674-689 | The chunk loop goes on after failures. Whatever is lost: the card is that of the loop's commands, every byte of a chunk that arrived is the file's, every byte of a lost one is what the buffer held before, and nothing else changes. If no read is lost that is the value, under every schedule of non-empty short reads. |
| `MIASs.MIAS.ReadChunk` | external_libs/tob_sim/common/src/MIAS.cpp:674-687 | One chunk: the bytes that came are written in their place and nothing else; the loop goes on behind them, or behind the chunk if its read failed. |
| `Chunks.ArriveExactly` | external_libs/tob_sim/common/src/MIAS.cpp:674-689 | All bytes of the stretch arrive if and only if no read of the loop is lost. |
| `Chunks.ReadWholeExactly` | external_libs/tob_sim/common/src/MIAS.cpp:513-519 | Behind the loop the buffer holds the stretch of the file for all it may have held before if and only if no read of the loop was lost. |
| `Chunks.LossBound` | external_libs/tob_sim/common/src/MIAS.cpp:674-689 | The loop goes on behind a lost chunk: the bytes missing are at most 238 for each lost command. |
| `MIASs.MIAS.ReadObject` | external_libs/tob_sim/common/src/MIAS.cpp:610-692 | Tries one data file: success and length only for a matching object; unless a command is lost success, length and bytes are those of its object exactly when it matches. |
| `MIASs.MIAS.ReadSelected` | external_libs/tob_sim/common/src/MIAS.cpp:617-692 | The same once the file is selected. |
| `MIASs.MIAS.FindListed` | external_libs/tob_sim/common/src/MIAS.cpp:606-711 | The first matching entry of the file pool decides; the result is the specified object unless a command is lost or the pool is incomplete. |
| `MIASs.MIAS.P11GetObjectByLabel` | external_libs/tob_sim/common/src/MIAS.cpp:573-719 | Unless a command of this call is lost it returns exactly the value of the first directory entry under p11 named pubdat* or pridat* whose space-trimmed label is the one asked for and whose fields are complete, and false with length 0 if and only if there is none; a null buffer gets the same length. With lost commands a success still reports the length of an object with that label. |
| `MIASs.MIAS.FindInDirectory` | external_libs/tob_sim/common/src/MIAS.cpp:585-711 | The same once the directory is selected. |
| `P11Objects.ObjectAt` | external_libs/tob_sim/common/src/MIAS.cpp:606-638 | The object is that of the first matching entry in directory order, and there is none exactly when no entry matches. |
| `P11Layout.StoredDirectory` | external_libs/tob_sim/common/src/MIAS.cpp:589-604 | Listing a directory laid out from any list of entries gives back the list. |
| `P11Layout.DataNames` | external_libs/tob_sim/common/src/MIAS.cpp:606-615 | Data files are those under p11 (with its zero byte) named pubdat* or pridat*; the path of a file is the first two bytes of its record. |
| `P11Layout.StoredObject` | external_libs/tob_sim/common/src/MIAS.cpp:617-692 | The reader's layout inverts the writer's: the name, stored with any number of spaces behind it, and the value of any object with the short or a 2 to 4 byte length form whose header can be read. |
| `P11Layout.HeaderFoundExactly` | external_libs/tob_sim/common/src/MIAS.cpp:654-657 | The value header of a stored object is found if and only if the file has five bytes from there on. |
| `P11Layout.StoredObjectIsFound` | external_libs/tob_sim/common/src/MIAS.cpp:573-719 | For a whole laid-out card the object specified for a label is the first one stored under that name, however padded, whose value header can be read. |
| `MIASs.MIAS.AddKeyPair` | external_libs/tob_sim/common/src/MIAS.cpp:343-386 | Appends the key pair of the container to the pool and changes no other entry. |
| `MIASs.MIAS.ReadContainer` | external_libs/tob_sim/common/src/MIAS.cpp:338-391 | One container record: card and pool are those of exactly this read and its answer. A lost read is passed over as if its record were invalid; the loop ends at any other failure and when the pool is full. |
| `MIASs.MIAS.ReadContainers` | external_libs/tob_sim/common/src/MIAS.cpp:337-393 | Whatever is lost, card and pool after the loop are those of `PoolRead`; if no read is lost that is the specified pool of all the records below the announced size. |
| `Listings.PoolReadWhole` | external_libs/tob_sim/common/src/MIAS.cpp:337-393 | `PoolRead` follows the answers to the reads one by one; when none is lost it builds the pool that the content of the file says. |
| `Listings.PoolLossBound` | external_libs/tob_sim/common/src/MIAS.cpp:337-393 | The loop goes on behind a lost read: with up to 16 records the pool misses at most one key pair for each lost command. |
| `Listings.SameKeysFound` | external_libs/tob_sim/common/src/MIAS.cpp:456-468 | Marking certificates neither adds nor removes key pairs: a container is found in the index if and only if it is in the pool. |
| `MIASs.MIAS.MarkKeyPair` | external_libs/tob_sim/common/src/MIAS.cpp:414-423 | Exactly the first key pair of the container is marked with the file, and no identifier changes. |
| `MIASs.MIAS.MarkCertificates` | external_libs/tob_sim/common/src/MIAS.cpp:402-442 | Unless a read is lost the pool after the directory is the specified one: each certificate entry marks in directory order, so the last one of a container wins. No identifier changes in any case. |
| `MIASs.MIAS.MarkRecord` | external_libs/tob_sim/common/src/MIAS.cpp:403-442 | One turn of the loop: a record that is read in full marks as specified; one that is past the end of the file marks nothing. |
| `MIASs.MIAS.MarkFrom` | external_libs/tob_sim/common/src/MIAS.cpp:410-439 | One directory record marks as specified. |
| `MIASs.MIAS.ListKeyPairs` | external_libs/tob_sim/common/src/MIAS.cpp:302-454 | The first listing goes ahead exactly when the containers' file can be selected and answers like a file. It then counts as done for good: whatever was lost, its key pairs are those of `PoolRead`, and the index is that of the card's files if no command was lost. After that the index is unchanged and no command is sent. |
| `MIASs.MIAS.ListSelected` | external_libs/tob_sim/common/src/MIAS.cpp:321-446 | The same once the containers' file is selected. |
| `MIASs.MIAS.MarkDirectory` | external_libs/tob_sim/common/src/MIAS.cpp:395-446 | The second half of the listing; without a directory that can be read no key pair is marked. |
| `MIASs.MIAS.GetKeyPairByContainerId` | external_libs/tob_sim/common/src/MIAS.cpp:456-468 | Finds exactly the first key pair of the container in that index; once there is one, later calls give the same answer and send nothing. |
| `Loss.WrongForGood` | external_libs/tob_sim/common/src/MIAS.cpp:302-468 | A card that loses a single command, the read of its one container record: the key pair is not found, nor at any later call, though nothing more is lost and the card says that it exists. |
| `Listings.LostRecord` | external_libs/tob_sim/common/src/MIAS.cpp:338-391 | The lost read of the only record leaves the pool empty. |
| `KeyIndex.RecordIdentifier` | external_libs/tob_sim/common/src/MIAS.cpp:348-384 | The low digit of a key identifier is the record's number plus one modulo 16, for every 8-bit counter value; an unsupported record has none that any container asks for. |
| `KeyIndex.LookupPool` | external_libs/tob_sim/common/src/MIAS.cpp:337-393 | Looking up a container in the pool built from the first records gives exactly its own record, when it is usable. |
| `KeyIndex.LookupMarked` | external_libs/tob_sim/common/src/MIAS.cpp:402-442 | Marking changes exactly the certificate of the containers named, to the last entry that names them. |
| `KeyIndex.IndexIsDirect` | external_libs/tob_sim/common/src/MIAS.cpp:302-468 | When the usable containers are well numbered, looking a container number up gives, if and only if its record is valid with 1024 or 2048 bits, the key class, flags and size of that record, has-certificate if and only if a mscp/kxcNN or kscNN entry exists for it, and the last such entry's file. |
| `KeyIndex.IndexTellsTheCard` | external_libs/tob_sim/common/src/MIAS.cpp:302-468 | The same for the index built from a whole card. |
| `KeyIndex.IndexIsDirectExactly` | external_libs/tob_sim/common/src/MIAS.cpp:302-468 | For any number of records: the index answers every container number below 256 correctly if and only if every usable container below 256 has a number below 15, and every usable record from 256 on that still enters the pool has low digit 15, which no container asks for, or shares its low digit with a usable container. |
| `KeyIndex.FifteenContainers` | external_libs/tob_sim/common/src/MIAS.cpp:302-468 | With at most 15 container records that holds. |
| `KeyIndex.SeventeenthContainer` | external_libs/tob_sim/common/src/MIAS.cpp:357-358 | A card for which it does not: container 16 alone is usable and is found under number 0. |
| `KeyIndex.PoolSize` | external_libs/tob_sim/common/src/MIAS.cpp:341-346 | The pool holds the key pairs of the first sixteen records in use. |
| `KeyLayout.IssuedIsKnown` | external_libs/tob_sim/common/src/MIAS.cpp:302-468 | The index inverts the issuer's layout: of any card laid out with up to fifteen key containers, any directory with certificate files named kxcNN or kscNN, and a template built from any TLVs that state the size, it knows each container number by identifier, flags, size, and the last file laid out for it, and no other. |
| `KeyLayout.IssuedCertificate` | external_libs/tob_sim/common/src/MIAS.cpp:470-486 | The certificate file of a container is the last one laid out for it. |
| `KeyLayout.EntryNames` | external_libs/tob_sim/common/src/MIAS.cpp:410-436 | The two decimal digits of the name are the number of the container, and only kxc and ksc files under mscp are certificates. |
| `KeyLayout.LastNamed` | external_libs/tob_sim/common/src/MIAS.cpp:402-442 | The directory entry that decides is that of the last file laid out. |
| `KeyLayout.ContainerUsable` | external_libs/tob_sim/common/src/MIAS.cpp:341-384 | A laid-out record is usable exactly when its flag is not zero and its signature key, or else its exchange key, has 1024 or 2048 bits. |
| `MIASs.MIAS.GetCertificateByContainerId` | external_libs/tob_sim/common/src/MIAS.cpp:470-537 | Unless a command of this call is lost, reads the whole file the index names under every schedule of non-empty short reads; it succeeds exactly when that file exists, is not empty and the bytes in the buffer then do not start with 01 00 (with a null buffer: exists and is not empty). |
| `MIASs.MIAS.ReadCertificate` | external_libs/tob_sim/common/src/MIAS.cpp:481-532 | The same for the file at a path, its size being what the walk over its template leaves in a variable nobody has set, for any value of that variable. |
| `KeyIndex.StatedTotal` | external_libs/tob_sim/common/src/MIAS.cpp:476-499 | The walk over a template leaves the stated total size in that variable if there is one, and otherwise what the variable held. |
| `KeyIndex.SizeStatedExactly` | external_libs/tob_sim/common/src/MIAS.cpp:476-503 | The size of a certificate file is the same whatever the variable held if and only if the file states its total size. |
| `KeyIndex.SizeLeftToChance` | external_libs/tob_sim/common/src/MIAS.cpp:486-503 | A certificate file that states none, with any content: the size read is what the variable happened to hold. |
| `KeyIndex.SaneCertificateFacts` | external_libs/tob_sim/common/src/MIAS.cpp:476-503 | A file of which, whatever the variable held, as many bytes exist as are read, states its size. |
| `MIASs.MIAS.VerifyPin` | external_libs/tob_sim/common/src/MIAS.cpp:541-548 | True exactly when the card accepts the VERIFY with this PIN, which is the one command it receives. |
| `Conversations.KeyCommands` | external_libs/tob_sim/common/src/MIAS.cpp:160-175 | The card understands the choice of algorithm and key as given, each under its own tag, for signing and for deciphering. |
| `Conversations.DigestCommands` | external_libs/tob_sim/common/src/MIAS.cpp:120-150 | And the digest to be signed. |
| `Conversations.SignatureCommands` | external_libs/tob_sim/common/src/MIAS.cpp:180-196 | And the request to sign, and to go on with as many bytes as the last byte of the answer before says. |
| `Conversations.BlockCommands` | external_libs/tob_sim/common/src/MIAS.cpp:84-91 | And the blocks to be hashed or deciphered, up to 255 bytes. |
| `Conversations.FetchCommand` | external_libs/tob_sim/common/src/MIAS.cpp:285-289 | And the request for an answer that was not handed out. |
| `Conversations.DigestLengths` | external_libs/tob_sim/common/src/MIAS.cpp:124-145 | The digest lengths are those of SHA-1 and SHA-2 in bits over eight; other algorithms have none. |
| `MIASs.MIAS.PsoHashInternally` | external_libs/tob_sim/common/src/MIAS.cpp:72-99 | The card receives exactly the commands of `HashCommands`, up to the first failure; on success the data fields of what it has received concatenate to the input. Other algorithms are refused without a command. |
| `MIASs.MIAS.HashBlockwise` | external_libs/tob_sim/common/src/MIAS.cpp:84-98 | The loop for a given block size leaves the card as playing `HashCommands` does. |
| `Pso.HashBlocks` | external_libs/tob_sim/common/src/MIAS.cpp:84-98 | The data fields of those commands concatenate to the input; all are full except possibly the last, which is not empty. |
| `Pso.PlayHeard` | external_libs/tob_sim/common/src/MIAS.cpp:84-98 | Playing commands until one fails, the card receives a prefix of them, and all of them on success. |
| `Pso.HashHeard` | external_libs/tob_sim/common/src/MIAS.cpp:84-98 | When hashing succeeds the data fields of the commands the card has received concatenate to the input. |
| `Conversations.HashTold` | external_libs/tob_sim/common/src/MIAS.cpp:84-98 | What the card understands is nothing but blocks to be hashed, which on success make up the data. |
| `MIASs.MIAS.PsoDecipher` | external_libs/tob_sim/common/src/MIAS.cpp:253-300 | Card, success and plain text are those of playing `DecipherCommands` and, when the answer is empty, GET RESPONSE, for every cipher text the command buffer holds. |
| `Pso.DecipherBlocks` | external_libs/tob_sim/common/src/MIAS.cpp:256-280 | Those commands are correctly chained, every data field has at most 255 bytes, and the fields concatenate to 0x81 and the cipher text if and only if the cipher text has at most 509 bytes. |
| `Pso.DecipherHeard` | external_libs/tob_sim/common/src/MIAS.cpp:256-280 | When the whole cipher text is accepted, the card has received correctly chained commands whose data fields concatenate to 0x81 and the cipher text if and only if that has at most 509 bytes. |
| `Conversations.BlocksUnderstood` | external_libs/tob_sim/common/src/MIAS.cpp:253-280 | The card understands both blocks of the cipher text, the first marked as followed by more, if and only if it has at most 509 bytes. |
| `Conversations.DecipherTold` | external_libs/tob_sim/common/src/MIAS.cpp:282-296 | The plain text is the data of the last answer; if that has none, GET RESPONSE is sent and its data is. |
| `MIASs.MIAS.FetchPlain` | external_libs/tob_sim/common/src/MIAS.cpp:285-293 | The card receives GET RESPONSE and its data, or failure, is the result. |
| `MIASs.MIAS.PsoComputeDigitalSignature` | external_libs/tob_sim/common/src/MIAS.cpp:180-231 | The card goes through PSO and then, for each answer with data and 61xx, ENVELOPE with the Le that answer gave, up to the first answer that is not one. It succeeds if and only if that one carries data and 9000, and then returns the concatenation of all data and its length modulo 2^16. |
| `Pso.RequestsHeard` | external_libs/tob_sim/common/src/MIAS.cpp:185-203 | The conversation of such a chain, byte by byte: PSO, then ENVELOPE with each Le taken from the last byte of the answer before. |
| `Conversations.ChainTold` | external_libs/tob_sim/common/src/MIAS.cpp:185-203 | What the card understands: the request to sign, and as many requests to go on as answers have promised more. |
| `Conversations.ContinuationBytes` | external_libs/tob_sim/common/src/MIAS.cpp:194-196 | The last command received after the next answer is ENVELOPE with the last byte of the answer before. |
| `Conversations.PartsCollected` | external_libs/tob_sim/common/src/MIAS.cpp:185-203 | The chain completes at its n-th answer if and only if all before end with 61xx, it ends with 9000, and all carry data; what is collected is their data in order. |
| `Pso.EndIsUnique` | external_libs/tob_sim/common/src/MIAS.cpp:189-203 | Where the chain ends is determined by the card. |
| `MIASs.MIAS.Collect` | external_libs/tob_sim/common/src/MIAS.cpp:185-196 | Sends the next command of that chain and takes the card's answer to it. |
| `MIASs.MIAS.Append` | external_libs/tob_sim/common/src/MIAS.cpp:189-192 | Appends one answer's data behind the others. |
| `MIASs.MIAS.PsoHashExternally` | external_libs/tob_sim/common/src/MIAS.cpp:120-158 | Sends exactly as many digest bytes as the algorithm has and tells whether the card accepted them; other algorithms are refused without a command. |
| `MIASs.MIAS.SignInit` | external_libs/tob_sim/common/src/MIAS.cpp:734-738 | Remembers the algorithm; the card receives the command with this algorithm and key, and success is its. |
| `MIASs.MIAS.SignFinal` | external_libs/tob_sim/common/src/MIAS.cpp:740-747 | The card receives the digest and then the chain of the signature; it succeeds if and only if the digest is accepted and the signature completes, and then returns the whole signature. |
| `MIASs.MIAS.DecryptInit` | external_libs/tob_sim/common/src/MIAS.cpp:749-753 | The card receives the command with this algorithm and key, and success is its. |
| `Base64.TablesInverse` | external_libs/tob_sim/common/src/base64.c:24-34 | The decoding table maps exactly the 64 characters of the alphabet back to their values. |
| `Base64.Encode` | external_libs/tob_sim/common/src/base64.c:95-120 | Writes exactly `owl_base64encode_len` bytes: the encoding as 24-bit groups, padding and NUL; nothing before or behind them changes. |
| `Base64.EncodedLength` | external_libs/tob_sim/common/src/base64.c:91-93 | The length function is exact for every input. |
| `Base64.EncodeTriple` | external_libs/tob_sim/common/src/base64.c:101-104 | Masks and shifts give the four six-bit digits of the three bytes' 24-bit number. |
| `Base64.EncodeTail` | external_libs/tob_sim/common/src/base64.c:106-116 | The last one or two bytes give two or three digits of the zero-filled group and the padding. |
| `Base64.QuadBytes` | external_libs/tob_sim/common/src/base64.c:66-72 | The decoder's shifts recover any three bytes from the four digits of their 24-bit number. |
| `Base64.SextetsDecode` | external_libs/tob_sim/common/src/base64.c:51-120 | Decoding the digits of any byte string gives it back. |
| `Base64.RoundTrip` | external_libs/tob_sim/common/src/base64.c:51-120 | Decoding the encoding of any byte string, followed by anything that does not begin with a character of the alphabet, gives it back. |
| `Base64.TestVectors` | external_libs/tob_sim/common/src/base64.c:95-120 | The encodings of f, fo and foo are those of section 10 of RFC 4648. |
| `Base64.CountDigits` | external_libs/tob_sim/common/src/base64.c:41-45 | The scan stops at the first character outside the alphabet. |
| `Base64.DecodeLen` | external_libs/tob_sim/common/src/base64.c:36-49 | Never below, and at most three above, the number of bytes decoded. |
| `Base64.DecodeGroup` | external_libs/tob_sim/common/src/base64.c:67-83 | The shifted and truncated digits are the bytes of the group; nothing behind the limit changes. |
| `Base64.ReportedLength` | external_libs/tob_sim/common/src/base64.c:61-86 | The length correction gives exactly the number of bytes written for every number of digits. |
| `Base64.Decode` | external_libs/tob_sim/common/src/base64.c:51-87 | Writes exactly the bytes of the leading digits and returns their number; the rest of the buffer is unchanged. |
| `Pem.PemLength` | src/BreakoutTrustOnboardSDK.cpp:105-111 | `der_to_pem_len` is exactly the length of the PEM text for every header and content. |
| `Pem.PemLines` | src/BreakoutTrustOnboardSDK.cpp:72-103 | The text is the BEGIN line, the base64 body, and the END line, as they are written. |
| `Pem.ConvertDerToPem` | src/BreakoutTrustOnboardSDK.cpp:72-103 | Writes exactly the PEM text into a buffer of no more than `der_to_pem_len` bytes; every intermediate write, also the encoder's NUL, stays within it. |
| `Pem.PemBody` | src/BreakoutTrustOnboardSDK.cpp:72-103 | The base64 body behind the header line decodes to the content, whatever follows the text. |
| `Pem.CropPemChain` | src/BreakoutTrustOnboardSDK.cpp:113-132 | The scan is the matcher `Cropped`. |
| `Matcher.CropIsSound` | src/BreakoutTrustOnboardSDK.cpp:113-132 | For every text: if the scan ever matches, what is kept ends with the footer; otherwise everything is kept. |
| `Matcher.CropsAtFirst` | src/BreakoutTrustOnboardSDK.cpp:113-132 | A text is cropped at the first footer if and only if the state in which the scan arrives there leads to a match. |
| `Chain.CropsAtFooterExactly` | src/BreakoutTrustOnboardSDK.cpp:113-132 | That is the case if and only if the scan arrives there with nothing matched. |
| `Chain.CropsBehindDashes` | src/BreakoutTrustOnboardSDK.cpp:118-129 | Behind a character that no footer contains and a run of extra dashes the first footer is found if and only if the number of extra dashes is a multiple of six. |
| `Chain.CropsBehindText` | src/BreakoutTrustOnboardSDK.cpp:118-129 | The same behind any text that does not end in a dash or in a footer breaking off between its two runs of dashes. |
| `Chain.CropsBehindUnfinished` | src/BreakoutTrustOnboardSDK.cpp:118-129 | Behind a footer that breaks off there and itself stands where the scan starts anew, the next footer is found if and only if the number of dashes between is one more than a multiple of six. |
| `Chain.CropsAtLineStart` | src/BreakoutTrustOnboardSDK.cpp:113-132 | A first footer at the start of the text or behind a newline is always found, and the result ends there. |
| `Chain.OneDashTooMany` | src/BreakoutTrustOnboardSDK.cpp:118-129 | A text whose only footer is missed: the scan does not look again at the character that breaks a partial match. |
| `Chain.CroppedCertificate` | src/BreakoutTrustOnboardSDK.cpp:72-132 | Cropping a certificate written by the SDK and followed by any bytes yields exactly that PEM text, and its body decodes to the DER. |
| `AtCommands.HexString2BytesArray` | external_libs/tob_sim/platform/generic_modem/src/ATInterface.cpp:47-69 | Pairs of digits of either case become bytes, for any even number of characters. |
| `AtCommands.HexValues` | external_libs/tob_sim/platform/generic_modem/src/ATInterface.cpp:47-69 | Digits of either case, and no other characters, are taken for digits, with their values. |
| `AtCommands.HexRoundTrip` | external_libs/tob_sim/platform/generic_modem/src/ATInterface.cpp:32-69 | Reading the upper-case digits of any byte string gives it back. |
| `AtCommands.DecimalNumber` | external_libs/tob_sim/platform/generic_modem/src/ATInterface.cpp:110 | The decimal number written is the number read back in 16-bit arithmetic. |
| `AtCommands.CommandRoundTrip` | external_libs/tob_sim/platform/generic_modem/src/ATInterface.cpp:110-114 | The command line tells a modem that reads length, comma and quoted digits exactly the APDU. |
| `AtCommands.CommandWritten` | external_libs/tob_sim/platform/generic_modem/src/ATInterface.cpp:107-114 | The line as it is written: AT+CSIM=, the number of digits, and the upper-case digits in quotes. |
| `AtCommands.LinesWritten` | external_libs/tob_sim/platform/generic_modem/src/ATInterface.cpp:119-139 | The lines a modem writes: +CSIM: with its number, ERROR, and OK. |
| `AtCommands.CommandFitsExactly` | external_libs/tob_sim/platform/generic_modem/src/ATInterface.cpp:94-114 | The command line with its NUL fits the 537-byte buffer if and only if the APDU has at most 260 bytes, and fills it at 260. |
| `AtCommands.ChainedCommandsFit` | external_libs/tob_sim/common/src/MIAS.cpp:253-280 | All commands of the MIAS chaining code fit. |
| `AtCommands.AnswerFits` | external_libs/tob_sim/platform/generic_modem/src/ATInterface.cpp:119-139 | The modem's answer line for 1 to 258 response bytes is a proper one and fits the buffer. |
| `AtCommands.MarkerTest` | external_libs/tob_sim/platform/generic_modem/src/ATInterface.cpp:119-124 | Comparing the start of the never-cleared buffer with a marker tells whether the latest line starts with it. |
| `AtInterface.ATInterface.ReadLine` | external_libs/tob_sim/platform/generic_modem/src/ATInterface.cpp:71-91 | Reads exactly the next line, through reads that deliver nothing, leaves the rest of the buffer as it was and the rest of the input unread; fails exactly when no newline comes. |
| `AtInterface.ATInterface.BytesArray2HexString` | external_libs/tob_sim/platform/generic_modem/src/ATInterface.cpp:32-45 | Writes the upper-case digits of the bytes. |
| `AtInterface.ATInterface.FormatCommand` | external_libs/tob_sim/platform/generic_modem/src/ATInterface.cpp:110-114 | Writes exactly the command line, within the buffer. |
| `AtInterface.ATInterface.SendCommand` | external_libs/tob_sim/platform/generic_modem/src/ATInterface.cpp:107-117 | Sends exactly that line. |
| `AtInterface.ATInterface.AwaitLine` | external_libs/tob_sim/platform/generic_modem/src/ATInterface.cpp:119-124 | Skips any finite run of lines that start with neither marker and stops at the first that does, with that line in the buffer. |
| `AtInterface.ATInterface.ParseLength` | external_libs/tob_sim/platform/generic_modem/src/ATInterface.cpp:126-132 | The length announced in the answer line. |
| `AtInterface.ATInterface.SkipToHex` | external_libs/tob_sim/platform/generic_modem/src/ATInterface.cpp:134-137 | The first digit of the response. |
| `AtInterface.ATInterface.ParseAnswer` | external_libs/tob_sim/platform/generic_modem/src/ATInterface.cpp:126-139 | Exactly the response bytes of the answer line. |
| `AtInterface.ATInterface.SendATCSIM` | external_libs/tob_sim/platform/generic_modem/src/ATInterface.cpp:93-155 | For any finite runs of other lines before the answer and before the final OK: sends exactly the command line and returns exactly the bytes of the answer line, or false at the error line; all input up to the final line is consumed. |
| `Modems.GenericModem.TransmitApdu` | external_libs/tob_sim/platform/generic_modem/src/GenericModem.cpp:22-62 | Through a modem that passes on whatever command it reads in the line it is sent, the result is the card's reply to exactly this command, for every reply of 1 to 258 bytes and with any other lines around it, or false when there is none. |
| `Modems.GenericModem.Carry` | external_libs/tob_sim/platform/generic_modem/src/GenericModem.cpp:22-62 | The interface on top of the modem: with the card of the wire behind the modem, the interface's buffers and wire change exactly as under its own device driver `SEInterface.TransmitApdu`, procedure answers included, for commands of up to 260 bytes. |
| `Sdk.SDK.SelectMias` | src/BreakoutTrustOnboardSDK.cpp:55-57 | Success opens exactly one channel of its own for MIAS; failure leaves everything as it was. |
| `Sdk.SDK.DeselectMias` | src/BreakoutTrustOnboardSDK.cpp:59-61 | After a session, or a failed selection, the card's channels are as before, no applet is selected, and what the card has received is one session. |
| `Sdk.SDK.SelectMf` | src/BreakoutTrustOnboardSDK.cpp:167 | The same for MF. |
| `Sdk.SDK.DeselectMf` | src/BreakoutTrustOnboardSDK.cpp:179 | The same for MF. |
| `Sdk.SDK.TobInitializeWithInterface` | src/BreakoutTrustOnboardSDK.cpp:267-283 | Newly created applets are connected and idle, and exactly the channels 1 to 13 have been closed. |
| `Sdk.SDK.SeP11ReadObject` | src/BreakoutTrustOnboardSDK.cpp:221-265 | On every path one session, after which the channels are as before. The PIN is reported refused exactly when the card does not accept the check, and nothing follows it then but the close. Unless a command of this call is lost the return value is the first of: selection, PIN, object missing, success; and success delivers exactly the specified object. |
| `Sdk.SDK.SeReadEf` | src/BreakoutTrustOnboardSDK.cpp:156-197 | One session of MF. When the selection succeeds, success delivers exactly the announced bytes of the file, the PIN is reported refused exactly when the card does not accept the check, with nothing behind it but the close, and unless a command of this call is lost the return value is the first of: PIN refused, file unreadable, success. When it fails the size is -1 and the return value is left open, as the program returns a variable it never set. |
| `Sdk.SDK.SeReadObject` | src/BreakoutTrustOnboardSDK.cpp:199-219 | A name of odd length or more than 64 digits is refused without a command; otherwise the file its digits name is read. |
| `Sdk.EfNamed` | src/BreakoutTrustOnboardSDK.cpp:199-214 | The hexadecimal digits of a file name stand for it up to 32 bytes; longer ones are refused. |
| `Sdk.SDK.ReadContainerCertificate` | src/BreakoutTrustOnboardSDK.cpp:349-358 | One session. Unless a command of this call is lost, return value, size and bytes are those of the certificate file the card's key index names, and the index is the card's if it was before or there was none. |
| `Sdk.SDK.RefusedIsWritten` | external_libs/tob_sim/common/src/MIAS.cpp:507-527 | A certificate whose file is there and not empty is refused if and only if what was read starts with 01 00, and all of it is then in the caller's buffer. |
| `Sdk.SDK.ParseContainer` | src/BreakoutTrustOnboardSDK.cpp:342-347 | The container number is that of `NumberOf`. |
| `Sdk.NumberOfDecimal` | src/BreakoutTrustOnboardSDK.cpp:342-347 | Which for the decimal digits of any number is that number modulo 256. |
| `Sdk.Paths` | src/BreakoutTrustOnboardSDK.cpp:318-349 | Paths written SE://EF/, SE://MIAS_P11/ and SE://MIAS/ name a file, an object and a container by what follows. |
| `Sdk.ObjectNames` | src/BreakoutTrustOnboardSDK.cpp:40-44 | The objects read are CERT_AVAILABLE and PRIV_AVAILABLE, and CERT_TYPE_A and PRIV_TYPE_A. |
| `Sdk.SDK.X509CrtExtractSe` | src/BreakoutTrustOnboardSDK.cpp:318-373 | By prefix of the path: file, PKCS#11 object, container, or bad name, each with the outcome above; channels restored on every path. |
| `Sdk.SDK.PkExtractSe` | src/BreakoutTrustOnboardSDK.cpp:375-405 | The same for keys, with one zero byte added to what is delivered and to the size. |
| `Sdk.SDK.TobExtractAvailableCertificate` | src/BreakoutTrustOnboardSDK.cpp:407-419 | Whatever is lost: one session, or, exactly when the first reports that it could not read an object, two. Each comes to the first failing step of selection, PIN and object if no command of it is lost, the second under the older name; success without loss delivers the first certificate of the chain stored under the name read. Channels restored on every path. |
| `Sdk.SDK.TobExtractAvailablePrivateKey` | src/BreakoutTrustOnboardSDK.cpp:445-456 | The same for the key; the PEM text is that of the delivered DER with its zero byte, its size announced exactly. |
| `Sdk.SDK.TobExtractAvailablePrivateKeyDer` | src/BreakoutTrustOnboardSDK.cpp:437-443 | The same for the key, with its zero byte. |
| `Sdk.SDK.AgainIsDetermined` | src/BreakoutTrustOnboardSDK.cpp:437-443 | Outcome and end of the first session are determined by what the card has received in the end, if no command of the call was lost. |
| `Sdk.SDK.TobExtractSigningCertificate` | src/BreakoutTrustOnboardSDK.cpp:421-435 | Container 0 in DER and PEM; the PEM size announced is exact. One session. |
| `Extraction.AvailableKey` | tests/BreakoutTrustOnboardSDKTests.cpp:70-93 | The test's sequence of size query, allocation of exactly that much, and delivery, on a card that treats repeated reads alike. Unless a command of the two calls is lost, both return the same, which is the outcome of the first name unless that cannot be read, and then of the older one; on success both sizes agree and the buffers hold exactly the key with its zero byte and its PEM text. That the delivery may be called with these buffers needs no loss at all, or objects of one length. |
| `Extraction.AvailableCertificate` | tests/BreakoutTrustOnboardSDKTests.cpp:52-68 | The same for the available certificate: the queried size is the chain's; delivered is exactly the chain's first certificate. |
| `Extraction.SigningCertificate` | tests/BreakoutTrustOnboardSDKTests.cpp:95-115 | The same for the signing certificate: the query succeeds if and only if the applet can be selected and the key index names a file that is not empty, and reports its size; delivery then fails if and only if the file starts with 01 00, and the buffers hold exactly the file and its PEM text. |
| `Extraction.DeliverSigning` | tests/BreakoutTrustOnboardSDKTests.cpp:95-115 | The second of these calls, with buffers of the queried sizes. |
| `Extraction.FateOfCall` | tests/BreakoutTrustOnboardSDKTests.cpp:52-93 | On such a card every call without a lost command comes to the same, whenever it is made. |
| `Extraction.SizeSuffices` | tests/BreakoutTrustOnboardSDKTests.cpp:52-93 | The size a query reports is what a later call can come to deliver, if no command is lost from the query on or all objects of the names have one length. |
| `Extraction.ObligingOutcome` | src/BreakoutTrustOnboardSDK.cpp:221-265 | On a card that refuses nothing and accepts the PIN, a read whose selection and PIN check arrive succeeds if and only if the object is stored. |
| `Extraction.ObligingIsAlike` | src/BreakoutTrustOnboardSDK.cpp:221-265 | Such a card treats repeated reads and selections alike. |
| `Extraction.QueriesAgreeExactly` | src/BreakoutTrustOnboardSDK.cpp:407-443 | On any card: the sizes of a successful query and a successful delivery without lost commands agree when only one name is stored, and with both stored if and only if the applet could be selected at the beginning of both calls or of neither, or the objects have one length. |
| `Extraction.NameOfCall` | src/BreakoutTrustOnboardSDK.cpp:407-443 | A successful call without a lost command has read a stored object, under the older name exactly when the other is missing or the applet could not be selected. |
| `Refusal.QueryMisleads` | src/BreakoutTrustOnboardSDK.cpp:407-411 | A card, for every object under the first name and every shorter one under the older, that stores both and refuses a single command: the query reads the older name and the delivery after it the other, which does not fit a buffer of the queried size. |
| `Refusal.BothFound` | external_libs/tob_sim/common/src/MIAS.cpp:573-719 | On that card both objects are found under their names. |
| `Refusal.DataEntries` | external_libs/tob_sim/common/src/MIAS.cpp:606-614 | There are directory entries for two such objects. |
| `KeyIndex.IndexNamesCertificates` | external_libs/tob_sim/common/src/MIAS.cpp:402-442 | The index names only certificate files of the directory. |
| `Sdk.SDK.TobSigningSign` | src/BreakoutTrustOnboardSDK.cpp:458-503 | The card receives one session: after the listing of the key pairs, if they were not listed before, exactly PIN check, choice of algorithm and the key of container 0 in the index, digest and signature chain, up to the first that fails, and the close. The return value tells which failed; success delivers the whole signature. |
| `Sdk.SDK.TobSigningDecrypt` | src/BreakoutTrustOnboardSDK.cpp:505-550 | The same for deciphering, with the chained cipher text; success delivers the card's plain text. |
| `Sdk.SDK.ListingEndIsDetermined` | src/BreakoutTrustOnboardSDK.cpp:482-489 | Where in the conversation the listing is over is determined by what the card has received in the end. |
| `Sdk.SDK.SigningGoesOn` | src/BreakoutTrustOnboardSDK.cpp:487-498 | If the PIN check is not lost it is the first thing received after the listing. |
| `Sdk.SDK.DecryptingGoesOn` | src/BreakoutTrustOnboardSDK.cpp:534-545 | The same for deciphering. |
| `Conversations.SigningTold` | src/BreakoutTrustOnboardSDK.cpp:487-498 | What a signing call tells the card from there on, as far as it gets and completely on success: check this PIN, sign with this algorithm and the key of the index, take this digest, sign, and go on as promised. It reports the PIN as refused exactly when the card does not accept the check, and success exactly when key and digest are accepted and the signature completes. |
| `Conversations.DecryptingTold` | src/BreakoutTrustOnboardSDK.cpp:534-545 | What a deciphering call tells it: check this PIN, decipher with algorithm 0x1A and the key of the index, the blocks of 0x81 and the cipher text, and possibly to hand out the answer. It reports the PIN as refused exactly when the card does not accept the check. |
| `Sdk.SDK.TobSigningLen` | src/BreakoutTrustOnboardSDK.cpp:552-582 | The modulus length of container 0 by the index, which is the card's unless a command was lost, or the error. One session. |
| `Service.Make` | src/BreakoutTrustOnboardSDK.cpp:407-582 | Every public call, whatever fails or is lost in it, is one session, or two where there are two names, with its own commands in it: for a signature or plain text the card at the end is that of PIN check, algorithm and key, and what follows. It leaves the SDK idle and the card's open channels and files as they were. |
| `Service.Serve` | src/BreakoutTrustOnboardSDK.cpp:407-582 | Any sequence of public calls: each has led on from the card at which the one before it ended, by just that relation, and after each the open channels are those before the first. |
| `Service.Use` | src/BreakoutTrustOnboardSDK.cpp:267-582 | Creation, initialization and any sequence of public calls on a card whose open channels are 1 to 13: initialization closes them all, the calls follow one another from there, and no channel is open after any of them. |

## Left out

What the card model fixes:

- The card offers channels 1 to 3 only; the program's masks (`& 0x03`) and its or-ing of the channel into the class byte are right for no others.
- READ BINARY offsets stay below 0x8000, above which P1 means something else to a card; files and values that reach further are excluded by the readers' preconditions.
- 6Cxx answers only commands without a data field: the program's retry overwrites byte 4, which is Lc in the others.
- SELECT by path answers the whole control parameter template whatever Le says; READ BINARY past the end of a file answers 6282 with what there is, or 6B00.
- A lost command never reached the card; an answer lost after the card has executed the command is not modelled.
- A close the environment lets through is never lost. That the card closes channels when told is assumed for whole runs and for the public calls, and is exactly what `Channels.SelectKeepsExactly` shows to be needed.
- How a card may cut reads short is a property of the file: reads that start below `whole` are complete. The readers require it for records and headers, never for values and certificates.

- `Instructions.Understood` knows the commands of the modelled calls and no others.

What the readers require of the card's files:

- P11GetObjectByLabel: labels of at most 20 bytes that are not blank (the record buffer has 21 bytes and the trimming counter is unsigned), at most 32 directory entries, value headers with 0, 2, 3 or 4 length bytes, values inside their file. For other headers see `P11Objects.FiveBytesDetermineExactly` and `P11Layout.OneLengthByteMisread`.
- Buffers must hold what is delivered: the object or certificate the call comes to read when no command is lost, otherwise any object with the label or any certificate file of the directory, because a lost command can make the program skip to a later one.
- GetCertificateByContainerId also needs two bytes in the buffer whatever the file's size, since the program always looks at two.
- ListKeyPairs: a container template with two-byte sizes, short enough for the program's 8-bit counters.
- GetCertificateByContainerId: certificate files that have as many bytes as are read, whatever the unset size variable held; `ReadCertificate` is stated for each value of it.

What the methods do not say:

- SeReadEf: what it returns when the selection fails, since the program returns a variable it never set.
- PkExtractSe: reading a file into a buffer needs a selection that succeeds: otherwise the program may take the variable it never set for success and writes the zero byte in front of the buffer.
- SeP11ReadObject: a null PIN, which the program passes on to `strlen`; the signing calls do the same.
- TobSigningSign: the given hash must be as long as the algorithm's digest, since the program ignores the length it is given; every chain of answers that promise more must end. Of the commands that list the key pairs it says only that they select and read files.
- GetKeyPairByContainerId: which certificates are marked when a read of the directory is lost.
- AvailableKey: cards that treat a repeated read differently are covered by `Extraction.QueriesAgreeExactly`, not by the three calling methods.
- PsoDecipher: cipher texts of more than 511 bytes, which overrun the command buffer.
- PsoHashInternally: the hash calls around it (`hashInit`, `hashFinal`) send one opaque command each and would add nothing.
- SendATCSIM: the input up to the answer and the final OK must arrive; when the serial line fails while a line is read, the program goes on with what the buffer holds.
- ReadLine: one character per read, as the program asks for; lines longer than the buffer are excluded.

Not modelled:

- MF and MIAS hold an applet instead of inheriting from it.
- Nested loops and deeply nested conditions of one function are split over several methods here; each is proved separately.
- The interface's virtual `transmitApdu` is a method that acts on the card model directly. `GenericModem.Carry` does the same through AT+CSIM for one command; the recursion `SEInterface.Transmit` is proved over the former only.
- The decoding table of base64 is given by its runs, not by its 256 entries.
- `select(true)` and the basic channel, which the SDK never uses.
- `changePin` of both applets.
- The operating system's serial ports, modems, smart card readers and memory allocation; `tobInitialize` only chooses among them.
- The contents of signatures, hashes, certificates and PINs.
- The branches compiled out (`USE_GAT_RESPONSE`, debug output, the C variants) and the C accessors.
- The libraries and tools above the SDK.
