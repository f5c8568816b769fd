# Verification of an SMB2 file server

The server speaks SMB 2.x/3.x over Direct TCP to Windows, macOS and Linux clients and serves local folders or
a remote HTTP filesystem. This project models the parts of it where a fast or stateful implementation has to
agree with something simple, and proves that it does:

- **Read-ahead** (`ReadAhead`, `ReadAheadRace`). An open file answers most reads from a window of bytes tagged
  with a filesystem-wide generation. `ReadAhead` has the objects and proves, one caller at a time, that reads
  are what the provider would answer. `ReadAheadRace` has the same code as interleaved steps of any number of
  threads and proves freshness: a read that begins after a mutation has been bumped never returns older bytes.
- **Directory enumeration** (`Wildcard`, `Enumerate`, `Lookup`, `DirBuffer`, `Utf16`). The greedy matcher against
  the recursive meaning of a glob; the lookup by one stat against listing and filtering, on a tree of folders
  with cleaned paths; the paged cursor, over whole scans; and the chained 8-aligned records against a client
  that walks them.
- **Hash and MAC** (`BlockHash`, `Md4`, `Cmac`, `Bits`). The buffering digest object and the rotating-register
  rounds against RFC 1320; the chunked AES-CMAC against RFC 4493, over an arbitrary block function.
- **Compound requests** (`Signing`, `Compound`, `Sequential`). Splitting, inheriting, verifying and substituting
  in place, dispatching, reassembling and signing; and a compound chain against its commands sent alone.
- **Open files** (`Handles`, `FileServer`). The handle table, CREATE, CLOSE, SET_INFO and the rest over an arbitrary
  backend whose answers may depend on every call before, with a log of all calls; invariants over whole
  connections. `FileServer` puts CREATE and CLOSE of that table behind the compound machine.
- **Concurrency skeletons** (`Pipeline`, `Transport`, `Shutdown`). The reader and writer of a connection and the
  framing between them and the peer; accepting and leaving against any number of shutdowns.
- **Parsers and printers** (`Der`, `CreateContexts`). DER elements, SPNEGO tokens, and CREATE contexts.

`Bytes` holds little-endian fields and buffers. Objects the source updates in place are classes here (`FS`,
`File`, `Digest`, `Compound.Conn`, `Handles.Conn`, `OpenDir`, `Source`, `Sink`), with methods proved against
functions of their old state; goroutines are step relations.

## Where the plain claim is false

The code was kept as it is, and the exact condition proved:

- The wildcard matcher tries a literal match before a star, so pattern `*b` rejects the name `*ab`. It can be
  trusted on a name, whatever the pattern, exactly when the name holds no star
  (`Wildcard.TrustedExactlyWithoutStar`); what it accepts is right on every name.
- A lookup by name joins the name to the folder's path, which the backend cleans. It finds what listing and
  filtering would have, on every tree and in every folder, exactly when the name is not `.` or `..` and holds
  no slash (`Lookup.LookupAgreesExactlyOnPlainNames`). For any other name there is a tree on which Stat answers
  and nothing is listed, made of the folders the name resolves to (`Lookup.OtherNamesDisagree`).
- CREATE opens an existing folder where its disposition asks to overwrite: OVERWRITE of a folder `d` that is
  there succeeds and leaves it as it is (`Handles.OverwritingAFolderOpensIt`). What is not refused does as its
  disposition asks exactly when it is not such a folder (`Handles.PlanDoesWhatIsWanted`), and when it is refused
  is said by an equivalence too (`Handles.RefusesExactly`).
- A read-ahead window larger than the provider's 8 MiB cap takes the cap for the end of the file. Windowed
  reads are direct reads exactly when the window is at most the cap (`ReadAhead.WindowIsTransparentUpToCap`).
- `writeMessage` lets a message of 2^24 bytes through, which frames as length 0. A stream is read back exactly
  when no message is that long (`Transport.StreamIsReadBackExactly`). The comment that the first byte of a frame
  must be zero is not enforced: a stream reads the same whatever that byte is (`Transport.FirstByteIsIgnored`).
  And no length that three bytes can say is over the reader's limit of 16 MiB (`Transport.Num24`).
- `derLen` keeps 16 bits. An element is read back exactly when its content is shorter than 65536 bytes
  (`Der.ReaderUndoesPrinter`), and a token exactly when it leaves room for its layers (`Der.ExtractUndoesBuild`).
- UTF-16 names survive decoding exactly when every surrogate is half of a pair (`Utf16.DecodingIsExact`).
- A related SESSION_SETUP is answered for the session id in its own header, while the chain goes on with its
  own; all other commands agree with their stand-alone form (`Sequential.AgreesExactlyWithoutOwnSession`).
- A closed FileId is refused ever after, except by FLUSH and CLOSE, which answer success for any unknown one;
  none of them reaches the backend (`Handles.Connection`).

## Model

| member | source | states |
|---|---|---|
| ReadAhead.FS.Mutate | internal/httpvfs/httpvfs.go:203-237 | a mutating request changes the contents as the provider says or not at all, and the generation moves whenever file contents do |
| ReadAhead.DirectMeans | internal/httpvfs/httpvfs.go:411-430 | a direct read gives the bytes from the offset on, as many as asked for but at most 8 MiB and not beyond the end, and end-of-file with any short answer |
| ReadAhead.FS.OpenFile | internal/httpvfs/httpvfs.go:249-280 | creating and truncating are mutations of their own, so a failed truncation leaves the new file; without creating, what is not a file cannot be opened and nothing changes; write intent on a read-only filesystem reaches nobody; no contents change without a bump |
| ReadAhead.File.Fetch | internal/httpvfs/httpvfs.go:411-430 | one request for exactly the bytes asked, copied to the front of the buffer, the rest of which is untouched |
| ReadAhead.File.ReadAt | internal/httpvfs/httpvfs.go:379-407 | with an honest window of at most the provider's cap, the bytes, the count and end-of-file are those of a direct read, and the window stays honest |
| ReadAhead.File.ReadWindowed | internal/httpvfs/httpvfs.go:384-406 | serving from the window or refilling it, as the step function says |
| ReadAhead.File.WriteAt | internal/httpvfs/httpvfs.go:432-451 | an accepted write bumps once and drops the handle's own window, also when its reply is short or unreadable and an error is returned; a refused one changes nothing |
| ReadAhead.WindowAnswersLikeProvider | internal/httpvfs/httpvfs.go:379-407 | a window that holds what one request would bring answers any request like the provider, and what it leaves is honest again |
| ReadAhead.HitIsDirect | internal/httpvfs/httpvfs.go:386-394 | what a fresh window gives from inside is the direct read |
| ReadAhead.FillIsDirect | internal/httpvfs/httpvfs.go:397-406 | and so is what is cut from a window just filled |
| ReadAhead.ReadsFollowProvider | internal/httpvfs/httpvfs.go:379-430 | every read of any sequence of offsets and lengths is the direct read |
| ReadAhead.OversizedWindowCutsFileShort | internal/vfsprovider/vfsprovider.go:154-156 | any window over the cap has a file and two reads on which it loses bytes |
| ReadAhead.WindowIsTransparentUpToCap | internal/httpvfs/httpvfs.go:379-430 | windowed reads equal direct reads for all files and request sequences if and only if the window is within the cap |
| ReadAhead.Session | internal/httpvfs/httpvfs.go:300-451 | over any run of reads, writes and other mutations on any number of handles, the reads return what the provider alone would |
| ReadAheadRace.StepKeepsInv | internal/httpvfs/httpvfs.go:237-451 | each step of each thread keeps: a window tagged with the current generation holds contents no older than the last bumped mutation, mutexes have one holder, and every read in progress is covered by the generation it loaded |
| ReadAheadRace.NextKeepsInv | internal/httpvfs/httpvfs.go:254-451 | the same with files being opened at any time |
| ReadAheadRace.InvHolds | internal/httpvfs/httpvfs.go:237-451 | the invariant in every state of every run |
| ReadAheadRace.FloorsPersist | internal/httpvfs/httpvfs.go:237 | generations and what they vouch for only grow along a run |
| ReadAheadRace.ReadsAreNeverStale | internal/httpvfs/httpvfs.go:379-451 | in every interleaving, a read that begins after a mutation was bumped returns the provider's own answer from contents at least as recent as that mutation |
| ReadAheadRace.HolderCanMove | internal/httpvfs/httpvfs.go:383-406 | whoever holds a handle's mutex has a step of its own, so reads do not deadlock |
| ReadAheadRace.EveryThreadCanMove | internal/httpvfs/httpvfs.go:237-451 | no thread is stuck: each has a step of its own unless it waits for a mutex that another holds |
| Wildcard.WildcardMatch | internal/smb/info.go:238-260 | the loop terminates (measure: mark, then name, then pattern) and answers what its cursor semantics says |
| Wildcard.LatestStarSuffices | internal/smb/info.go:245-252 | at a new star, what retrying an earlier one could still reach the new one can reach as well: only the latest star need be retried |
| Wildcard.AgreesWithGlob | internal/smb/info.go:238-260 | on names without a star the matcher accepts exactly what the recursive glob accepts |
| Wildcard.SoundOnEveryName | internal/smb/info.go:238-260 | on every name, what is accepted matches the glob |
| Wildcard.TrustedExactlyWithoutStar | internal/smb/info.go:240-254 | for a name: agreement on all patterns if and only if the name holds no star |
| Enumerate.MatchPattern | internal/smb/info.go:222-234 | replaces the DOS wildcards, then equality or the matcher, folded where the backend folds |
| Enumerate.MatchesIsGlob | internal/smb/info.go:218-234 | the meaning of a pattern: equality, or the recursive glob, for names without stars |
| Enumerate.FilterByPattern | internal/smb/info.go:205-216 | the entries that match, in order |
| Enumerate.FilterPicks | internal/smb/info.go:205-234 | filtering keeps, in order and as often as listed, exactly the entries that fit: by the recursive glob of the pattern with `<` for `*` and `>` for `?`, or by equality without wildcards, up to case where the backend ignores it |
| Enumerate.ScanGivesWhatFits | internal/smb/info.go:144-193 | after a whole scan with a pattern that is no single name, the client has decoded exactly the listed entries that fit, as an increasing sequence of their places, and nothing from a folder that cannot be listed |
| Enumerate.ScanGivesAll | internal/smb/info.go:206-208 | with an empty pattern or `*`, all that is listed |
| Enumerate.ScanGivesTheOne | internal/smb/info.go:144-156 | with a single name, what the one Stat found, if anything |
| Enumerate.StarKeepsAll | internal/smb/info.go:206-208 | the shortcut for `*` is what filtering would have given |
| Lookup.PlainIsOneStep | internal/smb/create.go:285-290 | joined to any folder's path and cleaned, a plain name is one step below that folder |
| Lookup.PathsAreCleaned | internal/localfs/localfs.go:47-58 | behind any path, a slash or `.` stays there, `..` goes to the parent and no further than the root, and a plain name goes one step down |
| Lookup.PlainNameAgrees | internal/smb/info.go:144-173 | on every tree and in every folder, a lookup of a plain name gives the entry that listing and filtering would have left, but for the spelling |
| Lookup.OtherNamesDisagree | internal/localfs/localfs.go:47-66 | for every other name, a tree on which Stat answers for it and filtering the listing leaves nothing |
| Lookup.LookupAgreesExactlyOnPlainNames | internal/smb/info.go:144-173 | one stat agrees with list-then-filter on all trees and folders if and only if the name is not `.` or `..` and holds no slash |
| Enumerate.NextPage | internal/smb/info.go:183-190 | one entry if only one is wanted, otherwise as many as fit but at least one, encoded in order |
| Enumerate.PageMeans | internal/smb/info.go:183-190 | one entry if one is wanted; otherwise one entry more would not have fitted |
| Enumerate.OpenDir.QueryDirectory | internal/smb/info.go:138-193 | restart, load once, then pages from the cursor or NO_MORE_FILES; the cursor moves by exactly the entries sent |
| Enumerate.OpenDir.Load | internal/smb/info.go:144-173 | a listing is loaded only when none is, by one stat for a plain name, by ReadDir and filtering otherwise, empty when it cannot be listed |
| Enumerate.ServedDelivers | internal/smb/info.go:174-192 | one query moves the position by exactly the entries its client reads in the page, with the fields its class has |
| Enumerate.StaysUsedUp | internal/smb/info.go:174-176 | after NO_MORE_FILES every query without a restart answers the same |
| Enumerate.EveryEntryOnce | internal/smb/info.go:138-193 | for every scan with any buffer sizes, classes and single-entry flags, what the client decodes from the pages is the filtered listing entry by entry and in order, none lost and none twice, each with the time, size, attributes, FileId and access mask its page's class has; at most as many pages as entries; NO_MORE_FILES only when all were sent |
| Enumerate.AskingOnceMoreThanEntries | internal/smb/info.go:174-192 | one query more than there are entries gets everything and ends the scan |
| DirBuffer.EncodeEntry | internal/smb/info.go:586-615 | the writes at their offsets into a zeroed, padded buffer give the record of the class |
| DirBuffer.BuildDirInfoBuffer | internal/smb/info.go:572-623 | the chain of the first count entries, the last pointing nowhere; count is at least 1; the length is at most the larger of maxLen and the first record; the next entry would not have fitted |
| DirBuffer.CountIsMaximal | internal/smb/info.go:583-585 | no longer prefix of the entries stays within maxLen |
| DirBuffer.RecordHolds | internal/smb/info.go:586-615 | every field of a record is read as it was written, for each class that has it, whatever follows |
| DirBuffer.ChainIsRead | internal/smb/info.go:572-623 | a client's walk along NextEntryOffset finds exactly the encoded entries in order, with names, times, sizes, attributes, FileIds and macOS access masks, and ends at the last |
| DirBuffer.RecordsAreAligned | internal/smb/info.go:582-618 | every record starts where those before it end, at a multiple of 8 |
| DirBuffer.LayoutsAddUp | internal/smb/info.go:549-565 | the name stands behind the fields [MS-FSCC] lists for the class; unknown classes are served as the first |
| DirBuffer.AttributesMean | internal/smb/info.go:625-633 | a directory, a read-only file, or a normal one |
| DirBuffer.AppleMeans | internal/smb/aapl.go:178-195 | short-name length 24, no resource fork or Finder info, and UNIX modes 0755, 0644, and without write bits when read-only |
| DirBuffer.AccessIsRead | internal/smb/aapl.go:178-195 | the macOS layout carries read-only access exactly for a read-only share or file |
| Utf16.TextIsReadBack | internal/smb/packet.go:186-205 | decoding undoes encoding for every text |
| Utf16.DecodingIsExact | internal/smb/packet.go:186-195 | encoding undoes decoding if and only if every surrogate is half of a pair |
| Utf16.UnitsMean | internal/smb/packet.go:198-205 | one unit below U+10000, a high and a low surrogate of ten bits each above |
| Utf16.NameIsReadBack | internal/smb/packet.go:186-205 | a name survives the wire |
| Utf16.StringToUTF16le | internal/smb/packet.go:198-205 | fills the buffer with the units' bytes |
| Utf16.Utf16leToString | internal/smb/packet.go:186-195 | decodes the units, dropping an odd last byte |
| BlockHash.Blocks | internal/md4/md4block.go:20-80 | compresses every whole 64-byte block and returns how many bytes that was |
| BlockHash.Digest.Write | internal/md4/md4.go:61-85 | takes in all of p, whatever was buffered: registers, partial block and counter stand for everything written so far followed by p |
| BlockHash.Digest.Sum | internal/md4/md4.go:87-120 | appends the digest of everything written, changes nothing of the receiver, and never reaches the panic on a partial block |
| BlockHash.Digest.Reset | internal/md4/md4.go:41-49 | starts over |
| BlockHash.LengthField | internal/md4/md4.go:92-107 | counting bytes modulo 2^64 gives the padding and the length field of RFC 1320 |
| BlockHash.PaddingAsListed | internal/md4/md4.go:92-107 | 0x80, the fewest zeros that fill up the block, and the length in bits modulo 2^64, lowest byte first |
| BlockHash.StateTakesBlocks | internal/md4/md4.go:61-85 | compressing the whole blocks of a later piece continues the state of what was written before |
| BlockHash.Stream | internal/md4/md4.go:61-120 | for any sequence of writes and sums, every sum is the one-shot digest of the concatenation of the writes before it |
| BlockHash.SplitIsInvisible | internal/md4/md4.go:61-85 | splitting a write in two changes no later sum |
| Md4.SelectIsF | internal/md4/md4block.go:40 | the xor form of the first round's selection is F of RFC 1320 |
| Md4.FPicks | internal/md4/md4block.go:40 | bit by bit, F picks a bit of y or z by x |
| Md4.GIsMajority | internal/md4/md4block.go:50 | bit by bit, G is one exactly when at least two of three are |
| Md4.HIsParity | internal/md4/md4block.go:60 | bit by bit, H is one exactly when an odd number of three are |
| Md4.RotMovesBits | internal/md4/md4block.go:42 | a rotation moves bit i to i + s modulo 32 |
| Md4.UpdatesAsListed | internal/md4/md4block.go:50-62 | the operations of the rounds with their constants, none, 5A827999 and 6ED9EBA1 |
| Md4.StartsAsListed | internal/md4/md4.go:25-49 | the starting registers are 01 23 45 .. 32 10 as RFC 1320, section 3.3, lists their bytes |
| Md4.WordsAndSums | internal/md4/md4block.go:31-69 | message words are read lowest byte first, and the results added to the registers modulo 2^32 |
| Md4.Turn1IsUpdate | internal/md4/md4block.go:37-44 | one turn of the first loop is the operation of round 1 |
| Md4.Turn2IsUpdate | internal/md4/md4block.go:47-54 | one turn of the second loop is the operation of round 2 |
| Md4.Turn3IsUpdate | internal/md4/md4block.go:57-64 | one turn of the third loop is the operation of round 3 |
| Md4.FourTurnsAreARow | internal/md4/md4block.go:36-64 | four turns with rotating registers are one row of the RFC's tables |
| Md4.SixteenTurns | internal/md4/md4block.go:13-64 | sixteen turns with the index and shift tables are the 16 operations of a round as RFC 1320 lists them |
| Md4.OneBlock | internal/md4/md4block.go:20-80 | one block through the three loops is the compression of RFC 1320, section 3.4 |
| Md4.Md4Stream | internal/md4/md4.go:34-120 | every Sum of any run of operations is the MD4 digest of what was written |
| Cmac.GfMulX | internal/smb/crypto.go:236-245 | the byte loop with its carry is doubling as RFC 4493 has it |
| Cmac.ShiftLeftDoubles | internal/smb/crypto.go:238-241 | the shift is twice the big-endian value less the bit that falls out |
| Cmac.DoubleOnNumbers | internal/smb/crypto.go:236-245 | on 128-bit numbers, doubling is 2n, or (2n - 2^128) xor 0x87 when that is more than 128 bits |
| Cmac.Xor16 | internal/smb/crypto.go:247-251 | xors byte by byte, in place |
| Cmac.LastBlockAsListed | internal/smb/crypto.go:220-227 | byte by byte: a whole last block with K1, any other padded by 0x80 and zeros with K2 |
| Cmac.CmacAsListed | internal/smb/crypto.go:186-232 | the chain of the blocks before the last, xored with the last block and enciphered |
| Cmac.ChainInChunks | internal/smb/crypto.go:205-221 | chunks of any positive multiple of 16, carried over as IVs, give the unbroken chain, whatever the scratch held before |
| Cmac.AesCmac | internal/smb/crypto.go:186-232 | for every key, message and scratch the code of RFC 4493, section 2.4; zeros for a bad key |
| Signing.SignMessage | internal/smb/crypto.go:131-147 | signs a span in place and touches no other byte of the message |
| Signing.VerifyMessage | internal/smb/crypto.go:152-172 | answers whether the code of the blanked span is in its field, and leaves every byte as it was |
| Signing.SignedVerifies | internal/smb/crypto.go:131-172 | what is signed verifies |
| Signing.VerifiesExactly | internal/smb/crypto.go:152-172 | a signature is right if and only if it is AES-CMAC for dialects 3.0 and 3.0.2, HMAC-SHA256 for all others, of the message with zeros in its place |
| Signing.SigningTwice | internal/smb/crypto.go:131-147 | signing is idempotent |
| Signing.SignedFields | internal/smb/crypto.go:131-147 | signing sets bit 3 of the flags, leaves every other bit of them, fills in the signature, and changes nothing else |
| Signing.AssembleResponse | internal/smb/server.go:476-509 | the PDUs linked, padded and signed, or none; the loop over spans signs each in the buffer without disturbing the others |
| Signing.SignSpans | internal/smb/server.go:503-507 | signing span after span in place signs them all |
| Signing.ResponseIsReadBack | internal/smb/server.go:476-509 | following NextCommand finds the PDUs in order, each intact up to padding, NextCommand, flag and signature, all 8-aligned, the last without padding; with a key each is flagged as signed and verifies |
| Compound.ResponseFields | internal/smb/packet.go:138-156 | status, ids and body of a reply are read back from its bytes |
| Compound.ResponseEchoes | internal/smb/server.go:371-374 | a client recognizes its request's message id, command and credit charge in the reply, and is granted what it asked for but at least one credit |
| Compound.HeaderIsRead | internal/smb/packet.go:118-132 | a header laid out as [MS-SMB2] lists its fields is read for what it says |
| Compound.CreateFields | internal/smb/create.go:233-248 | action, sizes and attributes stand where a client looks for them |
| Compound.ContextFields | internal/smb/aapl.go:100-110 | create contexts stand at 152 from the header, with their place and length said, and the rest of the response before them |
| Compound.FileIdOfCreate | internal/smb/aapl.go:100-110 | bytes 64 to 80 of a CREATE response are the FileId, with or without create contexts behind |
| Compound.Conn.SubstituteFileId | internal/smb/server.go:513-526 | overwrites the FileId of a span in place where the command has one and it fits, and changes nothing else of the message |
| Compound.SubstitutesAt | internal/smb/server.go:513-526 | where the FileId goes, command by command |
| Compound.Conn.HandleCommand | internal/smb/server.go:367-472 | one command on its span: gate, signature on the bytes as they are, substitution, dispatch, reply; bytes behind the span stay |
| Compound.StrangerIsRefused | internal/smb/server.go:388-398 | any command but NEGOTIATE and SESSION_SETUP on a session that has not authenticated is answered STATUS_USER_SESSION_DELETED and reaches no handler |
| Compound.OthersReachTheirHandler | internal/smb/server.go:400-416 | of the rest, exactly a signed command with a wrong signature, on a connection with a key, is answered STATUS_ACCESS_DENIED without touching anything; all others reach their handler, related ones with the inherited FileId in place |
| Compound.StrangersChainIsRefused | internal/smb/server.go:338-398 | a whole chain without those two commands leaves a connection nobody has authenticated on unchanged, and each of its commands is refused |
| Compound.StatesByCommand | internal/smb/server.go:418-470 | which handler each command number gets to, and that CANCEL alone has no response |
| Compound.AnswersByCommand | internal/smb/server.go:418-472 | the status, body, session and tree of each command's answer |
| Compound.Conn.DispatchMessage | internal/smb/server.go:323-362 | the whole message, changed in place as it goes, is handled as if every segment were seen, and its signature checked, on the bytes as they arrived |
| Compound.Conn.RunChain | internal/smb/server.go:338-361 | the loop terminates, since it advances by at least a header, and runs the segments in order |
| Compound.WhereAMessageIsCut | internal/smb/server.go:341-359 | at NextCommand when it is at least 64 and within the message; otherwise the segment takes all that is left |
| Compound.WhatIsNoChain | internal/smb/server.go:323-337 | the SMB1 negotiate is answered, anything else without a header is an error, and neither touches the connection |
| Compound.AnswersAreReadBack | internal/smb/server.go:360-362 | a client following NextCommand finds the replies of a chain in order |
| Sequential.ChainIsSequential | internal/smb/server.go:367-472 | a chain whose signatures are accepted leaves the same connection and gives the same replies, byte for byte, as its commands sent alone with session, tree and last created FileId filled in |
| Sequential.MessageIsSequential | internal/smb/server.go:323-362 | the same for a whole message and its response |
| Sequential.CreateIsInherited | internal/smb/server.go:434-444 | a successful CREATE hands on its FileId; a refused one changes nothing of what is handed on |
| Sequential.LastCreateIsInherited | internal/smb/server.go:338-361 | what a whole chain hands on is the FileId of its last successful CREATE |
| FileServer.MadeIsInTable | internal/smb/create.go:224-229 | when a chain's CREATE made something, the handle table has an open under the very key that is handed on |
| FileServer.CloseEndsItsOpen | internal/smb/server.go:410-412 | a related CLOSE ends the open under the key it was handed, whatever FileId its body shows |
| FileServer.CreateBodyIsRead | internal/smb/create.go:132-140 | access, disposition, options and the name where the body says |
| FileServer.CreateAnswers | internal/smb/create.go:121-230 | the answers of CREATE are those of the table |
| FileServer.CloseAnswers | internal/smb/io.go:91-126 | the answers of CLOSE: a short body, an unknown FileId, an open rightly ended |
| FileServer.ChainClosesWhatItCreated | internal/smb/server.go:323-362 | a chain of a successful CREATE and a related CLOSE leaves the handle table as it was and closes the backend handle that was opened for it |
| Sequential.AgreesExactlyWithoutOwnSession | internal/smb/server.go:376-389 | a command agrees with its stand-alone form on every connection if and only if it is not a related SESSION_SETUP showing another session |
| Handles.OneMoreCall | internal/smb/create.go:209-212 | a backend call keeps the account of handles: an open adds one, a close settles it, anything else changes nothing |
| Handles.FreshId | internal/smb/create.go:329-338 | a new FileId is not in the table |
| Handles.FileIdSaysNumber | internal/smb/create.go:329-338 | both halves of a FileId are its number |
| Handles.KeptAfterAdd | internal/smb/create.go:329-344 | adding an open keeps keys, bounds, the account of handles, and revives no FileId |
| Handles.AfterRemove | internal/smb/create.go:352-359 | removing an open takes out exactly its handle |
| Handles.AfterUpdate | internal/smb/info.go:285-358 | changing path or deletion mark keeps the table in order, as long as no open on a read-only share is marked |
| Handles.RefusesExactly | internal/smb/create.go:144-207 | CREATE is refused if and only if the disposition cannot be met, the share or file is read-only and the request would change something, or the kind of file is not the one asked for |
| Handles.RefusalStatus | internal/smb/create.go:144-207 | with which status, the first reason that applies |
| Handles.FlagsMean | internal/smb/create.go:252-272 | which access bits and dispositions make an open write, append, create, exclusive or truncating |
| Handles.AltersMeans | internal/smb/create.go:158-175 | what counts as changing a file, by the bits of access and options and the disposition |
| Handles.CreateAnswers | internal/smb/create.go:122-141 | before any file is looked for: a pipe, 16384 opens, an unknown tree |
| Handles.PlanIsCarriedOut | internal/smb/create.go:181-222 | the one call that opens or makes something, its error as the answer, and the second look at a new folder |
| Handles.PlanDoesWhatIsWanted | internal/smb/create.go:182-222 | a CREATE that is not refused does what its disposition asks by its definition in [MS-SMB2] if and only if it does not ask to overwrite an existing folder, which is opened |
| Handles.OverwritingAFolderOpensIt | internal/smb/create.go:183-187 | such an input: OVERWRITE of an existing folder opens it |
| Handles.UndefinedDispositions | internal/smb/create.go:144-222 | a disposition above 5 is taken for OPEN where the path exists; where it does not, the backend fails it, or a folder is made if one is asked for |
| Handles.CreateAddsOneOpen | internal/smb/create.go:121-230 | a CREATE that succeeds adds one open under the next FileId, on the share, path and deletion mark asked for, with the handle its OpenFile gave; one that fails changes nothing of the table |
| Handles.PlanOnReadOnlyShare | internal/smb/create.go:158-165 | on a read-only share CREATE makes nothing, opens only for reading, and marks nothing for deletion |
| Handles.Conn.HandleCreate | internal/smb/create.go:121-230 | the status, the backend calls and the table on every path are those of the plan, and the connection's invariants are kept |
| Handles.Conn.HandleClose | internal/smb/io.go:91-126 | the open leaves the table in any case; attributes, then the handle, then the file if marked and the handle closed cleanly; a close error is reported and nothing deleted |
| Handles.EndedRightly | internal/smb/io.go:105-121 | a CLOSE removes the file if and only if the open is marked for deletion and its handle, if any, was closed without an error; the removal comes last, and its error or the close's is the answer |
| Handles.OnlyMarkedFilesAreRemoved | internal/smb/io.go:116-120 | over a whole connection, every removal is made by the CLOSE of an open marked for deletion, of that open's path |
| Handles.DeletedWhenAskedFor | internal/smb/create.go:224-226 | from request to removal: the next CLOSE of an open whose CREATE asked for deletion on close removes it exactly when the handle closed cleanly, and one that did not ask is not removed |
| Handles.Conn.HandleRead | internal/smb/io.go:14-46 | one ReadAt of the offset and length asked for on the open's own handle, whose bytes are the reply's; end of file when there are none; the refusals make no call |
| Handles.Conn.HandleWrite | internal/smb/io.go:49-74 | one WriteAt of the request's bytes at its offset, never on a read-only share, only within bounds |
| Handles.Conn.HandleFlush | internal/smb/io.go:77-87 | Sync when there is a handle; success otherwise |
| Handles.Conn.HandleQueryInfo | internal/smb/info.go:43-107 | attributes for file classes, volume sizes for the two classes that have them; unsupported classes are refused, and an answer longer than the client's buffer is an overflow |
| Handles.InfoSizesAdd | internal/smb/info.go:408-536 | the lengths of the answers, from the parts [MS-FSCC] lists |
| Handles.Conn.HandleQueryDirectory | internal/smb/info.go:112-193 | on a folder, the open's listing is found by at most one backend call and the next page of it is served as `Enumerate` says; nothing else of the table changes |
| Handles.ListingAsksOnce | internal/smb/info.go:138-173 | one backend call when there is no listing or it is to start afresh: Stat of the joined path for a single name, ReadDir otherwise |
| Handles.Conn.HandleSetInfo | internal/smb/info.go:263-376 | the new table, log and status are those of the information class; nothing else in the table changes |
| Handles.Conn.SetDisposition | internal/smb/info.go:285-304 | marking for deletion, refused for read-only shares and files and for folders with entries |
| Handles.Conn.SetName | internal/smb/info.go:330-358 | no rename over an existing target unless asked to; the open's path follows only a rename that succeeded |
| Handles.Conn.RenameAsksFirst | internal/smb/info.go:340-354 | a rename is sent only when asked to replace, for a change of case, or right after the target was looked for and not found |
| Handles.Conn.MarkedOnlyWhenEmpty | internal/smb/info.go:285-304 | an open becomes marked for deletion only on a writable share and file, and a folder only after it was listed empty or could not be listed |
| Handles.Conn.SetEndOfFile | internal/smb/info.go:305-316 | one truncation, through the handle where there is one, never on a read-only share or file |
| Handles.Conn.SetTimes | internal/smb/info.go:359-371 | the time asked for is set where writing is allowed and silently skipped elsewhere |
| Handles.Conn.TruncatesExactly | internal/smb/info.go:305-316 | an end of file is set by one truncation to the 8 bytes' number if and only if share and file are writable |
| Handles.Conn.MarksExactly | internal/smb/info.go:285-304 | when the mark is set, cleared or refused, and with which status |
| Handles.Conn.RenamesExactly | internal/smb/info.go:330-358 | a rename is sent unless it would replace what is there unasked; the open follows one that succeeds |
| Handles.Conn.SetsTimesExactly | internal/smb/info.go:359-371 | times are set if and only if one is given and share and file are writable |
| Handles.Conn.OtherClasses | internal/smb/info.go:317-376 | an allocation changes nothing, other classes and short buffers do nothing |
| Handles.Conn.SetInfoIsAllOrNothing | internal/smb/info.go:284-376 | a failing SET_INFO leaves the open as it was, and the backend sees at most one mutating call, the last, none on a read-only share |
| Handles.Conn.Teardown | internal/smb/create.go:361-373 | every handle still open is closed, nothing else is called, and every handle ever obtained has been closed exactly once |
| Handles.OneMoreReply | internal/smb/create.go:329-359 | one more request keeps: FileIds given out are distinct, and what names a closed one reaches no backend |
| Handles.Connection | internal/smb/server.go:264-309 | for every sequence of requests on every backend: no mutating call reaches a read-only share, every handle is closed exactly once, no FileId is given out twice, and a request naming a closed one makes no backend call and is refused, but for FLUSH and CLOSE, which succeed; each request changes the table, marks and paths as it says, and only CLOSE removes files; at the end only closes follow |
| Handles.SparedSharesAreOnlyRead | internal/smb/create.go:158-165 | call by call, all that may reach a read-only share |
| Transport.Num24 | internal/smb/transport.go:25-31 | no length of three bytes is over the limit, so the reader's own check never fires |
| Transport.FirstByteIsIgnored | internal/smb/transport.go:20-25 | a stream reads the same whatever its first byte is |
| Transport.FrameHeader | internal/smb/transport.go:44-53 | a zero and the length in three bytes, highest first |
| Transport.FrameIsReadBack | internal/smb/transport.go:19-54 | a frame is read back if and only if its length fits 24 bits; one of 2^24 bytes reads as empty |
| Transport.CutFrame | internal/smb/transport.go:19-37 | a frame that is cut short is no message |
| Transport.StreamIsReadBackExactly | internal/smb/transport.go:19-54 | a stream of accepted messages is read back if and only if none has 2^24 bytes |
| Transport.StreamIsReadBack | internal/smb/transport.go:19-54 | with anything behind it that is no message |
| Transport.Source.ReadMessage | internal/smb/transport.go:19-37 | consumes exactly one frame, or fails |
| Transport.Source.ReadAll | internal/smb/server.go:292-297 | reading until an error gives all the messages of the stream |
| Transport.Sink.WriteMessage | internal/smb/transport.go:44-54 | refuses an oversized message before writing; otherwise the frame, cut short only by a failing socket |
| Pipeline.InvHolds | internal/smb/server.go:264-309 | wire, queue and the responses in hand are, in order, all responses; phases of reader and writer fit |
| Pipeline.WireIsInOrder | internal/smb/server.go:264-309 | in every interleaving the wire is the frames of the first responses in request order and part of the next; at most 8 are queued; all are sent when no write failed |
| Pipeline.PeerReadsPrefix | internal/smb/server.go:264-309 | a peer reading the stream at any moment gets exactly the first responses |
| Pipeline.HandlesOutliveWriter | internal/smb/server.go:280-290 | handles are closed only after the writer is done, and then nothing happens any more |
| Pipeline.NeverStuck | internal/smb/server.go:265-290 | a reader blocked on a full channel has a writer that can move, and only the peer's silence can hold the connection up |
| Pipeline.WritesMayFailAnywhere | internal/smb/server.go:267-276 | a write may put any part of a frame on the wire and fail anywhere before its end; an oversized message fails before its first byte |
| Pipeline.EveryRunSettles | internal/smb/server.go:264-309 | between two requests only a bounded number of steps is possible, so a connection that ends is torn down |
| Shutdown.StepKeepsInv | internal/smb/server.go:93-170 | every step keeps lock, conns, the wait group's count and the phases in line; once closing is set, conns and count only shrink |
| Shutdown.InvHolds | internal/smb/server.go:93-170 | in every interleaving |
| Shutdown.CountedAreCovered | internal/smb/server.go:125-170 | after the snapshot every counted connection is in it or has left serve |
| Shutdown.NothingAfterSnapshot | internal/smb/server.go:125-144 | nothing is registered or counted after the snapshot |
| Shutdown.ReturnsWhenAllAreOver | internal/smb/server.go:149-170 | when the first Shutdown has returned every connection is over or was never let in, its socket is closed, and it stays so |
| Shutdown.LaterCallsChangeNothing | internal/smb/server.go:149-156 | a second Shutdown changes only who holds the lock |
| Shutdown.OutsideIsFree | internal/smb/server.go:100-144 | connections, hang-ups and calls may come at any time, and the lock goes to whoever waits |
| Shutdown.HolderCanMove | internal/smb/server.go:125-162 | whoever holds the lock can go on without waiting |
| Shutdown.BoundToMove | internal/smb/server.go:149-170 | until the first Shutdown returns some thread is bound to move, counting on serve to end only for sockets that were closed |
| Shutdown.ShutdownReturns | internal/smb/server.go:149-170 | after the snapshot only a bounded number of steps is left |
| Der.DerReadTLV | internal/smb/spnego.go:64-86 | the accumulating loop reads lengths of up to four bytes, or refuses |
| Der.ReaderUndoesPrinter | internal/smb/spnego.go:42-86 | an element is read back, with what follows it, if and only if its content is shorter than 65536 bytes |
| Der.LengthsAsListed | internal/smb/spnego.go:42-51 | the length bytes of X.690, up to 16 bits |
| Der.LengthsAsRead | internal/smb/spnego.go:64-86 | lengths of one to four bytes, highest first |
| Der.LengthsRefused | internal/smb/spnego.go:72-83 | no length bytes, more than four, and cut ones are refused |
| Der.ExtractNTLM | internal/smb/spnego.go:92-138 | the walk finds what the nested reading finds, and ends |
| Der.BuildNegTokenResp | internal/smb/spnego.go:152-162 | the fields present, in order, in their two wrappers |
| Der.RespAsListed | internal/smb/spnego.go:152-162 | byte by byte, for short tokens |
| Der.FirstTokenDecides | internal/smb/spnego.go:122-136 | the first [2] decides, and must hold an octet string |
| Der.OthersAreRefused | internal/smb/spnego.go:93-120 | nothing but the two SPNEGO messages is looked into |
| Der.ExtractUndoesBuild | internal/smb/spnego.go:92-162 | a token comes back from a negTokenResp if and only if it is at most 65518 bytes, or 65504 where the mechanism is named |
| Der.NoTokenToExtract | internal/smb/spnego.go:152-162 | where there is none, none is found |
| Der.ExtractFromInit | internal/smb/spnego.go:99-114 | a client's negTokenInit (RFC 4178, section 4.2.1) yields its token |
| Der.ExtractedIsASlice | internal/smb/spnego.go:92-138 | on arbitrary bytes, a token found is a slice of them |
| CreateContexts.CreateContextBlob | internal/smb/aapl.go:86-96 | the writes at their offsets give the blob, name at 16, data 8-aligned |
| CreateContexts.CreateContexts | internal/smb/aapl.go:51-82 | the walk stays in bounds, ends, and collects what its steps read |
| CreateContexts.NoContexts | internal/smb/aapl.go:52-59 | when a request has no contexts at all |
| CreateContexts.WhereTheWalkEnds | internal/smb/aapl.go:61-80 | at a context without a name or out of bounds, where fewer than 16 bytes are left, and after one that points nowhere |
| CreateContexts.BlobIsRead | internal/smb/aapl.go:51-96 | a blob is read as it was written, whatever follows |
| CreateContexts.RequestContextsAreFound | internal/smb/aapl.go:51-96 | a chain of contexts in a request is recovered |
| CreateContexts.EachIsRecovered | internal/smb/aapl.go:75 | each name whose context is its last has its data |
| CreateContexts.NothingElse | internal/smb/aapl.go:75 | and no other name is found |

## Left out

- Sockets, HTTP, JSON, timeouts, logging, flags and the command line: plumbing. The provider is a map from paths
  to bytes with arbitrary mutations, the peer a byte sequence.
- AES, HMAC and SHA-256 are uninterpreted; no claim about forging is made. MD5, RC4, key derivation, NTLM
  validation, NEGOTIATE, SESSION_SETUP and TREE_CONNECT bodies are not modelled.
- Panics and their recovery: a panicking handler is a reader that stops.
- Path cleaning (`nameToPath`), case folding and lower-casing are parameters: their substance is in libraries
  that are not part of this model.
- The reply bodies of QUERY_INFO, READ and the other fixed layouts, and IOCTL: no loops, no state.
- ReadAhead.FS.Mutate: the provider is assumed to leave file bytes alone when it makes a directory or sets a time
  (`Lawful`), as those do not bump; failed requests change nothing; the generation is a natural number, not 64 bits.
- ReadAheadRace.ReadsAreNeverStale: a mutation counts from its bump, which the source performs before the call
  returns; all mutations go through this filesystem object.
- BlockHash.Blocks: takes the compression of one block as a function; `Md4.OneBlock` is the loop code, proved equal to it.
- Cmac.AesCmac: cipher.NewCBCEncrypter is modelled by its definition, the scratch pool by an arbitrary buffer.
- Compound.Conn.HandleCommand: the handlers are arbitrary functions of the connection's state and the request; bodies
  are below 4 GiB and create contexts of a response below 64 KiB, so that a PDU's length fits its field.
- Handles.Conn.HandleCreate: an open is a value in the table rather than a shared object, as no request keeps a
  reference to it beyond its own handling; fewer than 2^64 creates on a connection.
- Handles.Conn.HandleQueryInfo: the bytes of the answer are left out, its length and its backend calls are not.
- Lookup.LookupAgreesExactlyOnPlainNames: paths are POSIX paths and trees hold no symbolic links, for which a local
  Stat follows and ReadDir does not; folding is an equivalence that leaves dots and slashes alone.
- FileServer.ChainClosesWhatItCreated: the attributes in the CREATE response, the body of the CLOSE response and all
  other handlers are arbitrary; turning on macOS's layout is not part of the state there.
- ReadAhead.FS.OpenFile: the modelled contents hold files only, so a folder is refused as a missing path is.
- Enumerate.EveryEntryOnce: names so long that a record would pass 4 GiB are excluded; the state of a restart is
  that of a first query.
- DirBuffer.ChainIsRead: the same bound on names; `pathFileID` is an arbitrary function of the name.
- Pipeline.WireIsInOrder: a channel handover to a waiting writer is a push followed by a pop.
- Shutdown.ShutdownReturns: as long as nobody calls Shutdown anew, since each call is a few more steps.
- Transport.Source.ReadMessage: io.ReadFull is one step; the source's check for messages over 16 MiB is left out
  because 24 bits cannot say such a length.
- Localfs, statfs, OS-specific error mapping and everything under `test/`.
