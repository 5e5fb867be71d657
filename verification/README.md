# A verified model of iFreechat

iFreechat is a LAN chat client for Linux that talks to FeiQ and IP Messenger. This project models the
parts of it that have to be exactly right, in Dafny, and proves what they promise.

- **The cipher** (`Words`, `Feistel`, `KeySchedule`, `Cbc`, `Blowfish`). Blowfish over byte buffers, with
  CBC chaining and PKCS#5 padding. The class `CBlowFish` follows the C code step by step: unrolled rounds
  that never swap, a key schedule that enciphers with the tables it is overwriting, loops that rewrite a
  buffer block by block. Each method is proved against the published form of the cipher, and that form is
  proved to be invertible, to satisfy the CBC equations of section 6.2 of NIST SP 800-38A, and to pad as
  section 6.1.1 of RFC 8018 asks. The digit tables of `blowfish.h2` are parameters: every result holds for
  all P and S.
- **The wire format** (`Text`, `Wire`, `ParseMessage`, `GroupMessage`, `Address`, `MsgText`, `Feiq`,
  `FeiqEntry`). The printers and the pointer-walking parsers of packets, version fields, group messages,
  entry broadcasts and addresses, down to `strchr`, `atoi`, `strtoul`, the NULs the parsers write into the
  packet, and what `strcpy` does to the neighbours of a member of `msg_t` that is too short. The main results
  compose a sender's code with a receiver's code over the same bytes.
- **The queue** (`RingQueue`, `Spsc`). The ring queue as one thread sees it, and as a state machine in which
  every read and write of a shared variable by the receiving and the handling thread is a step of its own.
- **The pool allocator** (`PoolAllocator`, in `MemPool.dfy`). Its account, any run of it, and the allocator
  over bytes with its size headers.
- **The registry** (`HashMix`, `HashTable`, `DList`, `Users`, `Group`, `Listing`, `Registry`). Ring lists,
  the hash index, group membership, and the handling of entry messages.
- **Emoticons** (`Emotion`, `RenderScan`, `MessageView`). Ninety-six replacements over the whole string, the
  scan that turns marks into images, and the two together.

`Collections`, `Arithmetic` and `ByteValues` hold what several of these need.

## How the C code is read

- `DWORD`, `unsigned int` and `size_t` have 32 bits and a `DWORD` lies in memory with its lowest byte first
  (`src/blowfish.h:68-91`, `ifc/Makefile:34`). `BYTE` buffers are `array<bv8>`, `char` buffers
  `array<char>`; where the C code hands one to a function that expects the other, the model converts byte
  by byte.
- A C string is a `string` without NUL (`CText`); a buffer that holds one also holds the NUL behind it.
- `long` has 32 bits, and `atoi` and `strtoul` clamp as the GNU C library does. So a number printed with `%u`
  comes back through `atoi` only below 2^31; the round trips say so exactly.
- The character members of `msg_t` (`ifc/include/net/msg.h:27-35`) are one array, in which they lie one
  behind the other. A string that does not fit its member runs on into the next one, as in the source; the
  results say what is then read, and exactly when a member still reads as it was sent. A `strcpy` between
  members that overlap is taken to copy front to back, which is safe where the target lies in front.
- Elsewhere a `requires` stands where the code would leave an array, follow a null pointer or use an
  uninitialised value: five colons and five hashes in a version field, four numbers in an address, room in
  the buffers of 1024 and 65535 bytes and in `msg_t` as a whole, a non-empty key, a non-empty ciphertext when
  padding is removed.

## Where the code does not do what it seems to

- `mem_pool_free` reads the size at the block's payload (`ifc/lib/mem_pool/mem_pool.c:139`), while
  `mem_pool_alloc` wrote it in front of it (line 123). `MemPool.Free` is the code as written, with the exact
  condition under which the pool stays sound; `MemPool.FreeByHeader` is the code as meant, which
  always is with quantum 1, the only one used (`ifc/src/ifreechat.c:44`).
- With a quantum greater than 1, `mem_pool_free` rounds sizes that `mem_pool_alloc` did not round
  (`RoundingBreaks`); `FreeByHeader` and `RunSound` say exactly when that is harmless.
- Sums in the pool wrap around at 2^32: a request within four bytes of it is granted with fewer than four bytes
  (`HugeRequestGranted`), and a free that reads a huge size from the payload may not start the chunk over
  (`AllOnesBreak`).
- As the index forgets, an address or a category can be listed twice; `HandleMessages` says exactly when.
- A new chunk is not linked to the one it replaces (lines 113-116): the pool has at most one chunk, and the
  memory of replaced chunks is never reclaimed (`RunSound`, `DroppedForGood`).
- `hash_insert` stores the entry before it tests the slot (`ifc/lib/hash/hash.c:107-112`), so a slot keeps
  only the latest entry of its bucket. `FoundIsCurrent` says exactly what a search then finds.
- `on_entry_callback` compares a message's category with the one the user was created with, which is never
  updated (`ifc/src/handle_message.c:90-101`). Counts stay right (`Conservation`), but a user who leaves its
  first category and returns stays where it was (`EntryOfKnownUser`, `BackAndStillAway`).
- The size of the entry broadcast counts the header twice and the category not at all
  (`ifc/src/feiq/feiq.c:73-75`); `AnnounceThenEnter` says exactly when the category still arrives.
- `version` has 16 characters (`ifc/include/net/msg.h:29`) and every version field that is sent is longer, so
  the user name overwrites its end, and `feiq_on_entry` reads the avatar number from what is there
  (`ifc/src/feiq/feiq.c:160`, 189, 220). A user called web_7 arrives with avatar 7 (`AvatarOfAnother`);
  `AnnounceThenEnter` says exactly when the avatar arrives, and likewise the names that are too long.
- The padding check looks at two bytes only (`src/blowfish.c:222-226`); `PaddingCheckStrength` says exactly
  what it misses.
- The output length wraps around just below 2^32 (`src/blowfish.c:136-141`); `OutputLength` says exactly when.
- `msg_queue_put` ignores that the queue is full (`ifc/lib/net/msg_queue.c:66`), so the packet is dropped; in
  `Spsc` such an offer is recorded as refused.
- A message that itself contains `#7#` is shown with an image. `ShownIsWanted` gives the exact condition.

## Model

| member | source | states |
|---|---|---|
| Words.ChangeOrderInvolution | src/blowfish.c:147-156 | Reversing the bytes of a word twice changes nothing. |
| Words.ChangeOrderBytes | src/blowfish.c:147-156 | Reversing exchanges the outer and the inner two bytes of a word, by their weights. |
| Words.BigEndianWeights | src/blowfish.h:77-82 | The big-endian bytes of a word by their weights: the first has weight 2^24, both ways. |
| Words.LittleEndianWeights | src/blowfish.h:77-82 | The bytes of a word in memory by their weights: the first has weight 1, both ways. |
| Words.LongWeights | src/blowfish.c:175 | Of the two words of a 64-bit value the lower lies first in memory. |
| Words.ChangeOrderIsBigEndian | src/blowfish.c:177-181 | A word loaded from memory and reversed is the big-endian number of its four bytes, and a reversed word is stored as its big-endian bytes. |
| Words.StoredXor | src/blowfish.c:175 | The 64-bit exclusive-or of the chaining step is the bytewise exclusive-or of what lies in memory. |
| Words.StoredLongRoundTrip | src/blowfish.c:184 | A 64-bit value survives being stored and loaded, and eight bytes survive being loaded and stored. |
| Words.XorUndo | src/blowfish.c:216 | Whitening with the same block twice gives the block back. |
| Words.Sum | src/blowfish.c:19 | The addition of the mixing function is that of 32-bit words. |
| Words.Exclusive | src/blowfish.c:20 | The exclusive-or of the rounds is that of 32-bit words. |
| Words.ExclusiveBytes | src/blowfish.c:175 | The exclusive-or of the chaining is bit by bit. |
| Feistel.MixReads | src/blowfish.c:18-19 | The mixing function depends on one word of each S-box, selected by the bytes of the half from the top, and on no other, for all boxes and halves. |
| Feistel.MixFormula | src/blowfish.c:19 | From four words a, b, c, d it makes ((a + b) ^ c) + d; with two values. |
| Feistel.EncipherRow | src/blowfish.c:42-62 | The eighteen successive values of the halves: each is the one before last, exclusive-or the mixed last one, exclusive-or the word of P of its round; the last two are whitened and put out. |
| Feistel.DecipherRow | src/blowfish.c:65-86 | The same for deciphering, with P from the end. |
| Feistel.RoundsUnwind | src/blowfish.c:49-57 | For every number k of rounds, running k rounds with the subkeys reversed takes the swapped result of the last k rounds back to where those began. |
| Feistel.DecipherEncipher | src/blowfish.c:42-86 | For all tables and blocks, deciphering undoes enciphering. |
| Feistel.EncipherDecipher | src/blowfish.c:42-86 | For all tables and blocks, enciphering undoes deciphering, so both are bijections. |
| KeySchedule.KeyedPCharacterised | src/blowfish.c:106-113 | Two keys give the same mixed P-array if and only if their first 72 cyclic bytes agree. |
| KeySchedule.KeyedPBytes | src/blowfish.c:106-113 | Word i of P is mixed with key bytes 4i to 4i + 3, taken cyclically, the first with weight 2^24. |
| KeySchedule.ScheduleRow | src/blowfish.c:115-132 | There are 522 tables and blocks, from the keyed tables and a block of zeros to the schedule, in which each block is the encipherment of the one before with the tables as they are, and its halves replace the next two of the 1042 words of P and the S-boxes. |
| KeySchedule.RepeatedKey | src/blowfish.c:106-133 | A key and that key repeated any number of times give identical P and S tables. |
| KeySchedule.LongKeyTruncates | src/blowfish.c:106-133 | Key bytes past the first 72 never matter. |
| Cbc.BlockRoundTrip | src/blowfish.c:177-181 | On bytes, decrypting a block undoes encrypting it and the other way round. |
| Cbc.BlockOfWords | src/blowfish.c:177-181 | On bytes, a block is the big-endian left word and the big-endian right word, before and after, for both directions. |
| Cbc.OneInP | src/blowfish.c:172-186 | With a one in P and zeros elsewhere, a block of zeros becomes 00 00 00 00 00 00 00 01. |
| Cbc.EncryptedIsCbc | src/blowfish.c:172-186 | What the encryption loop leaves is the one and only solution of the CBC equations for its plaintext (if and only if). |
| Cbc.DecryptedBlock | src/blowfish.c:201-218 | Decrypted block i is the block cipher's inverse on ciphertext block i, whitened with ciphertext block i - 1 or the initialization vector: nothing else has an influence. |
| Cbc.EncryptedBlock | src/blowfish.c:172-186 | Without chaining each block is enciphered by itself. |
| Cbc.DecryptedEncrypted | src/blowfish.c:162-218 | Decryption undoes encryption for every number of blocks, with and without chaining. |
| Cbc.EncryptedDecrypted | src/blowfish.c:162-218 | Encryption undoes decryption likewise. |
| Cbc.PaddedIsWellPadded | src/blowfish.c:169-170 | Every padded message satisfies RFC 8018, passes Decrypt's check, announces its own length and starts with the message. |
| Cbc.WellPaddedIsPadded | src/blowfish.c:220-226 | Every well-padded block sequence is the padding of exactly the message that Decrypt strips it to. |
| Cbc.PaddingCheckStrength | src/blowfish.c:222-224 | What Decrypt's check lacks to be RFC 8018's condition (if and only if), with a padding it wrongly accepts. |
| Blowfish.OutputLength | src/blowfish.c:136-141 | The 32-bit length is the fewest whole blocks for the message and its padding if and only if the size is not within seven (with padding, eight) of 2^32. |
| Blowfish.ReadLong | src/blowfish.c:184 | Reading eight bytes of the buffer as one 64-bit value. |
| Blowfish.XorLongAt | src/blowfish.c:174-175 | The in-place 64-bit exclusive-or whitens exactly the eight bytes at the offset. |
| Blowfish.ChangeOrderAt | src/blowfish.c:147-156 | The four bytes at the offset are reversed in place, and no others. |
| Blowfish.CBlowFish.constructor | src/blowfish.c:90-133 | A new cipher object holds the schedule of its key. |
| Blowfish.CBlowFish.Initialize | src/blowfish.c:90-133 | Enciphering with the tables being overwritten leaves exactly the fold of 521 block encryptions, each with the tables as the one before left them. |
| Blowfish.CBlowFish.MixKey | src/blowfish.c:106-113 | The loop over key[j++ % keybytes] exclusive-ors the big-endian words of the cyclic key into P. |
| Blowfish.CBlowFish.Encipher | src/blowfish.c:42-62 | The unrolled, never swapping rounds compute the published sixteen-round network. |
| Blowfish.CBlowFish.Decipher | src/blowfish.c:65-86 | Likewise for deciphering: the network with the subkeys reversed. |
| Blowfish.CBlowFish.EncryptBlockAt | src/blowfish.c:174-185 | One turn of the loop replaces one block by its whitened encryption, hands on the next vector and touches no other byte. |
| Blowfish.CBlowFish.DecryptBlockAt | src/blowfish.c:203-217 | One turn of the loop replaces one block by its decryption, saves the ciphertext block before overwriting it and touches no other byte. |
| Blowfish.CBlowFish.EncryptBlocks | src/blowfish.c:172-186 | The whole loop, reading the buffer it overwrites, equals the function on values. |
| Blowfish.CBlowFish.DecryptBlocks | src/blowfish.c:201-218 | Likewise for decryption. |
| Blowfish.CBlowFish.Encrypt | src/blowfish.c:162-189 | For input and output the same buffer or two: the output is the ciphertext of the padded input, the returned length is the padded length, bytes behind it and a separate input stay as they were. |
| Blowfish.CBlowFish.Decrypt | src/blowfish.c:193-228 | For input and output the same buffer or two: output and returned length are those of the plaintext function, including the refused padding and the NUL written over the first padding byte. |
| Blowfish.StripPadding | src/blowfish.c:220-226 | The in-place padding check: 0 if refused, otherwise the stripped length and a NUL there. |
| Blowfish.MessageRoundTrip | src/blowfish.c:162-228 | Decrypt after Encrypt, for every table, vector, mode and message: with PKCS#5 the original length, every byte, and NUL right after; without, the message filled with zeros to whole blocks. |
| Blowfish.ModeValues | src/blowfish.h:21-26 | Chaining is the bit of value 2 and padding that of value 32. |
| Blowfish.RefusedPadding | src/blowfish.c:222-224 | Refused padding gives length 0 and leaves all bytes. |
| Text.PrintedDigits | ifc/src/feiq/feiq.c:42-49 | A printed number consists of digits of its base and has that number as its value. |
| Text.ReadPrinted | src/process_msg.c:246 | A printed number is read back whatever non-digit follows, and what follows is left over. |
| Text.AtoiPrinted | ifc/src/feiq/feiq.c:183 | atoi recovers a printed number if and only if it is below 2^31, and gives 2^31 - 1 otherwise. |
| Text.AtoiNegative | src/process_msg.c:246 | A negative number is recovered down to -2^31. |
| Text.SpacesSkipped | src/process_msg.c:246 | White space in front is skipped. |
| Text.AtoiOther | src/process_msg.c:246 | Text that does not begin with a number is read as 0. |
| Text.PrintedValues | src/gchatbox.c:130-144 | What some numbers are printed as, in both bases, and what digits are worth. |
| Text.StrtoulPrinted | src/process_msg.c:259 | strtoul recovers every printed 32-bit number and gives 2^32 - 1 for larger ones. |
| Wire.SplitLossless | src/process_msg.c:350-403 | For every packet with five colons before any NUL, joining the fields and the data with ':' gives back the packet. |
| Wire.SplitStored | src/process_msg.c:350-403 | Joining and splitting gives back the fields and the payload, whatever colons, hashes or NULs the payload contains. |
| Wire.VersionParts | src/process_msg.c:47-60 | The version field printed by a sender yields the sender's MAC address and group size. |
| Wire.VersionAvatar | src/process_msg.c:38-45 | It yields the avatar number, for avatar numbers below 2^31 and a MAC address without '_'. |
| Wire.VersionText | ifc/src/feiq/feiq.c:42 | The template of the version field, literally. |
| Wire.StoredText | ifc/src/feiq/feiq.c:42 | The order of the fields in a packet, literally. |
| Wire.ForeignVersion | src/process_msg.c:38-53 | A version of another program has avatar 0 and twelve zeros for a MAC address. |
| ParseMessage.StrChr | src/process_msg.c:374 | The index of the first such character before any NUL, or none. |
| ParseMessage.CutField | src/process_msg.c:374 | One cut: a NUL over the colon, and nothing else changed. |
| ParseMessage.Parse | src/process_msg.c:350-403 | The five cuts are those of the split; the packet's colons become NULs, and the allocated storage is, to its last byte, twenty zeros, the fields each with its NUL, the data, and one zero; the pointers are the starts of these consecutive ranges. |
| ParseMessage.StoredFields | src/process_msg.c:369-400 | Each pointer of the parsed message reads back its own field as a C string, and the data pointer the whole payload. |
| GroupMessage.Send | src/gchatbox.c:127-148 | The bytes put into the buffer: the header with the padded length, the ciphertext of the marked text, and one more byte. |
| GroupMessage.SentText | src/gchatbox.c:137-146 | The bytes that are sent, part by part: avatar, tag, MAC, length, packet number, user, host, command 4194339, ciphertext. |
| GroupMessage.PlainTextValue | src/gchatbox.c:130-132 | What is enciphered for group 10 and the message "hi". |
| GroupMessage.KeyIsMac | src/gchatbox.c:127 | The key consists of the characters of the MAC address, by their values. |
| GroupMessage.CipherIsCbc | src/gchatbox.c:134 | The ciphertext satisfies the CBC equations for the padded text and a vector of zeros. |
| GroupMessage.GetGroupId | src/process_msg.c:249-262 | The number between the first two hashes is returned, and the text is mended. |
| GroupMessage.Decipher | src/process_msg.c:302-305 | The buffer of size + 1 holds the deciphered text as a C string. |
| GroupMessage.Body | src/process_msg.c:321-322 | What follows the second hash of the deciphered text. |
| GroupMessage.OnGroupMessage | src/process_msg.c:300-325 | From the parsed message: the group number, the body, and the body copied over the data of the message with everything around it unchanged. |
| GroupMessage.CipherRoundTrip | src/process_msg.c:302-305 | The receiver's decryption of the sender's ciphertext passes the padding check, restores every byte and puts a NUL behind. |
| GroupMessage.PlainTextParts | src/gchatbox.c:130-132 | The marked text yields its group number and its body, even if the body contains hashes. |
| GroupMessage.ReceivedFields | src/gchatbox.c:137-147 | The packet splits into the sender's fields although ciphertext and extra byte are arbitrary. |
| GroupMessage.ReceivedReadable | src/process_msg.c:300-305 | The size in the version field cuts off the extra byte, so exactly the ciphertext is deciphered. |
| GroupMessage.GroupMessageDelivered | src/process_msg.c:300-325 | Every group number and message, from a sender whose names are free of separators, arrive exactly: user, host, MAC address, packet number and avatar (clamped at 2^31 - 1), command 4194339, group number and body. |
| GroupMessage.SendAndReceive | src/process_msg.c:300-325 | The sender's code, parse_message and the receiver's code composed over one buffer return the sender's group number and message. |
| Address.ScanPrinted | ifc/lib/net/utils.c:141 | Four printed 32-bit numbers with dots between are read back. |
| Address.AddressRoundTrip | ifc/lib/net/utils.c:131-161 | str2ip of ip2str is the identity on all 32-bit addresses. |
| Address.DottedText | ifc/lib/net/utils.c:155-159 | The four numbers in the text are the bytes of the address, the most significant first. |
| Address.Loopback | ifc/lib/net/utils.c:131-161 | 127.0.0.1 is 0x7f000001, both ways. |
| Feiq.Packet.constructor | ifc/lib/net/packet.c:30-49 | The packet holds a copy of the first size bytes in a buffer one byte longer. |
| Feiq.NewPacket | ifc/lib/net/packet.c:30-49 | NULL exactly when the packet, its bytes and one more exceed what the pool grants. |
| Feiq.BuildPacket | ifc/src/feiq/feiq.c:33-56 | -1 exactly when the pool does not grant a request for the packet; otherwise the packet is the printed header followed by exactly the message's data, for the address and port of the message, read from the memory of `msg_t`. |
| Feiq.HeaderText | ifc/src/feiq/feiq.c:42-49 | The template of a packet, part by part. |
| Feiq.OutgoingText | ifc/src/feiq/feiq.c:42-52 | What a message is sent as: the template with its numbers and with the texts read at their places in `msg_t`. |
| Feiq.GetMac | ifc/src/feiq/feiq.c:120-133 | The loop copies what lies between the second and the third hash. |
| MsgText.RunOnSame | ifc/include/net/msg.h:27-35 | A string written into a member reads back as itself if and only if it fits or what follows the member is the rest of it. |
| MsgText.AtPut | ifc/src/feiq/feiq.c:160 | What can be read at any place once a string has been written at any other: behind it the old text, inside it its end, in front of it the old text run on into it. |
| MsgText.ParsedMembers | ifc/src/feiq/feiq.c:157-208 | After the parser's writes: address and MAC are intact; version, user name and host name each run on into the member behind, and the data is the payload. |
| MsgText.LongMac | ifc/src/feiq/feiq.c:160-169 | A MAC address of 32 to 47 characters is intact and takes the place of the version. |
| MsgText.EnteredMembers | ifc/src/feiq/feiq.c:220-235 | After the entry handler's writes: the category is intact, a nickname of 96 characters runs on into it, and one of 32 replaces the avatar. |
| MsgText.InFrontOfNickname | ifc/src/feiq/feiq.c:226-235 | Every member in front of the nickname that was too long now runs on into the new nickname. |
| MsgText.CopyWithin | ifc/src/feiq/feiq.c:228-235 | The copying loop within one memory: even if source and target overlap, the whole string arrives, provided the target lies in front. |
| Feiq.ParsePacket | ifc/src/feiq/feiq.c:148-214 | -1 for a foreign version, with the version alone written; otherwise every number is the one its part of the packet determines, and the text members are what the writes in their order leave in memory. |
| Feiq.SizesAddUp | ifc/src/feiq/feiq.c:154-208 | For every packet, header fields, colons and payload account for all of its bytes. |
| Feiq.BuiltParses | ifc/src/feiq/feiq.c:33-214 | A built header splits into its parts and every number in it reads back, clamped at 2^31 - 1. |
| Feiq.BuildThenParse | ifc/src/feiq/feiq.c:33-214 | feiq_parse_packet of feiq_build_packet returns ip, port, avatar, MAC, group size, data and data size; packet number and command exactly when below 2^31; the user name if and only if it fits or the host name continues it, the host name if and only if it does not reach the data or the data continues it; and what the version then reads as. |
| FeiqEntry.EntryBroadcast | ifc/src/feiq/feiq.c:58-79 | -1 exactly when the pool does not grant a request for the packet; otherwise the bytes of the broadcast, whose length is twice the header text's and does not depend on the category. |
| FeiqEntry.EntryText | ifc/src/feiq/feiq.c:65-72 | The text of an announcement, part by part. |
| FeiqEntry.SentSplits | ifc/src/feiq/feiq.c:73-77 | Those bytes are the header and a payload of nickname, NUL, as much of the category as fits, and zeros. |
| FeiqEntry.OnEntry | ifc/src/feiq/feiq.c:216-247 | The avatar number is read again from the memory at the version; avatar file, nickname and category, the two C strings at the start of the data with the user name and "no group" for empty ones, are written over their members and beyond. |
| FeiqEntry.AvatarFileName | ifc/src/feiq/feiq.c:221-224 | The default picture for avatar 0; otherwise the number in the name of the picture reads back as the avatar. |
| FeiqEntry.AvatarReread | ifc/src/feiq/feiq.c:111-118 | The avatar read from the first 16 characters of a version and a user name behind them: the version's own if the user name has no '_', the number behind the last one otherwise. |
| FeiqEntry.AvatarOfAnother | ifc/src/feiq/feiq.c:220 | An entry that meets every requirement, of avatar 3 by a user called web_7, whose avatar is read as 7. |
| FeiqEntry.Announce | ifc/src/feiq/feiq.c:58-214 | The broadcast, parsed by another client: numbers, the avatar cut to 16 bits, MAC, and what version, user name, host name and the two strings of the data read as, for names of any length. |
| FeiqEntry.AnnounceThenEnter | ifc/src/feiq/feiq.c:58-247 | Broadcast, parse and entry handling. The category arrives if and only if it is non-empty and no longer than the header text plus one; the avatar if and only if it has 16 bits and the user name in memory has no '_' or the number behind its last one is the avatar; nickname, host name and user name if and only if they are shorter than 96, 32 and 32 or what follows continues them. |
| RingQueue.RingPush | ifc/lib/queue/queue.c:53-59 | The test says full exactly when size - 1 items are held; the two assignments append the item. |
| RingQueue.RingPop | ifc/lib/queue/queue.c:61-67 | The slot at head holds the first item, and stepping head removes it. |
| RingQueue.RingEmpty | ifc/lib/queue/queue.c:62 | head equals tail exactly when nothing is held. |
| RingQueue.Queue.constructor | ifc/lib/queue/queue.c:28-50 | An empty queue of the given size. |
| RingQueue.Queue.Push | ifc/lib/queue/queue.c:53-59 | -1 exactly when size - 1 items are held, otherwise the item is appended. |
| RingQueue.Queue.Pop | ifc/lib/queue/queue.c:61-67 | -1 exactly when empty, otherwise the first item is removed and returned. |
| Spsc.RunInv | ifc/lib/queue/queue.c:53-67 | After every interleaving of single reads and writes of the two threads, indices, slots and what either thread remembers are consistent with the pushes and pops made. |
| Spsc.FirstInFirstOut | ifc/lib/net/msg_queue.c:46-71 | In every interleaving the popped items are a prefix of the accepted ones, in order, and at most size - 1 are held. |
| Spsc.RingIsPending | ifc/lib/queue/queue.c:53-67 | At every step the ring between head and tail is exactly what was accepted and not yet popped. |
| Spsc.NeverOverwritten | ifc/lib/queue/queue.c:56 | No step changes the slot of an item that has not been popped. |
| Spsc.FullTest | ifc/lib/queue/queue.c:54 | With a head read earlier, the test is true exactly when all but one slot were taken at that moment. |
| Spsc.HeadWasRead | ifc/lib/queue/queue.c:54 | The head a producer remembers is what it read in one certain step of the run, during the very test that is still going on; since then it pushed nothing. |
| Spsc.TailWasRead | ifc/lib/queue/queue.c:62 | The tail a consumer remembers is what it read in one certain step of the run, during the very test that is still going on; since then it popped nothing. |
| Spsc.RefusedOnlyWhenFull | ifc/lib/queue/queue.c:54-55 | A push is refused exactly when size - 1 items were held at the step in which it read head. |
| Spsc.EmptyOnlyWhenEmpty | ifc/lib/queue/queue.c:62-63 | A pop fails exactly when nothing was held at the step in which it read tail. |
| Spsc.PushAlone | ifc/lib/queue/queue.c:53-59 | Eight steps without interference are the sequential push; four are a refusal. |
| Spsc.PopAlone | ifc/lib/queue/queue.c:61-67 | Eight steps without interference are the sequential pop; on an empty ring nothing changes. |
| PoolAllocator.CutSound | ifc/lib/mem_pool/mem_pool.c:119-120 | Cutting a block keeps free + bound + live == size, the blocks apart and inside the chunk if and only if the block is larger than its header. |
| PoolAllocator.ReturnedSound | ifc/lib/mem_pool/mem_pool.c:155-162 | With 32-bit sums: returning a block with some size keeps all that if and only if the size is the block's own, or the block is the only one in use, the size is not smaller, and free + bound + size does not wrap around. |
| PoolAllocator.ResetOnlyWhenLast | ifc/lib/mem_pool/mem_pool.c:155-157 | The chunk starts over exactly when the block returned is the only one in use. |
| PoolAllocator.ReturnUndoesCut | ifc/lib/mem_pool/mem_pool.c:119-159 | Giving back the block cut last undoes the cut, or starts the chunk over if it was the only one. |
| PoolAllocator.ReturnBinds | ifc/lib/mem_pool/mem_pool.c:158-162 | Giving back any other block leaves the free end and adds the size to the bound bytes. |
| PoolAllocator.WrongSizeBreaks | ifc/lib/mem_pool/mem_pool.c:139 | A size read from elsewhere that breaks the account. |
| PoolAllocator.AllOnesBreak | ifc/lib/mem_pool/mem_pool.c:155-159 | In a pool of eight megabytes with one block of eight, the word 0xffff_ffff read for its size wraps the sum around: nothing starts over, and the account is broken. |
| PoolAllocator.NeedIs | ifc/lib/mem_pool/mem_pool.c:88-91 | The size with its header is larger than the header unless the request wraps around; then it is smaller. |
| PoolAllocator.NeedValues | ifc/lib/mem_pool/mem_pool.c:88-91 | A request needs four bytes more, and a request for nothing is one for the quantum. |
| PoolAllocator.RoundedUpIs | ifc/lib/mem_pool/mem_pool.c:143-145 | The rounded size is the least multiple of the quantum that is not smaller. |
| PoolAllocator.AdjustedIs | ifc/lib/mem_pool/mem_pool.c:141-145 | What rounding up to the quantum makes of a size: the size itself if and only if the quantum divides it, and a smaller one if the rounding wraps around. |
| PoolAllocator.ReturnableIsRight | ifc/lib/mem_pool/mem_pool.c:141-162 | A block's own size, rounded, is a right one if and only if the quantum divides it, or the block is the only one in use and the rounded sum does not wrap around. |
| PoolAllocator.StepSound | ifc/lib/mem_pool/mem_pool.c:80-176 | One operation on a sound pool leaves it sound if and only if it is fair: a request does not wrap around or is refused, and a block given back is one that can be. |
| PoolAllocator.RunSound | ifc/lib/mem_pool/mem_pool.c:80-176 | For every pool size, quantum and run of allocations and frees of blocks of any chunk, with the size read from the header: the pool is sound after every operation if and only if every operation is fair. |
| PoolAllocator.RegularRunSound | ifc/lib/mem_pool/mem_pool.c:80-176 | If no request wraps around and the quantum divides every size with header, as quantum 1 always does, every run leaves the current chunk and every replaced chunk sound, with at most one current chunk. |
| PoolAllocator.RoundingBreaks | ifc/lib/mem_pool/mem_pool.c:143-145 | Quantum 8, two requests for one byte, and the first block given back: five become eight, and the account is broken. |
| PoolAllocator.HugeRequestGranted | ifc/lib/mem_pool/mem_pool.c:91-98 | A request for 2^32 - 1 bytes needs three bytes with its header, is granted, and breaks the account. |
| PoolAllocator.DroppedForGood | ifc/lib/mem_pool/mem_pool.c:113-116 | Over any run, frees of its own blocks included: the account of a replaced chunk never changes again. |
| PoolAllocator.LoadStoredSize | ifc/lib/mem_pool/mem_pool.c:123 | A header reads back the size written. |
| PoolAllocator.SizeInMemory | ifc/lib/mem_pool/mem_pool.c:123 | The bytes of a header, the lowest first. |
| PoolAllocator.WriteHeader | ifc/lib/mem_pool/mem_pool.c:123 | Writing a header leaves the headers of all blocks that begin behind it intact. |
| PoolAllocator.Chunk.Take | ifc/lib/mem_pool/mem_pool.c:119-123 | A block is cut; the chunk is valid, with every live block's header in place, if and only if the block is larger than its header. |
| PoolAllocator.MemPool.constructor | ifc/lib/mem_pool/mem_pool.c:42-62 | The size rounded up to the alignment, which wraps around to 0 for the last three; the defaults for 0; no chunk. |
| PoolAllocator.MemPool.Alloc | ifc/lib/mem_pool/mem_pool.c:80-126 | NULL exactly when the block with its header, modulo 2^32, exceeds a chunk; otherwise it is cut from the current chunk if that has room, or from a new one, and the old chunk is left untouched: the step of the runs above. The pool stays valid if and only if the request does not wrap around or is refused. |
| PoolAllocator.MemPool.Return | ifc/lib/mem_pool/mem_pool.c:141-176 | What a free does with the size it has read, in 32-bit arithmetic, and exactly for which sizes the pool stays valid. |
| PoolAllocator.MemPool.Free | ifc/lib/mem_pool/mem_pool.c:128-176 | The code as written, reading the block's first payload word: exactly for which words the pool stays valid. |
| PoolAllocator.MemPool.FreeByHeader | ifc/lib/mem_pool/mem_pool.c:128-176 | With the size read from the header, for every quantum: the pool stays valid if and only if the quantum divides the size, the block is the only one in use and the rounded sum does not wrap around, or its chunk was replaced; returning the last block of a pool that stays valid frees the whole chunk. |
| PoolAllocator.MemPool.Write | ifc/lib/mem_pool/mem_pool.c:125 | The owner of a block can write its bytes without harm to any header. |
| HashMix.NumberRoundTrip | ifc/lib/hash/hash.c:9-18 | Words and numbers below 2^32 correspond one to one. |
| HashMix.NumberWeights | ifc/lib/hash/hash.c:9-18 | The number of a word is the sum of its bytes by their weights. |
| HashMix.Add15Undone | ifc/lib/hash/hash.c:11 | key += ~(key << 15) has a two-sided inverse: adding one and multiplying by 1 + 2^15 + 2^30. |
| HashMix.Add3Undone | ifc/lib/hash/hash.c:13 | key += key << 3 has a two-sided inverse: multiplying by the inverse of 9. |
| HashMix.Add11Undone | ifc/lib/hash/hash.c:15 | key += ~(key << 11) has a two-sided inverse. |
| HashMix.HashIntegerBijective | ifc/lib/hash/hash.c:9-18 | hash_integer and its explicit inverse undo each other on all 32-bit words. |
| HashMix.HashSteps | ifc/lib/hash/hash.c:11-16 | The six steps one after the other: the sums on numbers modulo 2^32, the others as exclusive-or with the shifted word. |
| HashMix.Shifts | ifc/lib/hash/hash.c:12-16 | The shifts are by 10, 6 and 16 places. |
| HashTable.HashString | ifc/lib/hash/hash.c:21-28 | The loop computes the fold hash * 33 + c over the whole string, modulo 2^32. |
| HashTable.StringHashNumber | ifc/lib/hash/hash.c:21-28 | The hash of n characters is 5381 * 33^n plus the sum of c_i * 33^(n-1-i), modulo 2^32. |
| HashTable.HashedIs | ifc/lib/hash/hash.c:87-92 | Integer keys are mixed as they are, strings by their hash. |
| HashTable.MaskedSmaller | ifc/lib/hash/hash.c:93 | Masking with hash_size gives at most hash_size. |
| HashTable.Index | ifc/lib/hash/hash.c:84-94 | The index is always within the 1 + hash_size slots. |
| HashTable.IndexRemainder | ifc/lib/hash/hash.c:93 | With a mask of 2^k - 1, for every k up to 32, the index is the remainder of the mixed hash by 2^k. |
| HashTable.IntIndexInjective | ifc/lib/hash/hash.c:84-94 | With a mask of 2^32 - 1 two integer keys have the same index if and only if they are equal. |
| HashTable.FoundIsCurrent | ifc/lib/hash/hash.c:96-202 | After any sequence of insertions and deletions, a search for k gives v if and only if some insertion of k with v has since been followed by no insertion into its bucket and no deletion of k. |
| HashTable.Hash.constructor | ifc/lib/hash/hash.c:30-49 | An empty table. |
| HashTable.Hash.Put | ifc/lib/hash/hash.c:96-121 | The slot, whatever was in it, holds the new entry, which is a ring of its own. |
| HashTable.Hash.Find | ifc/lib/hash/hash.c:171-202 | The search finds what the bucket map says; the walk along the ring is not a loop here but the proof that the ring has one node, so that it is over at once. |
| HashTable.Hash.Del | ifc/lib/hash/hash.c:130-169 | Deletion clears the bucket exactly when it holds the key, and returns the value. |
| DList.Node.constructor | ifc/include/dlist.h:36-39 | A node by itself is a ring of one. |
| DList.Link | ifc/include/dlist.h:41-47 | The four pointer writes in this order, for all coincidences of the three nodes. |
| DList.Add | ifc/include/dlist.h:49-51 | The ring with the node right after the head, well-formed forwards and backwards. |
| DList.AddTail | ifc/include/dlist.h:53-55 | The ring with the node at the end; a head added to its own ring of one leaves it a ring. |
| DList.Del | ifc/include/dlist.h:57-67 | The ring without the node, the others in order, and the node a ring of its own. |
| DList.RemovedOrder | ifc/include/dlist.h:57-60 | Removal keeps the order, and exactly the two neighbours become neighbours. |
| DList.BypassedIsRing | ifc/include/dlist.h:57-67 | Links that skip one node form a ring of the others. |
| Group.TableLookup | ifc/src/group.c:127-179 | The first match of a walk over distinct addresses is what the address table holds. |
| Group.TableAdd | ifc/src/group.c:140-143 | Appending a member with a new address extends the table by that member and keeps addresses distinct. |
| Group.TableRemove | ifc/src/group.c:157-159 | Removing a member removes its address and no other. |
| Group.GroupEntry.AddUser | ifc/src/group.c:127-145 | -1 exactly for a present address; otherwise the member is appended to the ring and entered in the table. |
| Group.GroupEntry.DelUser | ifc/src/group.c:147-165 | 0 exactly for a present address, whose node alone is unlinked during the walk; the table loses exactly that address. |
| Group.GroupEntry.FindUser | ifc/src/group.c:167-179 | The walk agrees with the address table. |
| Registry.CountUpdate | ifc/src/handle_message.c:92-95 | Moving one user changes the two counts as the two assignments do, and no other. |
| Registry.CountAllTotal | ifc/src/handle_message.c:59-105 | Counts of distinct categories that cover all users add up to the number of users. |
| Registry.Registry.Conservation | ifc/src/handle_message.c:59-105 | In every valid registry no count is negative and the counts add up to the length of the user list. |
| Registry.Registry.CategoryFor | ifc/src/handle_message.c:59-66 | The entry the index finds, or a new one at the end of the list, also when the index has forgotten an old one. |
| Registry.Registry.InsertCategory | ifc/src/category.c:75-79 | A new entry is the one its name finds and the last of the list; the index still leads only to listed entries under their own names. |
| Registry.Registry.AddEntry | ifc/src/user.c:122-128 | The same for users. |
| Registry.Registry.NewUser | ifc/src/handle_message.c:70-82 | A new user is counted under its category, and all counts stay right. |
| Registry.Registry.MoveUser | ifc/src/handle_message.c:90-95 | Moving a user, also to the category it is in, keeps all counts right. |
| Registry.Registry.OnEntry | ifc/src/handle_message.c:45-108 | Every entry message keeps the registry valid: each category counts exactly the users whose entry it is; which user and category records are used, made or left alone. |
| Listing.ListedTwice | ifc/lib/hash/hash.c:107-112 | A list guarded by the index holds a name if and only if it came, and holds it twice if and only if another name of its bucket came in between. |
| Listing.AgreesInserted | ifc/lib/hash/hash.c:96-121 | After an insertion the index finds exactly the names that are the latest of their bucket. |
| Registry.MoreMade | ifc/src/handle_message.c:59-82 | One entry message makes of lists and indexes what the sequence with it makes of them. |
| Registry.HandleOne | ifc/src/handle_message.c:177-191 | One turn of the loop: lists and indexes remain what the messages so far make of them. |
| Registry.HandleMessages | ifc/src/handle_message.c:177-191 | After any sequence of entry messages every category counts exactly the users whose entry it is, no count is negative, and the counts add up to the length of the user list. An address or category is listed if and only if it occurred, and more than once if and only if, between two messages with it, one came with another of the same bucket. |
| Registry.EntryOfKnownUser | ifc/src/handle_message.c:88-101 | A known user is shown under the message's category if and only if that differs from its first category, or it was shown there already. |
| Registry.BackAndStillAway | ifc/src/handle_message.c:90-101 | A user that goes to another category and back to its first is still shown under the other. |
| Emotion.EmotionsAreCodes | ifc/src/ui/emotion_box.c:33-136 | There are 96 codes; each starts with its only '/' and contains no '#'. |
| Emotion.Numbers | ifc/src/ui/emotion_box.c:33-136 | The number at which each row of codes starts. |
| Emotion.Codes0 | ifc/src/ui/emotion_box.c:33-136 | The codes of the first row by their numbers; `Codes1` to `Codes18` state those of the others. |
| Emotion.IndexOfText | ifc/src/ui/emotion_box.c:154 | The first occurrence of a code, or none. |
| Emotion.StrReplaceIsReplaced | ifc/src/ui/emotion_box.c:138-148 | Splitting at a code and joining with the tag replaces every occurrence from the left. |
| Emotion.OnePassCopies | ifc/src/ui/emotion_box.c:153-158 | A pass copies text without '/', such as the tags of earlier replacements. |
| Emotion.OnePassInvents | ifc/src/ui/emotion_box.c:153-158 | Text without '#' at the front of a pass's result was at the front before: earlier replacements create no new codes. |
| Emotion.NextCode | ifc/src/ui/emotion_box.c:153-158 | For every string and list of such codes, replacing the next code after a pass with the first n is a pass with the first n + 1. |
| Emotion.ReplaceEmotion | ifc/src/ui/emotion_box.c:150-160 | For every string the 96 successive replacements of the whole string equal one pass from the left that replaces each code by its tag; were two codes to match at one place, the earlier of the list would win. |
| Emotion.SmileReplaced | ifc/src/ui/emotion_box.c:150-160 | "hi /:)!" becomes "hi #0#!". |
| RenderScan.MarkAlone | ifc/src/ui/chatbox.c:208-217 | Whether a mark starts here, and its number, depend on the mark's own characters only. |
| RenderScan.MarkIs | ifc/src/ui/chatbox.c:208-217 | Exactly when a mark starts a string: '#', then before the next '#' one or two characters that atoi reads as 0 to 95. |
| RenderScan.Scan | ifc/src/ui/chatbox.c:206-235 | The loop terminates, the spans inserted concatenate to the scanned string and a line end, each image stands for a mark with its number below 96, and the screen shows every mark as an image and every other character as itself. |
| MessageView.TagIsMark | ifc/src/ui/chatbox.c:208-217 | The tag of code i is a mark for image i, whatever follows. |
| MessageView.StrayIsMark | ifc/src/ui/chatbox.c:204-217 | A '#' of the sender becomes the start of a mark if and only if one or two characters that read as an image number and then a '#' or a code follow it. |
| MessageView.ShownIsWanted | ifc/src/ui/chatbox.c:204-235 | The screen shows every code as its image and every other character as itself if and only if the message contains no such '#'. |
| MessageView.NoHashIsClean | ifc/src/ui/chatbox.c:204-235 | So it does for every message without '#'. |
| MessageView.TypedMark | ifc/src/ui/chatbox.c:204-235 | The message "#7#" is not shown as typed. |
| MessageView.InsertMessage | ifc/src/ui/chatbox.c:204-235 | Rewriting and scanning one after the other: what is put into the view, and the exact condition under which it is what the sender meant. |

## Left out

- GTK and Glade code, the configuration file, sockets, epoll, threads and timers: calls into libraries whose behaviour is not defined here.
- Character-set conversion (`string_validate`): texts are taken to need none.
- The look-up of the sending user and of the group in `on_buddy_sendgpmsg`: the receiver's key is a parameter, and a known group is assumed.
- GroupMessage.Send: the sender's arrays of 1024 bytes bound the text, as they do in the source; the overflow beyond them is not modelled.
- Feiq.BuildPacket: the address must have four numbers, since `str2ip` otherwise uses uninitialised values.
- Feiq.ParsePacket: a packet of the right version with missing separators makes the source follow a null pointer, and one with a text that reaches past the whole of `msg_t` makes it write there, so separators and room are required.
- Feiq.BuildThenParse: for MAC addresses shorter than their member of 32 characters; the sender's own has 20 (ifc/include/ifreechat.h:55). The same holds of the entry broadcast.
- FeiqEntry.OnEntry: a user name of 64 characters or more copied over the nickname overlaps its target from behind, which makes `strcpy` run on without end, so it is excluded.
- Blowfish.CBlowFish.Encrypt: buffers that overlap without being the same are not modelled; nor are sizes for which the output length wraps around.
- Blowfish.CBlowFish.Decrypt: with PKCS#5 an empty input is not modelled, for which the source reads in front of the buffer.
- Memory order weaker than sequential consistency, and the second producer that `destroy_msg_queue` adds at shutdown.
- Liveness of `msg_queue_get`: its retry loop may wait for ever if nothing is pushed.
- PoolAllocator.MemPool.Alloc: a request that wraps around and whose header would be written past the end of the chunk is excluded; the pool's mutex, failures of `malloc`, and the branch for a second chunk, which no run reaches, are not modelled.
- PoolAllocator.MemPool.Free: the word at the payload must lie inside the chunk; for a payload shorter than a word at the chunk's end the source reads past it.
- HashTable.Hash.Put: keys are values, so the copy of the key and the release of memory are not modelled, nor are rings of more than one entry, which no run produces.
- Registry.Registry.OnEntry: its user and category lists are sequences; the ring lists they are made of are those of `DList`, shown in full for groups. Calls into the user interface are not modelled.
- The storage of strings inside user and group entries, which are objects here.
- RenderScan.Scan: the names of image files, and the widgets, are not modelled.
- `murmurhash`, `src/hash.c`, `ifc/lib/hash.c` and `ifc/lib/blowfish/blowfish.c`: unused or copies.
- The strength of the cipher, and any claim that damaged ciphertext is refused.
